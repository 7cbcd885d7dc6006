/** The resume planner: `last_archive` (twarc.py:211-221) finds the newest
    non-empty archive of a query in the working directory, and
    `most_recent_id` (twarc.py:198-208) reads the id of its first tweet so
    that the next search starts after it. The directory is an input: one
    `Entry` per name `os.listdir` returns, with the file's content. */
module Resume {
  import opened Wrappers
  import Quoting

  datatype Entry = Entry(name: string, content: string)

  /** `os.path.getsize` of an entry. */
  function Size(e: Entry): nat
  {
    |e.content|
  }

  /** A directory listing never repeats a name. */
  predicate NamesDistinct(dir: seq<Entry>)
  {
    forall i, j | 0 <= i < j < |dir| :: dir[i].name != dir[j].name
  }

  // ---------------------------------------------------------------------
  // The order Python sorts strings in: code point by code point, a proper
  // prefix first.

  predicate Below(a: string, b: string)
  {
    if a == [] then b != []
    else b != [] && (a[0] < b[0] || (a[0] == b[0] && Below(a[1..], b[1..])))
  }

  predicate NotAbove(a: string, b: string)
  {
    a == b || Below(a, b)
  }

  lemma BelowTransitive(a: string, b: string, c: string)
    requires Below(a, b) && Below(b, c)
    ensures Below(a, c)
  {
    if a != [] && b != [] && c != [] && a[0] == b[0] == c[0] {
      BelowTransitive(a[1..], b[1..], c[1..]);
    }
  }

  lemma BelowTotal(a: string, b: string)
    ensures a == b || Below(a, b) || Below(b, a)
  {
    if a != [] && b != [] && a[0] == b[0] {
      BelowTotal(a[1..], b[1..]);
      if a[1..] == b[1..] {
        assert a == [a[0]] + a[1..] && b == [b[0]] + b[1..];
      }
    }
  }

  lemma BelowAsymmetric(a: string, b: string)
    requires Below(a, b)
    ensures !Below(b, a)
  {
    if a != [] && b != [] && a[0] == b[0] {
      BelowAsymmetric(a[1..], b[1..]);
    }
  }

  lemma NotAboveTransitive(a: string, b: string, c: string)
    requires NotAbove(a, b) && NotAbove(b, c)
    ensures NotAbove(a, c)
  {
    if a != b && b != c {
      BelowTransitive(a, b, c);
    }
  }

  // ---------------------------------------------------------------------
  // `list.sort()` on the matching names.

  predicate SortedByName(s: seq<Entry>)
  {
    forall i, j | 0 <= i < j < |s| :: NotAbove(s[i].name, s[j].name)
  }

  function Insert(e: Entry, s: seq<Entry>): seq<Entry>
  {
    if s == [] then [e]
    else if NotAbove(e.name, s[0].name) then [e] + s
    else [s[0]] + Insert(e, s[1..])
  }

  function SortByName(s: seq<Entry>): seq<Entry>
  {
    if s == [] then [] else Insert(s[0], SortByName(s[1..]))
  }

  lemma {:induction false} InsertKeeps(e: Entry, s: seq<Entry>)
    ensures multiset(Insert(e, s)) == multiset(s) + multiset{e}
    decreases |s|
  {
    if s != [] && !NotAbove(e.name, s[0].name) {
      InsertKeeps(e, s[1..]);
      assert s == [s[0]] + s[1..];
    }
  }

  lemma {:induction false} InsertSorted(e: Entry, s: seq<Entry>)
    requires SortedByName(s)
    ensures SortedByName(Insert(e, s))
    decreases |s|
  {
    if s != [] && !NotAbove(e.name, s[0].name) {
      BelowTotal(e.name, s[0].name);
      InsertSorted(e, s[1..]);
      InsertKeeps(e, s[1..]);
      var t := Insert(e, s[1..]);
      forall k | 0 <= k < |t|
        ensures NotAbove(s[0].name, t[k].name)
      {
        assert t[k] in multiset(t);
        if t[k] != e {
          assert t[k] in s[1..];
        }
      }
    } else if s != [] {
      forall j | 0 <= j < |s|
        ensures NotAbove(e.name, s[j].name)
      {
        NotAboveTransitive(e.name, s[0].name, s[j].name);
      }
    }
  }

  /** Sorting keeps the entries and orders them by name. */
  lemma {:induction false} SortByNameSpec(s: seq<Entry>)
    ensures SortedByName(SortByName(s))
    ensures multiset(SortByName(s)) == multiset(s)
    decreases |s|
  {
    if s != [] {
      SortByNameSpec(s[1..]);
      InsertSorted(s[0], SortByName(s[1..]));
      InsertKeeps(s[0], SortByName(s[1..]));
      assert s == [s[0]] + s[1..];
    }
  }

  // ---------------------------------------------------------------------
  // The pattern `^<q>-\d+\.json$` (twarc.py:214).

  predicate IsDigit(c: char)
  {
    '0' <= c <= '9'
  }

  predicate AllDigits(d: string)
  {
    forall i | 0 <= i < |d| :: IsDigit(d[i])
  }

  /** `re.match("^%s-\d+\.json$" % stem, name)`: the stem taken as it is,
      a dash, one digit or more, `.json`, and the end of the name, where
      `$` also matches just before a final newline. */
  predicate IsArchiveName(stem: string, name: string)
  {
    var core := if name != [] && name[|name| - 1] == '\n' then name[..|name| - 1] else name;
    && |core| >= |stem| + 7
    && core[..|stem|] == stem
    && core[|stem|] == '-'
    && AllDigits(core[|stem| + 1..|core| - 5])
    && core[|core| - 5..] == ".json"
  }

  /** A name built as `<stem>-<digits>.json` is an archive name of that stem. */
  lemma ArchiveNameMatches(stem: string, digits: string)
    requires digits != [] && AllDigits(digits)
    ensures IsArchiveName(stem, stem + "-" + digits + ".json")
  {
    var name := stem + "-" + digits + ".json";
    assert name[|name| - 1] == 'n';
    assert name[..|stem|] == stem;
    assert name[|stem| + 1..|name| - 5] == digits;
    assert name[|name| - 5..] == ".json";
  }

  /** An entry `last_archive` may return: a matching name, a non-empty file. */
  predicate Live(stem: string, e: Entry)
  {
    IsArchiveName(stem, e.name) && Size(e) > 0
  }

  /** The newest live archive of `stem` in `dir`: the live entry with the
      greatest name. */
  function Newest(stem: string, dir: seq<Entry>): Option<Entry>
  {
    if dir == [] then None
    else
      var rest := Newest(stem, dir[..|dir| - 1]);
      var e := dir[|dir| - 1];
      if Live(stem, e) && (rest.None? || Below(rest.value.name, e.name)) then Some(e) else rest
  }

  /** `last_archive` answers None exactly when no entry is live, and
      otherwise a live entry whose name is not below any live entry's. */
  lemma {:induction false} NewestSpec(stem: string, dir: seq<Entry>)
    ensures var r := Newest(stem, dir);
      && (r.None? <==> forall e | e in dir :: !Live(stem, e))
      && (r.Some? ==> r.value in dir && Live(stem, r.value))
      && (r.Some? ==> forall e | e in dir && Live(stem, e) :: NotAbove(e.name, r.value.name))
    decreases |dir|
  {
    if dir != [] {
      var front := dir[..|dir| - 1];
      var e := dir[|dir| - 1];
      NewestSpec(stem, front);
      assert dir == front + [e];
      var rest := Newest(stem, front);
      if rest.Some? {
        BelowTotal(rest.value.name, e.name);
        forall x | x in dir && Live(stem, x)
          ensures NotAbove(x.name, Newest(stem, dir).value.name)
        {
          if x in front && Newest(stem, dir) == Some(e) {
            NotAboveTransitive(x.name, rest.value.name, e.name);
          }
        }
      }
    }
  }

  /** Among distinct names, at most one live entry is not below every
      other live entry. */
  lemma NewestUnique(stem: string, dir: seq<Entry>, x: Entry)
    requires NamesDistinct(dir)
    requires x in dir && Live(stem, x)
    requires forall e | e in dir && Live(stem, e) :: NotAbove(e.name, x.name)
    ensures Newest(stem, dir) == Some(x)
  {
    NewestSpec(stem, dir);
    var y := Newest(stem, dir).value;
    if Below(x.name, y.name) {
      BelowAsymmetric(x.name, y.name);
    }
    var i :| 0 <= i < |dir| && dir[i] == x;
    var j :| 0 <= j < |dir| && dir[j] == y;
    assert i == j;
  }

  // ---------------------------------------------------------------------
  // `last_archive`

  /** The matching entries of `dir`, in listing order. */
  function Matching(stem: string, dir: seq<Entry>): seq<Entry>
  {
    if dir == [] then []
    else
      var front := Matching(stem, dir[..|dir| - 1]);
      if IsArchiveName(stem, dir[|dir| - 1].name) then front + [dir[|dir| - 1]] else front
  }

  /** The matching entries are exactly the entries with an archive name. */
  lemma {:induction false} MatchingSpec(stem: string, dir: seq<Entry>)
    ensures multiset(Matching(stem, dir)) <= multiset(dir)
    ensures forall e | e in dir && IsArchiveName(stem, e.name) :: e in Matching(stem, dir)
    ensures forall e | e in Matching(stem, dir) :: IsArchiveName(stem, e.name)
    decreases |dir|
  {
    if dir != [] {
      MatchingSpec(stem, dir[..|dir| - 1]);
      assert dir == dir[..|dir| - 1] + [dir[|dir| - 1]];
    }
  }

  /** The loop of `last_archive` that collects the matching names
      (twarc.py:213-215). */
  method CollectMatching(stem: string, dir: seq<Entry>) returns (others: seq<Entry>)
    ensures others == Matching(stem, dir)
  {
    others := [];
    for i := 0 to |dir|
      invariant others == Matching(stem, dir[..i])
    {
      assert dir[..i + 1][..i] == dir[..i];
      if IsArchiveName(stem, dir[i].name) {
        others := others + [dir[i]];
      }
    }
    assert dir[..|dir|] == dir;
  }

  /** Popping from the end of the sorted candidates and returning the
      first non-empty one returns the newest live archive. */
  lemma PopFindsNewest(stem: string, dir: seq<Entry>, n: nat)
    requires NamesDistinct(dir)
    requires 0 < n <= |SortByName(Matching(stem, dir))|
    requires var sorted := SortByName(Matching(stem, dir));
      Size(sorted[n - 1]) > 0 && forall j | n <= j < |sorted| :: Size(sorted[j]) == 0
    ensures Newest(stem, dir) == Some(SortByName(Matching(stem, dir))[n - 1])
  {
    var sorted := SortByName(Matching(stem, dir));
    SortByNameSpec(Matching(stem, dir));
    MatchingSpec(stem, dir);
    var f := sorted[n - 1];
    assert f in multiset(sorted);
    forall e | e in dir && Live(stem, e)
      ensures NotAbove(e.name, f.name)
    {
      assert e in multiset(sorted);
      var j :| 0 <= j < |sorted| && sorted[j] == e;
      assert j < n;
    }
    NewestUnique(stem, dir, f);
  }

  /** When every candidate is empty there is no live archive. */
  lemma PopFindsNone(stem: string, dir: seq<Entry>)
    requires var sorted := SortByName(Matching(stem, dir));
      forall j | 0 <= j < |sorted| :: Size(sorted[j]) == 0
    ensures Newest(stem, dir) == None
  {
    var sorted := SortByName(Matching(stem, dir));
    SortByNameSpec(Matching(stem, dir));
    MatchingSpec(stem, dir);
    forall e | e in dir
      ensures !Live(stem, e)
    {
      if IsArchiveName(stem, e.name) {
        assert e in multiset(sorted);
        var j :| 0 <= j < |sorted| && sorted[j] == e;
      }
    }
    NewestSpec(stem, dir);
  }

  /** `last_archive` (twarc.py:211-221), looking for archives of `stem`:
      collect the matching names, sort them, pop from the end until a
      non-empty file turns up. */
  method LastArchive(stem: string, dir: seq<Entry>) returns (found: Option<Entry>)
    requires NamesDistinct(dir)
    ensures found == Newest(stem, dir)
  {
    var others := CollectMatching(stem, dir);
    others := SortByName(others);
    ghost var sorted := others;
    while |others| != 0
      invariant |others| <= |sorted| && others == sorted[..|others|]
      invariant forall j | |others| <= j < |sorted| :: Size(sorted[j]) == 0
    {
      var f := others[|others| - 1];
      others := others[..|others| - 1];
      if Size(f) > 0 {
        PopFindsNewest(stem, dir, |others| + 1);
        return Some(f);
      }
    }
    PopFindsNone(stem, dir);
    return None;
  }

  // ---------------------------------------------------------------------
  // `most_recent_id`

  /** `readline()`: the content up to and including the first newline, or
      all of it when it has none. */
  function FirstLine(content: string): (line: string)
    ensures line <= content
    ensures forall i | 0 <= i < |line| - 1 :: line[i] != '\n'
    ensures line == content || (line != [] && line[|line| - 1] == '\n')
  {
    if content == [] then []
    else if content[0] == '\n' then ['\n']
    else [content[0]] + FirstLine(content[1..])
  }

  /** A non-empty file has a non-empty first line, so the `if line` test
      of `most_recent_id` (twarc.py:206) never fails on a file
      `last_archive` returned. */
  lemma FirstLineOfNonEmpty(content: string)
    requires content != []
    ensures FirstLine(content) != []
    ensures FirstLine(content)[0] == content[0]
  {
  }

  /** `most_recent_id` (twarc.py:198-208) with the archives looked up
      under `stem`; `idOf` is `json.loads(line)["id_str"]`. */
  method MostRecentId(stem: string, dir: seq<Entry>, idOf: string -> string) returns (sinceId: Option<string>)
    requires NamesDistinct(dir)
    ensures sinceId.None? <==> forall e | e in dir :: !Live(stem, e)
    ensures sinceId.Some? ==> Newest(stem, dir).Some? && sinceId.value == idOf(FirstLine(Newest(stem, dir).value.content))
  {
    sinceId := None;
    var last := LastArchive(stem, dir);
    NewestSpec(stem, dir);
    if last.Some? {
      var line := FirstLine(last.value.content);
      FirstLineOfNonEmpty(last.value.content);
      if line != [] {
        sinceId := Some(idOf(line));
      }
    }
  }

  lemma ExampleNameMatches()
    ensures IsArchiveName("q", "q-20191231235900.json")
  {
    var name := "q-20191231235900.json";
    assert name[|name| - 1] == 'n';
    assert name[2..16] == "20191231235900";
    assert forall i | 0 <= i < 14 :: IsDigit(name[2..16][i]);
    assert name[16..] == ".json";
  }

  /** An empty newer archive is skipped: of `q-20200101000000.json`
      (empty) and `q-20191231235900.json` (one tweet), the older one is
      chosen. */
  lemma EmptyArchiveSkipped()
    ensures var older := Entry("q-20191231235900.json", "{\"id_str\": \"42\"}\n");
      Newest("q", [Entry("q-20200101000000.json", ""), older]) == Some(older)
  {
    var older := Entry("q-20191231235900.json", "{\"id_str\": \"42\"}\n");
    var dir := [Entry("q-20200101000000.json", ""), older];
    ExampleNameMatches();
    assert Live("q", older);
    assert dir[..1] == [dir[0]] && dir[..1][..0] == [];
    assert Newest("q", dir[..1]) == None;
  }

  // ---------------------------------------------------------------------
  // Archive names and the stem they are looked up under.

  /** The name `archive` gives its output (twarc.py:225-226): the quoted
      query, a dash, the `strftime` timestamp, `.json`. */
  function ArchiveName(q: string, stamp: string): string
  {
    Quoting.Quote(q) + "-" + stamp + ".json"
  }

  /** As written, `most_recent_id(q)` looks archives up under the raw
      query (twarc.py:202, twarc.py:214), taken here as a literal pattern.
      When the query starts with a character `quote` escapes, other than
      `%` itself, the name `archive` wrote for that very query never
      matches, so no archive of it is ever found. */
  lemma RawQueryMissesArchive(q: string, stamp: string, content: string)
    requires q != [] && !Quoting.AlwaysSafe(q[0]) && q[0] != '%'
    ensures !IsArchiveName(q, ArchiveName(q, stamp))
    ensures Newest(q, [Entry(ArchiveName(q, stamp), content)]) == None
  {
    Quoting.QuoteSafe(q);
    var name := ArchiveName(q, stamp);
    assert name[0] == '%';
    assert [Entry(name, content)][..0] == [];
  }

  /** `quote("#obama", safe='')` is `%23obama`. */
  lemma QuoteHashtag()
    ensures Quoting.Quote("#obama") == "%23obama"
  {
    var hash := Quoting.Percent([35]);
    assert hash == ['%', Quoting.HexDigit(2), Quoting.HexDigit(3)] + Quoting.Percent([]);
    assert hash == "%23";
    assert Quoting.Quote("obama") == "obama" by {
      assert forall i | 0 <= i < |"obama"| :: Quoting.AlwaysSafe("obama"[i]);
      Quoting.QuoteSafe("obama");
    }
    assert "#obama"[1..] == "obama";
  }

  /** The archive `archive` writes for `#obama` is named
      `%23obama-<timestamp>.json`, and `last_archive("#obama")` does not
      find it. */
  lemma HashtagArchiveNotFound()
    ensures ArchiveName("#obama", "20140101120000") == "%23obama-20140101120000.json"
    ensures Newest("#obama", [Entry("%23obama-20140101120000.json", "{}\n")]) == None
  {
    QuoteHashtag();
    assert "%23obama" + "-" + "20140101120000" + ".json" == "%23obama-20140101120000.json";
    RawQueryMissesArchive("#obama", "20140101120000", "{}\n");
  }

  /** Looking archives up under the quoted query, as `archive` names
      them, finds the archive of any query: a non-empty archive written
      for `q` makes the lookup answer, with a name not below it. */
  lemma QuotedQueryFindsArchive(q: string, stamp: string, content: string, dir: seq<Entry>)
    requires stamp != [] && AllDigits(stamp) && content != []
    requires Entry(ArchiveName(q, stamp), content) in dir
    ensures Newest(Quoting.Quote(q), dir).Some?
    ensures NotAbove(ArchiveName(q, stamp), Newest(Quoting.Quote(q), dir).value.name)
  {
    ArchiveNameMatches(Quoting.Quote(q), stamp);
    assert Live(Quoting.Quote(q), Entry(ArchiveName(q, stamp), content));
    NewestSpec(Quoting.Quote(q), dir);
  }

  /** The resume point of a search for `q`, with archives looked up under
      the name `archive` gives them: the id of the first tweet of the
      newest non-empty archive of `q`, if there is one. */
  method ResumePoint(q: string, dir: seq<Entry>, idOf: string -> string) returns (sinceId: Option<string>)
    requires NamesDistinct(dir)
    ensures sinceId.None? <==> forall e | e in dir :: !Live(Quoting.Quote(q), e)
    ensures forall stamp, content | stamp != [] && AllDigits(stamp) && content != [] ::
      Entry(ArchiveName(q, stamp), content) in dir ==> sinceId.Some?
  {
    sinceId := MostRecentId(Quoting.Quote(q), dir, idOf);
    forall stamp, content | stamp != [] && AllDigits(stamp) && content != [] && Entry(ArchiveName(q, stamp), content) in dir
      ensures sinceId.Some?
    {
      QuotedQueryFindsArchive(q, stamp, content, dir);
    }
  }
}
