/** The string operations the hydrator applies to tweet ids: Python's
    `str.strip()` (twarc.py:298) and `','.join` (twarc.py:83), with a
    comma splitter that serves as the join's independent inverse. */
module Text {

  /** The characters Python 3's `str.isspace` accepts, which is the set
      `str.strip()` with no argument removes. */
  predicate IsSpace(c: char)
  {
    || ('\t' <= c <= '\r')
    || ('\U{1c}' <= c <= ' ')
    || c == '\U{85}' || c == '\U{a0}' || c == '\U{1680}'
    || ('\U{2000}' <= c <= '\U{200a}')
    || c == '\U{2028}' || c == '\U{2029}' || c == '\U{202f}' || c == '\U{205f}' || c == '\U{3000}'
  }

  /** Removes leading whitespace. */
  function TrimStart(s: string): string
  {
    if s != [] && IsSpace(s[0]) then TrimStart(s[1..]) else s
  }

  /** Removes trailing whitespace. */
  function TrimEnd(s: string): string
  {
    if s != [] && IsSpace(s[|s| - 1]) then TrimEnd(s[..|s| - 1]) else s
  }

  /** `TrimStart` keeps a suffix of `s`, drops only whitespace, and stops
      at the first other character. */
  lemma {:induction false} TrimStartSpec(s: string)
    ensures var r := TrimStart(s);
      && |r| <= |s| && r == s[|s| - |r|..]
      && (forall i | 0 <= i < |s| - |r| :: IsSpace(s[i]))
      && (r == [] || !IsSpace(r[0]))
  {
    if s != [] && IsSpace(s[0]) {
      var t := s[1..];
      TrimStartSpec(t);
      var r := TrimStart(t);
      assert TrimStart(s) == r;
      assert t[|t| - |r|..] == s[|s| - |r|..];
      forall i | 0 <= i < |s| - |r|
        ensures IsSpace(s[i])
      {
        if i > 0 {
          assert s[i] == t[i - 1];
        }
      }
    }
  }

  /** `TrimEnd` keeps a prefix of `s`, drops only whitespace, and stops at
      the last other character. */
  lemma {:induction false} TrimEndSpec(s: string)
    ensures var r := TrimEnd(s);
      && |r| <= |s| && r == s[..|r|]
      && (forall i | |r| <= i < |s| :: IsSpace(s[i]))
      && (r == [] || !IsSpace(r[|r| - 1]))
  {
    if s != [] && IsSpace(s[|s| - 1]) {
      var t := s[..|s| - 1];
      TrimEndSpec(t);
      var r := TrimEnd(t);
      assert TrimEnd(s) == r;
      assert t[..|r|] == s[..|r|];
      forall i | |r| <= i < |s|
        ensures IsSpace(s[i])
      {
        if i < |s| - 1 {
          assert s[i] == t[i];
        }
      }
    }
  }

  /** `s.strip()`. */
  function Strip(s: string): (r: string)
  {
    TrimEnd(TrimStart(s))
  }

  /** What `strip` keeps is one contiguous piece of the input, with nothing
      but whitespace around it and no whitespace at either end. */
  lemma StripKeepsMiddle(s: string)
    ensures var k, r := |s| - |TrimStart(s)|, Strip(s);
      && 0 <= k && k + |r| <= |s| && r == s[k..k + |r|]
      && (forall j | 0 <= j < k :: IsSpace(s[j]))
      && (forall j | k + |r| <= j < |s| :: IsSpace(s[j]))
      && (r == [] || (!IsSpace(r[0]) && !IsSpace(r[|r| - 1])))
  {
    TrimStartSpec(s);
    StripPiece(s, TrimStart(s));
    StripEnds(TrimStart(s));
  }

  /** Trimming the end of the suffix `t` of `s` leaves a piece of `s`
      followed only by whitespace. */
  lemma StripPiece(s: string, t: string)
    requires |t| <= |s| && t == s[|s| - |t|..]
    ensures var k, r := |s| - |t|, TrimEnd(t);
      && k + |r| <= |s| && r == s[k..k + |r|]
      && (forall j | k + |r| <= j < |s| :: IsSpace(s[j]))
  {
    TrimEndSpec(t);
    EndsAreSpace(s, t, TrimEnd(t), |s| - |t|);
  }

  /** Trimming the end of a string that starts with no whitespace leaves
      no whitespace at either end. */
  lemma StripEnds(t: string)
    requires t == [] || !IsSpace(t[0])
    ensures var r := TrimEnd(t); r == [] || (!IsSpace(r[0]) && !IsSpace(r[|r| - 1]))
  {
    TrimEndSpec(t);
    var r := TrimEnd(t);
    if r != [] {
      assert r[0] == t[0];
    }
  }

  lemma EndsAreSpace(s: string, t: string, r: string, k: nat)
    requires k + |t| == |s| && t == s[k..] && |r| <= |t| && r == t[..|r|]
    requires forall i | |r| <= i < |t| :: IsSpace(t[i])
    ensures r == s[k..k + |r|]
    ensures forall j | k + |r| <= j < |s| :: IsSpace(s[j])
  {
    forall j | k + |r| <= j < |s| ensures IsSpace(s[j]) {
      assert s[j] == t[j - k];
    }
  }

  /** Stripping twice is stripping once. */
  lemma StripIdempotent(s: string)
    ensures Strip(Strip(s)) == Strip(s)
  {
    var r := Strip(s);
    StripKeepsMiddle(s);
    StripClean(r);
  }

  /** A string with no whitespace at either end is its own strip. */
  lemma StripClean(s: string)
    requires s == [] || (!IsSpace(s[0]) && !IsSpace(s[|s| - 1]))
    ensures Strip(s) == s
  {
  }

  /** `','.join(ids)`: the ids separated by single commas. */
  function Join(ids: seq<string>): (r: string)
    ensures ids == [] ==> r == []
    ensures |ids| == 1 ==> r == ids[0]
  {
    if ids == [] then []
    else if |ids| == 1 then ids[0]
    else ids[0] + [','] + Join(ids[1..])
  }

  /** `s.split(',')`: the maximal comma-free pieces of `s`, always at least one. */
  function Split(s: string): (r: seq<string>)
    ensures |r| >= 1
  {
    if s == [] then [[]]
    else if s[0] == ',' then [[]] + Split(s[1..])
    else var rest := Split(s[1..]); [[s[0]] + rest[0]] + rest[1..]
  }

  predicate CommaFree(id: string)
  {
    forall i | 0 <= i < |id| :: id[i] != ','
  }

  /** Splitting a comma-free id followed by the text after its comma. */
  lemma {:induction false} SplitAfter(a: string, tail: string, more: bool)
    requires CommaFree(a)
    ensures Split(a + (if more then [','] + tail else [])) ==
            [a] + (if more then Split(tail) else [])
    decreases |a|
  {
    var after := if more then [','] + tail else [];
    if a == [] {
      assert a + after == after;
    } else {
      assert (a + after)[1..] == a[1..] + after;
      assert (a + after)[0] == a[0];
      SplitAfter(a[1..], tail, more);
      assert [a[0]] + a[1..] == a;
    }
  }

  /** The request body of one lookup names exactly the batch it was built
      from, in order, whenever no id holds a comma. */
  lemma {:induction false} SplitJoin(ids: seq<string>)
    requires ids != []
    requires forall i | 0 <= i < |ids| :: CommaFree(ids[i])
    ensures Split(Join(ids)) == ids
    decreases |ids|
  {
    if |ids| == 1 {
      SplitAfter(ids[0], [], false);
      assert ids[0] + [] == ids[0];
    } else {
      SplitJoin(ids[1..]);
      SplitAfter(ids[0], Join(ids[1..]), true);
      assert Join(ids) == ids[0] + ([','] + Join(ids[1..]));
      assert [ids[0]] + ids[1..] == ids;
    }
  }
}
