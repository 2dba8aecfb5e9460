/** The .NET string operations the program relies on: `String.Split(char)`,
    `String.Join(string, ...)`, LINQ `Take` and `String.Trim()`. */
module Text {
  import opened Base

  /** String.Split(d): the pieces between occurrences of `d`, empty pieces kept. */
  function Split(s: string, d: char): (r: seq<string>)
    ensures |r| >= 1
    ensures forall k :: 0 <= k < |r| ==> d !in r[k]
    decreases |s|
  {
    var i := IndexOf(s, d);
    if i < 0 then [s] else [s[..i]] + Split(s[i+1..], d)
  }

  /** String.Join(sep, parts). */
  function Join(parts: seq<string>, sep: string): string
  {
    if |parts| == 0 then ""
    else if |parts| == 1 then parts[0]
    else parts[0] + sep + Join(parts[1..], sep)
  }

  /** LINQ Take(n): at most the first `n` items. */
  function Take<T>(s: seq<T>, n: nat): (r: seq<T>)
    ensures |r| == if |s| < n then |s| else n
    ensures r == s[..|r|]
  {
    if |s| < n then s else s[..n]
  }

  /** The first piece of a split is everything before the first separator. */
  lemma SplitHead(s: string, d: char)
    ensures var i := IndexOf(s, d);
            Split(s, d)[0] == if i < 0 then s else s[..i]
  {
  }

  /** Joining the pieces of a split with the separator rebuilds the string. */
  lemma {:induction false} JoinSplit(s: string, d: char)
    ensures Join(Split(s, d), [d]) == s
    decreases |s|
  {
    var i := IndexOf(s, d);
    if 0 <= i {
      var rest := Split(s[i+1..], d);
      JoinSplit(s[i+1..], d);
      SplitAt(s, d);
      JoinCons(s[..i], rest, [d]);
      assert s == s[..i] + [d] + s[i+1..];
    }
  }

  /** Unfolding a split at its first separator. */
  lemma {:induction false} SplitAt(s: string, d: char)
    ensures var i := IndexOf(s, d);
            0 <= i ==> Split(s, d) == [s[..i]] + Split(s[i+1..], d)
  {
  }

  /** Joining a piece in front of at least one other adds the separator. */
  lemma JoinCons(a: string, rest: seq<string>, sep: string)
    requires |rest| >= 1
    ensures Join([a] + rest, sep) == a + sep + Join(rest, sep)
  {
    assert ([a] + rest)[1..] == rest;
  }

  /** Joining one more piece adds the separator and the piece at the end. */
  lemma {:induction false} JoinSnoc(parts: seq<string>, p: string, sep: string)
    requires |parts| >= 1
    ensures Join(parts + [p], sep) == Join(parts, sep) + sep + p
    decreases |parts|
  {
    if |parts| == 1 {
      assert (parts + [p])[1..] == [p];
    } else {
      assert (parts + [p])[1..] == parts[1..] + [p];
      JoinSnoc(parts[1..], p, sep);
    }
  }

  /** Splitting a join of separator-free pieces gives the pieces back. */
  lemma {:induction false} SplitJoin(parts: seq<string>, d: char)
    requires |parts| >= 1
    requires forall k :: 0 <= k < |parts| ==> d !in parts[k]
    ensures Split(Join(parts, [d]), d) == parts
  {
    if |parts| > 1 {
      var s := Join(parts, [d]);
      var tail := Join(parts[1..], [d]);
      assert s == parts[0] + [d] + tail;
      assert s[..|parts[0]|] == parts[0];
      assert s[|parts[0]|] == d;
      assert d !in s[..|parts[0]|];
      assert IndexOf(s, d) == |parts[0]|;
      assert s[|parts[0]| + 1..] == tail;
      assert Split(s, d) == [parts[0]] + Split(tail, d);
      SplitJoin(parts[1..], d);
      assert parts == [parts[0]] + parts[1..];
    }
  }

  /** char.IsWhiteSpace, as String.Trim() uses it (the Unicode space
      separators, line and paragraph separators, and U+0009-U+000D, U+0085). */
  predicate IsWhiteSpace(c: char)
  {
    || c == ' ' || ('\t' <= c <= '\r') || c == '\U{85}' || c == '\U{A0}' || c == '\U{1680}'
    || ('\U{2000}' <= c <= '\U{200A}') || c == '\U{2028}' || c == '\U{2029}'
    || c == '\U{202F}' || c == '\U{205F}' || c == '\U{3000}'
  }

  /** Drops leading white space: the result is a suffix of `s` that does not
      start with white space, and everything dropped was white space. */
  function TrimStart(s: string): (r: string)
    ensures |r| <= |s| && r == s[|s| - |r|..]
    ensures forall i :: 0 <= i < |s| - |r| ==> IsWhiteSpace(s[i])
    ensures r == [] || !IsWhiteSpace(r[0])
  {
    if |s| > 0 && IsWhiteSpace(s[0]) then TrimStart(s[1..]) else s
  }

  /** Drops trailing white space: the result is a prefix of `s` that does not
      end with white space, and everything dropped was white space. */
  function TrimEnd(s: string): (r: string)
    ensures |r| <= |s| && r == s[..|r|]
    ensures forall i :: |r| <= i < |s| ==> IsWhiteSpace(s[i])
    ensures r == [] || !IsWhiteSpace(r[|r| - 1])
  {
    if |s| > 0 && IsWhiteSpace(s[|s| - 1]) then TrimEnd(s[..|s| - 1]) else s
  }

  /** `r` is the slice of `s` starting at `k` with only white space around
      it. */
  predicate TrimmedAt(s: string, k: int, r: string)
  {
    && 0 <= k && k + |r| <= |s| && r == s[k..k + |r|]
    && (forall i :: 0 <= i < k ==> IsWhiteSpace(s[i]))
    && (forall i :: k + |r| <= i < |s| ==> IsWhiteSpace(s[i]))
  }

  /** String.Trim(): the middle slice of `s` that neither starts nor ends with
      white space, with only white space removed around it. */
  function Trim(s: string): (r: string)
    ensures TrimmedAt(s, |s| - |TrimStart(s)|, r)
    ensures r == [] || (!IsWhiteSpace(r[0]) && !IsWhiteSpace(r[|r| - 1]))
  {
    var t := TrimStart(s);
    var r := TrimEnd(t);
    TrimSlice(s, t, r);
    r
  }

  /** Trimming the end of a suffix that starts with no white space leaves a
      slice of the original that starts and ends with no white space, and
      only white space is around it. */
  lemma TrimSlice(s: string, t: string, r: string)
    requires |t| <= |s| && t == s[|s| - |t|..]
    requires forall i :: 0 <= i < |s| - |t| ==> IsWhiteSpace(s[i])
    requires |r| <= |t| && r == t[..|r|]
    requires forall i :: |r| <= i < |t| ==> IsWhiteSpace(t[i])
    requires t == [] || !IsWhiteSpace(t[0])
    requires r == [] || !IsWhiteSpace(r[|r| - 1])
    ensures TrimmedAt(s, |s| - |t|, r)
    ensures r == [] || (!IsWhiteSpace(r[0]) && !IsWhiteSpace(r[|r| - 1]))
  {
    var k := |s| - |t|;
    forall i | k + |r| <= i < |s|
      ensures IsWhiteSpace(s[i])
    {
      assert s[i] == t[i - k];
    }
    if r != [] {
      assert r[0] == t[0];
    }
  }
}
