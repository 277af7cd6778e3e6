/** The functions of Go's `strings` package that the translator uses, over
    `seq<char>`. */
module GoStrings {
  import opened Seqs

  /** `sub` occurs in `s` starting at position `i`. */
  predicate OccursAt(s: string, sub: string, i: nat)
  {
    i + |sub| <= |s| && s[i..i + |sub|] == sub
  }

  /** The first position at or after `i` where `sub` occurs in `s`. */
  function IndexFrom(s: string, sub: string, i: nat): (r: Option<nat>)
    requires i <= |s|
    ensures r.Some? ==> i <= r.value && OccursAt(s, sub, r.value)
    ensures forall j: nat :: i <= j && (r.None? || j < r.value) ==> !OccursAt(s, sub, j)
    decreases |s| - i
  {
    if OccursAt(s, sub, i) then Some(i)
    else if i == |s| then None
    else IndexFrom(s, sub, i + 1)
  }

  /** strings.Index: the first position where `sub` occurs in `s`. */
  function Index(s: string, sub: string): Option<nat>
  {
    IndexFrom(s, sub, 0)
  }

  /** strings.Contains */
  predicate Contains(s: string, sub: string)
  {
    Index(s, sub).Some?
  }

  /** `s` contains `sub` exactly when `sub` occurs somewhere in `s`. */
  lemma ContainsIff(s: string, sub: string)
    ensures Contains(s, sub) <==> exists j: nat :: OccursAt(s, sub, j)
  {
    if Contains(s, sub) {
      assert OccursAt(s, sub, Index(s, sub).value);
    }
  }

  /** strings.HasPrefix */
  predicate HasPrefix(s: string, prefix: string)
  {
    |prefix| <= |s| && s[..|prefix|] == prefix
  }

  /** strings.HasSuffix */
  predicate HasSuffix(s: string, suffix: string)
  {
    |suffix| <= |s| && s[|s| - |suffix|..] == suffix
  }

  /** strings.Split for a non-empty separator: the pieces of `s` around every
      non-overlapping occurrence of `sep`, found left to right. */
  function Split(s: string, sep: string): (parts: seq<string>)
    requires sep != []
    ensures |parts| > 0
    ensures |parts| > 1 <==> Contains(s, sep)
    decreases |s|
  {
    match Index(s, sep)
    case None => [s]
    case Some(i) => [s[..i]] + Split(s[i + |sep|..], sep)
  }

  /** strings.Join: the inverse of Split. */
  function Join(parts: seq<string>, sep: string): string
    requires |parts| > 0
  {
    if |parts| == 1 then parts[0] else parts[0] + sep + Join(parts[1..], sep)
  }

  /** Joining the pieces of a split with the separator gives back the text. */
  lemma {:induction false} SplitJoin(s: string, sep: string)
    requires sep != []
    ensures Join(Split(s, sep), sep) == s
    decreases |s|
  {
    match Index(s, sep)
    case None =>
    case Some(i) =>
      var tail := s[i + |sep|..];
      SplitJoin(tail, sep);
      assert s[i..i + |sep|] == sep;
      assert s == s[..i] + s[i..i + |sep|] + tail;
  }

  /** An occurrence inside a prefix of `s` is an occurrence in `s`. */
  lemma OccursInPrefix(s: string, sub: string, n: nat, m: nat)
    requires n <= |s| && OccursAt(s[..n], sub, m)
    ensures OccursAt(s, sub, m) && m + |sub| <= n
  {
    assert s[..n][m..m + |sub|] == s[m..m + |sub|];
  }

  /** No piece of a split contains the separator. */
  lemma {:induction false} SplitPartsFree(s: string, sep: string)
    requires sep != []
    ensures forall k :: 0 <= k < |Split(s, sep)| ==> !Contains(Split(s, sep)[k], sep)
    decreases |s|
  {
    match Index(s, sep)
    case None =>
    case Some(i) =>
      var tail := s[i + |sep|..];
      SplitPartsFree(tail, sep);
      ContainsIff(s[..i], sep);
      if Contains(s[..i], sep) {
        var m: nat :| OccursAt(s[..i], sep, m);
        OccursInPrefix(s, sep, i, m);
        assert false;
      }
      assert Split(s, sep) == [s[..i]] + Split(tail, sep);
  }

  /** An occurrence inside a suffix of `s` is an occurrence in `s`, shifted. */
  lemma OccursInSuffix(s: string, sub: string, a: nat, m: nat)
    requires a <= |s|
    ensures OccursAt(s[a..], sub, m) <==> OccursAt(s, sub, a + m)
  {
    if a + m + |sub| <= |s| {
      assert s[a..][m..m + |sub|] == s[a + m..a + m + |sub|];
    }
  }

  /** A one-character needle occurs exactly where that character stands. */
  lemma OccursChar(s: string, c: char, j: nat)
    ensures OccursAt(s, [c], j) <==> j < |s| && s[j] == c
  {
    if j < |s| {
      assert s[j..j + 1] == [s[j]];
    }
  }
}
