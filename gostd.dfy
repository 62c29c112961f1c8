/**
 * The pieces of Go's standard library that the rules aggregator relies on:
 * `strings.HasSuffix`, `bytes.Index` and `bytes.Replace` with a count of one,
 * including the `nil` slice that `bytes.Replace` hands back for an empty input.
 */
module GoStd {
  import opened Wrappers

  newtype byte = b: int | 0 <= b < 256

  /** The bytes of an ASCII string, as Go's `[]byte("...")` conversion gives them. */
  function AsciiBytes(s: string): (b: seq<byte>)
    requires forall i :: 0 <= i < |s| ==> s[i] as int < 128
    ensures |b| == |s|
    ensures forall i :: 0 <= i < |s| ==> b[i] as int == s[i] as int
  {
    seq(|s|, i requires 0 <= i < |s| => s[i] as int as byte)
  }

  /** The elements of a Go slice; a `nil` slice has none. */
  function Elems(s: Option<seq<byte>>): (b: seq<byte>)
  {
    if s.Some? then s.value else []
  }

  /** `strings.HasSuffix`: `s` ends with `suffix`. */
  predicate HasSuffix(s: string, suffix: string) {
    |suffix| <= |s| && s[|s| - |suffix|..] == suffix
  }

  lemma HasSuffixIffConcat(s: string, suffix: string)
    ensures HasSuffix(s, suffix) ==> s == s[..|s| - |suffix|] + suffix
    ensures forall p :: p + suffix == s ==> HasSuffix(s, suffix)
  {
    forall p | p + suffix == s ensures HasSuffix(s, suffix) {
      assert s[|s| - |suffix|..] == suffix;
    }
  }

  /** `pat` occurs in `s` starting at index `k`. */
  ghost predicate OccursAt<T>(s: seq<T>, pat: seq<T>, k: int) {
    0 <= k && k + |pat| <= |s| && s[k..k + |pat|] == pat
  }

  /** `pat` does not occur anywhere in `s`. */
  ghost predicate NoOccurrence<T>(s: seq<T>, pat: seq<T>) {
    forall k :: !OccursAt(s, pat, k)
  }

  /** `k` is the leftmost index at which `pat` occurs in `s`. */
  ghost predicate FirstOccurrence<T>(s: seq<T>, pat: seq<T>, k: int) {
    OccursAt(s, pat, k) && forall m :: 0 <= m < k ==> !OccursAt(s, pat, m)
  }

  /** The search behind `bytes.Index`, scanning from index `from`. */
  function IndexFrom<T(==)>(s: seq<T>, pat: seq<T>, from: nat): (r: int)
    requires from <= |s|
    ensures r == -1 || (from <= r && OccursAt(s, pat, r))
    ensures r != -1 ==> forall m :: from <= m < r ==> !OccursAt(s, pat, m)
    ensures r == -1 ==> forall m :: from <= m ==> !OccursAt(s, pat, m)
    decreases |s| - from
  {
    if from + |pat| > |s| then -1
    else if s[from..from + |pat|] == pat then from
    else IndexFrom(s, pat, from + 1)
  }

  /** `bytes.Index`: the first index of `pat` in `s`, or -1 when there is none. */
  function Index<T(==)>(s: seq<T>, pat: seq<T>): (r: int)
    ensures r == -1 <==> NoOccurrence(s, pat)
    ensures r != -1 ==> FirstOccurrence(s, pat, r)
  {
    IndexFrom(s, pat, 0)
  }

  /**
   * `bytes.Replace(s, pat, repl, 1)`. With no occurrence of `pat` it returns a
   * copy of `s`, which Go builds as `append([]byte(nil), s...)` and which is
   * therefore `nil` when `s` is empty; otherwise it returns a fresh slice in
   * which the leftmost occurrence of `pat` is replaced by `repl`.
   */
  function ReplaceFirst(s: seq<byte>, pat: seq<byte>, repl: seq<byte>): (r: Option<seq<byte>>)
    ensures NoOccurrence(s, pat) ==> Elems(r) == s && (r.None? <==> |s| == 0)
    ensures forall j :: FirstOccurrence(s, pat, j) ==>
              r == Some(s[..j] + repl + s[j + |pat|..])
  {
    var j := Index(s, pat);
    if j == -1 then
      if |s| == 0 then None else Some(s)
    else
      Some(s[..j] + repl + s[j + |pat|..])
  }

  /**
   * Replacing the leftmost occurrence by nothing removes exactly that
   * occurrence: the result is `|pat|` shorter, and putting `pat` back at `j`
   * restores the input byte for byte.
   */
  lemma {:induction false} ReplaceFirstRemovesOne(s: seq<byte>, pat: seq<byte>, j: int)
    requires FirstOccurrence(s, pat, j)
    ensures ReplaceFirst(s, pat, []).Some?
    ensures |ReplaceFirst(s, pat, []).value| == |s| - |pat|
    ensures var r := ReplaceFirst(s, pat, []).value;
            j <= |r| && s == r[..j] + pat + r[j..]
  {
    assert ReplaceFirst(s, pat, []) == Some(s[..j] + [] + s[j + |pat|..]);
    SpliceBack(s, pat, j);
  }

  /** Cutting an occurrence out and gluing it back in gives the sequence back. */
  lemma SpliceBack<T>(s: seq<T>, pat: seq<T>, j: int)
    requires OccursAt(s, pat, j)
    ensures var r := s[..j] + [] + s[j + |pat|..];
            |r| == |s| - |pat| && j <= |r| && s == r[..j] + pat + r[j..]
  {
    var r := s[..j] + [] + s[j + |pat|..];
    assert r[..j] == s[..j];
    assert r[j..] == s[j + |pat|..];
    assert s == s[..j] + s[j..j + |pat|] + s[j + |pat|..];
  }
}
