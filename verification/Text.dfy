/** Strings as the mail server handles them: trimming, lower-casing and searching. */
module Text {
  datatype Option<+T> = None | Some(value: T)

  datatype Result<+T, +E> = Ok(value: T) | Err(error: E)

  /** White space in the sense of Go's unicode.IsSpace. */
  predicate IsSpace(c: char) {
    || '\t' <= c <= '\r' || c == ' ' || c == '\U{85}' || c == '\U{A0}' || c == '\U{1680}'
    || '\U{2000}' <= c <= '\U{200A}' || c == '\U{2028}' || c == '\U{2029}' || c == '\U{202F}'
    || c == '\U{205F}' || c == '\U{3000}'
  }

  function LowerChar(c: char): char {
    if 'A' <= c <= 'Z' then c + 'a' - 'A' else c
  }

  /** ASCII lower-casing, character by character. */
  function Lower(s: string): (r: string)
    ensures |r| == |s|
    ensures forall i {:trigger r[i]} :: 0 <= i < |s| ==> r[i] == LowerChar(s[i])
  {
    seq(|s|, i requires 0 <= i < |s| => LowerChar(s[i]))
  }

  /** The start of `s[lo..hi]` without its leading white space. */
  function SkipSpace(s: string, lo: nat, hi: nat): (r: nat)
    requires lo <= hi <= |s|
    ensures lo <= r <= hi
    ensures forall k :: lo <= k < r ==> IsSpace(s[k])
    ensures r < hi ==> !IsSpace(s[r])
    decreases hi - lo
  {
    if lo < hi && IsSpace(s[lo]) then SkipSpace(s, lo + 1, hi) else lo
  }

  /** The end of `s[lo..hi]` without its trailing white space. */
  function DropSpace(s: string, lo: nat, hi: nat): (r: nat)
    requires lo <= hi <= |s|
    ensures lo <= r <= hi
    ensures forall k :: r <= k < hi ==> IsSpace(s[k])
    ensures lo < r ==> !IsSpace(s[r - 1])
    decreases hi
  {
    if lo < hi && IsSpace(s[hi - 1]) then DropSpace(s, lo, hi - 1) else hi
  }

  /** Trimming of the window `s[lo..hi]`, as the positions it keeps. */
  function TrimWindow(s: string, lo: nat, hi: nat): (r: (nat, nat))
    requires lo <= hi <= |s|
    ensures lo <= r.0 <= r.1 <= hi
    ensures forall k :: lo <= k < r.0 || r.1 <= k < hi ==> IsSpace(s[k])
    ensures r.0 < r.1 ==> !IsSpace(s[r.0]) && !IsSpace(s[r.1 - 1])
  {
    var from := SkipSpace(s, lo, hi);
    (from, DropSpace(s, from, hi))
  }

  function Trim(s: string): string {
    var (from, to) := TrimWindow(s, 0, |s|);
    s[from..to]
  }

  /** Neither starts nor ends with white space. */
  predicate Trimmed(s: string) {
    s == "" || (!IsSpace(s[0]) && !IsSpace(s[|s| - 1]))
  }

  /** Trimming keeps one slice, drops only white space around it, and leaves nothing more to trim. */
  lemma TrimSlice(s: string) returns (from: nat, to: nat)
    ensures from <= to <= |s| && Trim(s) == s[from..to] && Trimmed(Trim(s))
    ensures forall i :: 0 <= i < from || to <= i < |s| ==> IsSpace(s[i])
  {
    var w := TrimWindow(s, 0, |s|);
    from, to := w.0, w.1;
  }

  lemma TrimFixed(s: string)
    ensures Trim(s) == s <==> Trimmed(s)
  {
    var from, to := TrimSlice(s);
    if Trimmed(s) && s != "" {
      assert from == 0 && to == |s|;
    }
  }

  lemma TrimIdempotent(s: string)
    ensures Trim(Trim(s)) == Trim(s)
  {
    var from, to := TrimSlice(s);
    TrimFixed(Trim(s));
  }

  lemma LowerIdempotent(s: string)
    ensures Lower(Lower(s)) == Lower(s)
  {
  }

  lemma LowerTrimmed(s: string)
    ensures Trimmed(Lower(s)) == Trimmed(s)
  {
  }

  /** Position of the first `c` in `s[lo..hi]`. */
  function IndexIn(s: string, c: char, lo: nat, hi: nat): (r: Option<nat>)
    requires lo <= hi <= |s|
    ensures r.Some? ==> lo <= r.value < hi && s[r.value] == c && forall k :: lo <= k < r.value ==> s[k] != c
    ensures r.None? ==> forall k :: lo <= k < hi ==> s[k] != c
    decreases hi - lo
  {
    if lo == hi then None
    else if s[lo] == c then Some(lo)
    else IndexIn(s, c, lo + 1, hi)
  }

  /** Position of the last `c` in `s[lo..hi]`. */
  function LastIndexIn(s: string, c: char, lo: nat, hi: nat): (r: Option<nat>)
    requires lo <= hi <= |s|
    ensures r.Some? ==> lo <= r.value < hi && s[r.value] == c && forall k :: r.value < k < hi ==> s[k] != c
    ensures r.None? ==> forall k :: lo <= k < hi ==> s[k] != c
    decreases hi
  {
    if lo == hi then None
    else if s[hi - 1] == c then Some(hi - 1)
    else LastIndexIn(s, c, lo, hi - 1)
  }
}
