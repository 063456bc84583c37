/**
 * Shared vocabulary for the C and Python code being modelled: optional
 * values (a NULL pointer is `None`) and the byte-string primitives of the
 * C library in the "C" locale.  A `string` stands for a NUL-free C string;
 * each `char` stands for one byte.
 */
module Text {

  datatype Option<T> = None | Some(value: T)

  /** No element occurs twice. */
  predicate Distinct<T(==)>(list: seq<T>)
  {
    forall i, j :: 0 <= i < j < |list| ==> list[i] != list[j]
  }

  /** An unsigned byte of binary data. */
  type Byte = x: nat | x < 256

  predicate IsUpper(c: char) { 'A' <= c <= 'Z' }
  predicate IsLower(c: char) { 'a' <= c <= 'z' }
  predicate IsAlpha(c: char) { IsUpper(c) || IsLower(c) }
  predicate IsDigit(c: char) { '0' <= c <= '9' }

  /** `isspace`: space, tab, newline, vertical tab, form feed, carriage return. */
  predicate IsSpace(c: char) { c == ' ' || (9 <= c as int <= 13) }

  /** `tolower` */
  function ToLower(c: char): char
  {
    if IsUpper(c) then (c as int + 32) as char else c
  }

  /** `toupper` */
  function ToUpper(c: char): char
  {
    if IsLower(c) then (c as int - 32) as char else c
  }

  function Lower(s: string): (r: string)
    ensures |r| == |s|
    ensures forall i :: 0 <= i < |s| ==> r[i] == ToLower(s[i])
  {
    seq(|s|, i requires 0 <= i < |s| => ToLower(s[i]))
  }

  /** Equality under `strcasecmp`. */
  predicate EqualsIgnoreCase(a: string, b: string)
  {
    Lower(a) == Lower(b)
  }

  /**
   * The sign of `strcasecmp(a, b)`: both strings are compared byte by byte
   * after `tolower`, and the terminating NUL sorts before every byte.
   */
  function CaseCompare(a: string, b: string): (r: int)
    ensures -1 <= r <= 1
  {
    if |a| == 0 && |b| == 0 then 0
    else if |a| == 0 then -1
    else if |b| == 0 then 1
    else if ToLower(a[0]) < ToLower(b[0]) then -1
    else if ToLower(a[0]) > ToLower(b[0]) then 1
    else CaseCompare(a[1..], b[1..])
  }

  lemma {:induction false} CaseCompareZero(a: string, b: string)
    ensures CaseCompare(a, b) == 0 <==> EqualsIgnoreCase(a, b)
  {
    if |a| > 0 && |b| > 0 && ToLower(a[0]) == ToLower(b[0]) {
      CaseCompareZero(a[1..], b[1..]);
      assert Lower(a) == [ToLower(a[0])] + Lower(a[1..]);
      assert Lower(b) == [ToLower(b[0])] + Lower(b[1..]);
    } else if |a| > 0 && |b| > 0 {
      assert Lower(a)[0] != Lower(b)[0];
    }
  }

  lemma {:induction false} CaseCompareAntisymmetric(a: string, b: string)
    ensures CaseCompare(a, b) == -CaseCompare(b, a)
  {
    if |a| > 0 && |b| > 0 && ToLower(a[0]) == ToLower(b[0]) {
      CaseCompareAntisymmetric(a[1..], b[1..]);
    }
  }

  lemma {:induction false} CaseCompareTransitive(a: string, b: string, c: string)
    requires CaseCompare(a, b) <= 0 && CaseCompare(b, c) <= 0
    ensures CaseCompare(a, c) <= 0
  {
    if |a| > 0 && |b| > 0 && |c| > 0
       && ToLower(a[0]) == ToLower(b[0]) && ToLower(b[0]) == ToLower(c[0]) {
      CaseCompareTransitive(a[1..], b[1..], c[1..]);
    }
  }

  /** Concatenation of `parts` with `sep` between neighbours. */
  function Join(parts: seq<string>, sep: string): string
  {
    if |parts| == 0 then ""
    else if |parts| == 1 then parts[0]
    else parts[0] + sep + Join(parts[1..], sep)
  }

  /** `strchr`: the index of the first `c` in `s`, if any. */
  function IndexOf(s: string, c: char): (r: Option<nat>)
    ensures r.None? <==> c !in s
    ensures r.Some? ==> r.value < |s| && s[r.value] == c && c !in s[..r.value]
  {
    if |s| == 0 then None
    else if s[0] == c then Some(0)
    else match IndexOf(s[1..], c) {
      case None => None
      case Some(k) => assert s[1..][..k] == s[1..k + 1]; Some(k + 1)
    }
  }

  /** `strchr` finds `k` when `s[k]` is the first `c`. */
  lemma IndexOfIs(s: string, c: char, k: nat)
    requires k < |s| && s[k] == c && c !in s[..k]
    ensures IndexOf(s, c) == Some(k)
  {
    match IndexOf(s, c) {
      case None =>
        assert false;
      case Some(j) =>
        if j < k {
          assert false;
        } else if k < j {
          assert false;
        }
    }
  }

  predicate IsPrefix(p: string, s: string) { |p| <= |s| && s[..|p|] == p }
  predicate IsSuffix(p: string, s: string) { |p| <= |s| && s[|s| - |p|..] == p }

  /** `p` occurs in `s` at position `k`. */
  predicate OccursAt(s: string, p: string, k: nat)
  {
    k + |p| <= |s| && s[k..k + |p|] == p
  }

  /** `strstr`: the index of the first occurrence of `p` in `s`, if any. */
  function FirstOccurrence(s: string, p: string): (r: Option<nat>)
    ensures r.Some? ==> OccursAt(s, p, r.value)
    ensures r.Some? ==> forall k :: 0 <= k < r.value ==> !OccursAt(s, p, k)
    ensures r.None? ==> forall k :: 0 <= k <= |s| ==> !OccursAt(s, p, k)
  {
    if IsPrefix(p, s) then Some(0)
    else if |s| == 0 then None
    else
      var r := FirstOccurrence(s[1..], p);
      assert forall k :: 1 <= k <= |s| ==> (OccursAt(s, p, k) <==> OccursAt(s[1..], p, k - 1));
      match r {
        case None => None
        case Some(i) => Some(i + 1)
      }
  }

  predicate IsCrLf(c: char) { c == '\r' || c == '\n' }

  /** Removes every trailing carriage return and line feed. */
  function StripRight(s: string): (r: string)
    ensures IsPrefix(r, s)
    ensures forall k :: |r| <= k < |s| ==> IsCrLf(s[k])
    ensures |r| > 0 ==> !IsCrLf(r[|r| - 1])
  {
    if |s| > 0 && IsCrLf(s[|s| - 1]) then StripRight(s[..|s| - 1]) else s
  }

  /**
   * The end of the longest run of characters satisfying `p` that starts at
   * `i`: `strspn`, `strcspn` and the scan sets of `sscanf`.
   */
  function Span(s: string, i: nat, p: char -> bool): (j: nat)
    requires i <= |s|
    ensures i <= j <= |s|
    ensures forall k :: i <= k < j ==> p(s[k])
    ensures j < |s| ==> !p(s[j])
    decreases |s| - i
  {
    if i == |s| || !p(s[i]) then i else Span(s, i + 1, p)
  }

  /** A run is identified by where it ends. */
  lemma {:induction false} SpanIs(s: string, i: nat, j: nat, p: char -> bool)
    requires i <= j <= |s|
    requires forall k :: i <= k < j ==> p(s[k])
    requires j < |s| ==> !p(s[j])
    ensures Span(s, i, p) == j
    decreases j - i
  {
    if i < j {
      SpanIs(s, i + 1, j, p);
    }
  }

  /** A run measured in a suffix is the same run. */
  lemma SpanDrop(s: string, i: nat, p: char -> bool)
    requires i <= |s|
    ensures Span(s, i, p) == i + Span(s[i..], 0, p)
  {
    var j := Span(s, i, p);
    assert forall k :: i <= k < |s| ==> s[k] == s[i..][k - i];
    SpanIs(s[i..], 0, j - i, p);
  }

  /** Concatenation regroups freely. */
  lemma Associative<T>(a: seq<T>, b: seq<T>, c: seq<T>)
    ensures (a + b) + c == a + (b + c)
  {
  }
}
