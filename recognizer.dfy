/**
 * IFP's acceptor matching.  A plugin's acceptor pattern is a case-insensitive
 * extended regular expression; binary data is first rendered as text, each
 * byte as two lower-case hex digits with one space between neighbours, so
 * that a pattern such as `^47 6c 75 6c$` can recognise a file header.
 *
 * The regular expression engine is not part of this model: `compiles` says
 * whether `regcomp` accepts a pattern and `matches` whether `regexec`
 * matches a compiled pattern against a string.
 */
module Recognizer {
  import opened Text

  const Digits := "0123456789abcdef"

  function HexDigit(v: nat): (c: char)
    requires v < 16
    ensures c in Digits
  {
    Digits[v]
  }

  /** The value of a lower-case hex digit, 0 for any other character. */
  function DigitValue(c: char): (v: nat)
    ensures v < 16
  {
    if '0' <= c <= '9' then c as int - '0' as int
    else if 'a' <= c <= 'f' then c as int - 'a' as int + 10
    else 0
  }

  lemma DigitRoundTrip(v: nat)
    requires v < 16
    ensures DigitValue(HexDigit(v)) == v
  {
  }

  /** `snprintf("%02x")` of one byte. */
  function Hex(b: Byte): string
  {
    [HexDigit(b / 16), HexDigit(b % 16)]
  }

  /** The rendering of `buffer`: hex pairs with a space before every pair but the first. */
  function Rendering(buffer: seq<Byte>): string
  {
    if |buffer| == 0 then ""
    else if |buffer| == 1 then Hex(buffer[0])
    else Rendering(buffer[..|buffer| - 1]) + " " + Hex(buffer[|buffer| - 1])
  }

  /** The size of the buffer `ifp_recognizer_match_binary` allocates. */
  function Allocation(length: nat): nat
  {
    if length > 0 then length * 3 else 1
  }

  /**
   * The rendering loop of `ifp_recognizer_match_binary`: each byte is
   * formatted and appended with `strcat`.
   */
  method Render(buffer: seq<Byte>) returns (representation: string)
    ensures representation == Rendering(buffer)
  {
    representation := "";
    for k := 0 to |buffer|
      invariant representation == Rendering(buffer[..k])
    {
      var conversion := if k == 0 then Hex(buffer[k]) else " " + Hex(buffer[k]);
      assert buffer[..k + 1][..k] == buffer[..k];
      representation := representation + conversion;
    }
    assert buffer[..|buffer|] == buffer;
  }

  /** `ifp_recognizer_match_string`: a pattern that does not compile matches nothing. */
  function MatchString(s: string, pattern: string, compiles: string -> bool,
                       matches: (string, string) -> bool): (r: bool)
    ensures !compiles(pattern) ==> !r
    ensures compiles(pattern) ==> (r <==> matches(s, pattern))
  {
    compiles(pattern) && matches(s, pattern)
  }

  /** `ifp_recognizer_match_binary`: the pattern is applied to the rendering of the buffer. */
  method MatchBinary(buffer: seq<Byte>, pattern: string, compiles: string -> bool,
                     matches: (string, string) -> bool) returns (matched: bool)
    ensures matched <==> compiles(pattern) && matches(Rendering(buffer), pattern)
  {
    var representation := Render(buffer);
    matched := MatchString(representation, pattern, compiles, matches);
  }

  /**
   * `n > 0` bytes render as `3n - 1` characters, which leaves room for the
   * terminating NUL in the `3n` bytes allocated; no bytes render as `""`.
   */
  lemma {:induction false} RenderingLength(buffer: seq<Byte>)
    ensures |buffer| == 0 ==> Rendering(buffer) == ""
    ensures |buffer| > 0 ==> |Rendering(buffer)| == 3 * |buffer| - 1
    ensures |Rendering(buffer)| + 1 <= Allocation(|buffer|)
  {
    if |buffer| > 1 {
      RenderingLength(buffer[..|buffer| - 1]);
    }
  }

  /** Byte `k` sits at `3k` as two hex digits, with a space before it unless it is the first. */
  lemma {:induction false} RenderingAt(buffer: seq<Byte>, k: nat)
    requires k < |buffer|
    ensures |Rendering(buffer)| == 3 * |buffer| - 1
    ensures Rendering(buffer)[3 * k] == HexDigit(buffer[k] / 16)
    ensures Rendering(buffer)[3 * k + 1] == HexDigit(buffer[k] % 16)
    ensures k > 0 ==> Rendering(buffer)[3 * k - 1] == ' '
  {
    RenderingLength(buffer);
    if k < |buffer| - 1 {
      var front := buffer[..|buffer| - 1];
      RenderingAt(front, k);
      assert Rendering(buffer) == Rendering(front) + " " + Hex(buffer[|buffer| - 1]);
      assert front[k] == buffer[k];
    } else if |buffer| > 1 {
      RenderingLength(buffer[..|buffer| - 1]);
    }
  }

  /** The rendering is made of lower-case hex digits and single spaces only. */
  lemma RenderingAlphabet(buffer: seq<Byte>, i: nat)
    requires i < |Rendering(buffer)|
    ensures i % 3 == 2 ==> Rendering(buffer)[i] == ' '
    ensures i % 3 != 2 ==> Rendering(buffer)[i] in Digits
  {
    RenderingLength(buffer);
    var k := i / 3;
    if i % 3 == 2 {
      RenderingAt(buffer, k + 1);
    } else {
      RenderingAt(buffer, k);
    }
  }

  /** The byte whose two hex digits start at `i`. */
  function ByteAt(r: string, i: nat): Byte
  {
    if i + 1 < |r| then DigitValue(r[i]) * 16 + DigitValue(r[i + 1]) else 0
  }

  /** Reading a rendering back: one byte per three characters. */
  function Unrender(r: string): seq<Byte>
  {
    seq((|r| + 1) / 3, k requires 0 <= k < (|r| + 1) / 3 => ByteAt(r, 3 * k))
  }

  /** The rendering loses nothing: reading it back gives the buffer. */
  lemma RenderingRoundTrip(buffer: seq<Byte>)
    ensures Unrender(Rendering(buffer)) == buffer
  {
    var r := Rendering(buffer);
    RenderingLength(buffer);
    assert |Unrender(r)| == |buffer|;
    forall k | 0 <= k < |buffer|
      ensures Unrender(r)[k] == buffer[k]
    {
      ByteRoundTrip(buffer, k);
    }
  }

  lemma ByteRoundTrip(buffer: seq<Byte>, k: nat)
    requires k < |buffer|
    ensures ByteAt(Rendering(buffer), 3 * k) == buffer[k]
  {
    RenderingAt(buffer, k);
    DigitRoundTrip(buffer[k] / 16);
    DigitRoundTrip(buffer[k] % 16);
  }
}
