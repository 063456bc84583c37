/**
 * Gamebox's UTF-8 to ISO-8859-1 decoder.  It recognises the sequences of
 * one to six bytes of RFC 2279 section 2, decodes them, and emits one
 * ISO-8859-1 byte per sequence: the code point itself when it is at most
 * 0xFF, `?` otherwise.  A malformed sequence emits `?` and skips one byte.
 *
 * The input is a NUL-terminated C string, given here as its bytes before
 * the terminator; reading at or past the end yields the terminator 0.
 */
module Utf {

  /** A C string's bytes: no NUL before the terminator. */
  predicate IsCString(u: seq<bv8>)
  {
    forall k :: 0 <= k < |u| ==> u[k] != 0
  }

  /** The byte at `k`, or the terminating NUL at and past the end. */
  function At(u: seq<bv8>, k: nat): bv8
  {
    if k < |u| then u[k] else 0
  }

  const MaxSequence := 6
  /** The code point used to signal a conformance error. */
  const UcsUnused := 0xFFFF
  const ErrorChar: bv8 := 0x3F  // '?'

  /**
   * `utf_get_mask`: the lead-byte mask for a sequence of `n` bytes.  Its
   * top bits are one: a single bit for n = 1, n + 1 bits for n = 2..6.
   */
  function Mask(n: int): (m: bv8)
    requires 1 <= n <= MaxSequence
    ensures n == 1 ==> m == 0x80
    ensures n == 2 ==> m == 0xE0
    ensures n == 3 ==> m == 0xF0
    ensures n == 4 ==> m == 0xF8
    ensures n == 5 ==> m == 0xFC
    ensures n == 6 ==> m == 0xFE
  {
    var shift := MaxSequence - n + (if n == 1 then 2 else 1);
    (0xFF as bv8) << shift
  }

  /** The lead-byte pattern the masked bits must equal: the mask shifted left. */
  function Pattern(n: int): bv8
    requires 1 <= n <= MaxSequence
  {
    Mask(n) << 1
  }

  /** The first `n` from `from` up to 6 whose pattern the lead byte matches, or 0. */
  function LeadFrom(b: bv8, from: int): (n: int)
    requires 1 <= from
    ensures n == 0 || from <= n <= MaxSequence
    decreases MaxSequence + 1 - from
  {
    if from > MaxSequence then 0
    else if b & Mask(from) == Pattern(from) then from
    else LeadFrom(b, from + 1)
  }

  function LeadLength(b: bv8): int
  {
    LeadFrom(b, 1)
  }

  /**
   * The table of RFC 2279 section 2: the sequence length announced by a
   * lead byte, 0 for a continuation byte 10xxxxxx and for 0xFE and 0xFF.
   */
  function LeadClass(b: bv8): int
  {
    if b < 0x80 then 1
    else if b < 0xC0 then 0
    else if b < 0xE0 then 2
    else if b < 0xF0 then 3
    else if b < 0xF8 then 4
    else if b < 0xFC then 5
    else if b < 0xFE then 6
    else 0
  }

  /** A lead byte matches 0xxxxxxx for n = 1, or n one bits and a zero for n = 2..6. */
  lemma LeadLengthIsTable(b: bv8)
    ensures LeadLength(b) == LeadClass(b)
  {
    assert Mask(1) == 0x80 && Mask(2) == 0xE0 && Mask(3) == 0xF0;
    assert Mask(4) == 0xF8 && Mask(5) == 0xFC && Mask(6) == 0xFE;
  }

  /** Continuation bytes match 10xxxxxx. */
  predicate IsContinuation(b: bv8)
  {
    b & 0xC0 == 0x80
  }

  predicate ContinuationsOk(u: seq<bv8>, i: nat, n: int)
  {
    forall j :: i + 1 <= j < i + n ==> IsContinuation(At(u, j))
  }

  /** `utf_get_sequence_length`: the length of the sequence at `i`, 0 when malformed. */
  function SeqLength(u: seq<bv8>, i: nat): (n: int)
    ensures 0 <= n <= MaxSequence
  {
    var n := LeadLength(At(u, i));
    if n > 0 && ContinuationsOk(u, i, n) then n else 0
  }

  /** The payload bits of the lead byte. */
  function Payload(b: bv8, n: int): bv8
    requires 1 <= n <= MaxSequence
  {
    b & !Mask(n)
  }

  /** The lead payload followed by six bits from each of the next `k - 1` bytes. */
  function Value(u: seq<bv8>, i: nat, n: int, k: int): nat
    requires 1 <= k <= n <= MaxSequence
  {
    if k == 1 then Payload(At(u, i), n) as nat
    else Value(u, i, n, k - 1) * 64 + (At(u, i + k - 1) & 0x3F) as nat
  }

  /** `utf_generate_unicode`: the decoded code point, 0xFFFF when the lead payload is 0. */
  function Decode(u: seq<bv8>, i: nat, n: int): nat
    requires 1 <= n <= MaxSequence
  {
    if Payload(At(u, i), n) == 0 then UcsUnused else Value(u, i, n, n)
  }

  /** `utf_convert_sequence`: the byte emitted for the sequence at `i` and how far to advance. */
  function Step(u: seq<bv8>, i: nat): (r: (bv8, int))
    ensures 1 <= r.1 <= MaxSequence
  {
    var n := SeqLength(u, i);
    if n > 0 && Decode(u, i, n) != UcsUnused then
      var v := Decode(u, i, n);
      (if v > 0xFF then ErrorChar else v as bv8, n)
    else (ErrorChar, 1)
  }

  /** `utf_to_iso_internal` from index `i` on. */
  function ToIso(u: seq<bv8>, i: nat): seq<bv8>
    decreases |u| - i, 1
  {
    if i >= |u| then [] else ConvertAt(u, i)
  }

  /** One sequence converted at `i`, then the rest of the string. */
  function ConvertAt(u: seq<bv8>, i: nat): seq<bv8>
    requires i < |u|
    decreases |u| - i, 0
  {
    var (c, n) := Step(u, i);
    [c] + ToIso(u, i + n)
  }

  /** A well-formed sequence lies inside the string: its continuation bytes are not the NUL. */
  lemma SeqLengthInside(u: seq<bv8>, i: nat)
    requires i < |u|
    ensures i + SeqLength(u, i) <= |u|
    ensures i + Step(u, i).1 <= |u|
  {
    var n := SeqLength(u, i);
    if n > 0 && i + n > |u| {
      var terminator := At(u, |u|);
      assert false;
    }
  }

  /** The output is never longer than the input. */
  lemma {:induction false} ToIsoNoLonger(u: seq<bv8>, i: nat)
    ensures |ToIso(u, i)| <= if i <= |u| then |u| - i else 0
    decreases |u| - i
  {
    if i < |u| {
      assert ToIso(u, i) == ConvertAt(u, i);
      ToIsoNoLonger(u, i + Step(u, i).1);
    }
  }

  /** An ASCII byte other than NUL converts to itself and advances one byte. */
  lemma AsciiStep(u: seq<bv8>, i: nat)
    requires i < |u| && 0 < u[i] < 0x80
    ensures Step(u, i) == (u[i], 1)
  {
    LeadLengthIsTable(u[i]);
  }

  /** All-ASCII input is returned unchanged. */
  lemma {:induction false} AsciiUnchanged(u: seq<bv8>, i: nat)
    requires i <= |u|
    requires forall k :: i <= k < |u| ==> 0 < u[k] < 0x80
    ensures ToIso(u, i) == u[i..]
    decreases |u| - i
  {
    if i < |u| {
      assert ToIso(u, i) == ConvertAt(u, i);
      AsciiStep(u, i);
      AsciiUnchanged(u, i + 1);
    }
  }

  /** A malformed sequence emits `?` and advances exactly one byte. */
  lemma MalformedStep(u: seq<bv8>, i: nat)
    requires SeqLength(u, i) == 0
    ensures Step(u, i) == (ErrorChar, 1)
  {
  }

  /** A well-formed sequence decoding to at most 0xFF emits that byte; above it, `?`. */
  lemma DecodedStep(u: seq<bv8>, i: nat)
    requires SeqLength(u, i) > 0
    ensures var n := SeqLength(u, i); var v := Decode(u, i, n);
      v != UcsUnused ==> Step(u, i) == (if v <= 0xFF then v as bv8 else ErrorChar, n)
  {
  }

  /** The two-byte encoding of a byte of 0x80 and above. */
  function EncodeLatin1(c: bv8): seq<bv8>
  {
    if c < 0x80 then [c] else [0xC0 | (c >> 6), 0x80 | (c & 0x3F)]
  }

  /** Decoding the UTF-8 encoding of any non-NUL ISO-8859-1 byte gives it back. */
  lemma Latin1RoundTrip(c: bv8, rest: seq<bv8>)
    requires c != 0
    ensures var u := EncodeLatin1(c) + rest; Step(u, 0) == (c, |EncodeLatin1(c)|)
  {
    var u := EncodeLatin1(c) + rest;
    if c < 0x80 {
      AsciiStep(u, 0);
    } else {
      TwoByteDecodes(c, rest);
    }
  }

  /** The two-byte encoding of `c` is one well-formed sequence whose value is `c`. */
  lemma TwoByteDecodes(c: bv8, rest: seq<bv8>)
    requires c >= 0x80
    ensures var u := EncodeLatin1(c) + rest;
      SeqLength(u, 0) == 2 && Payload(At(u, 0), 2) != 0 && Value(u, 0, 2, 2) == c as nat
  {
    var u := EncodeLatin1(c) + rest;
    EncodingBits(c);
    assert u[0] == 0xC0 | (c >> 6) && At(u, 1) == 0x80 | (c & 0x3F);
    LeadLengthIsTable(u[0]);
    assert SeqLength(u, 0) == 2;
  }

  /** The bits of the two bytes that encode `c`. */
  lemma EncodingBits(c: bv8)
    requires c >= 0x80
    ensures var lead, cont := 0xC0 | (c >> 6), 0x80 | (c & 0x3F);
      0xC0 <= lead < 0xE0 && IsContinuation(cont) && Payload(lead, 2) == c >> 6 && c >> 6 != 0
      && (cont & 0x3F) == c & 0x3F && ((c >> 6) as nat) * 64 + ((c & 0x3F) as nat) == c as nat
  {
    SplitBits(c);
  }

  lemma ToIsoStep(u: seq<bv8>, i: nat, c: bv8, next: nat)
    requires i < |u| && (c, next - i) == Step(u, i) && next > i
    ensures ToIso(u, i) == [c] + ToIso(u, next)
    ensures next <= |u|
  {
    assert ToIso(u, i) == ConvertAt(u, i);
    SeqLengthInside(u, i);
  }

  // ---- shortest-form check ----

  /**
   * As written, the shortest-form check of `utf_generate_unicode` only
   * rejects a zero lead payload.  The overlong two-byte form of `A` is
   * accepted, and the shortest three-byte form of U+0800 is rejected and
   * then read as three malformed bytes.
   */
  lemma OverlongAccepted()
    ensures Step([0xC1, 0x81], 0) == (0x41, 2)
    ensures ToIso([0xE0, 0xA0, 0x80], 0) == [ErrorChar, ErrorChar, ErrorChar]
  {
    LeadLengthIsTable(0xC1);
    assert IsContinuation(At([0xC1, 0x81], 1));
    assert SeqLength([0xC1, 0x81], 0) == 2;
    assert Value([0xC1, 0x81], 0, 2, 2) == 0x41;
    var u: seq<bv8> := [0xE0, 0xA0, 0x80];
    LeadLengthIsTable(0xE0);
    LeadLengthIsTable(0xA0);
    LeadLengthIsTable(0x80);
    assert IsContinuation(At(u, 1)) && IsContinuation(At(u, 2));
    assert SeqLength(u, 0) == 3 && Payload(u[0], 3) == 0;
    assert Step(u, 0) == (ErrorChar, 1);
    assert SeqLength(u, 1) == 0 && SeqLength(u, 2) == 0;
    assert ToIso(u, 3) == [];
  }

  /** The smallest code point RFC 2279 encodes with `n` bytes (1 for n = 1: NUL ends the string). */
  function MinValue(n: int): nat
    requires 1 <= n <= MaxSequence
  {
    if n == 1 then 1
    else if n == 2 then 0x80
    else if n == 3 then 0x800
    else if n == 4 then 0x10000
    else if n == 5 then 0x200000
    else 0x4000000
  }

  /** The intended check: a value below the range of its length is not in shortest form. */
  function DecodeShortest(u: seq<bv8>, i: nat, n: int): nat
    requires 1 <= n <= MaxSequence
  {
    var v := Value(u, i, n, n);
    if v < MinValue(n) then UcsUnused else v
  }

  function StepShortest(u: seq<bv8>, i: nat): (r: (bv8, int))
    ensures 1 <= r.1 <= MaxSequence
  {
    var n := SeqLength(u, i);
    if n > 0 && DecodeShortest(u, i, n) != UcsUnused then
      var v := DecodeShortest(u, i, n);
      (if v > 0xFF then ErrorChar else v as bv8, n)
    else (ErrorChar, 1)
  }

  function ToIsoShortest(u: seq<bv8>, i: nat): seq<bv8>
    decreases |u| - i, 1
  {
    if i >= |u| then [] else DecodeAt(u, i)
  }

  /** One character decoded at `i`, then the rest of the string. */
  function DecodeAt(u: seq<bv8>, i: nat): seq<bv8>
    requires i < |u|
    decreases |u| - i, 0
  {
    var (c, n) := StepShortest(u, i);
    [c] + ToIsoShortest(u, i + n)
  }

  /** Splitting a byte into its top two and low six bits. */
  lemma SplitBits(c: bv8)
    ensures (c >> 6) as nat == c as nat / 64 && (c & 0x3F) as nat == c as nat % 64
  {
  }

  /** A two-byte sequence holding the value `c` is the encoding of `c`. */
  lemma TwoByteShape(lead: bv8, cont: bv8, c: bv8)
    requires lead & 0xE0 == 0xC0 && IsContinuation(cont)
    requires Payload(lead, 2) as nat * 64 + (cont & 0x3F) as nat == c as nat
    ensures lead == 0xC0 | (c >> 6) && cont == 0x80 | (c & 0x3F)
  {
    var p, q := lead & 0x1F, cont & 0x3F;
    assert p == c >> 6 && q == c & 0x3F by {
      assert Payload(lead, 2) == p;
      LowBits(cont);
      SplitBits(c);
      DivMod64(p as nat, q as nat, c as nat);
      SameValue(p, c >> 6);
      SameValue(q, c & 0x3F);
    }
    assert lead == 0xC0 | p;
    assert cont == 0x80 | q;
  }

  lemma LowBits(b: bv8)
    ensures (b & 0x3F) as nat < 64
  {
  }

  lemma ByteOfNat(v: nat)
    requires v < 256
    ensures (v as bv8) as nat == v
  {
    if v < 16 {
    } else if v < 32 {
    } else if v < 64 {
    } else if v < 128 {
    }
  }

  lemma SameValue(a: bv8, b: bv8)
    requires a as nat == b as nat
    ensures a == b
  {
  }

  lemma DivMod64(p: nat, q: nat, c: nat)
    requires q < 64 && p * 64 + q == c
    ensures p == c / 64 && q == c % 64
  {
  }

  /**
   * With the intended check, a byte other than `?` comes only from the
   * shortest encoding of that byte: a sequence of three or more bytes
   * decodes to at least 0x800, and a two-byte one to at least 0x80.
   */
  lemma ShortestIsUnique(u: seq<bv8>, i: nat)
    requires i < |u|
    ensures var r := StepShortest(u, i);
      r.0 != ErrorChar ==> i + r.1 <= |u| && u[i..i + r.1] == EncodeLatin1(r.0)
  {
    var n := SeqLength(u, i);
    SeqLengthInside(u, i);
    if n > 0 && DecodeShortest(u, i, n) != UcsUnused && DecodeShortest(u, i, n) <= 0xFF {
      AcceptedIsEncoding(u, i, n, DecodeShortest(u, i, n));
    }
  }

  lemma AcceptedIsEncoding(u: seq<bv8>, i: nat, n: int, v: nat)
    requires i + n <= |u| && n == SeqLength(u, i) > 0
    requires v == DecodeShortest(u, i, n) != UcsUnused && v <= 0xFF
    ensures u[i..i + n] == EncodeLatin1(v as bv8)
  {
    assert n <= 2 && (n == 1 ==> u[i] < 0x80) && (n == 2 ==> u[i] & 0xE0 == 0xC0) by {
      LeadLengthIsTable(u[i]);
    }
    ByteOfNat(v);
    if n == 1 {
      OneByteIsEncoding(u, i, v);
    } else {
      assert IsContinuation(At(u, i + 1));
      TwoBytesAreEncoding(u, i, v);
    }
  }

  lemma OneByteIsEncoding(u: seq<bv8>, i: nat, v: nat)
    requires i < |u| && u[i] < 0x80 && v == Value(u, i, 1, 1) && v < 256 && (v as bv8) as nat == v
    ensures u[i..i + 1] == EncodeLatin1(v as bv8)
  {
    assert Payload(u[i], 1) == u[i];
    SameValue(v as bv8, u[i]);
    assert u[i..i + 1] == [u[i]];
  }

  lemma TwoBytesAreEncoding(u: seq<bv8>, i: nat, v: nat)
    requires i + 2 <= |u| && u[i] & 0xE0 == 0xC0 && IsContinuation(u[i + 1])
    requires v == Value(u, i, 2, 2) && 0x80 <= v < 256 && (v as bv8) as nat == v
    ensures u[i..i + 2] == EncodeLatin1(v as bv8)
  {
    assert Value(u, i, 2, 1) == Payload(At(u, i), 2) as nat;
    TwoByteShape(u[i], u[i + 1], v as bv8);
    assert u[i..i + 2] == [u[i], u[i + 1]];
  }

  /** The intended decoder still gives back every non-NUL ISO-8859-1 byte from its encoding. */
  lemma ShortestRoundTrip(c: bv8, rest: seq<bv8>)
    requires c != 0
    ensures var u := EncodeLatin1(c) + rest; StepShortest(u, 0) == (c, |EncodeLatin1(c)|)
  {
    var u := EncodeLatin1(c) + rest;
    if c < 0x80 {
      LeadLengthIsTable(u[0]);
    } else {
      TwoByteDecodes(c, rest);
    }
  }

  /** The shortest three-byte form of U+0800 is one `?` under the intended check. */
  lemma ShortestExample()
    ensures StepShortest([0xC1, 0x81], 0) == (ErrorChar, 1)
    ensures ToIsoShortest([0xE0, 0xA0, 0x80], 0) == [ErrorChar]
  {
    LeadLengthIsTable(0xC1);
    assert IsContinuation(At([0xC1, 0x81], 1));
    assert SeqLength([0xC1, 0x81], 0) == 2;
    assert Value([0xC1, 0x81], 0, 2, 2) == 0x41;
    var u: seq<bv8> := [0xE0, 0xA0, 0x80];
    LeadLengthIsTable(0xE0);
    assert IsContinuation(At(u, 1)) && IsContinuation(At(u, 2));
    assert SeqLength(u, 0) == 3;
    assert Value(u, 0, 3, 3) == 0x800;
    assert ToIsoShortest(u, 3) == [];
  }

  /**
   * The string form of the decoder, as used by the INI and XML readers.
   * Their strings stand for C strings, each character one byte: the
   * bytes are the low eight bits of each character.
   */
  function Bytes(s: string): (u: seq<bv8>)
    ensures |u| == |s|
  {
    seq(|s|, k requires 0 <= k < |s| => (s[k] as int % 256) as bv8)
  }

  function Chars(u: seq<bv8>): (s: string)
    ensures |s| == |u|
  {
    seq(|u|, k requires 0 <= k < |u| => u[k] as int as char)
  }

  /** `utf_utf8_to_iso8859`, with the intended shortest-form check. */
  function Utf8ToIso8859(s: string): string
  {
    Chars(ToIsoShortest(Bytes(s), 0))
  }

  // ---- the imperative code ----

  /** `utf_get_sequence_length`, with its two counting loops. */
  method SequenceLength(u: seq<bv8>, i: nat) returns (n: int)
    ensures n == SeqLength(u, i)
  {
    var length := LeadMatch(At(u, i));
    if length == 0 {
      return 0;
    }
    var complete := Continued(u, i, length);
    if !complete {
      return 0;
    }
    n := length;
  }

  /** The first loop of `utf_get_sequence_length`: the first mask whose pattern the lead byte matches. */
  method LeadMatch(b: bv8) returns (n: int)
    ensures n == LeadLength(b)
  {
    var length := 1;
    while length <= MaxSequence
      invariant 1 <= length <= MaxSequence + 1
      invariant LeadFrom(b, 1) == LeadFrom(b, length)
      decreases MaxSequence + 1 - length
    {
      LeadFromAt(b, length);
      if b & Mask(length) == Pattern(length) {
        return length;
      }
      length := length + 1;
    }
    return 0;
  }

  /** The second loop of `utf_get_sequence_length`: are the next `n - 1` bytes continuations? */
  method Continued(u: seq<bv8>, i: nat, n: int) returns (ok: bool)
    requires 1 <= n
    ensures ok <==> ContinuationsOk(u, i, n)
  {
    var extent := 1;
    while extent < n
      invariant 1 <= extent <= n
      invariant forall j :: i + 1 <= j < i + extent ==> IsContinuation(At(u, j))
    {
      if !IsContinuation(At(u, i + extent)) {
        return false;
      }
      extent := extent + 1;
    }
    return true;
  }

  lemma LeadFromAt(b: bv8, from: int)
    requires 1 <= from <= MaxSequence
    ensures LeadFrom(b, from) == if b & Mask(from) == Pattern(from) then from else LeadFrom(b, from + 1)
  {
  }

  /** `utf_generate_unicode`, shifting in six bits per continuation byte. */
  method GenerateUnicode(u: seq<bv8>, i: nat, n: int) returns (v: nat)
    requires 1 <= n <= MaxSequence
    ensures v == Decode(u, i, n)
  {
    v := Payload(At(u, i), n) as nat;
    if v == 0 {
      return UcsUnused;
    }
    var extent := 1;
    while extent < n
      invariant 1 <= extent <= n
      invariant v == Value(u, i, n, extent)
    {
      ValueNext(u, i, n, extent);
      v := v * 64 + (At(u, i + extent) & 0x3F) as nat;
      extent := extent + 1;
    }
  }

  lemma ValueNext(u: seq<bv8>, i: nat, n: int, k: int)
    requires 1 <= k < n <= MaxSequence
    ensures Value(u, i, n, k + 1) == Value(u, i, n, k) * 64 + (At(u, i + k) & 0x3F) as nat
  {
  }

  /** `utf_convert_sequence`: returns the emitted byte and the index of the next sequence. */
  method ConvertSequence(u: seq<bv8>, i: nat) returns (c: bv8, next: nat)
    ensures (c, next - i) == Step(u, i) && next > i
  {
    var length := SequenceLength(u, i);
    if length > 0 {
      var unicode := GenerateUnicode(u, i, length);
      if unicode != UcsUnused {
        c := if unicode > 0xFF then ErrorChar else unicode as bv8;
        return c, i + length;
      }
    }
    c, next := ErrorChar, i + 1;
  }

  /** One byte written at the end of the converted prefix. */
  method Put(iso: array<bv8>, length: nat, c: bv8)
    requires length < iso.Length
    modifies iso
    ensures iso[..length + 1] == old(iso[..length]) + [c]
    ensures iso[length + 1..] == old(iso[length + 1..])
  {
    iso[length] := c;
  }

  lemma Regroup(out: seq<bv8>, c: bv8, rest: seq<bv8>)
    ensures (out + [c]) + rest == out + ([c] + rest)
  {
  }

  /**
   * `utf_to_iso_internal`: fills a buffer one byte longer than the input
   * and NUL-terminates it after the converted bytes.
   */
  method ToIsoInternal(u: seq<bv8>) returns (iso: array<bv8>, length: nat)
    requires IsCString(u)
    ensures iso.Length == |u| + 1 && length < iso.Length
    ensures iso[..length] == ToIso(u, 0) && iso[length] == 0
  {
    iso := new bv8[|u| + 1];
    length := 0;
    ghost var out: seq<bv8> := [];
    var i := 0;
    while i < |u|
      invariant 0 <= i <= |u| && length <= i
      invariant iso[..length] == out
      invariant out + ToIso(u, i) == ToIso(u, 0)
      decreases |u| - i
    {
      var c, next := ConvertSequence(u, i);
      ToIsoStep(u, i, c, next);
      Put(iso, length, c);
      Regroup(out, c, ToIso(u, next));
      out := out + [c];
      length := length + 1;
      i := next;
    }
    iso[length] := 0;
    assert iso[..length] == ToIso(u, 0);
  }
}
