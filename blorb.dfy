/**
 * IFP's Blorb helpers: the header test that tells a Blorb file from any
 * other, and the conversion of a 32-bit chunk type into its four-character
 * name (`ZCOD`, `GLUL`, ...) for pattern matching.
 */
module Blorb {
  import opened Text

  /** A `glui32`. */
  type Word = x: nat | x < 0x1_0000_0000

  /** `FORM` and `IFRS` as bytes. */
  const Form: seq<Byte> := [0x46, 0x4F, 0x52, 0x4D]
  const Ifrs: seq<Byte> := [0x49, 0x46, 0x52, 0x53]

  const HeaderSize := 12

  /**
   * `ifp_blorb_is_file_blorb` over the contents of the stream: up to twelve
   * bytes are read from the start, and a short read is not a Blorb file.
   */
  predicate IsFileBlorb(file: seq<Byte>)
  {
    var header := if |file| < HeaderSize then file else file[..HeaderSize];
    |header| == HeaderSize && header[..4] == Form && header[8..] == Ifrs
  }

  /** The test holds exactly for FORM, four bytes of any value, then IFRS. */
  lemma BlorbHeader(file: seq<Byte>)
    ensures IsFileBlorb(file) <==>
      |file| >= 12 && file[..4] == Form && file[8..12] == Ifrs
  {
    if |file| >= 12 {
      assert file[..HeaderSize][..4] == file[..4];
      assert file[..HeaderSize][8..] == file[8..12];
    }
  }

  /** Fewer than twelve bytes is never a Blorb file. */
  lemma ShortReadIsNotBlorb(file: seq<Byte>)
    requires |file| < 12
    ensures !IsFileBlorb(file)
  {
  }

  /** Bytes 4 to 7 and everything past the header are ignored. */
  lemma OnlyFormAndIfrsMatter(a: seq<Byte>, b: seq<Byte>)
    requires |a| >= 12 && |b| >= 12
    requires a[..4] == b[..4] && a[8..12] == b[8..12]
    ensures IsFileBlorb(a) == IsFileBlorb(b)
  {
    BlorbHeader(a);
    BlorbHeader(b);
  }

  /** The four bytes of a chunk type, most significant first. */
  function IdBytes(id: Word): (r: seq<Byte>)
    ensures |r| == 4
  {
    [id / 256 / 256 / 256, id / 256 / 256 % 256, id / 256 % 256, id % 256]
  }

  /** Big-endian packing of four bytes. */
  function Pack(b: seq<Byte>): Word
    requires |b| == 4
  {
    ((b[0] as nat * 256 + b[1]) * 256 + b[2]) * 256 + b[3]
  }

  /** What is left of the type when index `k - 1` is about to be filled. */
  function Remaining(id: Word): (r: seq<nat>)
    ensures |r| == 5
  {
    [0, id / 256 / 256 / 256, id / 256 / 256, id / 256, id]
  }

  lemma Step(id: Word, k: nat)
    requires 0 < k <= 4
    ensures Remaining(id)[k] % 256 == IdBytes(id)[k - 1]
    ensures Remaining(id)[k] / 256 == Remaining(id)[k - 1]
  {
  }

  /**
   * `ifp_blorb_id_to_string`: the low byte of the type fills the string
   * from index 3 down to 0, shifting the type right a byte at a time; index
   * 4 holds the terminating NUL.
   */
  method IdToString(id: Word) returns (s: seq<Byte>)
    ensures |s| == 5 && s[4] == 0
    ensures s[..4] == IdBytes(id)
  {
    var buffer := new Byte[5];
    var t: nat := id;
    var k := 4;
    while k > 0
      invariant 0 <= k <= 4
      invariant t == Remaining(id)[k]
      invariant forall j :: k <= j < 4 ==> buffer[j] == IdBytes(id)[j]
    {
      Step(id, k);
      k := k - 1;
      buffer[k] := t % 256;
      t := t / 256;
    }
    buffer[4] := 0;
    s := buffer[..];
    assert forall j :: 0 <= j < 4 ==> s[j] == IdBytes(id)[j];
  }

  /** Repacking the characters big-endian gives back the chunk type. */
  lemma IdRoundTrip(id: Word)
    ensures Pack(IdBytes(id)) == id
  {
    var q1 := id / 256;
    var q2 := q1 / 256;
    var q3 := q2 / 256;
    assert id == q1 * 256 + id % 256;
    assert q1 == q2 * 256 + q1 % 256;
    assert q2 == q3 * 256 + q2 % 256;
  }

  /** Every four bytes name exactly one chunk type. */
  lemma BytesRoundTrip(b: seq<Byte>)
    requires |b| == 4
    ensures IdBytes(Pack(b)) == b
  {
    var b0: nat, b1: nat, b2: nat := b[0], b[1], b[2];
    DivMod256((b0 * 256 + b1) * 256 + b2, b[3]);
    DivMod256(b0 * 256 + b1, b2);
    DivMod256(b0, b1);
  }

  lemma DivMod256(a: nat, r: nat)
    requires r < 256
    ensures (a * 256 + r) / 256 == a && (a * 256 + r) % 256 == r
  {
  }

  /** A Blorb file's first four bytes, read as a chunk type, name `FORM`. */
  lemma BlorbStartsWithForm(file: seq<Byte>)
    requires IsFileBlorb(file)
    ensures IdBytes(Pack(file[..4])) == Form
  {
    BlorbHeader(file);
    BytesRoundTrip(file[..4]);
  }
}
