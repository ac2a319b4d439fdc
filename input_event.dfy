/**
 * The Linux `input_event` record as the barcode reader decodes it
 * (`create_input_event` and the `u8_8`/`u8_4`/`u8_2` helpers in
 * src/barcodeservice.rs): 24 bytes, little-endian, laid out as
 * i64 seconds, i64 microseconds, u16 type, u16 code, i32 value.
 */
module InputEvent {
  import opened Common

  /** The size of `libc::input_event` on a 64-bit target. */
  const EventSize: nat := 24

  /** 256 to the power `w`: the number of values a `w`-byte integer has. */
  function Pow256(w: nat): (p: nat)
    ensures p > 0
  {
    if w == 0 then 1 else 256 * Pow256(w - 1)
  }

  /** `from_le_bytes` of an unsigned integer type: byte 0 is the least significant. */
  function LeToNat(bs: seq<byte>): (n: nat)
    decreases |bs|
  {
    if bs == [] then 0 else bs[0] + 256 * LeToNat(bs[1..])
  }

  /** `to_le_bytes` of an unsigned `w`-byte integer. */
  function NatToLe(n: nat, w: nat): (bs: seq<byte>)
    ensures |bs| == w
    decreases w
  {
    if w == 0 then [] else [n % 256] + NatToLe(n / 256, w - 1)
  }

  /** Two's complement reading of the unsigned value `u` of a `w`-byte integer. */
  function ToSigned(u: nat, w: nat): (x: int) {
    if w > 0 && u >= Pow256(w) / 2 then u - Pow256(w) else u
  }

  /** The unsigned bit pattern of the signed `w`-byte integer `x`. */
  function FromSigned(x: int, w: nat): (u: int) {
    if x < 0 then x + Pow256(w) else x
  }

  /** `x` fits a signed `w`-byte integer. */
  predicate InSigned(x: int, w: nat) {
    w > 0 && -(Pow256(w) / 2) <= x < Pow256(w) / 2
  }

  /** `u8_8`: the first 8 bytes of a slice; the source panics on a shorter one. */
  function U8x8(u: seq<byte>): (r: seq<byte>)
    requires |u| >= 8
    ensures |r| == 8 && forall i :: 0 <= i < 8 ==> r[i] == u[i]
  {
    u[..8]
  }

  /** `u8_4`: the first 4 bytes of a slice. */
  function U8x4(u: seq<byte>): (r: seq<byte>)
    requires |u| >= 4
    ensures |r| == 4 && forall i :: 0 <= i < 4 ==> r[i] == u[i]
  {
    u[..4]
  }

  /** `u8_2`: the first 2 bytes of a slice. */
  function U8x2(u: seq<byte>): (r: seq<byte>)
    requires |u| >= 2
    ensures |r| == 2 && forall i :: 0 <= i < 2 ==> r[i] == u[i]
  {
    u[..2]
  }

  /** `libc::input_event`, with `timeval` flattened into its two fields. */
  datatype Event = Event(tvSec: int, tvUsec: int, evType: int, code: int, value: int)

  /** The field values a 24-byte record can hold. */
  predicate WellFormed(e: Event) {
    InSigned(e.tvSec, 8) && InSigned(e.tvUsec, 8)
    && 0 <= e.evType < 0x1_0000 && 0 <= e.code < 0x1_0000
    && InSigned(e.value, 4)
  }

  /** `create_input_event`: decode the record at the start of `buf`. */
  function CreateInputEvent(buf: seq<byte>): (e: Event)
    requires |buf| >= EventSize
    ensures WellFormed(e)
  {
    PowValues();
    LeBounded(U8x8(buf[0..8]));
    LeBounded(U8x8(buf[8..16]));
    LeBounded(U8x2(buf[16..18]));
    LeBounded(U8x2(buf[18..20]));
    LeBounded(U8x4(buf[20..24]));
    SignedInRange(LeToNat(U8x8(buf[0..8])), 8);
    SignedInRange(LeToNat(U8x8(buf[8..16])), 8);
    SignedInRange(LeToNat(U8x4(buf[20..24])), 4);
    Event(
      ToSigned(LeToNat(U8x8(buf[0..8])), 8),
      ToSigned(LeToNat(U8x8(buf[8..16])), 8),
      LeToNat(U8x2(buf[16..18])),
      LeToNat(U8x2(buf[18..20])),
      ToSigned(LeToNat(U8x4(buf[20..24])), 4))
  }

  /** The 24 bytes of a record holding `e`: the inverse of `CreateInputEvent`. */
  function Encode(e: Event): (bs: seq<byte>)
    requires WellFormed(e)
    ensures |bs| == EventSize
  {
    SignedRoundTrip(e.tvSec, 8);
    SignedRoundTrip(e.tvUsec, 8);
    SignedRoundTrip(e.value, 4);
    NatToLe(FromSigned(e.tvSec, 8) as nat, 8) + NatToLe(FromSigned(e.tvUsec, 8) as nat, 8)
    + NatToLe(e.evType as nat, 2) + NatToLe(e.code as nat, 2)
    + NatToLe(FromSigned(e.value, 4) as nat, 4)
  }

  lemma {:induction false} LeBounded(bs: seq<byte>)
    ensures LeToNat(bs) < Pow256(|bs|)
    decreases |bs|
  {
    if bs != [] {
      LeBounded(bs[1..]);
    }
  }

  lemma SignedInRange(u: nat, w: nat)
    requires w > 0 && u < Pow256(w)
    ensures InSigned(ToSigned(u, w), w)
  {
    PowEven(w);
  }

  lemma PowValues()
    ensures Pow256(2) == 0x1_0000
    ensures Pow256(4) == 0x1_0000_0000
    ensures Pow256(8) == 0x1_0000_0000_0000_0000
  {
    assert Pow256(1) == 256;
    assert Pow256(3) == 0x100_0000;
    assert Pow256(5) == 0x100_0000_0000;
    assert Pow256(6) == 0x1_0000_0000_0000;
    assert Pow256(7) == 0x100_0000_0000_0000;
  }

  lemma PowEven(w: nat)
    requires w > 0
    ensures Pow256(w) % 2 == 0 && Pow256(w) >= 256
  {
  }

  /** Decoding an encoded unsigned integer gives it back. */
  lemma {:induction false} LeRoundTrip(n: nat, w: nat)
    requires n < Pow256(w)
    ensures LeToNat(NatToLe(n, w)) == n
    decreases w
  {
    if w > 0 {
      LeRoundTrip(n / 256, w - 1);
      assert NatToLe(n, w)[1..] == NatToLe(n / 256, w - 1);
    }
  }

  /** Encoding a decoded byte string gives it back. */
  lemma {:induction false} LeBytesRoundTrip(bs: seq<byte>)
    ensures NatToLe(LeToNat(bs), |bs|) == bs
    decreases |bs|
  {
    if bs != [] {
      LeBytesRoundTrip(bs[1..]);
      var n := LeToNat(bs);
      assert n % 256 == bs[0] && n / 256 == LeToNat(bs[1..]);
    }
  }

  lemma SignedRoundTrip(x: int, w: nat)
    requires InSigned(x, w)
    ensures 0 <= FromSigned(x, w) < Pow256(w)
    ensures ToSigned(FromSigned(x, w) as nat, w) == x
  {
    PowEven(w);
  }

  lemma UnsignedRoundTrip(u: nat, w: nat)
    requires w > 0 && u < Pow256(w)
    ensures FromSigned(ToSigned(u, w), w) == u
  {
    PowEven(w);
  }

  /** Every field sits at its fixed little-endian offset. */
  lemma Offsets(buf: seq<byte>)
    requires |buf| >= EventSize
    ensures CreateInputEvent(buf).tvSec == ToSigned(LeToNat(buf[0..8]), 8)
    ensures CreateInputEvent(buf).tvUsec == ToSigned(LeToNat(buf[8..16]), 8)
    ensures CreateInputEvent(buf).evType == LeToNat(buf[16..18])
    ensures CreateInputEvent(buf).code == LeToNat(buf[18..20])
    ensures CreateInputEvent(buf).value == ToSigned(LeToNat(buf[20..24]), 4)
    ensures CreateInputEvent(buf) == CreateInputEvent(buf[..EventSize])
  {
    assert U8x8(buf[0..8]) == buf[0..8];
    assert U8x8(buf[8..16]) == buf[8..16];
    assert U8x2(buf[16..18]) == buf[16..18];
    assert U8x2(buf[18..20]) == buf[18..20];
    assert U8x4(buf[20..24]) == buf[20..24];
    var b := buf[..EventSize];
    assert b[0..8] == buf[0..8] && b[8..16] == buf[8..16] && b[16..18] == buf[16..18];
    assert b[18..20] == buf[18..20] && b[20..24] == buf[20..24];
  }

  /** Decoding the encoding of a well-formed event gives the same fields back. */
  lemma DecodeEncode(e: Event)
    requires WellFormed(e)
    ensures CreateInputEvent(Encode(e)) == e
  {
    var bs := Encode(e);
    var a := NatToLe(FromSigned(e.tvSec, 8) as nat, 8);
    var b := NatToLe(FromSigned(e.tvUsec, 8) as nat, 8);
    var c := NatToLe(e.evType as nat, 2);
    var d := NatToLe(e.code as nat, 2);
    var f := NatToLe(FromSigned(e.value, 4) as nat, 4);
    assert bs == a + b + c + d + f;
    assert bs[0..8] == a && bs[8..16] == b && bs[16..18] == c && bs[18..20] == d && bs[20..24] == f;
    Offsets(bs);
    SignedRoundTrip(e.tvSec, 8);
    SignedRoundTrip(e.tvUsec, 8);
    SignedRoundTrip(e.value, 4);
    LeRoundTrip(FromSigned(e.tvSec, 8) as nat, 8);
    LeRoundTrip(FromSigned(e.tvUsec, 8) as nat, 8);
    LeRoundTrip(e.evType as nat, 2);
    LeRoundTrip(e.code as nat, 2);
    LeRoundTrip(FromSigned(e.value, 4) as nat, 4);
  }

  /** Encoding a decoded record gives back its 24 bytes. */
  lemma EncodeDecode(buf: seq<byte>)
    requires |buf| >= EventSize
    ensures Encode(CreateInputEvent(buf)) == buf[..EventSize]
  {
    Offsets(buf);
    var e := CreateInputEvent(buf);
    FieldRoundTrip(buf[0..8], 8);
    FieldRoundTrip(buf[8..16], 8);
    FieldRoundTrip(buf[20..24], 4);
    LeBytesRoundTrip(buf[16..18]);
    LeBytesRoundTrip(buf[18..20]);
    assert NatToLe(FromSigned(e.tvSec, 8) as nat, 8) == buf[0..8];
    assert NatToLe(FromSigned(e.tvUsec, 8) as nat, 8) == buf[8..16];
    assert NatToLe(e.evType as nat, 2) == buf[16..18];
    assert NatToLe(e.code as nat, 2) == buf[18..20];
    assert NatToLe(FromSigned(e.value, 4) as nat, 4) == buf[20..24];
    SliceJoin(buf);
  }

  /** A signed field re-encodes to the bytes it was read from. */
  lemma FieldRoundTrip(bs: seq<byte>, w: nat)
    requires |bs| == w && w > 0
    ensures 0 <= FromSigned(ToSigned(LeToNat(bs), w), w)
    ensures NatToLe(FromSigned(ToSigned(LeToNat(bs), w), w) as nat, w) == bs
  {
    LeBounded(bs);
    UnsignedRoundTrip(LeToNat(bs), w);
    LeBytesRoundTrip(bs);
  }

  lemma SliceJoin(buf: seq<byte>)
    requires |buf| >= EventSize
    ensures buf[..EventSize] == buf[0..8] + buf[8..16] + buf[16..18] + buf[18..20] + buf[20..24]
  {
  }

  /** A record of 24 zero bytes decodes to type 0 with every field 0. */
  lemma ZeroRecord(buf: seq<byte>)
    requires |buf| >= EventSize
    requires forall i :: 0 <= i < EventSize ==> buf[i] == 0
    ensures CreateInputEvent(buf) == Event(0, 0, 0, 0, 0)
  {
    var zeros := buf[..EventSize];
    assert zeros == Encode(Event(0, 0, 0, 0, 0));
    EncodeDecode(buf);
    DecodeEncode(Event(0, 0, 0, 0, 0));
    Offsets(buf);
  }
}
