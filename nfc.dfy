/**
 * The messages `consume_device_events` (src/main.rs) builds from what the
 * NFC reader reports: a card with a Mete UUID, a plain card with its UID
 * bytes, or nothing readable. Every message has the event type "nfc"; the
 * payload says how to read the id.
 */
module Nfc {
  import opened Common

  /** `nfcservice::CardDetail`: a card the reader can identify. */
  datatype CardDetail = MeteUuid(uuid: string) | Plain(uid: seq<byte>)

  /** `NfcPayload`: how to read the id, and the id. */
  datatype NfcPayload = NfcPayload(idType: string, id: string)

  /** `NfcMessage`: the server-sent event type and its payload. */
  datatype NfcMessage = NfcMessage(msgType: string, payload: NfcPayload)

  // ---------------------------------------------------------------------
  // `{:02x}`: lower-case hexadecimal, two digits per byte

  /** A lower-case hexadecimal digit. */
  predicate IsHexChar(c: char) {
    ('0' <= c <= '9') || ('a' <= c <= 'f')
  }

  /** The digit of a value below 16. */
  function HexDigit(d: nat): (c: char)
    requires d < 16
    ensures IsHexChar(c)
  {
    if d < 10 then ('0' as int + d) as char else ('a' as int + d - 10) as char
  }

  /** The value of a lower-case hexadecimal digit. */
  function DigitValue(c: char): (r: Option<nat>)
    ensures r.Some? <==> IsHexChar(c)
    ensures r.Some? ==> r.value < 16
  {
    if '0' <= c <= '9' then Some(c as int - '0' as int)
    else if 'a' <= c <= 'f' then Some(c as int - 'a' as int + 10)
    else None
  }

  /** Digits and their values are inverse to each other. */
  lemma DigitRoundTrip(d: nat, c: char)
    requires d < 16
    ensures DigitValue(HexDigit(d)) == Some(d)
    ensures DigitValue(c) == Some(d) ==> HexDigit(d) == c
  {
  }

  /** One byte as two lower-case hexadecimal digits, zero-padded: the high digit, then the low digit. */
  function HexByte(b: byte): (s: string) {
    [HexDigit(b / 16), HexDigit(b % 16)]
  }

  /** The id of a plain card: every UID byte formatted as two hexadecimal digits, concatenated in order. */
  function Hex(uid: seq<byte>): (s: string) {
    if uid == [] then "" else HexByte(uid[0]) + Hex(uid[1..])
  }

  /** The bytes a string of lower-case hexadecimal digit pairs spells, if it is one. */
  function ParseHex(s: string): (r: Option<seq<byte>>)
    decreases |s|
  {
    if s == [] then Some([])
    else if |s| == 1 then None
    else match (DigitValue(s[0]), DigitValue(s[1]), ParseHex(s[2..]))
      case (Some(hi), Some(lo), Some(rest)) => Some([hi * 16 + lo] + rest)
      case _ => None
  }

  /** Two digits per byte, every one lower-case hexadecimal, byte `i` at characters `2i` and `2i + 1`. */
  lemma {:induction false} HexShape(uid: seq<byte>)
    ensures |Hex(uid)| == 2 * |uid|
    ensures forall j :: 0 <= j < |Hex(uid)| ==> IsHexChar(Hex(uid)[j])
    ensures forall i :: 0 <= i < |uid| ==> Hex(uid)[2 * i..2 * i + 2] == HexByte(uid[i])
    decreases |uid|
  {
    if uid != [] {
      HexShape(uid[1..]);
      var h := HexByte(uid[0]);
      var t := Hex(uid[1..]);
      assert Hex(uid) == h + t;
      forall i | 0 <= i < |uid|
        ensures Hex(uid)[2 * i..2 * i + 2] == HexByte(uid[i])
      {
        if i > 0 {
          assert Hex(uid)[2 * i..2 * i + 2] == t[2 * (i - 1)..2 * (i - 1) + 2];
          assert uid[1..][i - 1] == uid[i];
        }
      }
    }
  }

  /** Reading the hexadecimal id back gives the UID. */
  lemma {:induction false} ParseHexRoundTrip(uid: seq<byte>)
    ensures ParseHex(Hex(uid)) == Some(uid)
    decreases |uid|
  {
    if uid != [] {
      var b := uid[0];
      DigitRoundTrip(b / 16, HexDigit(b / 16));
      DigitRoundTrip(b % 16, HexDigit(b % 16));
      ParseHexRoundTrip(uid[1..]);
      var s := Hex(uid);
      assert s[2..] == Hex(uid[1..]);
      assert [b / 16 * 16 + b % 16] + uid[1..] == uid;
    }
  }

  /** A string parses exactly when it is the hexadecimal form of what it parses to. */
  lemma {:induction false} ParseHexSound(s: string)
    ensures ParseHex(s).Some? ==> Hex(ParseHex(s).value) == s
    decreases |s|
  {
    if |s| >= 2 && ParseHex(s).Some? {
      ParseHexSound(s[2..]);
      var hi := DigitValue(s[0]).value;
      var lo := DigitValue(s[1]).value;
      DigitRoundTrip(hi, s[0]);
      DigitRoundTrip(lo, s[1]);
      var b: byte := hi * 16 + lo;
      assert b / 16 == hi && b % 16 == lo;
      var bs := ParseHex(s).value;
      assert bs == [b] + ParseHex(s[2..]).value;
      assert bs[1..] == ParseHex(s[2..]).value;
      assert s == [s[0], s[1]] + s[2..];
    }
  }

  /** Different UIDs have different hexadecimal ids. */
  lemma HexInjective(a: seq<byte>, b: seq<byte>)
    ensures Hex(a) == Hex(b) <==> a == b
  {
    ParseHexRoundTrip(a);
    ParseHexRoundTrip(b);
  }

  // ---------------------------------------------------------------------
  // The message of a reader event

  /**
   * The `match nfc` of `consume_device_events`: no card gives id type
   * "invalid" with an empty id, a Mete card its UUID unchanged, a plain
   * card the hexadecimal form of its UID.
   */
  function ToMessage(nfc: Option<CardDetail>): (m: NfcMessage)
    ensures m.msgType == "nfc"
    ensures nfc.None? ==> m.payload == NfcPayload("invalid", "")
    ensures nfc.Some? && nfc.value.MeteUuid? ==> m.payload == NfcPayload("uuid", nfc.value.uuid)
    ensures nfc.Some? && nfc.value.Plain? ==> m.payload.idType == "plain"
  {
    match nfc
      case None => NfcMessage("nfc", NfcPayload("invalid", ""))
      case Some(MeteUuid(uuid)) => NfcMessage("nfc", NfcPayload("uuid", uuid))
      case Some(Plain(uid)) => NfcMessage("nfc", NfcPayload("plain", Hex(uid)))
  }

  /** What a client can tell from a message: the reader event it was built from, if any. */
  function FromMessage(m: NfcMessage): (r: Option<Option<CardDetail>>) {
    if m.msgType != "nfc" then None
    else if m.payload.idType == "invalid" then (if m.payload.id == "" then Some(None) else None)
    else if m.payload.idType == "uuid" then Some(Some(MeteUuid(m.payload.id)))
    else if m.payload.idType == "plain" then
      match ParseHex(m.payload.id)
        case Some(uid) => Some(Some(Plain(uid)))
        case None => None
    else None
  }

  /** A plain card's id is 2 lower-case hexadecimal characters per UID byte, in order. */
  lemma PlainId(uid: seq<byte>)
    ensures ToMessage(Some(Plain(uid))).payload.id == Hex(uid)
    ensures |ToMessage(Some(Plain(uid))).payload.id| == 2 * |uid|
    ensures forall j :: 0 <= j < 2 * |uid| ==> IsHexChar(ToMessage(Some(Plain(uid))).payload.id[j])
  {
    HexShape(uid);
  }

  /** Every message can be read back to the event it came from. */
  lemma MessageRoundTrip(nfc: Option<CardDetail>)
    ensures FromMessage(ToMessage(nfc)) == Some(nfc)
  {
    if nfc.Some? && nfc.value.Plain? {
      ParseHexRoundTrip(nfc.value.uid);
    }
  }

  /** Different events give different messages. */
  lemma ToMessageInjective(a: Option<CardDetail>, b: Option<CardDetail>)
    ensures ToMessage(a) == ToMessage(b) <==> a == b
  {
    MessageRoundTrip(a);
    MessageRoundTrip(b);
  }

  /** The UID bytes 0x04, 0xa1, 0xff read "04a1ff". */
  lemma PlainExample()
    ensures ToMessage(Some(Plain([0x04, 0xa1, 0xff]))) == NfcMessage("nfc", NfcPayload("plain", "04a1ff"))
  {
    assert Hex([0xff]) == "ff";
    assert Hex([0xa1, 0xff]) == "a1" + Hex([0xff]);
  }
}
