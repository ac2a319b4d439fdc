/**
 * The barcode reader of src/barcodeservice.rs: a keyboard-class device
 * whose key-release records spell digits and end with Enter.
 *
 * Each read fills a fixed 2048-byte buffer from its start; every complete
 * 24-byte slot of the WHOLE buffer is then decoded, so the trailing 8
 * bytes are never looked at and slots beyond the bytes just read still
 * hold zeros or the bytes of an earlier read of the same attempt.
 */
module Barcode {
  import opened Common
  import opened InputEvent
  import Backoff

  /** The size of the read buffer (`[0u8; 2048]`). */
  const BufSize: nat := 2048

  /** The number of whole records `chunks_exact` yields from the buffer (see `SlotGeometry`). */
  const SlotCount: nat := 85

  /** `EV_KEY`, the event type of key presses and releases. */
  const EvKey: int := 1

  /** The key code of Enter. */
  const KeyEnter: int := 28

  // ---------------------------------------------------------------------
  // Keys

  /** The digits of key codes 2, 3, ..., 11, in code order: the top row of a keyboard. */
  const DigitRow: string := "1234567890"

  /** The digit a key code appends to the scan buffer, if any (the `match event.code` table). */
  function KeyDigit(code: int): (c: Option<char>)
    ensures c.Some? <==> 2 <= code <= 11
    ensures c.Some? ==> IsDigit(c.value)
  {
    if 2 <= code <= 11 then Some(DigitRow[code - 2]) else None
  }

  predicate IsDigit(c: char) {
    '0' <= c <= '9'
  }

  predicate AllDigits(s: string) {
    forall i :: 0 <= i < |s| ==> IsDigit(s[i])
  }

  /** The key code of the digit key that produces `c` (the top row of a keyboard). */
  function DigitKey(c: char): (code: int)
    requires IsDigit(c)
  {
    if c == '0' then 11 else (c as int - '0' as int) + 1
  }

  /** Key codes 2..10 stand for "1".."9" in order, 11 for "0"; and every digit has its key. */
  lemma DigitKeys(c: char)
    requires IsDigit(c)
    ensures KeyDigit(DigitKey(c)) == Some(c)
    ensures 2 <= DigitKey(c) <= 11
  {
  }

  /** The release of key `code`, with a zero timestamp. */
  function Release(code: int): (e: Event)
    requires 0 <= code < 0x1_0000
    ensures WellFormed(e) && e.evType == EvKey && e.value == 0 && e.code == code
  {
    PowValues();
    Event(0, 0, EvKey, code, 0)
  }

  // ---------------------------------------------------------------------
  // The key state machine

  /** Where the scan stands: still accumulating digits, or a finished barcode. */
  datatype Scan = Scanning(s: string) | Scanned(code: string)

  predicate IsKeyRelease(e: Event) {
    e.evType == EvKey && e.value == 0
  }

  /** The effect of one decoded record on the scan buffer `s`. */
  function Step(s: string, e: Event): (r: Scan)
  {
    if e.evType != EvKey then Scanning(s)
    else if e.value != 0 then Scanning(s)
    else match KeyDigit(e.code)
      case Some(d) => Scanning(s + [d])
      case None =>
        if e.code == KeyEnter && |s| > 0 then Scanned(s)
        else Scanning("")
  }

  /** The effect of a sequence of records, stopping at the first finished barcode. */
  function Feed(s: string, evs: seq<Event>): (r: Scan)
    decreases |evs|
  {
    if evs == [] then Scanning(s)
    else match Step(s, evs[0])
      case Scanned(c) => Scanned(c)
      case Scanning(t) => Feed(t, evs[1..])
  }

  /** A record is acted on only when it is a key release; every other record leaves the buffer as it is. */
  lemma StepOnlyReleases(s: string, e: Event)
    ensures !IsKeyRelease(e) ==> Step(s, e) == Scanning(s)
    ensures Step(s, e).Scanned? ==> IsKeyRelease(e) && e.code == KeyEnter && Step(s, e).code == s && s != ""
  {
  }

  /** The buffer only ever holds ASCII digits, and a finished barcode is a non-empty digit string. */
  lemma StepKeepsDigits(s: string, e: Event)
    requires AllDigits(s)
    ensures Step(s, e).Scanning? ==> AllDigits(Step(s, e).s)
    ensures Step(s, e).Scanned? ==> AllDigits(Step(s, e).code) && Step(s, e).code != ""
  {
  }

  /** Enter on a non-empty buffer returns exactly the digits so far; on an empty one it continues with an empty buffer. */
  lemma EnterSubmits(s: string, e: Event)
    requires IsKeyRelease(e) && e.code == KeyEnter
    ensures Step(s, e) == if s == [] then Scanning([]) else Scanned(s)
  {
  }

  /** The release of a digit key appends its digit to the buffer. */
  lemma DigitAppends(s: string, e: Event)
    requires IsKeyRelease(e) && 2 <= e.code <= 11
    ensures Step(s, e) == Scanning(s + [DigitRow[e.code - 2]])
    ensures DigitKey(DigitRow[e.code - 2]) == e.code
  {
  }

  /** Any key that is neither a digit nor Enter clears the buffer. */
  lemma StrayKeyClears(s: string, e: Event)
    requires IsKeyRelease(e) && !(2 <= e.code <= 11) && e.code != KeyEnter
    ensures Step(s, e) == Scanning([])
  {
  }

  /** Records that are not key releases have no effect at all. */
  lemma {:induction false} FeedIgnoresNonReleases(s: string, evs: seq<Event>)
    requires forall i :: 0 <= i < |evs| ==> !IsKeyRelease(evs[i])
    ensures Feed(s, evs) == Scanning(s)
    decreases |evs|
  {
    if evs != [] {
      FeedIgnoresNonReleases(s, evs[1..]);
    }
  }

  /** Every buffer the machine reaches holds only digits, and every barcode it emits is a non-empty digit string. */
  lemma {:induction false} FeedKeepsDigits(s: string, evs: seq<Event>)
    requires AllDigits(s)
    ensures Feed(s, evs).Scanning? ==> AllDigits(Feed(s, evs).s)
    ensures Feed(s, evs).Scanned? ==> AllDigits(Feed(s, evs).code) && Feed(s, evs).code != ""
    decreases |evs|
  {
    if evs != [] {
      StepKeepsDigits(s, evs[0]);
      if Step(s, evs[0]).Scanning? {
        FeedKeepsDigits(Step(s, evs[0]).s, evs[1..]);
      }
    }
  }

  /** Feeding two sequences one after the other is feeding their concatenation. */
  lemma {:induction false} FeedAppend(s: string, a: seq<Event>, b: seq<Event>)
    ensures Feed(s, a + b) == match Feed(s, a)
                              case Scanned(c) => Scanned(c)
                              case Scanning(t) => Feed(t, b)
    decreases |a|
  {
    if a != [] {
      assert (a + b)[0] == a[0] && (a + b)[1..] == a[1..] + b;
      if Step(s, a[0]).Scanning? {
        FeedAppend(Step(s, a[0]).s, a[1..], b);
      }
    } else {
      assert a + b == b;
    }
  }

  /** Two records that differ only in their timestamps have the same effect. */
  predicate SameKey(a: Event, b: Event) {
    a.evType == b.evType && a.code == b.code && a.value == b.value
  }

  /** The scan never looks at timestamps: record sequences that agree key by key feed alike. */
  lemma {:induction false} FeedIgnoresTime(s: string, a: seq<Event>, b: seq<Event>)
    requires |a| == |b| && forall i :: 0 <= i < |a| ==> SameKey(a[i], b[i])
    ensures Feed(s, a) == Feed(s, b)
    decreases |a|
  {
    if a != [] {
      assert SameKey(a[0], b[0]);
      assert Step(s, a[0]) == Step(s, b[0]);
      if Step(s, a[0]).Scanning? {
        forall i | 0 <= i < |a[1..]|
          ensures SameKey(a[1..][i], b[1..][i])
        {
          assert a[1..][i] == a[i + 1] && b[1..][i] == b[i + 1];
        }
        FeedIgnoresTime(Step(s, a[0]).s, a[1..], b[1..]);
      }
    }
  }

  /** `evs` are releases of the digit keys spelling `ds`, one record per digit, whatever their timestamps. */
  predicate Spells(evs: seq<Event>, ds: string) {
    |evs| == |ds| &&
    forall i :: 0 <= i < |ds| ==> IsDigit(ds[i]) && IsKeyRelease(evs[i]) && evs[i].code == DigitKey(ds[i])
  }

  /** The releases of the digit keys spelling `ds`, with zero timestamps. */
  function DigitReleases(ds: string): (evs: seq<Event>)
    requires AllDigits(ds)
    ensures Spells(evs, ds)
  {
    if ds == [] then [] else [Release(DigitKey(ds[0]))] + DigitReleases(ds[1..])
  }

  /** Digit releases append their digits to the buffer in order. */
  lemma {:induction false} DigitsAccumulate(s: string, ds: string, evs: seq<Event>)
    requires Spells(evs, ds)
    ensures Feed(s, evs) == Scanning(s + ds)
    decreases |ds|
  {
    if ds == [] {
      assert s + ds == s;
    } else {
      DigitKeys(ds[0]);
      assert Step(s, evs[0]) == Scanning(s + [ds[0]]);
      assert Spells(evs[1..], ds[1..]) by {
        forall i | 0 <= i < |ds[1..]|
          ensures IsDigit(ds[1..][i]) && IsKeyRelease(evs[1..][i]) && evs[1..][i].code == DigitKey(ds[1..][i])
        {
          assert ds[1..][i] == ds[i + 1] && evs[1..][i] == evs[i + 1];
        }
      }
      DigitsAccumulate(s + [ds[0]], ds[1..], evs[1..]);
      assert s + [ds[0]] + ds[1..] == s + ds;
    }
  }

  /** Digits followed by Enter emit exactly the accumulated digits, when there are any. */
  lemma DigitsThenEnter(s: string, ds: string, evs: seq<Event>, enter: Event)
    requires Spells(evs, ds)
    requires IsKeyRelease(enter) && enter.code == KeyEnter
    ensures Feed(s, evs + [enter]) == if s + ds == [] then Scanning([]) else Scanned(s + ds)
  {
    FeedAppend(s, evs, [enter]);
    DigitsAccumulate(s, ds, evs);
    EnterSubmits(s + ds, enter);
  }

  /** "1", "2", "3", Enter yields "123"; a lone Enter yields nothing and leaves the buffer empty. */
  lemma ScanOneTwoThree()
    ensures Feed([], DigitReleases("123") + [Release(KeyEnter)]) == Scanned("123")
    ensures Feed([], [Release(KeyEnter)]) == Scanning([])
  {
    DigitsThenEnter([], "123", DigitReleases("123"), Release(KeyEnter));
    assert [] + "123" == "123";
  }

  /** Digit 4, a stray key, 5, 6, Enter yields "56": the stray key discards the "4". */
  lemma StrayKeyExample()
    ensures Feed([], [Release(5), Release(30), Release(6), Release(7), Release(KeyEnter)]) == Scanned("56")
  {
    var head := [Release(5), Release(30)];
    var tail := DigitReleases("56") + [Release(KeyEnter)];
    assert DigitReleases("56") == [Release(6), Release(7)];
    assert [Release(5), Release(30), Release(6), Release(7), Release(KeyEnter)] == head + tail;
    assert Feed([], head) == Scanning([]) by {
      assert Step([], head[0]) == Scanning("4");
      assert head[1..] == [Release(30)];
      assert Feed("4", head[1..]) == Scanning([]);
    }
    FeedAppend([], head, tail);
    DigitsThenEnter([], "56", DigitReleases("56"), Release(KeyEnter));
    assert [] + "56" == "56";
  }

  // ---------------------------------------------------------------------
  // Slots of the read buffer

  /** The 85 slots `chunks_exact` yields: the slot size divides 2040 of the 2048 bytes. */
  lemma SlotGeometry()
    ensures SlotCount == BufSize / EventSize && SlotCount * EventSize == 2040 && BufSize % EventSize == 8
  {
  }

  /** Slot `k` of a byte string: bytes `24k .. 24k+24`. */
  function Slot(bs: seq<byte>, k: nat): (r: seq<byte>)
    requires 24 * k + 24 <= |bs|
    ensures |r| == EventSize
  {
    bs[24 * k .. 24 * k + 24]
  }

  /** The records decoded from the slots of a full buffer. */
  function SlotEvents(buf: seq<byte>): (evs: seq<Event>)
    requires |buf| == BufSize
    ensures |evs| == SlotCount
  {
    DecodeAll(buf[..2040])
  }

  /** `chunks_exact(24)` followed by `create_input_event` on every chunk. */
  function DecodeAll(bs: seq<byte>): (evs: seq<Event>)
    ensures |evs| == |bs| / 24
    decreases |bs|
  {
    if |bs| < 24 then [] else [CreateInputEvent(bs[..24])] + DecodeAll(bs[24..])
  }

  /** Record `k` is decoded from bytes `24k .. 24k+24`. */
  lemma {:induction false} DecodeAllAt(bs: seq<byte>, k: nat)
    requires 24 * k + 24 <= |bs|
    ensures |DecodeAll(bs)| == |bs| / 24
    ensures DecodeAll(bs)[k] == CreateInputEvent(Slot(bs, k))
    decreases k
  {
    if k > 0 {
      DecodeAllAt(bs[24..], k - 1);
      assert Slot(bs[24..], k - 1) == Slot(bs, k);
    } else {
      assert bs[..24] == Slot(bs, 0);
    }
  }

  /** Slot `k` of the buffer holds record `k`. */
  lemma SlotAt(buf: seq<byte>, k: nat)
    requires |buf| == BufSize && k < SlotCount
    ensures SlotEvents(buf)[k] == CreateInputEvent(Slot(buf, k))
  {
    var head := buf[..2040];
    DecodeAllAt(head, k);
    assert Slot(head, k) == Slot(buf, k);
  }

  /** The trailing 8 bytes of the buffer never influence what is decoded. */
  lemma SlotsIgnoreTail(b1: seq<byte>, b2: seq<byte>)
    requires |b1| == BufSize && |b2| == BufSize
    requires b1[..2040] == b2[..2040]
    ensures SlotEvents(b1) == SlotEvents(b2)
  {
  }

  /** A slot of zeros decodes to a record of type 0, which the machine ignores. */
  lemma ZeroSlotIgnored(s: string, buf: seq<byte>, k: nat)
    requires |buf| == BufSize && k < SlotCount
    requires forall i :: 24 * k <= i < 24 * k + 24 ==> buf[i] == 0
    ensures SlotEvents(buf)[k] == Event(0, 0, 0, 0, 0)
    ensures Step(s, SlotEvents(buf)[k]) == Scanning(s)
  {
    SlotAt(buf, k);
    ZeroRecord(Slot(buf, k));
  }

  // ---------------------------------------------------------------------
  // One read session

  /** What one `read` returns: the bytes read (`r` of them), or an I/O error. */
  datatype ReadResult = Data(bytes: seq<byte>) | ReadError

  /** Every read fits the buffer it reads into. */
  predicate Fits(chunks: seq<ReadResult>, cap: nat) {
    forall i :: 0 <= i < |chunks| ==> chunks[i].Data? ==> |chunks[i].bytes| <= cap
  }

  /** How a read session ends: a barcode after `used` chunks, an error at read `used`, or the chunks ran out mid-scan. */
  datatype SessionEnd = Emitted(code: string, used: nat) | Failed(used: nat) | Awaiting(partial: string)

  /** A read of `chunk` into the buffer: the first `r` bytes are replaced, the rest keep their old contents. */
  function Overwrite(buf: seq<byte>, chunk: seq<byte>): (r: seq<byte>)
    requires |chunk| <= |buf|
    ensures |r| == |buf|
    ensures forall i :: 0 <= i < |chunk| ==> r[i] == chunk[i]
    ensures forall i :: |chunk| <= i < |buf| ==> r[i] == buf[i]
  {
    chunk + buf[|chunk|..]
  }

  /** The session from read `i` on, with buffer contents `buf` and scan buffer `s`. */
  function SessionFrom(buf: seq<byte>, s: string, chunks: seq<ReadResult>, i: nat): (r: SessionEnd)
    requires |buf| == BufSize && i <= |chunks| && Fits(chunks, BufSize)
    decreases |chunks| - i
  {
    if i == |chunks| then Awaiting(s)
    else match chunks[i]
      case ReadError => Failed(i + 1)
      case Data(bytes) =>
        if |bytes| == 0 then SessionFrom(buf, s, chunks, i + 1)
        else
          var next := Overwrite(buf, bytes);
          match Feed(s, SlotEvents(next))
          case Scanned(c) => Emitted(c, i + 1)
          case Scanning(t) => SessionFrom(next, t, chunks, i + 1)
  }

  /** A read session ends at a read it reached, and a failing one at a read that returned an error. */
  lemma {:induction false} SessionUsed(buf: seq<byte>, s: string, chunks: seq<ReadResult>, i: nat)
    requires |buf| == BufSize && i <= |chunks| && Fits(chunks, BufSize)
    ensures SessionFrom(buf, s, chunks, i).Emitted? ==> i < SessionFrom(buf, s, chunks, i).used <= |chunks|
    ensures SessionFrom(buf, s, chunks, i).Failed? ==> i < SessionFrom(buf, s, chunks, i).used <= |chunks|
    ensures SessionFrom(buf, s, chunks, i).Failed? ==> chunks[SessionFrom(buf, s, chunks, i).used - 1].ReadError?
    decreases |chunks| - i
  {
    if i < |chunks| && chunks[i].Data? {
      if |chunks[i].bytes| == 0 {
        SessionUsed(buf, s, chunks, i + 1);
      } else {
        var next := Overwrite(buf, chunks[i].bytes);
        var f := Feed(s, SlotEvents(next));
        if f.Scanning? {
          SessionUsed(next, f.s, chunks, i + 1);
        }
      }
    }
  }

  /** A zeroed buffer, as each `try_read_barcode` allocates it. */
  function Zeros(): (z: seq<byte>)
    ensures |z| == BufSize && forall i :: 0 <= i < BufSize ==> z[i] == 0
  {
    seq(BufSize, _ => 0)
  }

  /** A whole session of `try_read_barcode` after the device is held: fresh buffer, empty scan. */
  function Session(chunks: seq<ReadResult>): (r: SessionEnd)
    requires Fits(chunks, BufSize)
  {
    SessionFrom(Zeros(), [], chunks, 0)
  }

  /** Every barcode a session emits is a non-empty string of digits. */
  lemma {:induction false} SessionEmitsDigits(buf: seq<byte>, s: string, chunks: seq<ReadResult>, i: nat)
    requires |buf| == BufSize && i <= |chunks| && Fits(chunks, BufSize) && AllDigits(s)
    ensures SessionFrom(buf, s, chunks, i).Emitted? ==> AllDigits(SessionFrom(buf, s, chunks, i).code) && SessionFrom(buf, s, chunks, i).code != []
    ensures SessionFrom(buf, s, chunks, i).Awaiting? ==> AllDigits(SessionFrom(buf, s, chunks, i).partial)
    decreases |chunks| - i
  {
    if i < |chunks| && chunks[i].Data? {
      if |chunks[i].bytes| == 0 {
        SessionEmitsDigits(buf, s, chunks, i + 1);
      } else {
        var next := Overwrite(buf, chunks[i].bytes);
        FeedKeepsDigits(s, SlotEvents(next));
        if Feed(s, SlotEvents(next)).Scanning? {
          SessionEmitsDigits(next, Feed(s, SlotEvents(next)).s, chunks, i + 1);
        }
      }
    }
  }

  /** The bytes of a sequence of records, back to back. */
  function EncodeAll(evs: seq<Event>): (bs: seq<byte>)
    requires forall i :: 0 <= i < |evs| ==> WellFormed(evs[i])
  {
    if evs == [] then [] else Encode(evs[0]) + EncodeAll(evs[1..])
  }

  lemma {:induction false} EncodeAllLength(evs: seq<Event>)
    requires forall i :: 0 <= i < |evs| ==> WellFormed(evs[i])
    ensures |EncodeAll(evs)| == 24 * |evs|
    decreases |evs|
  {
    if evs != [] {
      EncodeAllLength(evs[1..]);
    }
  }

  /** Record `k` of the encoding sits in slot `k`. */
  lemma {:induction false} EncodeAllAt(evs: seq<Event>, k: nat)
    requires forall i :: 0 <= i < |evs| ==> WellFormed(evs[i])
    requires k < |evs|
    ensures |EncodeAll(evs)| == 24 * |evs|
    ensures Slot(EncodeAll(evs), k) == Encode(evs[k])
    decreases k
  {
    EncodeAllLength(evs);
    EncodeAllLength(evs[1..]);
    SlotShift(Encode(evs[0]), EncodeAll(evs[1..]), k);
    if k > 0 {
      EncodeAllAt(evs[1..], k - 1);
    }
  }

  /** Slots of `a + b` past a first 24-byte record `a` are the slots of `b`. */
  lemma SlotShift(a: seq<byte>, b: seq<byte>, k: nat)
    requires |a| == 24 && 24 * k + 24 <= |a + b|
    ensures k == 0 ==> Slot(a + b, k) == a
    ensures k > 0 ==> Slot(a + b, k) == Slot(b, k - 1)
  {
    if k > 0 {
      assert (a + b)[24..] == b;
      assert Slot(a + b, k) == (a + b)[24..][24 * (k - 1) .. 24 * (k - 1) + 24];
    }
  }

  /**
   * A buffer whose first slots hold the records `evs` and whose remaining
   * bytes are zero is scanned exactly like `evs` alone.
   */
  lemma ScanEncoded(s: string, buf: seq<byte>, evs: seq<Event>)
    requires |buf| == BufSize && |evs| <= SlotCount
    requires forall k :: 0 <= k < |evs| ==> WellFormed(evs[k]) && Slot(buf, k) == Encode(evs[k])
    requires forall i :: 24 * |evs| <= i < BufSize ==> buf[i] == 0
    ensures Feed(s, SlotEvents(buf)) == Feed(s, evs)
  {
    var slots := SlotEvents(buf);
    var n := |evs|;
    forall k | 0 <= k < n
      ensures slots[k] == evs[k]
    {
      SlotAt(buf, k);
      DecodeEncode(evs[k]);
    }
    forall k | n <= k < SlotCount
      ensures !IsKeyRelease(slots[k])
    {
      ZeroSlotIgnored(s, buf, k);
    }
    assert slots == evs + slots[n..];
    FeedAppend(s, evs, slots[n..]);
    if Feed(s, evs).Scanning? {
      FeedIgnoresNonReleases(Feed(s, evs).s, slots[n..]);
    }
  }

  /** A slot that lies within the bytes just read holds those bytes. */
  lemma OverwriteSlot(buf: seq<byte>, chunk: seq<byte>, k: nat)
    requires |chunk| <= |buf| && 24 * k + 24 <= |chunk|
    ensures Slot(Overwrite(buf, chunk), k) == Slot(chunk, k)
  {
    assert Overwrite(buf, chunk)[..|chunk|] == chunk;
  }

  /** After a read of the encoding of `evs`, its slots hold those records. */
  lemma OverwriteEncoded(buf: seq<byte>, evs: seq<Event>)
    requires |buf| == BufSize && |evs| <= SlotCount
    requires forall k :: 0 <= k < |evs| ==> WellFormed(evs[k])
    ensures |EncodeAll(evs)| == 24 * |evs| <= BufSize
    ensures forall k :: 0 <= k < |evs| ==> Slot(Overwrite(buf, EncodeAll(evs)), k) == Encode(evs[k])
    ensures forall i :: 24 * |evs| <= i < BufSize ==> Overwrite(buf, EncodeAll(evs))[i] == buf[i]
  {
    EncodeAllLength(evs);
    forall k | 0 <= k < |evs|
      ensures Slot(Overwrite(buf, EncodeAll(evs)), k) == Encode(evs[k])
    {
      EncodeAllAt(evs, k);
      OverwriteSlot(buf, EncodeAll(evs), k);
    }
  }

  /** One read carrying the records for "1", "2", "3" and Enter emits "123" after that read. */
  lemma SessionOneTwoThree()
    ensures Fits([Data(EncodeAll(DigitReleases("123") + [Release(KeyEnter)]))], BufSize)
    ensures Session([Data(EncodeAll(DigitReleases("123") + [Release(KeyEnter)]))]) == Emitted("123", 1)
  {
    var evs := DigitReleases("123") + [Release(KeyEnter)];
    OverwriteEncoded(Zeros(), evs);
    var next := Overwrite(Zeros(), EncodeAll(evs));
    ScanEncoded([], next, evs);
    ScanOneTwoThree();
  }

  /**
   * Bytes of an earlier read that a shorter later read does not overwrite
   * are decoded again: after a read of the records `a` and a read of the
   * fewer records `b`, the second scan sees `b` followed by the tail of `a`.
   */
  lemma StaleSlotsReplayed(a: seq<Event>, b: seq<Event>)
    requires 0 < |b| <= |a| <= SlotCount
    requires forall k :: 0 <= k < |a| ==> WellFormed(a[k])
    requires forall k :: 0 <= k < |b| ==> WellFormed(b[k])
    ensures Fits([Data(EncodeAll(a)), Data(EncodeAll(b))], BufSize)
    ensures Feed([], a).Scanned? ==> Session([Data(EncodeAll(a)), Data(EncodeAll(b))]) == Emitted(Feed([], a).code, 1)
    ensures Feed([], a).Scanning? ==>
              Session([Data(EncodeAll(a)), Data(EncodeAll(b))])
              == (match Feed(Feed([], a).s, b + a[|b|..])
                  case Scanned(c) => Emitted(c, 2)
                  case Scanning(t) => Awaiting(t))
  {
    var chunks := [Data(EncodeAll(a)), Data(EncodeAll(b))];
    EncodeAllLength(a);
    EncodeAllLength(b);
    assert Fits(chunks, BufSize);
    var b1 := Overwrite(Zeros(), EncodeAll(a));
    var b2 := Overwrite(b1, EncodeAll(b));
    FirstReadScan(a);
    SessionStep(Zeros(), [], chunks, 0, Feed([], a));
    if Feed([], a).Scanning? {
      var s1 := Feed([], a).s;
      SecondReadScan(s1, a, b);
      SessionStep(b1, s1, chunks, 1, Feed(s1, b + a[|b|..]));
    }
  }

  /** The first read of `StaleSlotsReplayed` scans `a`. */
  lemma FirstReadScan(a: seq<Event>)
    requires |a| <= SlotCount
    requires forall k :: 0 <= k < |a| ==> WellFormed(a[k])
    ensures |EncodeAll(a)| <= BufSize
    ensures Feed([], SlotEvents(Overwrite(Zeros(), EncodeAll(a)))) == Feed([], a)
  {
    OverwriteEncoded(Zeros(), a);
    ScanEncoded([], Overwrite(Zeros(), EncodeAll(a)), a);
  }

  /** The second read of `StaleSlotsReplayed` scans `b` and then the slots of `a` it left alone. */
  lemma SecondReadScan(s: string, a: seq<Event>, b: seq<Event>)
    requires |b| <= |a| <= SlotCount
    requires forall k :: 0 <= k < |a| ==> WellFormed(a[k])
    requires forall k :: 0 <= k < |b| ==> WellFormed(b[k])
    ensures |EncodeAll(a)| <= BufSize && |EncodeAll(b)| <= BufSize
    ensures Feed(s, SlotEvents(Overwrite(Overwrite(Zeros(), EncodeAll(a)), EncodeAll(b)))) == Feed(s, b + a[|b|..])
  {
    OverwriteEncoded(Zeros(), a);
    ReadOverEncoded(s, Overwrite(Zeros(), EncodeAll(a)), a, b);
  }

  /** A read of the records `b` over a buffer holding the records `a` and zeros leaves `b` and then the rest of `a`. */
  lemma ReadOverEncoded(s: string, buf: seq<byte>, a: seq<Event>, b: seq<Event>)
    requires |buf| == BufSize && |b| <= |a| <= SlotCount
    requires forall k :: 0 <= k < |a| ==> WellFormed(a[k]) && Slot(buf, k) == Encode(a[k])
    requires forall i :: 24 * |a| <= i < BufSize ==> buf[i] == 0
    requires forall k :: 0 <= k < |b| ==> WellFormed(b[k])
    ensures |EncodeAll(b)| <= BufSize
    ensures Feed(s, SlotEvents(Overwrite(buf, EncodeAll(b)))) == Feed(s, b + a[|b|..])
  {
    OverwriteEncoded(buf, b);
    var next := Overwrite(buf, EncodeAll(b));
    var seen := b + a[|b|..];
    forall k | 0 <= k < |seen|
      ensures WellFormed(seen[k]) && Slot(next, k) == Encode(seen[k])
    {
      if k >= |b| {
        SlotKept(buf, EncodeAll(b), k);
      }
    }
    ScanEncoded(s, next, seen);
  }

  /** A read of at most `24k` bytes leaves slot `k` as it was. */
  lemma SlotKept(buf: seq<byte>, chunk: seq<byte>, k: nat)
    requires |chunk| <= 24 * k && 24 * k + 24 <= |buf|
    ensures Slot(Overwrite(buf, chunk), k) == Slot(buf, k)
  {
  }

  /** Reads of "1", "2" and then of "3" leave "1232" scanned: the "2" of the first read is read twice. */
  lemma StaleDigitsExample()
    ensures Session([Data(EncodeAll(DigitReleases("12"))), Data(EncodeAll(DigitReleases("3")))]) == Awaiting("1232")
  {
    var a := DigitReleases("12");
    var b := DigitReleases("3");
    StaleSlotsReplayed(a, b);
    DigitsAccumulate([], "12", a);
    assert b + a[|b|..] == DigitReleases("32");
    DigitsAccumulate("12", "32", DigitReleases("32"));
    assert [] + "12" == "12" && "12" + "32" == "1232";
  }

  /**
   * `chunks_exact(24)` over the whole buffer, one `read` worth: decode all
   * 85 slots and run the key machine on each; stop at the first Enter that
   * closes a non-empty scan.
   */
  method ScanBuffer(buf: array<byte>, s0: string) returns (r: Scan)
    requires buf.Length == BufSize
    ensures r == Feed(s0, SlotEvents(buf[..]))
  {
    ghost var evs := SlotEvents(buf[..]);
    var s := s0;
    var k := 0;
    while k < SlotCount
      invariant 0 <= k <= SlotCount
      invariant Feed(s, evs[k..]) == Feed(s0, evs)
    {
      var event := CreateInputEvent(buf[24 * k .. 24 * k + 24]);
      SlotAt(buf[..], k);
      assert event == evs[k];
      assert evs[k..][1..] == evs[k + 1..];
      if event.evType == EvKey && event.value == 0 {
        match event.code {
          case 2 => s := s + "1";
          case 3 => s := s + "2";
          case 4 => s := s + "3";
          case 5 => s := s + "4";
          case 6 => s := s + "5";
          case 7 => s := s + "6";
          case 8 => s := s + "7";
          case 9 => s := s + "8";
          case 10 => s := s + "9";
          case 11 => s := s + "0";
          case 28 =>
            if |s| > 0 {
              return Scanned(s);
            }
            s := [];
          case _ =>
            s := [];
        }
      }
      k := k + 1;
    }
    r := Scanning(s);
  }

  /** One non-empty read, unfolded: the session emits from it or continues from its buffer. */
  lemma SessionStep(buf: seq<byte>, s: string, chunks: seq<ReadResult>, i: nat, scan: Scan)
    requires |buf| == BufSize && i < |chunks| && Fits(chunks, BufSize)
    requires chunks[i].Data? && |chunks[i].bytes| > 0
    requires scan == Feed(s, SlotEvents(Overwrite(buf, chunks[i].bytes)))
    ensures scan.Scanned? ==> SessionFrom(buf, s, chunks, i) == Emitted(scan.code, i + 1)
    ensures scan.Scanning? ==> SessionFrom(buf, s, chunks, i) == SessionFrom(Overwrite(buf, chunks[i].bytes), scan.s, chunks, i + 1)
  {
  }

  /**
   * `try_read_barcode` once the device is held: read into a zeroed
   * 2048-byte buffer, scan the whole buffer after every non-empty read,
   * and return at the first Enter that closes a non-empty scan.
   */
  method ScanUntilEnter(chunks: seq<ReadResult>) returns (end: SessionEnd)
    requires Fits(chunks, BufSize)
    ensures end == Session(chunks)
  {
    var buf := new byte[BufSize](_ => 0);
    var s: string := [];
    var i := 0;
    assert buf[..] == Zeros();
    ghost var goal := Session(chunks);
    ghost var cur := buf[..];
    while i < |chunks|
      invariant 0 <= i <= |chunks|
      invariant buf.Length == BufSize
      invariant cur == buf[..]
      invariant SessionFrom(cur, s, chunks, i) == goal
    {
      if chunks[i].ReadError? {
        return Failed(i + 1);
      }
      var bytes := chunks[i].bytes;
      var r := |bytes|;
      if r != 0 {
        forall j | 0 <= j < r {
          buf[j] := bytes[j];
        }
        assert buf[..] == Overwrite(cur, bytes);
        var scan := ScanBuffer(buf, s);
        SessionStep(cur, s, chunks, i, scan);
        cur := buf[..];
        match scan {
          case Scanned(code) => return Emitted(code, i + 1);
          case Scanning(t) => s := t;
        }
      }
      i := i + 1;
    }
    end := Awaiting(s);
  }

  // ---------------------------------------------------------------------
  // The scanner: acquisition, one attempt, and retry after errors

  /** An open, grabbed keyboard device (`KeyboardFile`): the path it was opened from. */
  datatype KeyboardFile = KeyboardFile(dev: string)

  /** How `read_barcode` ends: the barcode, if one was read before the outcomes ran out, the delays, and the reader afterwards. */
  datatype Reading = Reading(code: Option<string>, delays: seq<nat>, after: Backoff.Holding)

  /**
   * `read_barcode`: attempt a read session on the acquired device; after
   * a read error give up the device and start over (acquire again, fresh
   * buffer, empty scan) on the reads that follow.
   */
  function ReadBarcodeFrom(h: Backoff.Holding, opens: seq<bool>, chunks: seq<ReadResult>): (r: Reading)
    requires Fits(chunks, BufSize)
    decreases |chunks|
  {
    var a := Backoff.Acquire(h, opens);
    if !a.after.held then Reading(None, a.delays, a.after)
    else match Session(chunks)
      case Emitted(c, _) => Reading(Some(c), a.delays, a.after)
      case Awaiting(_) => Reading(None, a.delays, a.after)
      case Failed(u) =>
        SessionUsed(Zeros(), [], chunks, 0);
        var rest := ReadBarcodeFrom(Backoff.Holding(false, a.after.first), opens[a.attempts..], chunks[u..]);
        Reading(rest.code, a.delays + rest.delays, rest.after)
  }

  /** `r` with the delays `ds` requested before it. */
  function After(ds: seq<nat>, r: Reading): (o: Reading) {
    Reading(r.code, ds + r.delays, r.after)
  }

  /** Delays requested in two stretches add up. */
  lemma AfterAfter(ds: seq<nat>, es: seq<nat>, r: Reading)
    ensures After(ds, After(es, r)) == After(ds + es, r)
  {
    assert ds + (es + r.delays) == ds + es + r.delays;
  }

  /** One round of `read_barcode`: the attempt, then either the end or the rounds after a read error. */
  lemma ReadBarcodeStep(h: Backoff.Holding, opens: seq<bool>, chunks: seq<ReadResult>, a: Backoff.Acquired, end: Option<SessionEnd>)
    requires Fits(chunks, BufSize)
    requires a == Backoff.Acquire(h, opens)
    requires end == if a.after.held then Some(Session(chunks)) else None
    ensures end.None? ==> ReadBarcodeFrom(h, opens, chunks) == Reading(None, a.delays, a.after)
    ensures end.Some? && end.value.Emitted? ==> ReadBarcodeFrom(h, opens, chunks) == Reading(Some(end.value.code), a.delays, a.after)
    ensures end.Some? && end.value.Awaiting? ==> ReadBarcodeFrom(h, opens, chunks) == Reading(None, a.delays, a.after)
    ensures end.Some? && end.value.Failed? ==>
              0 < end.value.used <= |chunks| && Fits(chunks[end.value.used..], BufSize)
    ensures end.Some? && end.value.Failed? ==>
              ReadBarcodeFrom(h, opens, chunks)
              == After(a.delays, ReadBarcodeFrom(Backoff.Holding(false, a.after.first), opens[a.attempts..], chunks[end.value.used..]))
  {
    SessionUsed(Zeros(), [], chunks, 0);
  }

  /** A read error drops the device and starts over: the reads before the error are forgotten. */
  lemma ErrorRestarts(h: Backoff.Holding, opens: seq<bool>, chunks: seq<ReadResult>)
    requires Fits(chunks, BufSize) && h.held && Session(chunks).Failed?
    ensures Session(chunks).used <= |chunks|
    ensures ReadBarcodeFrom(h, opens, chunks)
            == ReadBarcodeFrom(Backoff.Holding(false, h.first), opens, chunks[Session(chunks).used..])
  {
    SessionUsed(Zeros(), [], chunks, 0);
    assert opens[0..] == opens;
    assert [] + ReadBarcodeFrom(Backoff.Holding(false, h.first), opens, chunks[Session(chunks).used..]).delays
           == ReadBarcodeFrom(Backoff.Holding(false, h.first), opens, chunks[Session(chunks).used..]).delays;
  }

  /** Whatever `read_barcode` returns is a non-empty string of digits. */
  lemma {:induction false} ReadBarcodeDigits(h: Backoff.Holding, opens: seq<bool>, chunks: seq<ReadResult>)
    requires Fits(chunks, BufSize)
    ensures ReadBarcodeFrom(h, opens, chunks).code.Some? ==>
              AllDigits(ReadBarcodeFrom(h, opens, chunks).code.value) && ReadBarcodeFrom(h, opens, chunks).code.value != []
    decreases |chunks|
  {
    var a := Backoff.Acquire(h, opens);
    if a.after.held {
      SessionEmitsDigits(Zeros(), [], chunks, 0);
      SessionUsed(Zeros(), [], chunks, 0);
      if Session(chunks).Failed? {
        ReadBarcodeDigits(Backoff.Holding(false, a.after.first), opens[a.attempts..], chunks[Session(chunks).used..]);
      }
    }
  }

  /**
   * Across all retries every delay is 0, 1, 2 or 4 seconds, and only the
   * very first attempt of a new scanner waits 0 seconds.
   */
  lemma {:induction false} ReadBarcodeDelays(h: Backoff.Holding, opens: seq<bool>, chunks: seq<ReadResult>)
    requires Fits(chunks, BufSize) && Backoff.Consistent(h)
    ensures Backoff.Consistent(ReadBarcodeFrom(h, opens, chunks).after)
    ensures forall x :: x in ReadBarcodeFrom(h, opens, chunks).delays ==> Backoff.Allowed(x)
    ensures forall i :: 0 <= i < |ReadBarcodeFrom(h, opens, chunks).delays| && ReadBarcodeFrom(h, opens, chunks).delays[i] == 0 ==>
              i == 0 && h.first == Some(0)
    decreases |chunks|
  {
    var a := Backoff.Acquire(h, opens);
    Backoff.AcquireDelays(h, opens);
    if a.after.held {
      SessionUsed(Zeros(), [], chunks, 0);
      if Session(chunks).Failed? {
        var h1 := Backoff.Holding(false, a.after.first);
        var rest := ReadBarcodeFrom(h1, opens[a.attempts..], chunks[Session(chunks).used..]);
        ReadBarcodeDelays(h1, opens[a.attempts..], chunks[Session(chunks).used..]);
        assert h1.first == None;
        var r := a.delays + rest.delays;
        forall i | 0 <= i < |r| && r[i] == 0
          ensures i == 0 && h.first == Some(0)
        {
        }
      }
    }
  }

  /** `BarcodeScanner`: the device path, the open device if any, and the first delay until it is taken. */
  class BarcodeScanner {
    const dev: string
    var keyboardFile: Option<KeyboardFile>
    var firstSleepSecs: Option<nat>

    /** The part of the scanner the acquisition loop works on. */
    function Holds(): (h: Backoff.Holding)
      reads this
    {
      Backoff.Holding(keyboardFile.Some?, firstSleepSecs)
    }

    ghost predicate Valid()
      reads this
    {
      Backoff.Consistent(Holds()) && (keyboardFile.Some? ==> keyboardFile.value.dev == dev)
    }

    /** `BarcodeScanner::new`: no device yet, and the very first attempt waits 0 seconds. */
    constructor(dev: string)
      ensures this.dev == dev && keyboardFile == None && firstSleepSecs == Some(0)
      ensures Valid()
    {
      this.dev := dev;
      keyboardFile := None;
      firstSleepSecs := Some(0);
    }

    /**
     * `acquire_keyboard_fd`: unless the device is held, take the first
     * delay (1 second once taken), then wait and try to open the device
     * until it opens, backing off 0 -> 1 -> 2 -> 4 -> 4 after each failure.
     * `opens[i]` is whether attempt `i` opens the device.
     */
    method AcquireKeyboardFd(opens: seq<bool>) returns (attempts: nat, delays: seq<nat>)
      requires Valid()
      modifies this
      ensures Valid()
      ensures Backoff.Acquired(Holds(), attempts, delays) == Backoff.Acquire(old(Holds()), opens)
      ensures keyboardFile.Some? ==> keyboardFile.value == KeyboardFile(dev)
    {
      attempts := 0;
      delays := [];
      if keyboardFile.None? {
        var sleepSecs := firstSleepSecs.UnwrapOr(1);
        firstSleepSecs := None;
        ghost var d0 := sleepSecs;
        while keyboardFile.None? && attempts < |opens|
          invariant attempts <= |opens|
          invariant firstSleepSecs == None
          invariant delays == Backoff.Delays(d0, attempts)
          invariant keyboardFile.None? ==> sleepSecs == Backoff.Last(d0, attempts)
          invariant forall j :: 0 <= j < attempts - 1 ==> !opens[j]
          invariant keyboardFile.None? ==> forall j :: 0 <= j < attempts ==> !opens[j]
          invariant keyboardFile.Some? ==> 0 < attempts && opens[attempts - 1] && keyboardFile.value == KeyboardFile(dev)
          decreases |opens| - attempts
        {
          Backoff.DelaysSnoc(d0, attempts);
          delays := delays + [sleepSecs];
          if opens[attempts] {
            keyboardFile := Some(KeyboardFile(dev));
          } else {
            if sleepSecs == 0 {
              sleepSecs := 1;
            } else {
              sleepSecs := sleepSecs * 2;
              if sleepSecs > 4 {
                sleepSecs := 4;
              }
            }
          }
          attempts := attempts + 1;
        }
        Backoff.AttemptsMadeAt(opens, attempts, keyboardFile.Some?);
      }
    }

    /**
     * `try_read_barcode`: acquire the device, then run one read session on
     * `chunks`; no session (`None`) when the open outcomes run out first.
     */
    method TryReadBarcode(opens: seq<bool>, chunks: seq<ReadResult>) returns (attempts: nat, delays: seq<nat>, end: Option<SessionEnd>)
      requires Valid() && Fits(chunks, BufSize)
      modifies this
      ensures Valid()
      ensures Backoff.Acquired(Holds(), attempts, delays) == Backoff.Acquire(old(Holds()), opens)
      ensures end == if Holds().held then Some(Session(chunks)) else None
    {
      attempts, delays := AcquireKeyboardFd(opens);
      if keyboardFile.None? {
        return attempts, delays, None;
      }
      var e := ScanUntilEnter(chunks);
      end := Some(e);
    }

    /**
     * `read_barcode`: repeat `try_read_barcode` on the outcomes and reads
     * that follow, dropping the device after every read error, until a
     * barcode is read or the outcomes run out.
     */
    method ReadBarcode(opens: seq<bool>, chunks: seq<ReadResult>) returns (code: Option<string>, delays: seq<nat>)
      requires Valid() && Fits(chunks, BufSize)
      modifies this
      ensures Valid()
      ensures Reading(code, delays, Holds()) == ReadBarcodeFrom(old(Holds()), opens, chunks)
    {
      ghost var goal := ReadBarcodeFrom(Holds(), opens, chunks);
      var os, cs := opens, chunks;
      delays := [];
      assert [] + goal.delays == goal.delays;
      while true
        invariant Valid() && Fits(cs, BufSize)
        invariant After(delays, ReadBarcodeFrom(Holds(), os, cs)) == goal
        decreases |cs|
      {
        ghost var h := Holds();
        ghost var done := delays;
        var attempts, ds, end := TryReadBarcode(os, cs);
        ghost var a := Backoff.Acquired(Holds(), attempts, ds);
        ReadBarcodeStep(h, os, cs, a, end);
        delays := delays + ds;
        match end {
          case None =>
            return None, delays;
          case Some(Emitted(s, _)) =>
            return Some(s), delays;
          case Some(Awaiting(_)) =>
            return None, delays;
          case Some(Failed(u)) =>
            AfterAfter(done, ds, ReadBarcodeFrom(Backoff.Holding(false, a.after.first), os[attempts..], cs[u..]));
            keyboardFile := None;
            os := os[attempts..];
            cs := cs[u..];
        }
      }
    }
  }
}
