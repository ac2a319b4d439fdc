/**
 * The storno key of src/stornoservice.rs: a serial device that sends the
 * text "storno\n" when the key goes down and "stornoend\n" when it comes
 * up. Because one press sometimes sends both at once, a press only counts
 * when the end token arrives at least 50 ms after the last start token
 * (or after the reader started waiting).
 *
 * Time is an input: every chunk carries the instant (in nanoseconds of a
 * monotonic clock) at which its read returned, and each attempt is given
 * the instant at which it started waiting.
 */
module Storno {
  import opened Common
  import Backoff
  import Utf8

  /** The size of the read buffer (`[0u8; 512]`). */
  const BufSize: nat := 512

  /** `min_storno_time`: 50 ms, in nanoseconds. */
  const MinStornoTime: nat := 50_000_000

  /** `STORNO`, the ASCII text "storno\n" (s t o r n o, line feed), as bytes. */
  const StornoToken: seq<byte> := [0x73, 0x74, 0x6f, 0x72, 0x6e, 0x6f, 0x0a]

  /** `STORNOEND`, the ASCII text "stornoend\n" (s t o r n o e n d, line feed), as bytes. */
  const StornoEndToken: seq<byte> := [0x73, 0x74, 0x6f, 0x72, 0x6e, 0x6f, 0x65, 0x6e, 0x64, 0x0a]

  // ---------------------------------------------------------------------
  // Substrings

  /** `p` occurs in `s` starting at byte `k`. */
  predicate OccursAt(s: seq<byte>, p: seq<byte>, k: nat) {
    k + |p| <= |s| && s[k..k + |p|] == p
  }

  /**
   * `str::contains`: `p` occurs somewhere in `s`. For well-formed UTF-8
   * and an ASCII pattern, an occurrence among the bytes is an occurrence
   * among the characters, so the test is made on bytes.
   */
  predicate Contains(s: seq<byte>, p: seq<byte>) {
    exists k: nat | k <= |s| :: OccursAt(s, p, k)
  }

  /** Text around a pattern does not hide it. */
  lemma ContainsInside(a: seq<byte>, p: seq<byte>, b: seq<byte>)
    ensures Contains(a + p + b, p)
  {
    assert (a + p + b)[|a|..|a| + |p|] == p;
    assert OccursAt(a + p + b, p, |a|);
  }

  /** A text contains itself. */
  lemma ContainsSelf(p: seq<byte>)
    ensures Contains(p, p)
  {
    assert OccursAt(p, p, 0);
  }

  /** "stornoend\n" does not contain "storno\n", and "storno\n" does not contain "stornoend\n". */
  lemma TokensDistinct()
    ensures !Contains(StornoEndToken, StornoToken)
    ensures !Contains(StornoToken, StornoEndToken)
  {
    forall k: nat | k <= |StornoEndToken|
      ensures !OccursAt(StornoEndToken, StornoToken, k)
    {
      if k == 0 {
        assert StornoEndToken[0..7][6] != StornoToken[6];
      } else if k <= 3 {
        assert StornoEndToken[k..k + 7][0] != StornoToken[0];
      }
    }
  }

  // ---------------------------------------------------------------------
  // One attempt: reading until a debounced press

  /** What one `read` returns: the bytes read and the instant the read returned, or an I/O error. */
  datatype Chunk = Chunk(at: nat, bytes: seq<byte>) | ReadError

  /** Every read fits the 512-byte buffer. */
  predicate Fits(chunks: seq<Chunk>) {
    forall i :: 0 <= i < |chunks| ==> chunks[i].Chunk? ==> |chunks[i].bytes| <= BufSize
  }

  /** `Instant::elapsed`: the time since `since`, 0 when the clock reads earlier. */
  function Elapsed(since: nat, now: nat): (d: nat)
    ensures since <= now ==> since + d == now
    ensures now <= since ==> d == 0
  {
    if since <= now then now - since else 0
  }

  /** The timestamp after a chunk: the chunk's instant when it holds the start token. */
  function Restamp(storno: nat, c: Chunk): (t: nat)
    ensures t == storno || (c.Chunk? && t == c.at)
  {
    if c.Chunk? && Contains(c.bytes, StornoToken) then c.at else storno
  }

  /** A well-formed chunk holding the end token at least 50 ms after the (updated) timestamp. */
  predicate Fires(storno: nat, c: Chunk) {
    c.Chunk? && Contains(c.bytes, StornoEndToken) && Elapsed(Restamp(storno, c), c.at) >= MinStornoTime
  }

  /** How an attempt ends: a press after `used` reads, an error at read `used`, or the reads ran out with the timestamp `since`. */
  datatype DebounceEnd = Pulse(used: nat) | Failed(used: nat) | Awaiting(since: nat)

  /** The read loop of `try_read_storno` from read `i` on, with timestamp `storno`. */
  function DebounceFrom(storno: nat, chunks: seq<Chunk>, i: nat): (r: DebounceEnd)
    requires i <= |chunks|
    decreases |chunks| - i
  {
    if i == |chunks| then Awaiting(storno)
    else match chunks[i]
      case ReadError => Failed(i + 1)
      case Chunk(at, bytes) =>
        if |bytes| == 0 then DebounceFrom(storno, chunks, i + 1)
        else if !Utf8.Valid(bytes) then Failed(i + 1)
        else
          var stamp := if Contains(bytes, StornoToken) then at else storno;
          if Contains(bytes, StornoEndToken) && Elapsed(stamp, at) >= MinStornoTime then Pulse(i + 1)
          else DebounceFrom(stamp, chunks, i + 1)
  }

  /** An attempt that started waiting at `startedAt`. */
  function Debounce(startedAt: nat, chunks: seq<Chunk>): (r: DebounceEnd) {
    DebounceFrom(startedAt, chunks, 0)
  }

  /** The timestamp after the chunks `cs`. */
  function Stamp(storno: nat, cs: seq<Chunk>): (t: nat)
    decreases |cs|
  {
    if cs == [] then storno else Stamp(Restamp(storno, cs[0]), cs[1..])
  }

  /** A read of nothing changes nothing. */
  lemma EmptyReadSkipped(storno: nat, chunks: seq<Chunk>, i: nat)
    requires i < |chunks| && chunks[i].Chunk? && chunks[i].bytes == []
    ensures DebounceFrom(storno, chunks, i) == DebounceFrom(storno, chunks, i + 1)
    ensures Restamp(storno, chunks[i]) == storno
  {
  }

  /** A read that is not well-formed UTF-8 ends the attempt with an error. */
  lemma InvalidTextFails(storno: nat, chunks: seq<Chunk>, i: nat)
    requires i < |chunks| && chunks[i].Chunk? && !Utf8.Valid(chunks[i].bytes)
    ensures DebounceFrom(storno, chunks, i) == Failed(i + 1)
  {
  }

  /** When both tokens arrive in one read, the timestamp is that read's instant and nothing fires. */
  lemma BothTokensInOneRead(storno: nat, chunks: seq<Chunk>, i: nat)
    requires i < |chunks| && chunks[i].Chunk? && Utf8.Valid(chunks[i].bytes)
    requires Contains(chunks[i].bytes, StornoToken) && Contains(chunks[i].bytes, StornoEndToken)
    ensures DebounceFrom(storno, chunks, i) == DebounceFrom(chunks[i].at, chunks, i + 1)
  {
  }

  /** Both tokens are ASCII text and so well-formed UTF-8. */
  lemma TokensValid()
    ensures Utf8.Valid(StornoToken) && Utf8.Valid(StornoEndToken)
  {
    AsciiTokenValid(StornoToken);
    AsciiTokenValid(StornoEndToken);
  }

  lemma AsciiTokenValid(t: seq<byte>)
    requires t == StornoToken || t == StornoEndToken
    ensures Utf8.Valid(t)
  {
    assert forall i :: 0 <= i < |t| ==> t[i] < 0x80;
    Utf8.AsciiValid(t);
  }

  /** A read of the start token alone restamps to its instant and never fires. */
  lemma StartTokenRead(storno: nat, chunks: seq<Chunk>, i: nat)
    requires i < |chunks| && chunks[i].Chunk? && chunks[i].bytes == StornoToken
    ensures DebounceFrom(storno, chunks, i) == DebounceFrom(chunks[i].at, chunks, i + 1)
  {
    TokensDistinct();
    TokensValid();
    ContainsSelf(StornoToken);
  }

  /** A read of the end token alone keeps the timestamp and fires when 50 ms have passed since it. */
  lemma EndTokenRead(storno: nat, chunks: seq<Chunk>, i: nat)
    requires i < |chunks| && chunks[i].Chunk? && chunks[i].bytes == StornoEndToken
    ensures DebounceFrom(storno, chunks, i)
            == if Elapsed(storno, chunks[i].at) >= MinStornoTime then Pulse(i + 1) else DebounceFrom(storno, chunks, i + 1)
  {
    TokensDistinct();
    TokensValid();
    ContainsSelf(StornoEndToken);
  }

  /**
   * A press sent as a start token at `t0` and an end token at `t1`
   * (`t0 <= t1`) fires exactly when `t1 - t0` is at least 50 ms;
   * otherwise the reader keeps waiting with the timestamp `t0`.
   */
  lemma PressAndRelease(startedAt: nat, t0: nat, t1: nat)
    requires t0 <= t1
    ensures Debounce(startedAt, [Chunk(t0, StornoToken), Chunk(t1, StornoEndToken)])
            == if t1 - t0 >= MinStornoTime then Pulse(2) else Awaiting(t0)
  {
    PressAndReleaseIn(startedAt, [Chunk(t0, StornoToken), Chunk(t1, StornoEndToken)], 0);
  }

  lemma PressAndReleaseIn(startedAt: nat, chunks: seq<Chunk>, i: nat)
    requires i + 2 == |chunks| && chunks[i].Chunk? && chunks[i + 1].Chunk? && chunks[i].at <= chunks[i + 1].at
    requires chunks[i].bytes == StornoToken && chunks[i + 1].bytes == StornoEndToken
    ensures DebounceFrom(startedAt, chunks, i)
            == if chunks[i + 1].at - chunks[i].at >= MinStornoTime then Pulse(i + 2) else Awaiting(chunks[i].at)
  {
    StartTokenRead(startedAt, chunks, i);
    EndTokenRead(chunks[i].at, chunks, i + 1);
  }

  /** A release 30 ms after the press is ignored; one 60 ms after it fires. */
  lemma DebounceExamples()
    ensures Debounce(0, [Chunk(0, StornoToken), Chunk(30_000_000, StornoEndToken)]) == Awaiting(0)
    ensures Debounce(0, [Chunk(0, StornoToken), Chunk(60_000_000, StornoEndToken)]) == Pulse(2)
  {
    PressAndRelease(0, 0, 30_000_000);
    PressAndRelease(0, 0, 60_000_000);
  }

  /** Before any start token the timestamp is the instant the attempt started waiting. */
  lemma EndTokenFirst(startedAt: nat, at: nat)
    ensures Debounce(startedAt, [Chunk(at, StornoEndToken)])
            == if Elapsed(startedAt, at) >= MinStornoTime then Pulse(1) else Awaiting(startedAt)
  {
    EndTokenRead(startedAt, [Chunk(at, StornoEndToken)], 0);
  }

  /** One read of the loop, stated with `Restamp` and `Fires`. */
  lemma DebounceStep(storno: nat, chunks: seq<Chunk>, i: nat)
    requires i < |chunks|
    ensures chunks[i].ReadError? ==> DebounceFrom(storno, chunks, i) == Failed(i + 1)
    ensures chunks[i].Chunk? && chunks[i].bytes != [] && !Utf8.Valid(chunks[i].bytes) ==>
              DebounceFrom(storno, chunks, i) == Failed(i + 1)
    ensures chunks[i].Chunk? && Utf8.Valid(chunks[i].bytes) && Fires(storno, chunks[i]) ==>
              DebounceFrom(storno, chunks, i) == Pulse(i + 1)
    ensures chunks[i].Chunk? && Utf8.Valid(chunks[i].bytes) && !Fires(storno, chunks[i]) ==>
              DebounceFrom(storno, chunks, i) == DebounceFrom(Restamp(storno, chunks[i]), chunks, i + 1)
  {
    if chunks[i].Chunk? && chunks[i].bytes == [] {
      assert !OccursAt([], StornoEndToken, 0);
      assert !OccursAt([], StornoToken, 0);
    }
  }

  /**
   * An attempt ends with a press only at a well-formed read holding the
   * end token at least 50 ms after the timestamp the reads before it
   * left; it fails only at a read error or at a read that is not UTF-8;
   * and when the reads run out it is waiting with the timestamp they left.
   */
  lemma {:induction false} DebounceOutcome(storno: nat, chunks: seq<Chunk>, i: nat)
    requires i <= |chunks|
    ensures DebounceFrom(storno, chunks, i).Pulse? ==>
              var u := DebounceFrom(storno, chunks, i).used;
              i < u <= |chunks| && Fires(Stamp(storno, chunks[i..u - 1]), chunks[u - 1]) && Utf8.Valid(chunks[u - 1].bytes)
    ensures DebounceFrom(storno, chunks, i).Failed? ==>
              var u := DebounceFrom(storno, chunks, i).used;
              i < u <= |chunks| && (chunks[u - 1].ReadError? || !Utf8.Valid(chunks[u - 1].bytes))
    ensures DebounceFrom(storno, chunks, i).Awaiting? ==>
              DebounceFrom(storno, chunks, i).since == Stamp(storno, chunks[i..])
    decreases |chunks| - i
  {
    if i == |chunks| {
      assert chunks[i..] == [];
    } else {
      var c := chunks[i];
      DebounceStep(storno, chunks, i);
      if c.Chunk? && Utf8.Valid(c.bytes) {
        if Fires(storno, c) {
          assert chunks[i..i] == [];
        } else {
          var next := Restamp(storno, c);
          DebounceOutcome(next, chunks, i + 1);
          var r := DebounceFrom(next, chunks, i + 1);
          assert chunks[i..][1..] == chunks[i + 1..];
          if r.Pulse? {
            assert chunks[i..r.used - 1][1..] == chunks[i + 1..r.used - 1];
          }
        }
      }
    }
  }

  /**
   * `try_read_storno` once the device is held and the timestamp taken:
   * read into the 512-byte buffer, check that the bytes just read are
   * UTF-8, restamp on a start token, and return on an end token at least
   * 50 ms after the timestamp.
   */
  method ReadUntilPulse(startedAt: nat, chunks: seq<Chunk>) returns (end: DebounceEnd)
    requires Fits(chunks)
    ensures end == Debounce(startedAt, chunks)
  {
    var buf := new byte[BufSize](_ => 0);
    var storno := startedAt;
    var i := 0;
    while i < |chunks|
      invariant 0 <= i <= |chunks|
      invariant DebounceFrom(storno, chunks, i) == Debounce(startedAt, chunks)
    {
      match chunks[i] {
        case ReadError =>
          return Failed(i + 1);
        case Chunk(at, bytes) =>
          var r := |bytes|;
          if r != 0 {
            forall j | 0 <= j < r {
              buf[j] := bytes[j];
            }
            var st := buf[0..r];
            assert st == bytes;
            if !Utf8.Valid(st) {
              return Failed(i + 1);
            }
            if Contains(st, StornoToken) {
              storno := at;
            }
            if Contains(st, StornoEndToken) && Elapsed(storno, at) >= MinStornoTime {
              return Pulse(i + 1);
            }
          }
      }
      i := i + 1;
    }
    end := Awaiting(storno);
  }

  // ---------------------------------------------------------------------
  // The reader: acquisition, one attempt, and retry after errors

  /** An open serial device (`StornoFile`): the path it was opened from. */
  datatype StornoFile = StornoFile(dev: string)

  /** How `read_storno` ends: whether a press was read before the inputs ran out, the delays, and the reader afterwards. */
  datatype StornoOutcome = StornoOutcome(pressed: bool, delays: seq<nat>, after: Backoff.Holding)

  /**
   * `read_storno`: acquire the device, take the start instant, debounce;
   * after an error give up the device and start over on the reads that
   * follow. `starts[k]` is the instant attempt `k` starts waiting.
   */
  function ReadStornoFrom(h: Backoff.Holding, opens: seq<bool>, starts: seq<nat>, chunks: seq<Chunk>): (r: StornoOutcome)
    decreases |chunks|
  {
    var a := Backoff.Acquire(h, opens);
    if !a.after.held || starts == [] then StornoOutcome(false, a.delays, a.after)
    else match Debounce(starts[0], chunks)
      case Pulse(_) => StornoOutcome(true, a.delays, a.after)
      case Awaiting(_) => StornoOutcome(false, a.delays, a.after)
      case Failed(u) =>
        DebounceOutcome(starts[0], chunks, 0);
        var rest := ReadStornoFrom(Backoff.Holding(false, a.after.first), opens[a.attempts..], starts[1..], chunks[u..]);
        StornoOutcome(rest.pressed, a.delays + rest.delays, rest.after)
  }

  /** `r` with the delays `ds` requested before it. */
  function After(ds: seq<nat>, r: StornoOutcome): (o: StornoOutcome) {
    StornoOutcome(r.pressed, ds + r.delays, r.after)
  }

  /** Delays requested in two stretches add up. */
  lemma AfterAfter(ds: seq<nat>, es: seq<nat>, r: StornoOutcome)
    ensures After(ds, After(es, r)) == After(ds + es, r)
  {
    assert ds + (es + r.delays) == ds + es + r.delays;
  }

  /** One round of `read_storno`: the attempt, then either the end or the rounds after an error. */
  lemma ReadStornoStep(h: Backoff.Holding, opens: seq<bool>, starts: seq<nat>, chunks: seq<Chunk>,
                       a: Backoff.Acquired, end: Option<DebounceEnd>)
    requires a == Backoff.Acquire(h, opens)
    requires end == if a.after.held && starts != [] then Some(Debounce(starts[0], chunks)) else None
    ensures end.None? ==> ReadStornoFrom(h, opens, starts, chunks) == StornoOutcome(false, a.delays, a.after)
    ensures end.Some? && end.value.Pulse? ==> ReadStornoFrom(h, opens, starts, chunks) == StornoOutcome(true, a.delays, a.after)
    ensures end.Some? && end.value.Awaiting? ==> ReadStornoFrom(h, opens, starts, chunks) == StornoOutcome(false, a.delays, a.after)
    ensures end.Some? && end.value.Failed? ==>
              0 < end.value.used <= |chunks| &&
              ReadStornoFrom(h, opens, starts, chunks)
              == After(a.delays, ReadStornoFrom(Backoff.Holding(false, a.after.first), opens[a.attempts..], starts[1..], chunks[end.value.used..]))
  {
    if starts != [] {
      DebounceOutcome(starts[0], chunks, 0);
    }
  }

  /** An error drops the device and starts over with the next start instant on the reads after the error. */
  lemma ErrorRestarts(h: Backoff.Holding, opens: seq<bool>, starts: seq<nat>, chunks: seq<Chunk>)
    requires h.held && starts != [] && Debounce(starts[0], chunks).Failed?
    ensures Debounce(starts[0], chunks).used <= |chunks|
    ensures ReadStornoFrom(h, opens, starts, chunks)
            == ReadStornoFrom(Backoff.Holding(false, h.first), opens, starts[1..], chunks[Debounce(starts[0], chunks).used..])
  {
    DebounceOutcome(starts[0], chunks, 0);
    assert opens[0..] == opens;
    assert [] + ReadStornoFrom(Backoff.Holding(false, h.first), opens, starts[1..], chunks[Debounce(starts[0], chunks).used..]).delays
           == ReadStornoFrom(Backoff.Holding(false, h.first), opens, starts[1..], chunks[Debounce(starts[0], chunks).used..]).delays;
  }

  /**
   * Across all retries every delay is 0, 1, 2 or 4 seconds, and only the
   * very first attempt of a new reader waits 0 seconds.
   */
  lemma {:induction false} ReadStornoDelays(h: Backoff.Holding, opens: seq<bool>, starts: seq<nat>, chunks: seq<Chunk>)
    requires Backoff.Consistent(h)
    ensures Backoff.Consistent(ReadStornoFrom(h, opens, starts, chunks).after)
    ensures forall x :: x in ReadStornoFrom(h, opens, starts, chunks).delays ==> Backoff.Allowed(x)
    ensures forall i :: 0 <= i < |ReadStornoFrom(h, opens, starts, chunks).delays| && ReadStornoFrom(h, opens, starts, chunks).delays[i] == 0 ==>
              i == 0 && h.first == Some(0)
    decreases |chunks|
  {
    var a := Backoff.Acquire(h, opens);
    Backoff.AcquireDelays(h, opens);
    if a.after.held && starts != [] {
      DebounceOutcome(starts[0], chunks, 0);
      if Debounce(starts[0], chunks).Failed? {
        var h1 := Backoff.Holding(false, a.after.first);
        var u := Debounce(starts[0], chunks).used;
        var rest := ReadStornoFrom(h1, opens[a.attempts..], starts[1..], chunks[u..]);
        ReadStornoDelays(h1, opens[a.attempts..], starts[1..], chunks[u..]);
        assert h1.first == None;
        var r := a.delays + rest.delays;
        forall i | 0 <= i < |r| && r[i] == 0
          ensures i == 0 && h.first == Some(0)
        {
        }
      }
    }
  }

  /** `StornoReader`: the device path, the open device if any, and the first delay until it is taken. */
  class StornoReader {
    const dev: string
    var firstSleepSecs: Option<nat>
    var stornoFile: Option<StornoFile>

    /** The part of the reader the acquisition loop works on. */
    function Holds(): (h: Backoff.Holding)
      reads this
    {
      Backoff.Holding(stornoFile.Some?, firstSleepSecs)
    }

    ghost predicate Valid()
      reads this
    {
      Backoff.Consistent(Holds()) && (stornoFile.Some? ==> stornoFile.value.dev == dev)
    }

    /** `StornoReader::new`: no device yet, and the very first attempt waits 0 seconds. */
    constructor(dev: string)
      ensures this.dev == dev && stornoFile == None && firstSleepSecs == Some(0)
      ensures Valid()
    {
      this.dev := dev;
      stornoFile := None;
      firstSleepSecs := Some(0);
    }

    /**
     * `acquire_storno_fd`: unless the device is held, take the first
     * delay (1 second once taken), then wait and try to open the device
     * until it opens, backing off 0 -> 1 -> 2 -> 4 -> 4 after each failure.
     * `opens[i]` is whether attempt `i` opens the device.
     */
    method AcquireStornoFd(opens: seq<bool>) returns (attempts: nat, delays: seq<nat>)
      requires Valid()
      modifies this
      ensures Valid()
      ensures Backoff.Acquired(Holds(), attempts, delays) == Backoff.Acquire(old(Holds()), opens)
      ensures stornoFile.Some? ==> stornoFile.value == StornoFile(dev)
    {
      attempts := 0;
      delays := [];
      if stornoFile.None? {
        var sleepSecs := firstSleepSecs.UnwrapOr(1);
        firstSleepSecs := None;
        ghost var d0 := sleepSecs;
        while stornoFile.None? && attempts < |opens|
          invariant attempts <= |opens|
          invariant firstSleepSecs == None
          invariant delays == Backoff.Delays(d0, attempts)
          invariant stornoFile.None? ==> sleepSecs == Backoff.Last(d0, attempts)
          invariant forall j :: 0 <= j < attempts - 1 ==> !opens[j]
          invariant stornoFile.None? ==> forall j :: 0 <= j < attempts ==> !opens[j]
          invariant stornoFile.Some? ==> 0 < attempts && opens[attempts - 1] && stornoFile.value == StornoFile(dev)
          decreases |opens| - attempts
        {
          Backoff.DelaysSnoc(d0, attempts);
          delays := delays + [sleepSecs];
          if opens[attempts] {
            stornoFile := Some(StornoFile(dev));
          } else {
            if sleepSecs == 0 {
              sleepSecs := 1;
            } else {
              sleepSecs := sleepSecs * 2;
              if sleepSecs > 4 {
                sleepSecs := 4;
              }
            }
          }
          attempts := attempts + 1;
        }
        Backoff.AttemptsMadeAt(opens, attempts, stornoFile.Some?);
      }
    }

    /**
     * `try_read_storno`: acquire the device, then take the timestamp
     * (`startedAt`, the clock reading after acquisition) and debounce
     * `chunks`; no attempt (`None`) when the open outcomes run out first.
     */
    method TryReadStorno(opens: seq<bool>, startedAt: nat, chunks: seq<Chunk>) returns (attempts: nat, delays: seq<nat>, end: Option<DebounceEnd>)
      requires Valid() && Fits(chunks)
      modifies this
      ensures Valid()
      ensures Backoff.Acquired(Holds(), attempts, delays) == Backoff.Acquire(old(Holds()), opens)
      ensures end == if Holds().held then Some(Debounce(startedAt, chunks)) else None
    {
      attempts, delays := AcquireStornoFd(opens);
      if stornoFile.None? {
        return attempts, delays, None;
      }
      var e := ReadUntilPulse(startedAt, chunks);
      end := Some(e);
    }

    /**
     * `read_storno`: repeat `try_read_storno` on the inputs that follow,
     * dropping the device after every error, until a press is read or the
     * inputs run out.
     */
    method ReadStorno(opens: seq<bool>, starts: seq<nat>, chunks: seq<Chunk>) returns (pressed: bool, delays: seq<nat>)
      requires Valid() && Fits(chunks)
      modifies this
      ensures Valid()
      ensures StornoOutcome(pressed, delays, Holds()) == ReadStornoFrom(old(Holds()), opens, starts, chunks)
    {
      ghost var goal := ReadStornoFrom(Holds(), opens, starts, chunks);
      var os, ss, cs := opens, starts, chunks;
      delays := [];
      assert [] + goal.delays == goal.delays;
      while true
        invariant Valid() && Fits(cs)
        invariant After(delays, ReadStornoFrom(Holds(), os, ss, cs)) == goal
        decreases |cs|
      {
        ghost var h := Holds();
        ghost var done := delays;
        if ss == [] {
          // No start instant left for another attempt: acquisition still happens first.
          var attempts, ds := AcquireStornoFd(os);
          ReadStornoStep(h, os, ss, cs, Backoff.Acquired(Holds(), attempts, ds), None);
          delays := delays + ds;
          return false, delays;
        }
        var attempts, ds, end := TryReadStorno(os, ss[0], cs);
        ghost var a := Backoff.Acquired(Holds(), attempts, ds);
        ReadStornoStep(h, os, ss, cs, a, end);
        delays := delays + ds;
        match end {
          case None =>
            return false, delays;
          case Some(Pulse(_)) =>
            return true, delays;
          case Some(Awaiting(_)) =>
            return false, delays;
          case Some(Failed(u)) =>
            AfterAfter(done, ds, ReadStornoFrom(Backoff.Holding(false, a.after.first), os[attempts..], ss[1..], cs[u..]));
            stornoFile := None;
            os := os[attempts..];
            ss := ss[1..];
            cs := cs[u..];
        }
      }
    }
  }
}
