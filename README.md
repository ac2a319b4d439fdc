# getraenkekassengeraete: a Dafny model of the device side of the drinks till

The service connects three devices to a till:
- a barcode scanner that presents itself as a keyboard;
- a "storno" (cancel) key on a serial line;
- an NFC card reader.

It publishes what they report as server-sent events, and an HTTP middleware lets only local clients in. This project models those parts and proves their properties:

- **`InputEvent`**: the 24-byte little-endian `input_event` record that `create_input_event` decodes, with an encoder as its inverse.
- **`Barcode`**: the barcode reader.
  - The key-release machine turns key codes 2–11 into the digits "1".."0" and emits the digits on Enter.
  - Each read decodes all 85 record slots of the whole 2048-byte buffer.
  - `try_read_barcode` is a loop over reads.
  - The `BarcodeScanner` class models acquisition with backoff and `read_barcode`, which restarts after an error.
- **`Backoff`**: the retry policy both device readers share.
  - The delays go 0, 1, 2, 4, 4, … in the first acquisition episode and 1, 2, 4, 4, … in every later one.
  - Acquisition does nothing while a device is held.
- **`Utf8`**: the well-formedness test `std::str::from_utf8` applies. It is the byte syntax of section 4 of RFC 3629, proved against an encoder of Unicode scalar values in both directions.
- **`Storno`**: the storno key.
  - The token tests for "storno\n" and "stornoend\n".
  - The 50 ms debounce over timed reads.
  - The `StornoReader` class, with the same acquisition loop and restart after errors.
- **`Nfc`**: the message `consume_device_events` builds from a card event. A plain card's UID is written as lower-case two-digit hex per byte, and a parser inverts it.
- **`Hub`**: the client registry and the `NEXT_CLIENT_ID` counter.
  - Subscription inserts a fresh id.
  - Publishing follows the `retain` rule: one copy to every client, and clients whose send fails are dropped.
- **`LocalRequest`**: the `force_local_request` gate.
  - An IPv4-mapped IPv6 address (section 2.5.5.2 of RFC 4291) is normalised to IPv4.
  - A request passes only when the address is loopback: 127.0.0.0/8 (section 3.2.1.3 of RFC 1122) or `::1` (section 2.5.3 of RFC 4291). Any other request is answered with 401.

The outside world becomes inputs and outputs:
- **Opening a device:** the outcome of every attempt is a `seq<bool>`.
- **Reads from a device:**
  - barcode reads are a sequence of byte chunks or read errors;
  - storno reads are a sequence of byte chunks, each carrying the clock reading at which its read returned, or read errors.
- **Clock readings:** each storno attempt's start instant is an input, in nanoseconds.
- **Sleeps:** the delays requested before each open attempt are returned as a trace.
- **Sends to clients:** the set of client ids whose send fails, one set per round.

The classes change their state in place:
- `BarcodeScanner` has the source's fields `keyboardFile` and `firstSleepSecs`;
- `StornoReader` has the source's fields `stornoFile` and `firstSleepSecs`;
- `Clients` puts two things of the source in one object: the shared client map (`Clients` is an alias for a mutex-guarded map there), and the process-wide static `NEXT_CLIENT_ID`. Since `main` builds a single registry, one object behaves as the two do.

Each method with a loop is proved equal to a specification function over those inputs. The properties the source promises are proved as lemmas about those functions.

## Model

| member | source | states |
|---|---|---|
| InputEvent.U8x8 | src/barcodeservice.rs:14-16 | the result is exactly the first 8 bytes of the slice |
| InputEvent.U8x4 | src/barcodeservice.rs:18-20 | the result is exactly the first 4 bytes of the slice |
| InputEvent.U8x2 | src/barcodeservice.rs:22-24 | the result is exactly the first 2 bytes of the slice |
| InputEvent.LeToNat | src/barcodeservice.rs:32-37 | the value a `from_le_bytes` gives for little-endian bytes, defined by its body; `LeBounded` bounds it below 256^w, and `LeRoundTrip`/`LeBytesRoundTrip` prove `NatToLe` its inverse |
| InputEvent.ToSigned | src/barcodeservice.rs:32-37 | the two's complement reading of the i64 and i32 fields, defined by its body; `SignedInRange`, `SignedRoundTrip` and `UnsignedRoundTrip` prove it a bijection onto the signed range with `FromSigned` as inverse |
| InputEvent.CreateInputEvent | src/barcodeservice.rs:29-39 | the decoded fields always lie in the ranges of i64 / i64 / u16 / u16 / i32 |
| InputEvent.Offsets | src/barcodeservice.rs:29-39 | tv_sec is read from bytes 0..8, tv_usec from 8..16, type from 16..18, code from 18..20 and value (signed) from 20..24; only the first 24 bytes matter |
| InputEvent.DecodeEncode | src/barcodeservice.rs:29-39 | decoding the encoding of any in-range field values gives them back |
| InputEvent.EncodeDecode | src/barcodeservice.rs:29-39 | encoding a decoded record gives back its 24 bytes |
| InputEvent.LeRoundTrip | src/barcodeservice.rs:32-37 | `from_le_bytes` inverts `to_le_bytes` for every value of the width |
| InputEvent.SignedRoundTrip | src/barcodeservice.rs:32-37 | the two's complement reading inverts the bit pattern of every in-range signed value |
| InputEvent.ZeroRecord | src/barcodeservice.rs:29-39 | 24 zero bytes decode to type 0 with all fields 0 |
| Barcode.KeyDigit | src/barcodeservice.rs:134-144 | a key code appends a digit exactly when it is 2..11, and what it appends is a digit |
| Barcode.DigitKeys | src/barcodeservice.rs:134-144 | codes 2..10 give "1".."9" and 11 gives "0": every digit has exactly one key code in 2..11 that produces it |
| Barcode.Step | src/barcodeservice.rs:128-157 | one record's effect on the scan buffer, defined by its body; pinned by `StepOnlyReleases`, `StepKeepsDigits`, `EnterSubmits`, `DigitAppends` and `StrayKeyClears` |
| Barcode.Feed | src/barcodeservice.rs:125-158 | the records of one scan in order, stopping at the first barcode, defined by its body; pinned by `FeedIgnoresNonReleases`, `FeedKeepsDigits`, `FeedAppend`, `FeedIgnoresTime`, `DigitsAccumulate` and `DigitsThenEnter` |
| Barcode.StepOnlyReleases | src/barcodeservice.rs:128-133 | a record that is not type 1 with value 0 leaves the buffer unchanged; a barcode is emitted only by an Enter release on a non-empty buffer, and it is that buffer |
| Barcode.StepKeepsDigits | src/barcodeservice.rs:134-156 | a digit-only buffer stays digit-only, and any barcode emitted is a non-empty digit string |
| Barcode.EnterSubmits | src/barcodeservice.rs:145-152 | for any Enter key release, whatever its timestamp: the accumulated digits are returned when there are any; otherwise scanning continues with an empty buffer |
| Barcode.DigitAppends | src/barcodeservice.rs:134-144 | any release of key code 2..11, whatever its timestamp, appends that key's digit, and the digit's key is that code |
| Barcode.StrayKeyClears | src/barcodeservice.rs:153-156 | any release of a key that is neither a digit key nor Enter, whatever its timestamp, clears the buffer |
| Barcode.FeedIgnoresNonReleases | src/barcodeservice.rs:128-133 | records that are not key releases have no effect on the scan |
| Barcode.FeedKeepsDigits | src/barcodeservice.rs:134-156 | across any sequence of records the buffer holds only ASCII digits and emitted barcodes are non-empty digit strings |
| Barcode.FeedAppend | src/barcodeservice.rs:125-158 | scanning two record sequences one after the other is scanning their concatenation, stopping at the first barcode |
| Barcode.FeedIgnoresTime | src/barcodeservice.rs:128-156 | two record sequences that agree on type, code and value record by record scan alike: timestamps never matter |
| Barcode.DigitsAccumulate | src/barcodeservice.rs:134-144 | any sequence of digit-key releases spelling `ds`, whatever their timestamps, appends `ds` to the buffer |
| Barcode.DigitsThenEnter | src/barcodeservice.rs:134-152 | digit-key releases spelling `ds` then any Enter release emit the buffer plus `ds` when that is non-empty, and otherwise continue with an empty buffer |
| Barcode.ScanOneTwoThree | src/barcodeservice.rs:134-152 | "1", "2", "3", Enter yields "123"; a lone Enter yields nothing |
| Barcode.StrayKeyExample | src/barcodeservice.rs:134-156 | 4, a stray key, 5, 6, Enter yields "56" |
| Barcode.SlotGeometry | src/barcodeservice.rs:112-113 | the 2048-byte buffer holds 85 whole 24-byte slots, and 8 bytes are left over |
| Barcode.DecodeAll | src/barcodeservice.rs:125-126 | one record per whole 24-byte chunk, the remainder dropped; `DecodeAllAt` says which bytes record k comes from |
| Barcode.SlotEvents | src/barcodeservice.rs:113-126 | the 85 records of the whole 2048-byte buffer; `SlotAt` and `SlotsIgnoreTail` pin their bytes and the ignored tail |
| Barcode.DecodeAllAt | src/barcodeservice.rs:125-126 | `chunks_exact` then `create_input_event`: record k is decoded from bytes 24k..24k+24 |
| Barcode.SlotAt | src/barcodeservice.rs:125-126 | slot k of the full buffer yields record k |
| Barcode.SlotsIgnoreTail | src/barcodeservice.rs:113-125 | the trailing 8 bytes never influence what is decoded |
| Barcode.ZeroSlotIgnored | src/barcodeservice.rs:125-130 | an all-zero slot decodes to type 0 and leaves the buffer unchanged |
| Barcode.Overwrite | src/barcodeservice.rs:119 | a read replaces the first r bytes of the buffer and keeps the rest |
| Barcode.SessionFrom | src/barcodeservice.rs:118-159 | the read loop of `try_read_barcode` from read i on, defined by its body; pinned by `SessionUsed`, `SessionEmitsDigits`, `SessionStep` and `StaleSlotsReplayed` |
| Barcode.Session | src/barcodeservice.rs:111-159 | one attempt, from a zeroed buffer and an empty string; `SessionOneTwoThree` and `StaleDigitsExample` are instances, and `ScanUntilEnter` proves the array loop equal to it |
| Barcode.SessionUsed | src/barcodeservice.rs:118-159 | a session ends at a read it actually reached; a failed session ends at a read that returned an error |
| Barcode.SessionEmitsDigits | src/barcodeservice.rs:118-159 | every barcode a session returns is a non-empty digit string |
| Barcode.ScanEncoded | src/barcodeservice.rs:125-158 | a buffer that holds encoded records followed by zeros scans exactly as those records |
| Barcode.OverwriteEncoded | src/barcodeservice.rs:119-125 | after a read of encoded records, slot k holds record k and the bytes past them are unchanged |
| Barcode.SessionOneTwoThree | src/barcodeservice.rs:111-159 | one read carrying "1", "2", "3", Enter makes the session return "123" after that read |
| Barcode.StaleSlotsReplayed | src/barcodeservice.rs:113-125 | after a read of records a and a shorter read of records b, the second scan sees b followed by the part of a that b did not overwrite |
| Barcode.StaleDigitsExample | src/barcodeservice.rs:113-158 | a read of "1", "2" followed by a read of "3" leaves "1232" in the buffer |
| Barcode.ScanBuffer | src/barcodeservice.rs:125-158 | the slot loop over the buffer array computes the key machine over the 85 decoded slots |
| Barcode.SessionStep | src/barcodeservice.rs:119-158 | one non-empty read either emits from its buffer or carries its buffer and scan into the next read |
| Barcode.ScanUntilEnter | src/barcodeservice.rs:112-159 | the read loop over a zeroed 2048-byte array computes `Session`: empty reads are skipped, an error ends it, and an Enter that closes a non-empty scan returns the digits |
| Barcode.ReadBarcodeFrom | src/barcodeservice.rs:162-173 | `read_barcode` over the scripted inputs, defined by its body; pinned by `ReadBarcodeStep`, `ErrorRestarts`, `ReadBarcodeDigits` and `ReadBarcodeDelays`, and `ReadBarcode` is proved equal to it |
| Barcode.AfterAfter | src/barcodeservice.rs:162-173 | proof helper: prefixing two delay traces in turn prefixes their concatenation |
| Barcode.ReadBarcodeStep | src/barcodeservice.rs:162-173 | the outcome of `read_barcode` is the outcome of its first attempt, or, after a read error, that attempt's delays followed by the rounds on the remaining inputs, starting from a dropped device |
| Barcode.ErrorRestarts | src/barcodeservice.rs:162-173 | a read error drops the device and starts over with an empty buffer on the reads after the error; what was scanned before is forgotten |
| Barcode.ReadBarcodeDigits | src/barcodeservice.rs:162-173 | whatever `read_barcode` returns is a non-empty digit string |
| Barcode.ReadBarcodeDelays | src/barcodeservice.rs:82-173 | across all retries every delay is 0, 1, 2 or 4 seconds, and only the very first attempt of a new scanner waits 0 |
| Barcode.BarcodeScanner.constructor | src/barcodeservice.rs:73-80 | no device, and a first delay of 0 |
| Barcode.BarcodeScanner.AcquireKeyboardFd | src/barcodeservice.rs:82-109 | the loop's attempts, delays and new state are those of `Backoff.Acquire`; a held device is the one at `dev` |
| Barcode.BarcodeScanner.TryReadBarcode | src/barcodeservice.rs:111-160 | acquisition as in `Backoff.Acquire`, then, once the device is held, the session over the reads |
| Barcode.BarcodeScanner.ReadBarcode | src/barcodeservice.rs:162-173 | the retry loop's barcode, delay trace and final state are those of `ReadBarcodeFrom` |
| Backoff.NextDelay | src/barcodeservice.rs:94-101 | an allowed delay stays allowed and becomes non-zero, no delay passes the 4-second cap, and a delay below the cap grows; the exact values 0, 1, 2, 4, 4 are proved by `FirstEpisodeSequence`, `LaterEpisodeSequence` and `CappedSequence` |
| Backoff.EpisodeStart | src/barcodeservice.rs:87 | an episode starts at the stored 0 when the first delay has not been taken, and otherwise at 1 |
| Backoff.AttemptsMade | src/barcodeservice.rs:88-105 | the attempts run up to and including the first success, or through every outcome when none succeeds |
| Backoff.Delays | src/barcodeservice.rs:87-101 | the delays of one acquisition episode, defined by its body; pinned by `DelaysLength`, `DelaysAt`, `FirstEpisodeSequence`, `LaterEpisodeSequence`, `CappedSequence`, `DelaysAllowed` and `ZeroOnlyFirst` |
| Backoff.FirstEpisodeSequence | src/barcodeservice.rs:78-101 | the first episode waits 0, 1, 2, 4, 4, … seconds |
| Backoff.LaterEpisodeSequence | src/barcodeservice.rs:87-101 | every later episode waits 1, 2, 4, 4, … seconds |
| Backoff.CappedSequence | src/barcodeservice.rs:97-100 | once at 4 seconds the delay stays at 4 |
| Backoff.DelaysAllowed | src/barcodeservice.rs:87-101 | every requested delay is 0, 1, 2 or 4 |
| Backoff.ZeroOnlyFirst | src/barcodeservice.rs:94-96 | only the first attempt of an episode can wait 0 |
| Backoff.DelaysSnoc | src/barcodeservice.rs:88-101 | proof helper: one more loop iteration appends the current delay and advances it by `NextDelay` |
| Backoff.Acquire | src/barcodeservice.rs:82-109 | a held device makes no attempt and no change; otherwise the first delay is taken, and after the attempts the device is held exactly when some outcome opened it; every attempt but the last failed, the last one opened the device when it ends up held, and every outcome was used when it does not; the delays are those of `Delays` from the episode start; consistency of the first-delay slot is kept; `acquire_storno_fd` (src/stornoservice.rs:56-83) runs the same loop |
| Backoff.AcquireDelays | src/barcodeservice.rs:87-101 | the delays of one acquisition follow 0, 1, 2, 4, … or 1, 2, 4, … according to the first-delay slot; each is one of 0, 1, 2 and 4; only the very first attempt of a reader waits 0; the same holds for `acquire_storno_fd` (src/stornoservice.rs:61-75) |
| Backoff.AttemptsMadeAt | src/barcodeservice.rs:88-105 | a loop that stopped at a success or ran out of outcomes made exactly `AttemptsMade` attempts, and it succeeded exactly when some outcome opens |
| Utf8.Valid | src/stornoservice.rs:100 | the acceptance test of `from_utf8`: the bytes split into well-formed characters; pinned by `EncodeValid`, `DecodeValid`, `AsciiValid` and `LeadingTailInvalid` |
| Utf8.CharWidth | src/stornoservice.rs:100 | the width of the well-formed character at the front is at most 4 and at most what is there; ASCII has width 1 and a continuation byte starts nothing |
| Utf8.EncodeDecodeChar | src/stornoservice.rs:100 | the shortest encoding of any scalar value is one well-formed character that decodes back to it |
| Utf8.DecodeEncodeChar | src/stornoservice.rs:100 | every well-formed character is the shortest encoding of a scalar value (no overlong form, no surrogate, nothing above U+10FFFF) |
| Utf8.Decode | src/stornoservice.rs:100 | well-formed bytes decode to scalar values, no more of them than bytes |
| Utf8.EncodeValid | src/stornoservice.rs:100 | the encoding of any scalar values is accepted and decodes back to them |
| Utf8.DecodeValid | src/stornoservice.rs:100 | every accepted byte string is the encoding of its decoded scalar values |
| Utf8.AsciiValid | src/stornoservice.rs:100 | ASCII bytes are accepted |
| Utf8.LeadingTailInvalid | src/stornoservice.rs:100 | bytes that start with a continuation byte are rejected |
| Storno.Contains | src/stornoservice.rs:101-104 | the substring test on the read text, defined as an occurrence at some offset; pinned by `ContainsInside`, `ContainsSelf` and `TokensDistinct` |
| Storno.ContainsInside | src/stornoservice.rs:101-104 | a token surrounded by any text is found |
| Storno.ContainsSelf | src/stornoservice.rs:101-104 | a token alone is found |
| Storno.TokensDistinct | src/stornoservice.rs:15-16 | "stornoend\n" does not contain "storno\n", and the reverse |
| Storno.TokensValid | src/stornoservice.rs:15-16 | both tokens are well-formed UTF-8 |
| Storno.Elapsed | src/stornoservice.rs:104 | `elapsed` is the time since the timestamp, and 0 when the clock reads earlier |
| Storno.DebounceFrom | src/stornoservice.rs:94-107 | the read loop of `try_read_storno` from read i on, defined by its body; pinned by `EmptyReadSkipped`, `InvalidTextFails`, `BothTokensInOneRead`, `StartTokenRead`, `EndTokenRead`, `DebounceStep` and `DebounceOutcome` |
| Storno.Debounce | src/stornoservice.rs:85-107 | one attempt whose timestamp starts at its start instant; `EndTokenFirst`, `PressAndRelease` and `DebounceExamples` pin it, and `ReadUntilPulse` proves the array loop equal to it |
| Storno.EmptyReadSkipped | src/stornoservice.rs:97-99 | a zero-length read changes neither the outcome nor the timestamp |
| Storno.InvalidTextFails | src/stornoservice.rs:100 | a read that is not well-formed UTF-8 ends the attempt with an error at that read |
| Storno.BothTokensInOneRead | src/stornoservice.rs:101-104 | when both tokens arrive in one read the timestamp becomes that read's instant and nothing fires |
| Storno.StartTokenRead | src/stornoservice.rs:101-103 | a read of the start token sets the timestamp to its instant and does not fire |
| Storno.EndTokenRead | src/stornoservice.rs:104-106 | a read of the end token fires exactly when at least 50 ms have passed since the timestamp, and otherwise keeps reading with the same timestamp |
| Storno.PressAndRelease | src/stornoservice.rs:92-106 | a start token at t0 and an end token at t1 fire exactly when t1 − t0 ≥ 50 ms; otherwise the attempt keeps waiting with timestamp t0 |
| Storno.DebounceExamples | src/stornoservice.rs:92-106 | start at 0 ms and end at 30 ms: no emission; end at 60 ms: emission |
| Storno.EndTokenFirst | src/stornoservice.rs:92-104 | before any start token the timestamp is the instant the attempt started waiting |
| Storno.DebounceStep | src/stornoservice.rs:96-106 | one read: a read error or invalid text fails; a well-formed read that fires pulses; otherwise the loop continues with the restamped timestamp |
| Storno.DebounceOutcome | src/stornoservice.rs:94-107 | a press is reported only at a well-formed read holding the end token at least 50 ms after the timestamp the earlier reads left; a failure happens only at a read error or invalid text; when the reads run out the attempt is waiting with that timestamp |
| Storno.ReadUntilPulse | src/stornoservice.rs:87-107 | the read loop over the 512-byte array computes `Debounce` from the start instant |
| Storno.ReadStornoFrom | src/stornoservice.rs:110-120 | `read_storno` over the scripted inputs, defined by its body; pinned by `ReadStornoStep`, `ErrorRestarts` and `ReadStornoDelays`, and `ReadStorno` is proved equal to it |
| Storno.AfterAfter | src/stornoservice.rs:110-120 | proof helper: prefixing two delay traces in turn prefixes their concatenation |
| Storno.ReadStornoStep | src/stornoservice.rs:110-120 | the outcome of `read_storno` is its first attempt's, or, after an error, that attempt's delays followed by the rounds on the remaining inputs, starting from a dropped device |
| Storno.ErrorRestarts | src/stornoservice.rs:112-117 | an error drops the device and starts over on the reads after the error, with a new start instant |
| Storno.ReadStornoDelays | src/stornoservice.rs:56-120 | across all retries every delay is 0, 1, 2 or 4 seconds, and only the very first attempt of a new reader waits 0 |
| Storno.StornoReader.constructor | src/stornoservice.rs:48-54 | no device, and a first delay of 0 |
| Storno.StornoReader.AcquireStornoFd | src/stornoservice.rs:56-83 | the loop's attempts, delays and new state are those of `Backoff.Acquire`; a held device is the one at `dev` |
| Storno.StornoReader.TryReadStorno | src/stornoservice.rs:85-108 | acquisition as in `Backoff.Acquire`, then, once the device is held, the debounce from the start instant |
| Storno.StornoReader.ReadStorno | src/stornoservice.rs:110-120 | the retry loop's result, delay trace and final state are those of `ReadStornoFrom` |
| Nfc.HexDigit | src/main.rs:70 | every digit is a lower-case hexadecimal character |
| Nfc.DigitValue | src/main.rs:70 | exactly the lower-case hexadecimal characters have a value, and it is below 16 |
| Nfc.DigitRoundTrip | src/main.rs:70 | digits and their values are inverse to each other |
| Nfc.HexByte | src/main.rs:70 | one byte as two lower-case hexadecimal digits, defined by its body; `HexShape` and `ParseHexRoundTrip` pin it |
| Nfc.Hex | src/main.rs:70 | the id of a plain card, defined by its body; pinned by `HexShape`, `ParseHexRoundTrip`, `ParseHexSound`, `HexInjective` and `PlainExample` |
| Nfc.HexShape | src/main.rs:70 | the id has 2·\|uid\| characters, all lower-case hexadecimal, and byte i is at characters 2i and 2i+1 |
| Nfc.ParseHexRoundTrip | src/main.rs:70 | parsing the hexadecimal id gives back the UID |
| Nfc.ParseHexSound | src/main.rs:70 | whatever parses is the hexadecimal form of its result |
| Nfc.HexInjective | src/main.rs:70 | two UIDs have the same id exactly when they are equal |
| Nfc.ToMessage | src/main.rs:47-75 | type is always "nfc"; no card gives "invalid" with an empty id; a Mete card gives "uuid" with the UUID unchanged; a plain card gives "plain" |
| Nfc.PlainId | src/main.rs:65-71 | a plain card's id is the hex of its UID: 2·\|uid\| lower-case hexadecimal characters |
| Nfc.MessageRoundTrip | src/main.rs:47-75 | every message reads back to the event it was built from |
| Nfc.ToMessageInjective | src/main.rs:47-75 | different events give different messages |
| Nfc.PlainExample | src/main.rs:65-71 | UID 04 a1 ff gives id "04a1ff" |
| Hub.InitialValid | src/main.rs:17 | the registry starts empty with the counter at 1 |
| Hub.Subscribe | src/main.rs:123-131 | subscription as a value, defined by its body; pinned by `SubscribeFresh` and `IdsIncrease`, and `CashierEventStream` is proved equal to it |
| Hub.SubscribeFresh | src/main.rs:123-131 | a subscription gets the counter's value as id, which is at least 1 and not yet registered; it is registered with nothing sent, every other client is unchanged, and the counter moves past it |
| Hub.IdsIncrease | src/main.rs:123 | successive ids strictly increase, whether or not messages were published between them |
| Hub.Publish | src/main.rs:78-81 | one round of `retain` as a value, defined by its body; pinned by `PublishRetains`, and `Broadcast` is proved equal to it |
| Hub.PublishRetains | src/main.rs:78-81 | publishing keeps exactly the clients whose send succeeded, gives each one copy of the message after what it had, adds no client and keeps the counter |
| Hub.Messages | src/main.rs:43-77 | message i is the message of event i |
| Hub.FailedOnceCons | src/main.rs:78-81 | proof helper: a failure in some round is one in the first round or one in the later rounds |
| Hub.Consume | src/main.rs:42-82 | the event loop as a value, defined by its body; pinned by `ConsumeAddsNone`, `ConsumeDelivers` and `ConsumeDrops`, and `ConsumeDeviceEvents` is proved equal to it |
| Hub.ConsumeAddsNone | src/main.rs:42-82 | the publishing loop adds no client, keeps the counter and keeps the registry valid |
| Hub.ConsumeDelivers | src/main.rs:42-82 | a client registered before the events whose sends never fail stays registered and receives every event's message, in order |
| Hub.ConsumeDrops | src/main.rs:78-81 | a client whose send fails once is gone and does not come back |
| Hub.Clients.constructor | src/main.rs:17 | an empty map and the counter at 1, which is a valid registry |
| Hub.Clients.CashierEventStream | src/main.rs:119-131 | the id and the new state are those of `Subscribe`; the id was not registered before, is registered now with nothing sent, every earlier client is unchanged, and the registry stays valid |
| Hub.Clients.Broadcast | src/main.rs:78-81 | the new map is that of `Publish`, and the registry stays valid |
| Hub.Clients.ConsumeDeviceEvents | src/main.rs:37-83 | the loop over events leaves the state of `Consume`, and the registry stays valid |
| LocalRequest.ToIpv6Mapped | src/middlewares/force_local_request.rs:16 | the mapped address is the 96-bit prefix ::ffff followed by the IPv4 address |
| LocalRequest.ToIpv4Mapped | src/middlewares/force_local_request.rs:16-19 | the IPv4 address of an IPv4-mapped address, defined by its body; `MappedRoundTrip` proves it the inverse of `ToIpv6Mapped` in both directions |
| LocalRequest.MappedRoundTrip | src/middlewares/force_local_request.rs:16-17 | mapping then unmapping gives the address back, and an address unmaps to a exactly when it is the mapping of a |
| LocalRequest.RealIp | src/middlewares/force_local_request.rs:15-22 | the normalised client address, defined by its body; pinned by `RealIpCases`, `RealIpIdempotent` and `Localhost6Kept` |
| LocalRequest.RealIpCases | src/middlewares/force_local_request.rs:15-22 | ::ffff:a.b.c.d becomes a.b.c.d; any other IPv6 address and every IPv4 address is kept |
| LocalRequest.RealIpIdempotent | src/middlewares/force_local_request.rs:15-22 | normalising a normalised address gives it back |
| LocalRequest.Localhost6Kept | src/middlewares/force_local_request.rs:18 | ::1 stays IPv6 |
| LocalRequest.IsLoopback | src/middlewares/force_local_request.rs:25 | 127.0.0.0/8 for IPv4 and exactly ::1 for IPv6, defined by its body; used by `PassesExactly` and `LoopbacksPass` |
| LocalRequest.ForceLocalRequest | src/middlewares/force_local_request.rs:25-28 | the middleware's decision, defined by its body; pinned by `RejectExactly`, `PassesExactly`, `LoopbacksPass` and `OthersRejected` |
| LocalRequest.RejectExactly | src/middlewares/force_local_request.rs:25-28 | the request is answered with 401 exactly when the normalised address is not loopback, and passes otherwise |
| LocalRequest.PassesExactly | src/middlewares/force_local_request.rs:15-28 | a request passes exactly when the client address is in 127.0.0.0/8, is ::ffff:127.x.y.z, or is ::1 |
| LocalRequest.LoopbacksPass | src/middlewares/force_local_request.rs:15-28 | ::ffff:127.x.y.z, 127.x.y.z and ::1 pass |
| LocalRequest.OthersRejected | src/middlewares/force_local_request.rs:15-28 | ::ffff:10.0.0.1 and the IPv4-compatible ::127.0.0.1 are rejected with 401 |

## Left out

- Opening devices, the `EVIOCGRAB` ioctl, termios baud configuration and `AsyncFd` reads are OS I/O. Their outcomes are inputs: one boolean per open attempt, and a sequence of read results.
- `tokio::time::sleep` becomes the returned trace of requested delays. `Instant::now` becomes input instants: each storno read carries the instant its read returned, and each storno attempt is given its start instant. The two clock readings a read can make (restamping and `elapsed`) are taken as that one instant.
- Storno.StornoReader.TryReadStorno: the start instant is a parameter, so the model cannot show that it is read after acquisition ends; the caller supplies it.
- Barcode.BarcodeScanner.ReadBarcode: when the scripted outcomes or reads run out, the method returns no barcode. The source would keep waiting or retrying forever.
- Storno.StornoReader.ReadStorno: the same applies when the outcomes, reads or start instants run out.
- Backoff.Acquire, Barcode.BarcodeScanner.AcquireKeyboardFd, Storno.StornoReader.AcquireStornoFd, Barcode.BarcodeScanner.TryReadBarcode, Storno.StornoReader.TryReadStorno: when the open outcomes run out with every attempt failed, they return with no device held. The source loops until the device opens, so it never returns without one.
- The `run` stream generators, `tokio::select!`, `tokio::spawn`, `Arc<Mutex<…>>` and the atomic counter are concurrency plumbing. The registry and the counter are plain sequential state.
- Hub.Clients.CashierEventStream: `NEXT_CLIENT_ID` is a `usize` that would wrap after 2^64 subscriptions. The model counts without bound, so freshness of ids is proved only up to that point.
- Warp routing, server-sent event framing, `serde_json` serialisation and the BIND environment variable are transport and configuration. A message is modelled as a value, not in its JSON form.
- `nfcservice` is not part of this model. `CardDetail` is taken as its two variants.
- The `nfc.unwrap()` panic at the end of the NFC stream is not modelled: the events are a finite sequence that simply ends.
- The barcode and storno streams are not wired into the main loop in src/main.rs, and the model does not wire them either.
- Axum's `Next`/`Response` and `ClientIp` extraction are out: the middleware is the decision on the client address.
- All `tracing`/`log` calls are out.
- `std::str::from_utf8` is modelled by the well-formedness test of RFC 3629, not by the library's code.
- `str::contains` is modelled as a search over the bytes. For well-formed UTF-8 and an ASCII pattern, a byte occurrence is a character occurrence.
- A send to a client fails exactly when the client is in that round's failure set. Why a channel closes is not modelled.
