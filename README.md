# SpeedData — a verified model of a Speeduino secondary-serial client

SpeedData is a small Arduino/ESP32 library. It reads engine data from a Speeduino ECU over
the ECU's secondary serial interface using the "r" read command. This project models its
two parts in Dafny:

- **The exchange** (`Driver.SpeedData.GetSpeeduinoData`). The client writes a 7-byte
  request frame `[0x72, 0x19, 0x30, offset, 0, width, 0]`. The CAN id 0x119 is stored
  in a byte, so it goes out as 0x19. The client then reads the reply one byte at a time:
  - an acknowledgment byte, which must be 0x72;
  - a type byte, which it ignores;
  - one payload byte, or two payload bytes joined little-endian.

  A wrong acknowledgment, or a width other than 1 or 2, gives the silent value 0. The pure
  frame logic is in module `Protocol`: `EncodeRequest`, `DecodeReply` and `Join`, plus a
  peer-side `RequestFields` and `EncodeReply` that serve as their inverses.
- **The cached accessors** (`GetEGO`, `GetActualAFR`, `GetTargetAFR`, `GetLoops`) and the
  uncached `GetData`. In the source, each accessor keeps its `lastRead` time and its
  cached value in function-static locals. Here they are fields of the `SpeedData` class,
  one (started, lastRead, value) triple per accessor:
  - On its first call, an accessor initialises `lastRead` (to `now - 100` for EGO, to
    `now` for the other three) and marks itself started.
  - It queries the ECU only when `now - lastRead > readFreq`.
  - When it does, it stores the converted value and sets `lastRead := now`.
  - When it does not, the cached value, the port and the (initialised) `lastRead` stay
    unchanged.

  Module `Throttle` holds the gate `Due`, the default intervals from the header, the
  first-call facts, and a spec function `FetchTimes` for a whole series of calls. Lemmas
  about `FetchTimes` show:
  - every query happens at a call time;
  - consecutive queries are more than `readFreq` ms apart;
  - there are at most `elapsed / (readFreq + 1)` queries;
  - calls within one interval of each other cause at most one query.

  `PollLoops` and `PollEGO` call an accessor at each time of an ascending series. They
  prove that the port receives one request per element of `FetchTimes`, that exactly the
  replies to those requests are read from the queue (`Protocol.DecodeReplies`), that the
  cache ends with the value of the last of them, and that its `lastRead` ends at the last
  query time. This ties those lemmas to the accessors. The queue must hold the longest
  reply for every query; calls that do not query read nothing.

The serial port is a `Port` object with a `written` log and an `incoming` queue. The clock
`millis()` is the explicit parameter `now`. The header's default intervals are default
parameter values: 50 ms for EGO, 100 ms for both AFRs and 200 ms for loops.

Behaviour of the code worth knowing:
- The first calls of the actual AFR, target AFR and loops accessors never fetch. They
  return 0.0, 0.0 and 1000.
- EGO's first call fetches only when `readFreq < 100`, because its `lastRead` starts at
  `millis() - 100`.
- A width outside {1, 2} is accepted: the ack and type bytes are consumed and 0 is
  returned.

## Model

| member | source | states |
|---|---|---|
| `Protocol.LowByte` | SpeedData.cpp:36-38 | Arduino `lowByte`: the byte is the word modulo 256 |
| `Protocol.HighByte` | SpeedData.cpp:37-39 | Arduino `highByte`: the byte is the word divided by 256 |
| `Protocol.Join` | SpeedData.cpp:55-57 | `(second << 8) \| first` equals `second*256 + first` and lies in 0..65535 |
| `Protocol.JoinSplit` | SpeedData.cpp:52-58 | splitting any 16-bit value into low and high byte and joining them gives the value back |
| `Protocol.ByteAsWord` | SpeedData.cpp:36-39 | `lowByte` of a byte is the byte itself and its `highByte` is 0 |
| `Protocol.EncodeRequest` | SpeedData.cpp:30-43 | the request frame is exactly `[0x72, 0x19, 0x30, offset, 0x00, width, 0x00]`: the CAN id 0x119 is truncated and both high bytes are 0 |
| `Protocol.RequestRoundTrip` | SpeedData.cpp:30-43 | a peer reading the frame recovers (offset, width), and no other frame names that pair |
| `Protocol.PayloadLength` | SpeedData.cpp:48-58 | there are payload bytes exactly when the width is 1 or 2, and at most 2 |
| `Protocol.ReplyLength` | SpeedData.cpp:44-58 | a reply takes at least 1 byte and at most ack, type and payload (so at most 4), and exactly 1 iff the ack is wrong |
| `Protocol.DecodeReply` | SpeedData.cpp:44-61 | consumes exactly `ReplyLength` bytes; the value is below 256, or below 65536 for width 2 |
| `Protocol.NackReply` | SpeedData.cpp:44-45 | a first byte other than 0x72 gives 0, and only that byte is consumed |
| `Protocol.ByteReply` | SpeedData.cpp:45-51 | ack with width 1 consumes ack, type and payload; the value is the payload byte, in 0..255 |
| `Protocol.WordReply` | SpeedData.cpp:52-58 | ack with width 2 consumes four bytes; the value is `second*256 + first`, in 0..65535 |
| `Protocol.OtherWidthReply` | SpeedData.cpp:45-59 | ack with any other width consumes only ack and type, and the value is 0 |
| `Protocol.ReplyRoundTrip` | SpeedData.cpp:44-58 | decoding a peer's reply for value w recovers w, consumes exactly that reply and leaves the bytes after it |
| `Protocol.ReplyIsEncoding` | SpeedData.cpp:44-58 | every acknowledged width-1 or width-2 reply is the peer encoding of the value decoded from it |
| `Protocol.RepliesRoom` | SpeedData.cpp:44-58 | `n` replies take at most 3n bytes for width 1, 4n for width 2 and 2n otherwise |
| `Protocol.DecodeReplies` | SpeedData.cpp:44-61 | reading `n` replies back to back gives `n` values, each below 256 (65536 for width 2), and leaves at least the bytes not needed for them |
| `Protocol.EncodeReplies` | SpeedData.cpp:44-58 | a peer's back-to-back replies take exactly 3 (width 1) or 4 (width 2) bytes each |
| `Protocol.DecodeRepliesNext` | SpeedData.cpp:44-61 | the reply read after `n` others is value number `n`, and consumes exactly its own bytes |
| `Protocol.RepliesRoundTrip` | SpeedData.cpp:44-58 | reading a peer's back-to-back replies recovers every value in order and leaves whatever follows them |
| `Throttle.Due` | SpeedData.cpp:91 | the gate `millis() - lastRead > readFreq` opens exactly from `lastRead + readFreq + 1` on, and never at or before `lastRead` |
| `Throttle.EgoFirstCall` | SpeedData.cpp:88-91 | EGO's first call, with `lastRead = now - 100`, fetches iff `readFreq < 100` |
| `Throttle.StartedNowNeverDue` | SpeedData.cpp:102-106 | a first call whose `lastRead` is set to `now` (AFR, target AFR, loops) never fetches |
| `Throttle.DefaultFirstCalls` | SpeedData.h:28-37 | with the default intervals 50/100/100/200 ms, only EGO's first call fetches |
| `Throttle.FetchTimes` | SpeedData.cpp:91-96 | a series of calls queries the ECU at most once per call |
| `Throttle.FetchesAreCalls` | SpeedData.cpp:91-96 | every query of a series happens at the time of one of its calls |
| `Throttle.FetchTimesSnoc` | SpeedData.cpp:91-96 | one more call adds a query exactly when it is due against the `lastRead` the earlier calls left |
| `Throttle.FetchTimesPrefixOf` | SpeedData.cpp:91-96 | later calls never change earlier queries: the queries of the first `i` calls are a prefix of those of the whole series |
| `Throttle.FetchTimesStep` | SpeedData.cpp:91-96 | in an ascending series, the call at `times[i]` adds a query exactly when due, the queries so far never outnumber the whole series', and the next call is not before the last query |
| `Throttle.FetchesSpaced` | SpeedData.cpp:91-96 | successive queries are more than `readFreq` ms apart, and the first is more than `readFreq` after `lastRead` |
| `Throttle.FetchCountBound` | SpeedData.cpp:91-96 | over increasing call times, the number of queries times `readFreq + 1` is at most the time elapsed since `lastRead` |
| `Throttle.AtMostOneFetchPerInterval` | SpeedData.cpp:91-96 | calls that all fall within `readFreq` ms of each other query the ECU at most once |
| `Driver.Port.Write` | SpeedData.cpp:43 | the frame is appended to the port's written log as one write; nothing is read |
| `Driver.Port.Read` | SpeedData.cpp:44 | returns the head of the incoming queue and removes it; nothing is written |
| `Driver.SpeedData.constructor` | SpeedData.h:23-26 | the object keeps its port; no accessor has started; the cached values are 0, 0.0, 0.0 and 1000 |
| `Driver.SpeedData.GetSpeeduinoData` | SpeedData.cpp:16-62 | writes exactly `EncodeRequest(offset, width)`, returns `DecodeReply`'s value, and consumes exactly the bytes that reply takes |
| `Driver.SpeedData.GetData` | SpeedData.cpp:70-76 | one exchange for (location, length) and its result; only the port changes, no cache field |
| `Driver.SpeedData.EgoLastRead` | SpeedData.cpp:88 | before EGO's first call its `lastRead` is `now - 100`; afterwards it is the stored field |
| `Driver.SpeedData.ActualLastRead` | SpeedData.cpp:102 | before the actual AFR's first call its `lastRead` is `now`; afterwards it is the stored field |
| `Driver.SpeedData.TargetLastRead` | SpeedData.cpp:119 | before the target AFR's first call its `lastRead` is `now`; afterwards it is the stored field |
| `Driver.SpeedData.LoopsLastRead` | SpeedData.cpp:136 | before the loops accessor's first call its `lastRead` is `now`; afterwards it is the stored field |
| `Driver.SpeedData.GetEGO` | SpeedData.cpp:78-97 | fetches (11,1) iff `now - lastRead > readFreq`, with lastRead lazily set to `now - 100`; on a fetch it caches the raw value and sets `lastRead := now`; otherwise it returns the old value, and the port and `lastRead` stay unchanged |
| `Driver.SpeedData.GetActualAFR` | SpeedData.cpp:99-114 | as `GetEGO`, for field (10,1), scaled to raw/10, with lastRead lazily set to `now` |
| `Driver.SpeedData.GetTargetAFR` | SpeedData.cpp:116-131 | as `GetEGO`, for field (19,1), scaled to raw/10, with lastRead lazily set to `now` |
| `Driver.SpeedData.GetLoops` | SpeedData.cpp:133-146 | as `GetEGO`, for the two-byte field (25,2), unscaled, with lastRead lazily set to `now` |
| `Driver.SpeedData.PollLoops` | SpeedData.cpp:133-146 | calling `getLoops` at ascending times writes one (25,2) request per element of `FetchTimes`, reads exactly those replies back to back from the queue, leaves the last reply's value in the cache (the old value if none) and `lastRead` at the last query time; queries × (readFreq+1) ≤ elapsed time |
| `Driver.SpeedData.PollEGO` | SpeedData.cpp:78-97 | the same for `getEGO`, its (11,1) request and one-byte replies, counting from EGO's lazy start 100 ms before the first call |
| `Driver.AfrFromRaw` | SpeedData.cpp:111 | the ratio is the raw reading in tenths (`afr * 10 == raw`), within 0.0..25.5 for a byte |
| `Driver.FirstCallsWithDefaults` | SpeedData.h:28-37 | on a fresh client with default intervals, only EGO sends a request; the AFRs read 0.0 and loops reads 1000 |
| `Driver.LoopsCachedWithinInterval` | SpeedData.cpp:133-146 | loops' first call returns 1000 without a request; a later call fetches; a call within `readFreq` after it returns the same value without a second request |

## Left out

- Debug logging through `Serial.print`: it is console output and does not affect results.
- The Arduino `Stream` internals: blocking, time-outs, baud rate, and `read()` returning -1 on an empty buffer. Reads come from an explicit queue. The exchange requires the reply to hold every byte it will read (`Protocol.Complete`).
- Driver.SpeedData.PollLoops: requires the queue to hold four bytes, the longest loops reply, for every query. A series whose refused replies take only one byte each, with a shorter queue, is not covered.
- Driver.SpeedData.PollEGO: the same, with three bytes per query.
- Driver.SpeedData.GetSpeeduinoData: takes the source's two-byte `getData[2]` array as two byte parameters.
- Port setup: the header declares `SpeedData(Stream *port)`, but the implementation defines `SpeedData()` and a separate `setSerial`. The port is given at construction, and the mismatch is not modelled.
- `getWarmup` and `getMAP`: they are declared in the header but defined nowhere in the library.
- Float rounding in the AFR division: the model uses the exact `real` value raw/10.
- The wrap-around of `millis()`, and a negative `readFreq` converted to unsigned: time and intervals are `nat`, and each accessor requires its clock not to run backwards.
- Every `millis()` reading inside one accessor call is modelled as the one value `now`. That covers the static initialisation, the comparison, and the reading after the serial exchange that sets `lastRead`. In the source, a first AFR or loops call could see 1 ms elapsed if the clock ticks before the comparison. After a fetch, the source's `lastRead` is the time after the exchange, not the comparison time the model stores.
- Function-static state is shared by every `SpeedData` instance. Here it belongs to one instance; a program with a single object behaves the same.
- The width of `int`: the model assumes a 32-bit `int`, as on the ESP32. On a 16-bit AVR `int`, a two-byte value of 0x8000 or more would come out negative.
