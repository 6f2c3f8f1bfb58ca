/** The SpeedData client object: one request/reply exchange over its serial
    port, the uncached generic fetch, and four accessors that each keep their
    own time-gated cache. The clock (`millis()`) is the `now` parameter. */
module Driver {
  import opened Protocol
  import opened Throttle

  /** The serial stream the client talks over: the log of every byte written
      to it and the queue of reply bytes not yet read. */
  class Port {
    var written: seq<bv8>
    var incoming: seq<bv8>

    constructor (incoming: seq<bv8>)
      ensures written == [] && this.incoming == incoming
    {
      written := [];
      this.incoming := incoming;
    }

    /** Sends `bytes` as one write. */
    method Write(bytes: seq<bv8>)
      modifies this
      ensures written == old(written) + bytes && incoming == old(incoming)
    {
      written := written + bytes;
    }

    /** Takes the next reply byte. */
    method Read() returns (b: bv8)
      requires incoming != []
      modifies this
      ensures b == old(incoming)[0] && incoming == old(incoming)[1..]
      ensures written == old(written)
    {
      b := incoming[0];
      incoming := incoming[1..];
    }
  }

  /** The client. Each cached accessor owns a (started, lastRead, value)
      triple: `started` records whether its lazily initialised `lastRead` has
      been set by a first call; the cached values start as static storage
      does (zero, and 1000 for the loop count). */
  class SpeedData {
    const port: Port

    var egoStarted: bool
    var egoLastRead: int
    var ego: int

    var actualStarted: bool
    var actualLastRead: int
    var adjActual: real

    var targetStarted: bool
    var targetLastRead: int
    var adjTarget: real

    var loopsStarted: bool
    var loopsLastRead: int
    var loopsPS: int

    constructor (port: Port)
      ensures this.port == port
      ensures !egoStarted && !actualStarted && !targetStarted && !loopsStarted
      ensures ego == 0 && adjActual == 0.0 && adjTarget == 0.0 && loopsPS == 1000
    {
      this.port := port;
      egoStarted, egoLastRead, ego := false, 0, 0;
      actualStarted, actualLastRead, adjActual := false, 0, 0.0;
      targetStarted, targetLastRead, adjTarget := false, 0, 0.0;
      loopsStarted, loopsLastRead, loopsPS := false, 0, 1000;
    }

    /** One exchange: writes the request for the field `noBytes` wide at
        `dataStart`, then reads and decodes the reply. */
    method GetSpeeduinoData(dataStart: bv8, noBytes: bv8) returns (speedValue: int)
      requires Complete(noBytes, port.incoming)
      modifies port
      ensures port.written == old(port.written) + EncodeRequest(dataStart, noBytes)
      ensures var r := DecodeReply(noBytes, old(port.incoming));
        speedValue == r.value && port.incoming == old(port.incoming)[r.consumed..]
    {
      ghost var reply := port.incoming;
      speedValue := 0;
      port.Write(EncodeRequest(dataStart, noBytes));
      var firstByte := port.Read();
      if firstByte == RequestData {
        var _ := port.Read();
        if noBytes == 1 {
          var b := port.Read();
          speedValue := b as int;
        } else if noBytes == 2 {
          var first := port.Read();
          var second := port.Read();
          speedValue := Join(first, second);
        }
      }
      assert port.incoming == reply[DecodeReply(noBytes, reply).consumed..];
    }

    /** The generic one-shot fetch: exactly one exchange, no cache touched. */
    method GetData(location: bv8, length: bv8) returns (sData: int)
      requires Complete(length, port.incoming)
      modifies port
      ensures port.written == old(port.written) + EncodeRequest(location, length)
      ensures var r := DecodeReply(length, old(port.incoming));
        sData == r.value && port.incoming == old(port.incoming)[r.consumed..]
    {
      sData := GetSpeeduinoData(location, length);
    }

    /** The `lastRead` the EGO gate compares against on a call at `now`:
        before the first call it is initialised to 100 ms earlier. */
    function EgoLastRead(now: nat): (lastRead: int)
      reads this
      ensures egoStarted ==> lastRead == egoLastRead
      ensures !egoStarted ==> now - lastRead == 100
    {
      if egoStarted then egoLastRead else now - 100
    }

    /** The `lastRead` of the actual AFR gate; initialised to `now`. */
    function ActualLastRead(now: nat): (lastRead: int)
      reads this
      ensures actualStarted ==> lastRead == actualLastRead
      ensures !actualStarted ==> lastRead == now
    {
      if actualStarted then actualLastRead else now
    }

    /** The `lastRead` of the target AFR gate; initialised to `now`. */
    function TargetLastRead(now: nat): (lastRead: int)
      reads this
      ensures targetStarted ==> lastRead == targetLastRead
      ensures !targetStarted ==> lastRead == now
    {
      if targetStarted then targetLastRead else now
    }

    /** The `lastRead` of the loops gate; initialised to `now`. */
    function LoopsLastRead(now: nat): (lastRead: int)
      reads this
      ensures loopsStarted ==> lastRead == loopsLastRead
      ensures !loopsStarted ==> lastRead == now
    {
      if loopsStarted then loopsLastRead else now
    }

    /** EGO correction, the raw byte at offset 11 (100 means no correction). */
    method GetEGO(now: nat, readFreq: nat := EgoReadFreq) returns (EGO: int)
      requires egoStarted ==> egoLastRead <= now
      requires Due(now, EgoLastRead(now), readFreq) ==> Complete(1, port.incoming)
      modifies this`egoStarted, this`egoLastRead, this`ego, port
      ensures egoStarted && EGO == ego
      ensures if Due(now, old(EgoLastRead(now)), readFreq) then
          var r := DecodeReply(1, old(port.incoming));
          egoLastRead == now && ego == r.value
          && port.written == old(port.written) + EncodeRequest(11, 1)
          && port.incoming == old(port.incoming)[r.consumed..]
        else
          egoLastRead == old(EgoLastRead(now)) && ego == old(ego)
          && port.written == old(port.written) && port.incoming == old(port.incoming)
    {
      if !egoStarted {
        egoLastRead := now - 100;
        egoStarted := true;
      }
      if now - egoLastRead > readFreq {
        ego := GetSpeeduinoData(11, 1);
        egoLastRead := now;
      }
      EGO := ego;
    }

    /** Actual air-fuel ratio: the byte at offset 10, in tenths. */
    method GetActualAFR(now: nat, readFreq: nat := ActualAfrReadFreq) returns (afr: real)
      requires actualStarted ==> actualLastRead <= now
      requires Due(now, ActualLastRead(now), readFreq) ==> Complete(1, port.incoming)
      modifies this`actualStarted, this`actualLastRead, this`adjActual, port
      ensures actualStarted && afr == adjActual
      ensures if Due(now, old(ActualLastRead(now)), readFreq) then
          var r := DecodeReply(1, old(port.incoming));
          actualLastRead == now && adjActual == AfrFromRaw(r.value)
          && port.written == old(port.written) + EncodeRequest(10, 1)
          && port.incoming == old(port.incoming)[r.consumed..]
        else
          actualLastRead == old(ActualLastRead(now)) && adjActual == old(adjActual)
          && port.written == old(port.written) && port.incoming == old(port.incoming)
    {
      if !actualStarted {
        actualLastRead := now;
        actualStarted := true;
      }
      if now - actualLastRead > readFreq {
        var actual := GetSpeeduinoData(10, 1);
        actualLastRead := now;
        adjActual := AfrFromRaw(actual);
      }
      afr := adjActual;
    }

    /** Target air-fuel ratio: the byte at offset 19, in tenths. */
    method GetTargetAFR(now: nat, readFreq: nat := TargetAfrReadFreq) returns (afr: real)
      requires targetStarted ==> targetLastRead <= now
      requires Due(now, TargetLastRead(now), readFreq) ==> Complete(1, port.incoming)
      modifies this`targetStarted, this`targetLastRead, this`adjTarget, port
      ensures targetStarted && afr == adjTarget
      ensures if Due(now, old(TargetLastRead(now)), readFreq) then
          var r := DecodeReply(1, old(port.incoming));
          targetLastRead == now && adjTarget == AfrFromRaw(r.value)
          && port.written == old(port.written) + EncodeRequest(19, 1)
          && port.incoming == old(port.incoming)[r.consumed..]
        else
          targetLastRead == old(TargetLastRead(now)) && adjTarget == old(adjTarget)
          && port.written == old(port.written) && port.incoming == old(port.incoming)
    {
      if !targetStarted {
        targetLastRead := now;
        targetStarted := true;
      }
      if now - targetLastRead > readFreq {
        var target := GetSpeeduinoData(19, 1);
        targetLastRead := now;
        adjTarget := AfrFromRaw(target);
      }
      afr := adjTarget;
    }

    /** Main loops per second: the two-byte word at offset 25. */
    method GetLoops(now: nat, readFreq: nat := LoopsReadFreq) returns (loops: int)
      requires loopsStarted ==> loopsLastRead <= now
      requires Due(now, LoopsLastRead(now), readFreq) ==> Complete(2, port.incoming)
      modifies this`loopsStarted, this`loopsLastRead, this`loopsPS, port
      ensures loopsStarted && loops == loopsPS
      ensures if Due(now, old(LoopsLastRead(now)), readFreq) then
          var r := DecodeReply(2, old(port.incoming));
          loopsLastRead == now && loopsPS == r.value
          && port.written == old(port.written) + EncodeRequest(25, 2)
          && port.incoming == old(port.incoming)[r.consumed..]
        else
          loopsLastRead == old(LoopsLastRead(now)) && loopsPS == old(loopsPS)
          && port.written == old(port.written) && port.incoming == old(port.incoming)
    {
      if !loopsStarted {
        loopsLastRead := now;
        loopsStarted := true;
      }
      if now - loopsLastRead > readFreq {
        loopsPS := GetSpeeduinoData(25, 2);
        loopsLastRead := now;
      }
      loops := loopsPS;
    }

    /** The loops cache and the port after queries at the times `f`, in a
        series that started from `lastRead` `start`, written log `log`,
        reply queue `queue` and cached value `initial`: each query wrote one
        request and read one reply, and the cache holds the last reply's
        value. */
    ghost predicate LoopsPolled(f: seq<nat>, start: int, log: seq<bv8>, queue: seq<bv8>, initial: int)
      reads this, port
    {
      4 * |f| <= |queue|
      && (loopsStarted ==> loopsLastRead == LastOf(start, f))
      && port.written == log + Repeat(EncodeRequest(25, 2), |f|)
      && port.incoming == DecodeReplies(2, queue, |f|).rest
      && loopsPS == if f == [] then initial else DecodeReplies(2, queue, |f|).values[|f| - 1]
    }

    /** One call of the loops accessor at `now` within `PollLoops`, after
        queries at the times `f`. */
    method PollLoopsOnce(now: nat, readFreq: nat, ghost f: seq<nat>, ghost start: int,
                          ghost log: seq<bv8>, ghost queue: seq<bv8>, ghost initial: int)
      returns (ghost g: seq<nat>)
      requires LoopsPolled(f, start, log, queue, initial)
      requires LoopsLastRead(now) == LastOf(start, f) <= now
      requires Due(now, LastOf(start, f), readFreq) ==> 4 * (|f| + 1) <= |queue|
      modifies this`loopsStarted, this`loopsLastRead, this`loopsPS, port
      ensures g == f + if Due(now, LastOf(start, f), readFreq) then [now] else []
      ensures loopsStarted && LoopsPolled(g, start, log, queue, initial)
    {
      var due := Due(now, LastOf(start, f), readFreq);
      if due {
        DecodeRepliesNext(2, queue, |f|);
        assert Repeat(EncodeRequest(25, 2), |f| + 1) == Repeat(EncodeRequest(25, 2), |f|) + EncodeRequest(25, 2);
      }
      var _ := GetLoops(now, readFreq);
      g := if due then f + [now] else f;
    }

    /** The calls of `PollLoops` at the times `times`, from the state
        `LoopsPolled([], start, log, queue, initial)` the series starts in. */
    method PollLoopsFrom(times: seq<nat>, readFreq: nat, ghost start: int, ghost log: seq<bv8>,
                          ghost queue: seq<bv8>, ghost initial: int)
      requires times != [] && Ascending(start, times) && LoopsLastRead(times[0]) == start
      requires 4 * |FetchTimes(start, readFreq, times)| <= |queue|
      requires LoopsPolled([], start, log, queue, initial)
      modifies this`loopsStarted, this`loopsLastRead, this`loopsPS, port
      ensures loopsStarted && LoopsPolled(FetchTimes(start, readFreq, times), start, log, queue, initial)
    {
      ghost var all := FetchTimes(start, readFreq, times);
      ghost var fetched: seq<nat> := [];
      var i := 0;
      while i < |times|
        invariant i <= |times|
        invariant fetched == FetchTimes(start, readFreq, times[..i])
        invariant |fetched| <= |all|
        invariant i > 0 ==> loopsStarted
        invariant i == 0 ==> LoopsLastRead(times[0]) == start
        invariant i < |times| ==> LastOf(start, fetched) <= times[i]
        invariant LoopsPolled(fetched, start, log, queue, initial)
      {
        FetchTimesStep(start, readFreq, times, i);
        fetched := PollLoopsOnce(times[i], readFreq, fetched, start, log, queue, initial);
        i := i + 1;
      }
      assert times[..|times|] == times;
    }

    /** Calls the loops accessor at each of the ascending times `times`. It
        queries the ECU exactly at `FetchTimes` of those times: the port log
        gains one loops request per query, the replies to those queries are
        read back to back from the queue, the cache holds the value of the
        last of them, and its `lastRead` ends at the last query time. The
        queue must hold the four bytes a loops reply can take for every
        query. */
    method PollLoops(times: seq<nat>, readFreq: nat)
      requires times != [] && Ascending(LoopsLastRead(times[0]), times)
      requires 4 * |FetchTimes(LoopsLastRead(times[0]), readFreq, times)| <= |port.incoming|
      modifies this`loopsStarted, this`loopsLastRead, this`loopsPS, port
      ensures var f := FetchTimes(old(LoopsLastRead(times[0])), readFreq, times);
        loopsStarted && loopsLastRead == LastOf(old(LoopsLastRead(times[0])), f)
        && port.written == old(port.written) + Repeat(EncodeRequest(25, 2), |f|)
        && |f| * (readFreq + 1) <= times[|times| - 1] - old(LoopsLastRead(times[0]))
      ensures var f := FetchTimes(old(LoopsLastRead(times[0])), readFreq, times);
        var d := DecodeReplies(2, old(port.incoming), |f|);
        port.incoming == d.rest && loopsPS == (if f == [] then old(loopsPS) else d.values[|f| - 1])
    {
      ghost var start := LoopsLastRead(times[0]);
      PollLoopsFrom(times, readFreq, start, port.written, port.incoming, loopsPS);
      FetchCountBound(start, readFreq, times);
    }

    /** The EGO cache and the port after queries at the times `f`, in a
        series that started from `lastRead` `start`, written log `log`,
        reply queue `queue` and cached value `initial`: each query wrote one
        request and read one reply, and the cache holds the last reply's
        value. */
    ghost predicate EGOPolled(f: seq<nat>, start: int, log: seq<bv8>, queue: seq<bv8>, initial: int)
      reads this, port
    {
      3 * |f| <= |queue|
      && (egoStarted ==> egoLastRead == LastOf(start, f))
      && port.written == log + Repeat(EncodeRequest(11, 1), |f|)
      && port.incoming == DecodeReplies(1, queue, |f|).rest
      && ego == if f == [] then initial else DecodeReplies(1, queue, |f|).values[|f| - 1]
    }

    /** One call of the EGO accessor at `now` within `PollEGO`, after
        queries at the times `f`. */
    method PollEGOOnce(now: nat, readFreq: nat, ghost f: seq<nat>, ghost start: int,
                          ghost log: seq<bv8>, ghost queue: seq<bv8>, ghost initial: int)
      returns (ghost g: seq<nat>)
      requires EGOPolled(f, start, log, queue, initial)
      requires EgoLastRead(now) == LastOf(start, f) <= now
      requires Due(now, LastOf(start, f), readFreq) ==> 3 * (|f| + 1) <= |queue|
      modifies this`egoStarted, this`egoLastRead, this`ego, port
      ensures g == f + if Due(now, LastOf(start, f), readFreq) then [now] else []
      ensures egoStarted && EGOPolled(g, start, log, queue, initial)
    {
      var due := Due(now, LastOf(start, f), readFreq);
      if due {
        DecodeRepliesNext(1, queue, |f|);
        assert Repeat(EncodeRequest(11, 1), |f| + 1) == Repeat(EncodeRequest(11, 1), |f|) + EncodeRequest(11, 1);
      }
      var _ := GetEGO(now, readFreq);
      g := if due then f + [now] else f;
    }

    /** The calls of `PollEGO` at the times `times`, from the state
        `EGOPolled([], start, log, queue, initial)` the series starts in. */
    method PollEGOFrom(times: seq<nat>, readFreq: nat, ghost start: int, ghost log: seq<bv8>,
                          ghost queue: seq<bv8>, ghost initial: int)
      requires times != [] && Ascending(start, times) && EgoLastRead(times[0]) == start
      requires 3 * |FetchTimes(start, readFreq, times)| <= |queue|
      requires EGOPolled([], start, log, queue, initial)
      modifies this`egoStarted, this`egoLastRead, this`ego, port
      ensures egoStarted && EGOPolled(FetchTimes(start, readFreq, times), start, log, queue, initial)
    {
      ghost var all := FetchTimes(start, readFreq, times);
      ghost var fetched: seq<nat> := [];
      var i := 0;
      while i < |times|
        invariant i <= |times|
        invariant fetched == FetchTimes(start, readFreq, times[..i])
        invariant |fetched| <= |all|
        invariant i > 0 ==> egoStarted
        invariant i == 0 ==> EgoLastRead(times[0]) == start
        invariant i < |times| ==> LastOf(start, fetched) <= times[i]
        invariant EGOPolled(fetched, start, log, queue, initial)
      {
        FetchTimesStep(start, readFreq, times, i);
        fetched := PollEGOOnce(times[i], readFreq, fetched, start, log, queue, initial);
        i := i + 1;
      }
      assert times[..|times|] == times;
    }

    /** As `PollLoops`, for the EGO accessor, whose first call counts from
        100 ms before it. An EGO reply takes at most three bytes. */
    method PollEGO(times: seq<nat>, readFreq: nat)
      requires times != [] && Ascending(EgoLastRead(times[0]), times)
      requires 3 * |FetchTimes(EgoLastRead(times[0]), readFreq, times)| <= |port.incoming|
      modifies this`egoStarted, this`egoLastRead, this`ego, port
      ensures var f := FetchTimes(old(EgoLastRead(times[0])), readFreq, times);
        egoStarted && egoLastRead == LastOf(old(EgoLastRead(times[0])), f)
        && port.written == old(port.written) + Repeat(EncodeRequest(11, 1), |f|)
        && |f| * (readFreq + 1) <= times[|times| - 1] - old(EgoLastRead(times[0]))
      ensures var f := FetchTimes(old(EgoLastRead(times[0])), readFreq, times);
        var d := DecodeReplies(1, old(port.incoming), |f|);
        port.incoming == d.rest && ego == (if f == [] then old(ego) else d.values[|f| - 1])
    {
      ghost var start := EgoLastRead(times[0]);
      PollEGOFrom(times, readFreq, start, port.written, port.incoming, ego);
      FetchCountBound(start, readFreq, times);
    }
  }

  /** `n` copies of the frame `frame`, back to back: the bytes `n` identical
      requests put on the wire. */
  function Repeat(frame: seq<bv8>, n: nat): seq<bv8> {
    if n == 0 then [] else Repeat(frame, n - 1) + frame
  }

  /** An air-fuel ratio from its raw reading, which the ECU sends in tenths. */
  function AfrFromRaw(raw: int): (afr: real)
    ensures afr * 10.0 == raw as real
    ensures 0 <= raw < 0x100 ==> 0.0 <= afr <= 25.5
  {
    raw as real / 10.0
  }

  /** First calls of all four cached accessors on a fresh client, with the
      default intervals: only EGO queries the ECU; the AFRs read 0.0 and the
      loop count its initial 1000. */
  method FirstCallsWithDefaults(reply: seq<bv8>, now: nat)
    returns (ego: int, actual: real, target: real, loops: int, written: seq<bv8>)
    requires Complete(1, reply)
    ensures ego == DecodeReply(1, reply).value
    ensures actual == 0.0 && target == 0.0 && loops == 1000
    ensures written == EncodeRequest(11, 1)
  {
    var port := new Port(reply);
    var client := new SpeedData(port);
    ego := client.GetEGO(now);
    actual := client.GetActualAFR(now);
    target := client.GetTargetAFR(now);
    loops := client.GetLoops(now);
    written := port.written;
  }

  /** The loops accessor on a fresh client: its first call serves the initial
      1000 without a request; a call more than `readFreq` ms later queries the
      ECU; a call up to `readFreq` ms after that is served from the cache with
      the same value and no second request. */
  method LoopsCachedWithinInterval(reply: seq<bv8>, now: nat, readFreq: nat, wait: nat)
    returns (initial: int, fetched: int, cached: int, written: seq<bv8>)
    requires Complete(2, reply)
    requires wait <= readFreq
    ensures initial == 1000
    ensures fetched == cached == DecodeReply(2, reply).value
    ensures written == EncodeRequest(25, 2)
  {
    var port := new Port(reply);
    var client := new SpeedData(port);
    initial := client.GetLoops(now, readFreq);
    var refreshedAt := now + readFreq + 1;
    fetched := client.GetLoops(refreshedAt, readFreq);
    cached := client.GetLoops(refreshedAt + wait, readFreq);
    written := port.written;
  }
}
