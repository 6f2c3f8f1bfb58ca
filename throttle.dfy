/** The time gate each cached SpeedData accessor applies before it queries
    the ECU, and what it implies for a whole series of calls. Times are in
    milliseconds; a cache's `lastRead` is an `int` because the EGO accessor
    starts it 100 ms before its first call. */
module Throttle {

  /** Default refresh intervals of the cached accessors, in ms. */
  const EgoReadFreq: nat := 50
  const ActualAfrReadFreq: nat := 100
  const TargetAfrReadFreq: nat := 100
  const LoopsReadFreq: nat := 200

  /** An accessor re-queries when strictly more than `readFreq` ms have
      passed since its last read: the earliest time it refreshes is
      `readFreq + 1` ms after `lastRead`. */
  predicate Due(now: nat, lastRead: int, readFreq: nat): (due: bool)
    ensures due ==> lastRead < now
    ensures due <==> now >= lastRead + readFreq + 1
  {
    now - lastRead > readFreq
  }

  /** The EGO accessor starts its clock 100 ms before its first call, so that
      first call fetches exactly when the interval is under 100 ms. */
  lemma EgoFirstCall(now: nat, readFreq: nat)
    ensures Due(now, now - 100, readFreq) <==> readFreq < 100
  {
  }

  /** The AFR, target AFR and loops accessors start their clock at their
      first call, so that call never fetches. */
  lemma StartedNowNeverDue(now: nat, readFreq: nat)
    ensures !Due(now, now, readFreq)
  {
  }

  /** With the default intervals, EGO's first call fetches and the first
      calls of the other three cached accessors do not. */
  lemma DefaultFirstCalls(now: nat)
    ensures Due(now, now - 100, EgoReadFreq)
    ensures !Due(now, now, ActualAfrReadFreq) && !Due(now, now, TargetAfrReadFreq)
    ensures !Due(now, now, LoopsReadFreq)
  {
  }

  /** Call times that never go back, none earlier than `lastRead`. */
  predicate Ascending(lastRead: int, times: seq<nat>) {
    (forall i :: 0 <= i < |times| ==> lastRead <= times[i])
    && (forall i, j :: 0 <= i < j < |times| ==> times[i] <= times[j])
  }

  /** The times, among calls made at `times`, at which an accessor whose
      cache was last refreshed at `lastRead` queries the ECU; each query
      moves `lastRead` to the time of that call. */
  function FetchTimes(lastRead: int, readFreq: nat, times: seq<nat>): (f: seq<nat>)
    ensures |f| <= |times|
    decreases |times|
  {
    if times == [] then []
    else if Due(times[0], lastRead, readFreq) then [times[0]] + FetchTimes(times[0], readFreq, times[1..])
    else FetchTimes(lastRead, readFreq, times[1..])
  }

  /** Every query happens at the time of one of the calls. */
  lemma {:induction false} FetchesAreCalls(lastRead: int, readFreq: nat, times: seq<nat>)
    ensures forall t :: t in FetchTimes(lastRead, readFreq, times) ==> t in times
    decreases |times|
  {
    if times != [] {
      var next := if Due(times[0], lastRead, readFreq) then times[0] else lastRead;
      FetchesAreCalls(next, readFreq, times[1..]);
      assert times == [times[0]] + times[1..];
      if Due(times[0], lastRead, readFreq) {
        assert FetchTimes(lastRead, readFreq, times)
               == [times[0]] + FetchTimes(next, readFreq, times[1..]);
      } else {
        assert FetchTimes(lastRead, readFreq, times) == FetchTimes(next, readFreq, times[1..]);
      }
    }
  }

  /** The `lastRead` a cache holds after queries at the times `f`, having
      started at `start`. */
  function LastOf(start: int, f: seq<nat>): int {
    if f == [] then start else f[|f| - 1]
  }

  /** One more call at `t` adds a query exactly when `t` is due against the
      `lastRead` left by the earlier calls. */
  lemma {:induction false} FetchTimesSnoc(lastRead: int, readFreq: nat, times: seq<nat>, t: nat)
    ensures var f := FetchTimes(lastRead, readFreq, times);
      FetchTimes(lastRead, readFreq, times + [t])
      == f + (if Due(t, LastOf(lastRead, f), readFreq) then [t] else [])
    decreases |times|
  {
    if times == [] {
      assert times + [t] == [t] && [t][1..] == [];
    } else {
      var ts := times + [t];
      assert ts[0] == times[0] && ts[1..] == times[1..] + [t];
      if Due(times[0], lastRead, readFreq) {
        FetchTimesSnoc(times[0], readFreq, times[1..], t);
        var g := FetchTimes(times[0], readFreq, times[1..]);
        assert LastOf(lastRead, [times[0]] + g) == LastOf(times[0], g);
      } else {
        FetchTimesSnoc(lastRead, readFreq, times[1..], t);
      }
    }
  }

  /** The snoc step on a prefix: the call at `times[i]` extends the queries
      of the calls before it. */
  lemma FetchTimesPrefix(lastRead: int, readFreq: nat, times: seq<nat>, i: nat)
    requires i < |times|
    ensures var f := FetchTimes(lastRead, readFreq, times[..i]);
      FetchTimes(lastRead, readFreq, times[..i + 1])
      == f + (if Due(times[i], LastOf(lastRead, f), readFreq) then [times[i]] else [])
  {
    FetchTimesSnoc(lastRead, readFreq, times[..i], times[i]);
    assert times[..i + 1] == times[..i] + [times[i]];
  }

  /** Later calls never change the queries of earlier ones: the queries of
      the first `i` calls are a prefix of those of the whole series. */
  lemma {:induction false} FetchTimesPrefixOf(lastRead: int, readFreq: nat, times: seq<nat>, i: nat)
    requires i <= |times|
    ensures FetchTimes(lastRead, readFreq, times[..i]) <= FetchTimes(lastRead, readFreq, times)
    decreases i
  {
    if i > 0 {
      var next := if Due(times[0], lastRead, readFreq) then times[0] else lastRead;
      FetchTimesPrefixOf(next, readFreq, times[1..], i - 1);
      assert times[..i][0] == times[0] && times[..i][1..] == times[1..][..i - 1];
    }
  }

  /** The call at `times[i]` in an ascending series: it adds a query
      exactly when due against the `lastRead` the earlier calls left, the
      queries so far are no more than those of the whole series, and the
      next call comes no earlier than the last query. */
  lemma FetchTimesStep(lastRead: int, readFreq: nat, times: seq<nat>, i: nat)
    requires i < |times| && Ascending(lastRead, times)
    requires LastOf(lastRead, FetchTimes(lastRead, readFreq, times[..i])) <= times[i]
    ensures var f := FetchTimes(lastRead, readFreq, times[..i]);
      var g := FetchTimes(lastRead, readFreq, times[..i + 1]);
      g == f + (if Due(times[i], LastOf(lastRead, f), readFreq) then [times[i]] else [])
      && |g| <= |FetchTimes(lastRead, readFreq, times)|
      && (i + 1 < |times| ==> LastOf(lastRead, g) <= times[i + 1])
  {
    FetchTimesPrefix(lastRead, readFreq, times, i);
    FetchTimesPrefixOf(lastRead, readFreq, times, i + 1);
    assert i + 1 < |times| ==> times[i] <= times[i + 1];
  }

  /** Each of the times `f` is more than `gap` after the one before it, the
      first more than `gap` after `start`. */
  predicate Spaced(start: int, gap: nat, f: seq<nat>) {
    (f != [] ==> f[0] - start > gap)
    && forall i :: 0 < i < |f| ==> f[i] - f[i - 1] > gap
  }

  /** Consecutive queries are more than `readFreq` ms apart, and the first
      one more than `readFreq` ms after `lastRead`. */
  lemma {:induction false} FetchesSpaced(lastRead: int, readFreq: nat, times: seq<nat>)
    ensures Spaced(lastRead, readFreq, FetchTimes(lastRead, readFreq, times))
    decreases |times|
  {
    if times != [] {
      var f := FetchTimes(lastRead, readFreq, times);
      if Due(times[0], lastRead, readFreq) {
        FetchesSpaced(times[0], readFreq, times[1..]);
        var g := FetchTimes(times[0], readFreq, times[1..]);
        assert f == [times[0]] + g;
        forall i | 0 < i < |f| ensures f[i] - f[i - 1] > readFreq {
          assert f[i] == g[i - 1];
          if i > 1 { assert f[i - 1] == g[i - 2]; }
        }
      } else {
        FetchesSpaced(lastRead, readFreq, times[1..]);
        assert f == FetchTimes(lastRead, readFreq, times[1..]);
      }
    }
  }

  /** Over calls spanning up to the last one, an accessor queries at most
      once per `readFreq + 1` ms elapsed since `lastRead`. */
  lemma {:induction false} FetchCountBound(lastRead: int, readFreq: nat, times: seq<nat>)
    requires times != [] && Ascending(lastRead, times)
    ensures |FetchTimes(lastRead, readFreq, times)| * (readFreq + 1) <= times[|times| - 1] - lastRead
    decreases |times|
  {
    var f := FetchTimes(lastRead, readFreq, times);
    var last := times[|times| - 1];
    var rest := times[1..];
    if rest == [] {
      assert f == if Due(times[0], lastRead, readFreq) then [times[0]] else [];
    } else {
      assert rest[|rest| - 1] == last;
      if Due(times[0], lastRead, readFreq) {
        assert Ascending(times[0], rest) by {
          forall i | 0 <= i < |rest| ensures times[0] <= rest[i] { assert rest[i] == times[i + 1]; }
          assert forall i, j :: 0 <= i < j < |rest| ==> rest[i] <= rest[j];
        }
        FetchCountBound(times[0], readFreq, rest);
        var g := FetchTimes(times[0], readFreq, rest);
        assert |f| == |g| + 1;
        MulSucc(|g|, readFreq + 1);
      } else {
        assert Ascending(lastRead, rest);
        FetchCountBound(lastRead, readFreq, rest);
        assert f == FetchTimes(lastRead, readFreq, rest);
      }
    }
  }

  /** Distributing one more factor `k`. */
  lemma MulSucc(m: nat, k: nat)
    ensures (m + 1) * k == m * k + k
  {
  }

  /** Calls that all fall within `readFreq` ms of each other query the ECU
      at most once. */
  lemma {:induction false} AtMostOneFetchPerInterval(lastRead: int, readFreq: nat, times: seq<nat>)
    requires times != [] && Ascending(lastRead, times)
    requires times[|times| - 1] - times[0] <= readFreq
    ensures |FetchTimes(lastRead, readFreq, times)| <= 1
  {
    var f := FetchTimes(lastRead, readFreq, times);
    if |f| >= 2 {
      FetchesAreCalls(lastRead, readFreq, times);
      assert f[0] in times && f[1] in times;
      var i :| 0 <= i < |times| && times[i] == f[0];
      var j :| 0 <= j < |times| && times[j] == f[1];
      assert times[0] <= times[i] && times[j] <= times[|times| - 1];
      FetchesSpaced(lastRead, readFreq, times);
      assert false;
    }
  }
}
