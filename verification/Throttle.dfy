/** The per-OLT command throttle: a minimum gap between commands and a budget per minute window. */
module Throttle {

  type Millis = int

  const MINUTE: Millis := 60_000

  /** The fields of the throttle, apart from its two settings. */
  datatype Window = Window(lastCommand: Millis, windowStart: Millis, windowCount: nat)

  /** One call of `wait` at `now`: refused, or admitted after `delay`. */
  datatype Outcome = Refused | Admitted(delay: Millis)

  function Refreshed(w: Window, now: Millis): Window {
    if now - w.windowStart > MINUTE then w.(windowStart := now, windowCount := 0) else w
  }

  function Wait(w: Window, minGap: Millis, maxPerMinute: nat, now: Millis): (Window, Outcome) {
    var current := Refreshed(w, now);
    if current.windowCount >= maxPerMinute then (current, Refused)
    else
      var delay := if now - current.lastCommand < minGap then minGap - (now - current.lastCommand) else 0;
      (current.(lastCommand := now + delay, windowCount := current.windowCount + 1), Admitted(delay))
  }

  /** The fields of the object, its zero times far in the past, and the clock as the mutex was last given up. */
  class OltThrottle {
    const minGap: Millis
    const maxPerMinute: nat
    var lastCommand: Millis
    var windowStart: Millis
    var windowCount: nat
    var clock: Millis

    constructor (minGap: Millis, maxPerMinute: nat, zeroTime: Millis, now: Millis)
      ensures this.minGap == minGap && this.maxPerMinute == maxPerMinute
      ensures Fields() == Window(zeroTime, zeroTime, 0) && clock == now
    {
      this.minGap, this.maxPerMinute := minGap, maxPerMinute;
      lastCommand, windowStart, windowCount, clock := zeroTime, zeroTime, 0, now;
    }

    function Fields(): Window
      reads this
    {
      Window(lastCommand, windowStart, windowCount)
    }

    /** `wait`, some time after the mutex was free: reads the clock, and sleeps `delay` before giving up the mutex. */
    method WaitTurn(idle: nat) returns (outcome: Outcome)
      requires minGap >= 0
      modifies this
      ensures (Fields(), outcome) == Wait(old(Fields()), minGap, maxPerMinute, old(clock) + idle)
      ensures outcome.Refused? ==> clock == old(clock) + idle
      ensures outcome.Admitted? ==> clock == lastCommand == old(clock) + idle + outcome.delay
                                    && lastCommand - old(lastCommand) >= minGap && outcome.delay >= 0
                                    && 1 <= windowCount <= maxPerMinute
      ensures clock >= old(clock)
      ensures var (now, same) := (old(clock) + idle, old(clock) + idle - old(windowStart) <= 60_000);
              && (outcome.Refused? <==> maxPerMinute == 0 || (same && old(windowCount) >= maxPerMinute))
              && windowStart == (if same then old(windowStart) else now)
              && (outcome.Admitted? ==> windowCount == (if same then old(windowCount) + 1 else 1))
              && lastCommand == (if outcome.Refused? then old(lastCommand)
                                 else if now >= old(lastCommand) + minGap then now else old(lastCommand) + minGap)
    {
      var now := clock + idle;
      clock := now;
      if now - windowStart > MINUTE {
        windowStart := now;
        windowCount := 0;
      }
      if windowCount >= maxPerMinute {
        return Refused;
      }
      var elapsed := now - lastCommand;
      if elapsed < minGap {
        var delay := minGap - elapsed;
        lastCommand := now + delay;
        windowCount := windowCount + 1;
        clock := clock + delay;
        return Admitted(delay);
      }
      lastCommand := now;
      windowCount := windowCount + 1;
      return Admitted(0);
    }
  }

  // ---------------------------------------------------------------- runs

  /** A call that was admitted: the clock it read, its stamp, and its window and number in it. */
  datatype Permit = Permit(read: Millis, stamp: Millis, windowStart: Millis, number: nat)

  /** The throttle between two calls, with the permits given so far. The clock is that of the moment the mutex was
      last given up, so a call that slept moved it past its own stamp. */
  datatype Trace = Trace(window: Window, clock: Millis, permits: seq<Permit>)

  function Call(t: Trace, minGap: Millis, maxPerMinute: nat, idle: nat): Trace {
    var now := t.clock + idle;
    match Wait(t.window, minGap, maxPerMinute, now)
    case (w, Refused) => Trace(w, now, t.permits)
    case (w, Admitted(delay)) =>
      Trace(w, now + delay, t.permits + [Permit(now, now + delay, w.windowStart, w.windowCount)])
  }

  /** The calls of a run, each a while after the mutex was free. */
  function Run(start: Trace, minGap: Millis, maxPerMinute: nat, idles: seq<nat>): Trace {
    if idles == [] then start
    else Call(Run(start, minGap, maxPerMinute, idles[..|idles| - 1]), minGap, maxPerMinute, idles[|idles| - 1])
  }

  lemma RunOneMore(start: Trace, minGap: Millis, maxPerMinute: nat, idles: seq<nat>, idle: nat)
    ensures Run(start, minGap, maxPerMinute, idles + [idle])
            == Call(Run(start, minGap, maxPerMinute, idles), minGap, maxPerMinute, idle)
  {
    assert (idles + [idle])[..|idles|] == idles;
  }

  /** A new throttle: nothing admitted, its zero times far in the past. */
  predicate Rested(t: Trace, minGap: Millis) {
    && t.permits == [] && t.window.windowCount == 0
    && t.clock - t.window.windowStart > MINUTE && t.clock - t.window.lastCommand >= minGap
  }

  // ---------------------------------------------------------------- the permits of a run

  /** How a permit follows the one before it. */
  predicate Follows(p: Permit, q: Permit, minGap: Millis, maxPerMinute: nat) {
    && q.read >= p.stamp
    && q.stamp == (if q.read - p.stamp < minGap then p.stamp + minGap else q.read)
    && (if q.read - p.windowStart > MINUTE then q.windowStart == q.read && q.number == 1
        else q.windowStart == p.windowStart && q.number == p.number + 1)
    && q.number <= maxPerMinute
  }

  predicate Chained(permits: seq<Permit>, minGap: Millis, maxPerMinute: nat) {
    && (permits != [] ==>
        permits[0].read == permits[0].stamp == permits[0].windowStart && permits[0].number == 1 <= maxPerMinute)
    && forall i | 0 < i < |permits| :: Follows(permits[i - 1], permits[i], minGap, maxPerMinute)
  }

  predicate InStep(t: Trace, minGap: Millis, maxPerMinute: nat) {
    && Chained(t.permits, minGap, maxPerMinute)
    && if t.permits == [] then maxPerMinute == 0 || Rested(t, minGap)
       else
         var last := t.permits[|t.permits| - 1];
         t.window == Window(last.stamp, last.windowStart, last.number) && t.clock >= last.stamp
  }

  lemma CallKeepsStep(t: Trace, minGap: Millis, maxPerMinute: nat, idle: nat)
    requires InStep(t, minGap, maxPerMinute) && minGap >= 0
    ensures InStep(Call(t, minGap, maxPerMinute, idle), minGap, maxPerMinute)
  {
  }

  lemma {:induction false} RunKeepsStep(start: Trace, minGap: Millis, maxPerMinute: nat, idles: seq<nat>)
    requires Rested(start, minGap) && minGap >= 0
    ensures InStep(Run(start, minGap, maxPerMinute, idles), minGap, maxPerMinute)
  {
    if idles == [] {
    } else {
      RunKeepsStep(start, minGap, maxPerMinute, idles[..|idles| - 1]);
      CallKeepsStep(Run(start, minGap, maxPerMinute, idles[..|idles| - 1]), minGap, maxPerMinute, idles[|idles| - 1]);
    }
  }

  /** Over any run, permits are stamped at least `minGap` times their distance apart. */
  lemma StampsKeepTheGap(start: Trace, minGap: Millis, maxPerMinute: nat, idles: seq<nat>, i: nat, j: nat)
    requires Rested(start, minGap) && minGap >= 0
    ensures var permits := Run(start, minGap, maxPerMinute, idles).permits;
            i <= j < |permits| ==> permits[j].stamp - permits[i].stamp >= (j - i) * minGap
  {
    RunKeepsStep(start, minGap, maxPerMinute, idles);
    var permits := Run(start, minGap, maxPerMinute, idles).permits;
    if i <= j < |permits| {
      GapsAddUp(permits, minGap, maxPerMinute, i, j);
    }
  }

  lemma {:induction false} GapsAddUp(permits: seq<Permit>, minGap: Millis, maxPerMinute: nat, i: nat, j: nat)
    requires Chained(permits, minGap, maxPerMinute) && minGap >= 0 && i <= j < |permits|
    ensures permits[j].stamp - permits[i].stamp >= (j - i) * minGap >= 0
  {
    if i < j {
      GapsAddUp(permits, minGap, maxPerMinute, i, j - 1);
      assert Follows(permits[j - 1], permits[j], minGap, maxPerMinute);
      Distributes(j - 1 - i, 1, minGap);
    }
  }

  // ---------------------------------------------------------------- windows

  /** A later permit is further on in the same window, or in a window that opened after the earlier one was
      stamped and more than a minute after its window. */
  predicate FurtherOn(p: Permit, q: Permit, steps: nat) {
    || (q.windowStart == p.windowStart && q.number == p.number + steps)
    || (q.windowStart >= p.stamp && q.windowStart > p.windowStart + MINUTE)
  }

  lemma {:induction false} Later(permits: seq<Permit>, minGap: Millis, maxPerMinute: nat, i: nat, j: nat)
    requires Chained(permits, minGap, maxPerMinute) && minGap >= 0 && i <= j < |permits|
    ensures FurtherOn(permits[i], permits[j], j - i)
    ensures permits[j].windowStart <= permits[j].read <= permits[j].stamp && 1 <= permits[j].number <= maxPerMinute
  {
    if i < j {
      Later(permits, minGap, maxPerMinute, i, j - 1);
      GapsAddUp(permits, minGap, maxPerMinute, i, j - 1);
      assert Follows(permits[j - 1], permits[j], minGap, maxPerMinute);
    } else if i > 0 {
      Later(permits, minGap, maxPerMinute, i - 1, i - 1);
      assert Follows(permits[i - 1], permits[i], minGap, maxPerMinute);
    }
  }

  /** With a budget of one and a gap within the minute, no call ever has to sleep. */
  lemma {:induction false} OneNeverSleeps(permits: seq<Permit>, minGap: Millis, i: nat)
    requires Chained(permits, minGap, 1) && 0 <= minGap <= MINUTE && i < |permits|
    ensures permits[i].stamp == permits[i].windowStart
  {
    if i == 0 {
    } else {
      OneNeverSleeps(permits, minGap, i - 1);
      Later(permits, minGap, 1, i - 1, i - 1);
      assert Follows(permits[i - 1], permits[i], minGap, 1);
    }
  }

  /** The first permit of a window sleeps at most the gap. */
  lemma FirstSleeps(permits: seq<Permit>, minGap: Millis, maxPerMinute: nat, i: nat)
    requires Chained(permits, minGap, maxPerMinute) && minGap >= 0 && i < |permits| && permits[i].number == 1
    ensures permits[i].stamp <= permits[i].windowStart + minGap
  {
    if i > 0 {
      Later(permits, minGap, maxPerMinute, i - 1, i - 1);
      assert Follows(permits[i - 1], permits[i], minGap, maxPerMinute);
    }
  }

  /** Twice the budget takes more than a minute. */
  lemma TwoBudgetsTakeLonger(permits: seq<Permit>, minGap: Millis, maxPerMinute: nat, i: nat)
    requires Chained(permits, minGap, maxPerMinute) && minGap >= 0 && maxPerMinute >= 1
    requires i + 2 * maxPerMinute - 1 < |permits|
    ensures permits[i + 2 * maxPerMinute - 1].stamp - permits[i].stamp > MINUTE
  {
    var (mid, end) := (i + maxPerMinute, i + 2 * maxPerMinute - 1);
    var (p, q, r) := (permits[i], permits[mid], permits[end]);
    Later(permits, minGap, maxPerMinute, i, i);
    Later(permits, minGap, maxPerMinute, i, mid);
    Later(permits, minGap, maxPerMinute, mid, end);
    assert q.windowStart >= p.stamp && q.windowStart > p.windowStart + MINUTE;
    if r.windowStart == q.windowStart {
      assert q.number == 1;
      Later(permits, minGap, maxPerMinute, i, mid - 1);
      assert Follows(permits[mid - 1], q, minGap, maxPerMinute);
      if p.number == 1 {
        FirstWindowFull(permits, minGap, maxPerMinute, i);
      }
    }
  }

  lemma FirstWindowFull(permits: seq<Permit>, minGap: Millis, maxPerMinute: nat, i: nat)
    requires Chained(permits, minGap, maxPerMinute) && minGap >= 0 && maxPerMinute >= 1
    requires i + 2 * maxPerMinute - 1 < |permits| && permits[i].number == 1
    requires permits[i + maxPerMinute].windowStart > permits[i].windowStart + MINUTE
    ensures permits[i + 2 * maxPerMinute - 1].stamp - permits[i].stamp > MINUTE
  {
    var (mid, end) := (i + maxPerMinute, i + 2 * maxPerMinute - 1);
    Later(permits, minGap, maxPerMinute, mid, mid);
    GapsAddUp(permits, minGap, maxPerMinute, mid, end);
    FirstSleeps(permits, minGap, maxPerMinute, i);
    if maxPerMinute == 1 {
      BudgetOfOne(permits, minGap, i);
    } else {
      AtLeastOneGap(maxPerMinute - 1, minGap);
      assert permits[end].stamp >= permits[mid].windowStart + minGap;
    }
  }

  lemma AtLeastOneGap(k: nat, minGap: Millis)
    requires k >= 1 && minGap >= 0
    ensures k * minGap >= minGap
  {
  }

  lemma BudgetOfOne(permits: seq<Permit>, minGap: Millis, i: nat)
    requires Chained(permits, minGap, 1) && minGap >= 0 && i + 1 < |permits|
    requires permits[i + 1].windowStart > permits[i].windowStart + MINUTE
    ensures permits[i + 1].stamp - permits[i].stamp > MINUTE
  {
    Later(permits, minGap, 1, i + 1, i + 1);
    if minGap <= MINUTE {
      OneNeverSleeps(permits, minGap, i);
    } else {
      assert Follows(permits[i], permits[i + 1], minGap, 1);
    }
  }

  // ---------------------------------------------------------------- how many in a minute

  /** `n` commands within one minute. Stamps ascend, so they are `n` in a row. */
  ghost predicate Crowded(permits: seq<Permit>, n: nat)
    requires n >= 1
  {
    exists i :: 0 <= i <= |permits| - n && permits[i + n - 1].stamp - permits[i].stamp <= 60_000
  }

  function CountIn(permits: seq<Permit>, since: Millis): nat {
    if permits == [] then 0
    else
      var last := permits[|permits| - 1];
      CountIn(permits[..|permits| - 1], since) + if since <= last.stamp <= since + 60_000 then 1 else 0
  }

  /** The permits within a minute are in a row. */
  lemma {:induction false} CountedInARow(permits: seq<Permit>, since: Millis) returns (i: nat)
    requires forall a, b | 0 <= a < b < |permits| :: permits[a].stamp <= permits[b].stamp
    requires CountIn(permits, since) >= 1
    ensures var c := CountIn(permits, since);
            && i + c <= |permits| && since <= permits[i].stamp && permits[i + c - 1].stamp <= since + MINUTE
            && (i + c < |permits| ==> permits[i + c].stamp > since + MINUTE)
  {
    var n := |permits| - 1;
    if CountIn(permits[..n], since) >= 1 {
      i := CountedInARow(permits[..n], since);
      assert permits[..n][i] == permits[i];
    } else {
      i := n;
    }
  }

  lemma CountCrowds(permits: seq<Permit>, since: Millis, n: nat)
    requires forall a, b | 0 <= a < b < |permits| :: permits[a].stamp <= permits[b].stamp
    requires CountIn(permits, since) >= n >= 1
    ensures Crowded(permits, n)
  {
    var i := CountedInARow(permits, since);
    assert permits[i + n - 1].stamp <= permits[i + CountIn(permits, since) - 1].stamp;
  }

  // ---------------------------------------------------------------- runs that fill a minute

  /** A call a gap after the last one does not sleep. */
  lemma GapLater(t: Trace, minGap: nat, maxPerMinute: nat)
    requires t.clock == t.window.lastCommand && maxPerMinute >= 1
    requires t.clock + minGap - t.window.windowStart > MINUTE || t.window.windowCount < maxPerMinute
    ensures var now := t.clock + minGap;
            var (start, number) := if now - t.window.windowStart > MINUTE then (now, 1)
                                   else (t.window.windowStart, t.window.windowCount + 1);
            Call(t, minGap, maxPerMinute, minGap)
            == Trace(Window(now, start, number), now, t.permits + [Permit(now, now, start, number)])
  {
  }

  /** A burst: calls a gap apart. */
  function BurstIdles(minGap: nat, k: nat): seq<nat> {
    if k == 0 then [] else if k == 1 then [0] else BurstIdles(minGap, k - 1) + [minGap]
  }

  /** The throttle after a burst of `k`, the last at `at`. */
  predicate Bursting(start: Trace, out: Trace, k: nat, at: Millis) {
    && |out.permits| == k >= 1 && out.permits[0].stamp == start.clock && out.permits[k - 1].stamp == at
    && out.clock == at && out.window == Window(at, start.clock, k)
  }

  lemma BurstStep(start: Trace, out: Trace, minGap: nat, maxPerMinute: nat, k: nat, at: Millis)
    requires Bursting(start, out, k, at) && k < maxPerMinute && at + minGap <= start.clock + MINUTE
    ensures Bursting(start, Call(out, minGap, maxPerMinute, minGap), k + 1, at + minGap)
  {
    GapLater(out, minGap, maxPerMinute);
  }

  lemma BurstBegins(start: Trace, minGap: nat, maxPerMinute: nat)
    requires Rested(start, minGap) && maxPerMinute >= 1
    ensures Bursting(start, Run(start, minGap, maxPerMinute, BurstIdles(minGap, 1)), 1, start.clock)
  {
    RunOneMore(start, minGap, maxPerMinute, [], 0);
    assert [] + [0] == [0];
  }

  lemma BurstGoesOn(start: Trace, minGap: nat, maxPerMinute: nat, k: nat, at: Millis)
    requires 1 <= k < maxPerMinute && at + minGap <= start.clock + MINUTE
    requires Bursting(start, Run(start, minGap, maxPerMinute, BurstIdles(minGap, k)), k, at)
    ensures Bursting(start, Run(start, minGap, maxPerMinute, BurstIdles(minGap, k + 1)), k + 1, at + minGap)
  {
    BurstStep(start, Run(start, minGap, maxPerMinute, BurstIdles(minGap, k)), minGap, maxPerMinute, k, at);
    RunOneMore(start, minGap, maxPerMinute, BurstIdles(minGap, k), minGap);
  }

  /** A burst of `k` spans `k - 1` gaps. */
  lemma {:induction false} Burst(start: Trace, minGap: nat, maxPerMinute: nat, k: nat, span: int)
    requires Rested(start, minGap) && 1 <= k <= maxPerMinute && span == (k - 1) * minGap && span <= MINUTE
    ensures Bursting(start, Run(start, minGap, maxPerMinute, BurstIdles(minGap, k)), k, start.clock + span)
  {
    if k == 1 {
      BurstBegins(start, minGap, maxPerMinute);
    } else {
      OneGapLess(k, minGap, span);
      Burst(start, minGap, maxPerMinute, k - 1, span - minGap);
      BurstGoesOn(start, minGap, maxPerMinute, k - 1, start.clock + span - minGap);
    }
  }

  lemma OneGapLess(k: nat, minGap: nat, span: int)
    requires k >= 2 && span == (k - 1) * minGap
    ensures span - minGap == (k - 2) * minGap >= 0
  {
    Distributes(k - 2, 1, minGap);
    SignOfProduct(k - 2, minGap);
  }

  /** One command, a long rest, then a burst that starts `maxPerMinute - 1` gaps before the window ends and goes on
      into the next one. */
  function StraddleIdles(minGap: nat, maxPerMinute: nat, k: nat): seq<nat>
    requires maxPerMinute >= 1 && maxPerMinute * minGap <= MINUTE
  {
    if k == 0 then [0]
    else if k == 1 then [0, RestBefore(minGap, maxPerMinute)]
    else StraddleIdles(minGap, maxPerMinute, k - 1) + [minGap]
  }

  function RestBefore(minGap: nat, maxPerMinute: nat): (rest: nat)
    requires maxPerMinute >= 1 && maxPerMinute * minGap <= MINUTE
    ensures rest == MINUTE + 1 - (maxPerMinute - 1) * minGap && rest >= minGap
  {
    Distributes(maxPerMinute - 1, 1, minGap);
    MINUTE + 1 - (maxPerMinute - 1) * minGap
  }

  /** The throttle after the command, the rest and `k` commands of the burst: `from` and `ahead` are how far the first
      and the last of them are from the second window's start. */
  predicate Straddling(start: Trace, out: Trace, maxPerMinute: nat, k: nat, from: int, ahead: int) {
    var second := start.clock + MINUTE + 1;
    && |out.permits| == k + 1 >= 2 && out.clock == second + ahead && out.permits[k].stamp == second + ahead
    && out.permits[1].stamp == second + from
    && out.window == (if k < maxPerMinute then Window(second + ahead, start.clock, k + 1)
                      else Window(second + ahead, second, k - maxPerMinute + 1))
  }

  lemma StraddleBegins(start: Trace, minGap: nat, maxPerMinute: nat, from: int)
    requires Rested(start, minGap) && minGap >= 1 && maxPerMinute >= 2 && maxPerMinute * minGap <= MINUTE
    requires from == (1 - maxPerMinute) * minGap
    ensures Straddling(start, Run(start, minGap, maxPerMinute, StraddleIdles(minGap, maxPerMinute, 1)), maxPerMinute, 1,
                       from, from)
  {
    var rest := RestBefore(minGap, maxPerMinute);
    Distributes(maxPerMinute - 1, 1 - maxPerMinute, minGap);
    SignOfGaps(1 - maxPerMinute, minGap);
    FirstTwo(start, minGap, maxPerMinute, rest);
  }

  lemma FirstTwo(start: Trace, minGap: nat, maxPerMinute: nat, rest: nat)
    requires Rested(start, minGap) && maxPerMinute >= 2 && minGap <= rest <= MINUTE
    ensures Straddling(start, Run(start, minGap, maxPerMinute, [0, rest]), maxPerMinute, 1, rest - MINUTE - 1,
                       rest - MINUTE - 1)
  {
    RunOneMore(start, minGap, maxPerMinute, [], 0);
    RunOneMore(start, minGap, maxPerMinute, [0], rest);
    assert [] + [0] == [0] && [0] + [rest] == [0, rest];
    RestThenCall(Run(start, minGap, maxPerMinute, [0]), minGap, maxPerMinute, rest);
  }

  /** A call after a rest within the first window does not sleep. */
  lemma RestThenCall(t: Trace, minGap: nat, maxPerMinute: nat, rest: nat)
    requires t.clock == t.window.lastCommand == t.window.windowStart && t.window.windowCount == 1 < maxPerMinute
    requires minGap <= rest <= MINUTE
    ensures var now := t.clock + rest;
            Call(t, minGap, maxPerMinute, rest)
            == Trace(Window(now, t.clock, 2), now, t.permits + [Permit(now, now, t.clock, 2)])
  {
  }

  /** The calls before the second window's start are in the first window, the others in the second. */
  lemma StraddleStep(start: Trace, out: Trace, minGap: nat, maxPerMinute: nat, k: nat, from: int, ahead: int)
    requires 1 <= k < 2 * maxPerMinute - 1 && (k + 1 < maxPerMinute <==> ahead + minGap < 0) && ahead + minGap <= MINUTE
    requires (k + 1 == maxPerMinute ==> ahead + minGap == 0) && Straddling(start, out, maxPerMinute, k, from, ahead)
    ensures Straddling(start, Call(out, minGap, maxPerMinute, minGap), maxPerMinute, k + 1, from, ahead + minGap)
  {
    GapLater(out, minGap, maxPerMinute);
  }

  lemma OneMoreGap(d: int, minGap: nat)
    ensures (d + 1) * minGap == d * minGap + minGap
  {
    Distributes(d, 1, minGap);
  }

  lemma SignOfGaps(d: int, minGap: nat)
    requires minGap >= 1
    ensures d < 0 ==> d * minGap < 0
    ensures d >= 0 ==> d * minGap >= 0
  {
    if d >= 0 {
      SignOfProduct(d, minGap);
    } else {
      Distributes(d, -d, minGap);
      AtLeastOneGap(-d, minGap);
    }
  }

  lemma Distributes(a: int, b: int, c: int)
    ensures (a + b) * c == a * c + b * c
  {
  }

  lemma SignOfProduct(a: nat, b: nat)
    ensures a * b >= 0
  {
  }

  lemma {:induction false} Straddle(start: Trace, minGap: nat, maxPerMinute: nat, k: nat, from: int, ahead: int)
    requires Rested(start, minGap) && minGap >= 1 && maxPerMinute >= 2 && maxPerMinute * minGap <= MINUTE
    requires 1 <= k <= 2 * maxPerMinute - 1 && from == (1 - maxPerMinute) * minGap
    requires ahead == (k - maxPerMinute) * minGap && ahead <= MINUTE
    ensures Straddling(start, Run(start, minGap, maxPerMinute, StraddleIdles(minGap, maxPerMinute, k)), maxPerMinute, k,
                       from, ahead)
  {
    if k == 1 {
      StraddleBegins(start, minGap, maxPerMinute, from);
    } else {
      GapsFromSecond(k, minGap, maxPerMinute, ahead);
      Straddle(start, minGap, maxPerMinute, k - 1, from, ahead - minGap);
      StraddleGoesOn(start, minGap, maxPerMinute, k - 1, from, ahead - minGap);
    }
  }

  lemma GapsFromSecond(k: nat, minGap: nat, maxPerMinute: nat, ahead: int)
    requires minGap >= 1 && ahead == (k - maxPerMinute) * minGap
    ensures ahead - minGap == (k - 1 - maxPerMinute) * minGap
    ensures (k < maxPerMinute <==> ahead < 0) && (k == maxPerMinute ==> ahead == 0)
  {
    OneMoreGap(k - 1 - maxPerMinute, minGap);
    SignOfGaps(k - maxPerMinute, minGap);
  }

  lemma StraddleGoesOn(start: Trace, minGap: nat, maxPerMinute: nat, k: nat, from: int, ahead: int)
    requires maxPerMinute * minGap <= MINUTE && 1 <= k < 2 * maxPerMinute - 1
    requires (k + 1 < maxPerMinute <==> ahead + minGap < 0) && ahead + minGap <= MINUTE
    requires k + 1 == maxPerMinute ==> ahead + minGap == 0
    requires Straddling(start, Run(start, minGap, maxPerMinute, StraddleIdles(minGap, maxPerMinute, k)), maxPerMinute,
                        k, from, ahead)
    ensures Straddling(start, Run(start, minGap, maxPerMinute, StraddleIdles(minGap, maxPerMinute, k + 1)),
                       maxPerMinute, k + 1, from, ahead + minGap)
  {
    var idles := StraddleIdles(minGap, maxPerMinute, k);
    StraddleStep(start, Run(start, minGap, maxPerMinute, idles), minGap, maxPerMinute, k, from, ahead);
    RunOneMore(start, minGap, maxPerMinute, idles, minGap);
  }

  // ---------------------------------------------------------------- main results

  /** Some run gets `n` commands into a minute. */
  ghost predicate CanCrowd(start: Trace, minGap: Millis, maxPerMinute: nat, n: nat)
    requires n >= 1
  {
    exists idles :: RunCrowds(start, minGap, maxPerMinute, idles, n)
  }

  ghost predicate RunCrowds(start: Trace, minGap: Millis, maxPerMinute: nat, idles: seq<nat>, n: nat)
    requires n >= 1
  {
    Crowded(Run(start, minGap, maxPerMinute, idles).permits, n)
  }

  /** Over any run, a minute holds at most `2 * maxPerMinute - 1` commands. */
  lemma MinuteBound(start: Trace, minGap: nat, maxPerMinute: nat, idles: seq<nat>, since: Millis)
    requires Rested(start, minGap) && maxPerMinute >= 1
    ensures CountIn(Run(start, minGap, maxPerMinute, idles).permits, since) <= 2 * maxPerMinute - 1
  {
    var permits := Run(start, minGap, maxPerMinute, idles).permits;
    RunKeepsStep(start, minGap, maxPerMinute, idles);
    forall a, b | 0 <= a < b < |permits|
      ensures permits[a].stamp <= permits[b].stamp
    {
      GapsAddUp(permits, minGap, maxPerMinute, a, b);
    }
    NotCrowded(start, minGap, maxPerMinute, 2 * maxPerMinute, idles);
    if CountIn(permits, since) >= 2 * maxPerMinute {
      CountCrowds(permits, since, 2 * maxPerMinute);
    }
  }

  /** Exactly how many commands a run can get into a minute: as many as leave room for the gaps, and one less than
      twice the budget. */
  lemma MinuteCapacity(start: Trace, minGap: nat, maxPerMinute: nat, n: nat)
    requires Rested(start, minGap) && minGap >= 1 && maxPerMinute >= 1 && n >= 1
    ensures CanCrowd(start, minGap, maxPerMinute, n) <==> n <= 2 * maxPerMinute - 1 && (n - 1) * minGap <= MINUTE
  {
    if n <= 2 * maxPerMinute - 1 && (n - 1) * minGap <= MINUTE {
      var idles := FillMinute(start, minGap, maxPerMinute, n);
    } else {
      forall idles
        ensures !RunCrowds(start, minGap, maxPerMinute, idles, n)
      {
        NotCrowded(start, minGap, maxPerMinute, n, idles);
      }
    }
  }

  lemma FillMinute(start: Trace, minGap: nat, maxPerMinute: nat, n: nat) returns (idles: seq<nat>)
    requires Rested(start, minGap) && minGap >= 1 && maxPerMinute >= 1 && n >= 1
    requires n <= 2 * maxPerMinute - 1 && (n - 1) * minGap <= MINUTE
    ensures RunCrowds(start, minGap, maxPerMinute, idles, n)
  {
    if n <= maxPerMinute {
      idles := BurstIdles(minGap, n);
      Burst(start, minGap, maxPerMinute, n, (n - 1) * minGap);
      assert Run(start, minGap, maxPerMinute, idles).permits[0 + n - 1].stamp - start.clock <= MINUTE;
    } else {
      GapsSplit(minGap, maxPerMinute, n);
      idles := StraddleIdles(minGap, maxPerMinute, n);
      Straddle(start, minGap, maxPerMinute, n, (1 - maxPerMinute) * minGap, (n - maxPerMinute) * minGap);
      assert Run(start, minGap, maxPerMinute, idles).permits[1 + n - 1].stamp
             - Run(start, minGap, maxPerMinute, idles).permits[1].stamp <= MINUTE;
    }
  }

  lemma GapsSplit(minGap: nat, maxPerMinute: nat, n: nat)
    requires 1 <= maxPerMinute < n
    ensures maxPerMinute * minGap <= (n - 1) * minGap && (n - maxPerMinute) * minGap <= (n - 1) * minGap
    ensures (n - maxPerMinute) * minGap - (1 - maxPerMinute) * minGap == (n - 1) * minGap
  {
    Distributes(maxPerMinute, n - 1 - maxPerMinute, minGap);
    SignOfProduct(n - 1 - maxPerMinute, minGap);
    Distributes(n - maxPerMinute, maxPerMinute - 1, minGap);
    SignOfProduct(maxPerMinute - 1, minGap);
    Distributes(maxPerMinute - 1, 1 - maxPerMinute, minGap);
  }

  lemma NotCrowded(start: Trace, minGap: nat, maxPerMinute: nat, n: nat, idles: seq<nat>)
    requires Rested(start, minGap) && maxPerMinute >= 1 && n >= 1
    requires n > 2 * maxPerMinute - 1 || (n - 1) * minGap > MINUTE
    ensures !RunCrowds(start, minGap, maxPerMinute, idles, n)
  {
    var permits := Run(start, minGap, maxPerMinute, idles).permits;
    RunKeepsStep(start, minGap, maxPerMinute, idles);
    forall i | 0 <= i <= |permits| - n
      ensures permits[i + n - 1].stamp - permits[i].stamp > MINUTE
    {
      GapsAddUp(permits, minGap, maxPerMinute, i, i + n - 1);
      if n > 2 * maxPerMinute - 1 {
        TwoBudgetsTakeLonger(permits, minGap, maxPerMinute, i);
        GapsAddUp(permits, minGap, maxPerMinute, i + 2 * maxPerMinute - 1, i + n - 1);
      }
    }
  }

  /** No run exceeds its budget in any minute exactly when the budget is at most one or the gaps alone keep it:
      otherwise calls at the end of one window and the start of the next do. */
  lemma BudgetKept(start: Trace, minGap: nat, maxPerMinute: nat)
    requires Rested(start, minGap) && minGap >= 1
    ensures !CanCrowd(start, minGap, maxPerMinute, maxPerMinute + 1)
            <==> maxPerMinute <= 1 || maxPerMinute * minGap > MINUTE
  {
    if maxPerMinute == 0 {
      forall idles
        ensures !RunCrowds(start, minGap, 0, idles, 1)
      {
        RunKeepsStep(start, minGap, 0, idles);
      }
    } else {
      MinuteCapacity(start, minGap, maxPerMinute, maxPerMinute + 1);
    }
  }

  /** The bound of `MinuteBound` is reached exactly when the gaps leave room for it. */
  lemma MinuteBoundIsTight(start: Trace, minGap: nat, maxPerMinute: nat)
    requires Rested(start, minGap) && minGap >= 1 && maxPerMinute >= 1
    ensures CanCrowd(start, minGap, maxPerMinute, 2 * maxPerMinute - 1) <==> (2 * maxPerMinute - 2) * minGap <= MINUTE
  {
    MinuteCapacity(start, minGap, maxPerMinute, 2 * maxPerMinute - 1);
  }
}
