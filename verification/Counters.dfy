/** Octet counters of ONUs: storing samples, and the rates between them. */
module Counters {
  import opened Money

  const TWO64 := 0x1_0000_0000_0000_0000

  /** The largest value of the columns, which are signed 64-bit. */
  const COLUMN_MAX := 0x7FFF_FFFF_FFFF_FFFF

  newtype uint64 = x: int | 0 <= x < TWO64

  /** The key of an ONU's row. */
  datatype Index = Index(text: string)

  datatype Sample = Sample(inOctets: uint64, outOctets: uint64)

  /** The last stored sample and when it was taken, in microseconds. */
  datatype Counter = Counter(sample: Sample, at: int)

  datatype Onu = Onu(counter: Option<Counter>, inBps: real, outBps: real)

  // ---------------------------------------------------------------- rates

  /** The difference `deltaBps` makes a rate of, computed within 64 bits throughout. */
  function DeltaOctets(previous: uint64, current: uint64): (d: uint64)
    ensures (previous as int + d as int) % TWO64 == current as int
  {
    if current >= previous then current - previous
    else (TWO64 - 1) as uint64 - previous + current + 1
  }

  function DeltaBps(previous: uint64, current: uint64, seconds: real): real
    requires seconds > 0.0
  {
    Bps(DeltaOctets(previous, current) as int, seconds)
  }

  function Bps(octets: int, seconds: real): real
    requires seconds > 0.0
  {
    octets as real * 8.0 / seconds
  }

  /** The counter counts modulo 2^64, so the difference is the true growth exactly when that is a growth of
      less than 2^64; a counter that was reset is not told from one that wrapped. */
  lemma DeltaIsGrowth(total: nat, growth: int)
    requires total + growth >= 0
    ensures DeltaOctets((total % TWO64) as uint64, ((total + growth) % TWO64) as uint64) as int == growth
            <==> 0 <= growth < TWO64
  {
    var (a, b) := (total % TWO64, (total + growth) % TWO64);
    var (p, q) := (total / TWO64, (total + growth) / TWO64);
    assert total == p * TWO64 + a && total + growth == q * TWO64 + b;
    if 0 <= growth < TWO64 {
      assert q == p || q == p + 1;
    }
  }

  /** A counter that starts again from 5 after 1000: the difference is 2^64 - 995, not the 5 octets counted. */
  lemma ResetLooksWrapped()
    ensures DeltaOctets(1000, 5) as int == TWO64 - 995
  {
    DeltaIsGrowth(1000, TWO64 - 995);
  }

  // ---------------------------------------------------------------- one sample

  function Seconds(micros: int): real {
    micros as real / 1000000.0
  }

  predicate Storable(s: Sample) {
    s.inOctets as int <= COLUMN_MAX && s.outOctets as int <= COLUMN_MAX
  }

  /** The row a stored sample leaves: no rate without an earlier sample strictly before it. */
  function Updated(row: Onu, s: Sample, now: int): Onu {
    match row.counter
    case None => Onu(Some(Counter(s, now)), 0.0, 0.0)
    case Some(c) =>
      if Seconds(now - c.at) > 0.0 then
        Onu(Some(Counter(s, now)), DeltaBps(c.sample.inOctets, s.inOctets, Seconds(now - c.at)),
            DeltaBps(c.sample.outOctets, s.outOctets, Seconds(now - c.at)))
      else Onu(Some(Counter(s, now)), 0.0, 0.0)
  }

  /** A stored sample replaces the one before and stamps it. Both rates are 0 if there was none, or none strictly
      before; else each is eight times the octets that lead from the old reading to the new one modulo 2^64, over the
      seconds between. */
  lemma RowStored(row: Onu, s: Sample, now: int)
    ensures var out := Updated(row, s, now);
            && out.counter == Some(Counter(s, now))
            && (row.counter.None? || now <= row.counter.value.at ==> out.inBps == 0.0 && out.outBps == 0.0)
            && (row.counter.Some? && row.counter.value.at < now ==>
                  var (was, micros) := (row.counter.value.sample, now - row.counter.value.at);
                  && RateOf(out.inBps, was.inOctets as int, s.inOctets as int, micros)
                  && RateOf(out.outBps, was.outOctets as int, s.outOctets as int, micros))
  {
    if row.counter.Some? && row.counter.value.at < now {
      var (was, micros) := (row.counter.value.sample, now - row.counter.value.at);
      OneRate(was.inOctets, s.inOctets, micros);
      OneRate(was.outOctets, s.outOctets, micros);
    }
  }

  /** `bps` is what `octets` from 0 to 2^64 - 1 come to in the time, for the one number that leads from `from` to
      `to`. */
  ghost predicate RateOf(bps: real, from: int, to: int, micros: int) {
    exists octets: nat :: Leads(from, octets, to) && bps * micros as real == octets as real * 8_000_000.0
  }

  predicate Leads(from: int, octets: nat, to: int) {
    octets < 0x1_0000_0000_0000_0000 && (from + octets) % 0x1_0000_0000_0000_0000 == to
  }

  lemma OneRate(from: uint64, to: uint64, micros: int)
    requires micros > 0
    ensures RateOf(DeltaBps(from, to, Seconds(micros)), from as int, to as int, micros)
  {
    var octets := DeltaOctets(from, to) as nat;
    RateTimesMicros(octets, micros);
    assert Leads(from as int, octets, to as int);
  }

  lemma RateTimesMicros(octets: nat, micros: int)
    requires micros > 0
    ensures Bps(octets, Seconds(micros)) * micros as real == octets as real * 8_000_000.0
  {
    var (m, secs) := (micros as real, Seconds(micros));
    assert secs * 1000000.0 == m;
    assert Bps(octets, secs) * secs == octets as real * 8.0;
    assert Bps(octets, secs) * m == Bps(octets, secs) * secs * 1000000.0;
  }

  /** The UPDATE of one ONU's row, if it is there. */
  function Store(onus: map<Index, Onu>, i: Index, s: Sample, now: int): map<Index, Onu> {
    if i in onus then onus[i := Updated(onus[i], s, now)] else onus
  }

  class OltRepository {
    var onus: map<Index, Onu>

    constructor (onus: map<Index, Onu>)
      ensures this.onus == onus
    {
      this.onus := onus;
    }

    /** `UpdateTraffic`: one committed update for each sample, in whatever order the map yields them. A reading
        the column cannot hold stops it; what was stored before stays. */
    method UpdateTraffic(samples: map<Index, Sample>, now: int)
        returns (updated: nat, failed: bool, ghost done: set<Index>)
      modifies this
      ensures failed <==> exists i :: i in samples && TooLarge(samples[i])
      ensures done <= samples.Keys && (forall i :: i in done ==> Storable(samples[i]))
              && (!failed ==> done == samples.Keys)
      ensures onus == Applied(old(onus), samples, done, now) && updated == |done * old(onus).Keys|
    {
      updated, done := 0, {};
      var todo := samples.Keys;
      assert onus == Applied(onus, samples, done, now);
      while todo != {}
        invariant todo == samples.Keys - done
        invariant Progress(old(onus), samples, done, now, onus, updated)
        decreases |todo|
      {
        var i :| i in todo;
        if !Storable(samples[i]) {
          return updated, true, done;
        }
        OneMoreApplied(old(onus), samples, done, now, onus, updated, i);
        updated := updated + if i in onus then 1 else 0;
        onus := Store(onus, i, samples[i], now);
        done := done + {i};
        todo := todo - {i};
      }
      assert done == samples.Keys;
      failed := false;
    }
  }

  /** A reading of 2^63 or more. */
  predicate TooLarge(s: Sample) {
    s.inOctets as int >= 0x8000_0000_0000_0000 || s.outOctets as int >= 0x8000_0000_0000_0000
  }

  /** Some samples have been stored, and the rows they found counted. */
  ghost predicate Progress(start: map<Index, Onu>, samples: map<Index, Sample>, done: set<Index>, now: int,
                           onus: map<Index, Onu>, updated: nat) {
    && done <= samples.Keys && (forall i :: i in done ==> Storable(samples[i]))
    && onus == Applied(start, samples, done, now) && updated == |done * start.Keys|
  }

  /** The table after the samples of some ONUs. */
  ghost function Applied(onus: map<Index, Onu>, samples: map<Index, Sample>, done: set<Index>,
                         now: int): (out: map<Index, Onu>)
    requires done <= samples.Keys
    ensures out.Keys == onus.Keys
  {
    map i | i in onus :: if i in done then Updated(onus[i], samples[i], now) else onus[i]
  }

  lemma OneMoreApplied(start: map<Index, Onu>, samples: map<Index, Sample>, done: set<Index>, now: int,
                       onus: map<Index, Onu>, updated: nat, i: Index)
    requires Progress(start, samples, done, now, onus, updated) && i in samples && i !in done && Storable(samples[i])
    ensures Progress(start, samples, done + {i}, now, Store(onus, i, samples[i], now),
                     updated + if i in onus then 1 else 0)
  {
    AppliedMore(start, samples, done, now, i);
    HitMore(start.Keys, done, i);
  }

  lemma AppliedMore(start: map<Index, Onu>, samples: map<Index, Sample>, done: set<Index>, now: int, i: Index)
    requires done <= samples.Keys && i in samples && i !in done
    ensures Applied(start, samples, done + {i}, now) == Store(Applied(start, samples, done, now), i, samples[i], now)
  {
  }

  lemma HitMore(keys: set<Index>, done: set<Index>, i: Index)
    requires i !in done
    ensures |(done + {i}) * keys| == |done * keys| + if i in keys then 1 else 0
  {
    if i in keys {
      assert (done + {i}) * keys == done * keys + {i};
    } else {
      assert (done + {i}) * keys == done * keys;
    }
  }

  // ---------------------------------------------------------------- a run of samples

  /** A poll of one ONU: the octets it has really passed so far, and the time. */
  datatype Poll = Poll(inTotal: nat, outTotal: nat, at: int)

  function Reading(p: Poll): Sample {
    Sample((p.inTotal % TWO64) as uint64, (p.outTotal % TWO64) as uint64)
  }

  /** A poll whose reading cannot be stored fails and changes nothing. */
  function After(polls: seq<Poll>): Onu {
    if polls == [] then Onu(None, 0.0, 0.0)
    else
      var before := After(polls[..|polls| - 1]);
      var p := polls[|polls| - 1];
      if Storable(Reading(p)) then Updated(before, Reading(p), p.at) else before
  }

  /** Octets a rate stands for over a time. */
  function Octets(bps: real, micros: int): real {
    bps * Seconds(micros) / 8.0
  }

  /** The octets the stored rates stand for, over the times they stand for. */
  ghost function ImpliedIn(polls: seq<Poll>): real {
    if polls == [] then 0.0
    else ImpliedIn(polls[..|polls| - 1]) + ImpliedByLast(polls, After(polls).inBps)
  }

  ghost function ImpliedOut(polls: seq<Poll>): real {
    if polls == [] then 0.0
    else ImpliedOut(polls[..|polls| - 1]) + ImpliedByLast(polls, After(polls).outBps)
  }

  ghost function ImpliedByLast(polls: seq<Poll>, bps: real): real
    requires polls != []
  {
    var p := polls[|polls| - 1];
    match After(polls[..|polls| - 1]).counter
    case None => 0.0
    case Some(c) => if Storable(Reading(p)) then Octets(bps, p.at - c.at) else 0.0
  }

  /** The stored polls. */
  ghost function Stored(polls: seq<Poll>): seq<Poll> {
    if polls == [] then []
    else
      var before := Stored(polls[..|polls| - 1]);
      if Storable(Reading(polls[|polls| - 1])) then before + [polls[|polls| - 1]] else before
  }

  /** Time passes from one poll to the other, and less than 2^64 octets each way. */
  predicate Apart(a: Poll, b: Poll) {
    && a.at < b.at
    && a.inTotal <= b.inTotal < a.inTotal + TWO64
    && a.outTotal <= b.outTotal < a.outTotal + TWO64
  }

  predicate Spaced(stored: seq<Poll>) {
    |stored| > 1 ==> Apart(stored[|stored| - 2], stored[|stored| - 1]) && Spaced(stored[..|stored| - 1])
  }

  lemma {:induction false} LastStored(polls: seq<Poll>)
    ensures var stored := Stored(polls);
            After(polls).counter == if stored == [] then None
                                    else Some(Counter(Reading(stored[|stored| - 1]), stored[|stored| - 1].at))
  {
    if polls == [] {
    } else {
      LastStored(polls[..|polls| - 1]);
    }
  }

  lemma RateTimesTime(octets: int, micros: int)
    requires micros > 0
    ensures Octets(Bps(octets, Seconds(micros)), micros) == octets as real
  {
    var (rate, seconds) := (Bps(octets, Seconds(micros)), Seconds(micros));
    assert rate * seconds == octets as real * 8.0;
  }

  /** Over any run of polls the stored rates account for exactly the octets that passed between the first and the
      last stored poll, however often the counters wrapped and however many polls could not be stored. */
  lemma {:induction false} RatesTelescope(polls: seq<Poll>)
    requires Spaced(Stored(polls)) && Stored(polls) != []
    ensures var stored := Stored(polls);
            && ImpliedIn(polls) == (stored[|stored| - 1].inTotal - stored[0].inTotal) as real
            && ImpliedOut(polls) == (stored[|stored| - 1].outTotal - stored[0].outTotal) as real
  {
    var (init, p) := (polls[..|polls| - 1], polls[|polls| - 1]);
    var before := Stored(init);
    LastStored(init);
    if before == [] {
      NothingImplied(init);
    } else if Storable(Reading(p)) {
      assert Stored(polls)[..|before|] == before;
      RatesTelescope(init);
      OneStep(polls);
    } else {
      RatesTelescope(init);
    }
  }

  lemma {:induction false} NothingImplied(polls: seq<Poll>)
    requires Stored(polls) == []
    ensures ImpliedIn(polls) == 0.0 && ImpliedOut(polls) == 0.0
  {
    if polls == [] {
    } else {
      NothingImplied(polls[..|polls| - 1]);
    }
  }

  lemma OneStep(polls: seq<Poll>)
    requires polls != [] && Storable(Reading(polls[|polls| - 1]))
    requires var before := Stored(polls[..|polls| - 1]);
             before != [] && Apart(before[|before| - 1], polls[|polls| - 1])
    ensures var (before, p) := (Stored(polls[..|polls| - 1]), polls[|polls| - 1]);
            && ImpliedByLast(polls, After(polls).inBps) == (p.inTotal - before[|before| - 1].inTotal) as real
            && ImpliedByLast(polls, After(polls).outBps) == (p.outTotal - before[|before| - 1].outTotal) as real
  {
    var before := Stored(polls[..|polls| - 1]);
    LastStored(polls[..|polls| - 1]);
    OctetsStored(After(polls[..|polls| - 1]), before[|before| - 1], polls[|polls| - 1]);
  }

  lemma OctetsStored(row: Onu, last: Poll, p: Poll)
    requires row.counter == Some(Counter(Reading(last), last.at)) && Apart(last, p)
    ensures var out := Updated(row, Reading(p), p.at);
            && Octets(out.inBps, p.at - last.at) == (p.inTotal - last.inTotal) as real
            && Octets(out.outBps, p.at - last.at) == (p.outTotal - last.outTotal) as real
  {
    DeltaIsGrowth(last.inTotal, p.inTotal - last.inTotal);
    DeltaIsGrowth(last.outTotal, p.outTotal - last.outTotal);
    RateTimesTime(p.inTotal - last.inTotal, p.at - last.at);
    RateTimesTime(p.outTotal - last.outTotal, p.at - last.at);
  }
}
