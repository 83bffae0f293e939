/** The traffic series of the daily chart: rates from counters, and merging of points. */
module Traffic {
  import opened Money

  /** A number of the language, infinities and NaN being one case. */
  datatype Number = Finite(value: real) | NotFinite

  datatype Point = Point(t: Number, inBps: Number, outBps: Number)

  datatype Counter = Counter(t: real, inOctets: Number, outOctets: Number, source: Option<string>)

  // ---------------------------------------------------------------- rates

  const MAX_SAFE := 9007199254740991.0

  /** A safe integer that is not negative. */
  predicate Count(n: Number) {
    n.Finite? && 0.0 <= n.value <= MAX_SAFE && n.value.Floor as real == n.value
  }

  function Rate(previous: Number, current: Number, seconds: real): Number
    requires previous.Finite? && current.Finite? && seconds > 0.0
  {
    Finite((current.value - previous.value) * 8.0 / seconds)
  }

  /** `counterRate`: no rate across sources, gaps of over a minute, or resets. */
  function CounterRate(previous: Option<Counter>, current: Counter): Option<Point> {
    if previous.None? || current.source != previous.value.source then None
    else
      var p := previous.value;
      var seconds := current.t - p.t;
      if seconds <= 0.0 || seconds > 60.0 then None
      else if !(Count(p.inOctets) && Count(p.outOctets) && Count(current.inOctets) && Count(current.outOctets))
          then None
      else if current.inOctets.value < p.inOctets.value || current.outOctets.value < p.outOctets.value then None
      else Some(Point(Finite(current.t), Rate(p.inOctets, current.inOctets, seconds),
                      Rate(p.outOctets, current.outOctets, seconds)))
  }

  // ---------------------------------------------------------------- merging

  /** What a point needs to be shown. */
  predicate Shown(p: Point, cutoff: real) {
    && p.t.Finite? && p.t.value >= cutoff
    && p.inBps.Finite? && p.outBps.Finite? && p.inBps.value >= 0.0 && p.outBps.value >= 0.0
  }

  /** The point at time `t` that the last write left. */
  function LastAt(all: seq<Point>, cutoff: real, t: Number): Option<Point> {
    if all == [] then None
    else
      var p := all[|all| - 1];
      if Shown(p, cutoff) && p.t == t then Some(p) else LastAt(all[..|all| - 1], cutoff, t)
  }

  predicate InTime(s: seq<Point>) {
    (forall p | p in s :: p.t.Finite?) && forall i, j | 0 <= i < j < |s| :: s[i].t.value < s[j].t.value
  }

  /** A right merge: strictly in time order, and at every time the last shown point, if there is one. */
  ghost predicate Merged(all: seq<Point>, cutoff: real, result: seq<Point>) {
    && InTime(result)
    && forall t :: PointAt(result, t) == LastAt(all, cutoff, t)
  }

  /** The point of a series at a time. */
  function PointAt(s: seq<Point>, t: Number): Option<Point> {
    if s == [] then None
    else if s[|s| - 1].t == t then Some(s[|s| - 1])
    else PointAt(s[..|s| - 1], t)
  }

  /** The sort of the language's library on points of distinct times: one more point put in its place. */
  function Insert(s: seq<Point>, p: Point): seq<Point>
    requires InTime(s) && p.t.Finite?
  {
    if s == [] || s[|s| - 1].t.value < p.t.value then s + [p]
    else Insert(s[..|s| - 1], p) + [s[|s| - 1]]
  }

  lemma {:induction false} PointAtMeaning(s: seq<Point>, t: Number)
    requires InTime(s)
    ensures PointAt(s, t).Some? ==> PointAt(s, t).value in s && PointAt(s, t).value.t == t
    ensures forall p | p in s && p.t == t :: PointAt(s, t) == Some(p)
  {
    if s == [] {
    } else {
      PointAtMeaning(s[..|s| - 1], t);
    }
  }

  lemma {:induction false} InsertPutsInPlace(s: seq<Point>, p: Point)
    requires InTime(s) && p.t.Finite? && PointAt(s, p.t).None?
    ensures InTime(Insert(s, p)) && forall q :: q in Insert(s, p) <==> q in s || q == p
  {
    if s != [] && s[|s| - 1].t.value >= p.t.value {
      var (init, last) := (s[..|s| - 1], s[|s| - 1]);
      InsertPutsInPlace(init, p);
      PointAtMeaning(s, p.t);
      assert last in s && last.t != p.t;
      forall q | q in Insert(init, p)
        ensures q.t.value < last.t.value
      {
        if q != p {
          assert q in init;
        }
      }
    }
  }

  lemma AfterInsert(s: seq<Point>, p: Point, t: Number)
    requires InTime(s) && p.t.Finite? && PointAt(s, p.t).None?
    ensures PointAt(Insert(s, p), t) == if p.t == t then Some(p) else PointAt(s, t)
  {
    InsertPutsInPlace(s, p);
    PointAtMeaning(s, t);
    PointAtMeaning(Insert(s, p), t);
    assert p in Insert(s, p);
  }

  /** The series holds the points of the map at the times taken. */
  ghost predicate Holds(result: seq<Point>, points: map<Number, Point>, taken: set<Number>) {
    InTime(result) && forall t :: PointAt(result, t) == if t in taken && t in points then Some(points[t]) else None
  }

  /** `mergeTraffic`: a map by time, later writes over earlier ones, then the values in order. */
  method MergeTraffic(history: seq<Point>, live: seq<Point>, cutoff: real) returns (result: seq<Point>)
    ensures Merged(history + live, cutoff, result)
  {
    var all := history + live;
    var points: map<Number, Point> := map[];
    for k := 0 to |all|
      invariant forall t :: (if t in points then Some(points[t]) else None) == LastAt(all[..k], cutoff, t)
      invariant forall t :: t in points ==> points[t].t == t && t.Finite?
    {
      assert all[..k + 1][..k] == all[..k];
      var point := all[k];
      if !Shown(point, cutoff) {
        continue;
      }
      points := points[point.t := point];
    }
    assert all[..|all|] == all;
    result := SortedValues(points);
  }

  method SortedValues(points: map<Number, Point>) returns (result: seq<Point>)
    requires forall t :: t in points ==> points[t].t == t && t.Finite?
    ensures Holds(result, points, points.Keys)
  {
    result := [];
    var taken: set<Number> := {};
    var todo: set<Number> := points.Keys;
    while todo != {}
      invariant taken == points.Keys - todo && todo <= points.Keys && Holds(result, points, taken)
      decreases |todo|
    {
      var t :| t in todo;
      OneMoreHeld(result, points, taken, t);
      result := Insert(result, points[t]);
      taken := taken + {t};
      todo := todo - {t};
    }
  }

  lemma OneMoreHeld(result: seq<Point>, points: map<Number, Point>, taken: set<Number>, t: Number)
    requires Holds(result, points, taken) && t in points && points[t].t == t && t.Finite? && t !in taken
    ensures Holds(Insert(result, points[t]), points, taken + {t})
  {
    InsertPutsInPlace(result, points[t]);
    forall u
      ensures PointAt(Insert(result, points[t]), u) == if u in taken + {t} && u in points then Some(points[u]) else None
    {
      AfterInsert(result, points[t], u);
    }
  }

  // ---------------------------------------------------------------- main results

  /** There is a right merge. */
  lemma {:induction false} AnyMerge(all: seq<Point>, cutoff: real) returns (result: seq<Point>)
    ensures Merged(all, cutoff, result)
  {
    if all == [] {
      result := [];
    } else {
      var (init, p) := (all[..|all| - 1], all[|all| - 1]);
      var before := AnyMerge(init, cutoff);
      if Shown(p, cutoff) {
        var others := Without(before, p.t);
        result := Insert(others, p);
        InsertPutsInPlace(others, p);
        forall t
          ensures PointAt(result, t) == LastAt(all, cutoff, t)
        {
          AfterInsert(others, p, t);
        }
      } else {
        result := before;
      }
    }
  }

  lemma {:induction false} Without(s: seq<Point>, t: Number) returns (others: seq<Point>)
    requires InTime(s)
    ensures InTime(others) && forall u :: PointAt(others, u) == if u == t then None else PointAt(s, u)
    ensures forall p :: p in others ==> p in s
  {
    if s == [] {
      others := [];
    } else {
      var (init, last) := (s[..|s| - 1], s[|s| - 1]);
      PointAtMeaning(s, t);
      if last.t == t {
        others := init;
        forall u
          ensures PointAt(others, u) == if u == t then None else PointAt(s, u)
        {
          WithoutLast(s, u);
        }
      } else {
        var rest := Without(init, t);
        forall p | p in rest
          ensures p.t.Finite? && p.t.value < last.t.value
        {
          assert p in init;
        }
        others := rest + [last];
      }
    }
  }

  /** Three numbers, none before the cutoff and no rate below zero. */
  ghost predicate Drawable(p: Point, cutoff: real) {
    match p
    case Point(Finite(t), Finite(down), Finite(up)) => t >= cutoff && down >= 0.0 && up >= 0.0
    case _ => false
  }

  /** Row `i` is drawable and no later drawable one has its time. */
  ghost predicate LastDrawable(all: seq<Point>, cutoff: real, i: nat) {
    i < |all| && Drawable(all[i], cutoff) && forall j | i < j < |all|
        && Drawable(all[j], cutoff) :: all[j].t != all[i].t
  }

  /** A merge shows exactly the drawable points that no later drawable one of their time replaces. */
  lemma MergeShows(all: seq<Point>, cutoff: real, result: seq<Point>, p: Point)
    requires Merged(all, cutoff, result)
    ensures p in result <==> exists i: nat :: LastDrawable(all, cutoff, i) && all[i] == p
  {
    PointAtMeaning(result, p.t);
    LastAtDraws(all, cutoff, p.t);
    if p in result {
      var i: nat :| LastDrawable(all, cutoff, i) && all[i] == LastAt(all, cutoff, p.t).value;
    }
    if i: nat :| LastDrawable(all, cutoff, i) && all[i] == p {
      assert LastAt(all, cutoff, p.t) == Some(p);
    }
  }

  /** Among the rows of a time, the last drawable one of a list is its last row or that of the rest. */
  lemma LastDrawableMore(init: seq<Point>, last: Point, all: seq<Point>, cutoff: real, t: Number)
    requires all == init + [last]
    ensures Drawable(last, cutoff) && last.t == t ==>
              LastDrawable(all, cutoff, |init|) && forall i: nat | LastDrawable(all, cutoff, i)
                  && all[i].t == t :: i == |init|
    ensures !(Drawable(last, cutoff) && last.t == t) ==>
              forall i: nat | i < |all| && all[i].t == t :: LastDrawable(all, cutoff, i)
                  <==> LastDrawable(init, cutoff, i)
  {
    assert forall i | 0 <= i < |init| :: all[i] == init[i];
    assert all[|init|] == last;
  }

  lemma {:induction false} LastAtDraws(all: seq<Point>, cutoff: real, t: Number)
    ensures LastAt(all, cutoff, t).Some? ==>
              exists i: nat :: LastDrawable(all, cutoff, i) && all[i] == LastAt(all, cutoff, t).value && all[i].t == t
    ensures forall i: nat | LastDrawable(all, cutoff, i) && all[i].t == t :: LastAt(all, cutoff, t) == Some(all[i])
  {
    if all == [] {
    } else {
      var (init, last) := (all[..|all| - 1], all[|all| - 1]);
      LastAtDraws(init, cutoff, t);
      assert Shown(last, cutoff) <==> Drawable(last, cutoff);
      LastDrawableMore(init, last, all, cutoff, t);
    }
  }

  /** There is one right merge. */
  lemma {:induction false} OneMerge(all: seq<Point>, cutoff: real, a: seq<Point>, b: seq<Point>)
    requires Merged(all, cutoff, a) && Merged(all, cutoff, b)
    ensures a == b
  {
    SameSeries(a, b);
  }

  lemma {:induction false} SameSeries(a: seq<Point>, b: seq<Point>)
    requires InTime(a) && InTime(b) && forall t :: PointAt(a, t) == PointAt(b, t)
    ensures a == b
  {
    assert a != [] ==> PointAt(a, a[|a| - 1].t).Some?;
    assert b != [] ==> PointAt(b, b[|b| - 1].t).Some?;
    if a != [] && b != [] {
      var (x, y) := (a[|a| - 1], b[|b| - 1]);
      PointAtMeaning(a, y.t);
      PointAtMeaning(b, x.t);
      assert PointAt(a, x.t) == Some(x) && PointAt(b, y.t) == Some(y);
      assert x in b && y in a;
      assert x == y;
      var (c, d) := (a[..|a| - 1], b[..|b| - 1]);
      forall t
        ensures PointAt(c, t) == PointAt(d, t)
      {
        WithoutLast(a, t);
        WithoutLast(b, t);
      }
      SameSeries(c, d);
    }
  }

  lemma WithoutLast(s: seq<Point>, t: Number)
    requires InTime(s) && s != []
    ensures PointAt(s[..|s| - 1], t) == if s[|s| - 1].t == t then None else PointAt(s, t)
  {
    PointAtMeaning(s[..|s| - 1], t);
  }

  lemma {:induction false} LastAtConcat(a: seq<Point>, b: seq<Point>, cutoff: real, t: Number)
    ensures LastAt(a + b, cutoff, t)
            == if LastAt(b, cutoff, t).Some? then LastAt(b, cutoff, t) else LastAt(a, cutoff, t)
  {
    if b == [] {
      assert a + b == a;
    } else {
      assert (a + b)[..|a + b| - 1] == a + b[..|b| - 1];
      LastAtConcat(a, b[..|b| - 1], cutoff, t);
    }
  }

  /** A later cutoff only hides earlier times. */
  lemma {:induction false} LaterCutoff(all: seq<Point>, early: real, late: real, t: Number)
    requires early <= late
    ensures LastAt(all, late, t) == if t.Finite? && t.value >= late then LastAt(all, early, t) else None
  {
    if all == [] {
    } else {
      LaterCutoff(all[..|all| - 1], early, late, t);
    }
  }

  lemma {:induction false} LastOfSeries(s: seq<Point>, early: real, late: real, t: Number)
    requires early <= late && InTime(s) && forall p | p in s :: Shown(p, early)
    ensures LastAt(s, late, t) == if t.Finite? && t.value >= late then PointAt(s, t) else None
  {
    if s == [] {
    } else {
      assert s[|s| - 1] in s;
      LastOfSeries(s[..|s| - 1], early, late, t);
    }
  }

  lemma {:induction false} LastIsShown(all: seq<Point>, cutoff: real, t: Number)
    ensures LastAt(all, cutoff, t).Some? ==> Shown(LastAt(all, cutoff, t).value, cutoff)
  {
    if all == [] {
    } else {
      LastIsShown(all[..|all| - 1], cutoff, t);
    }
  }

  lemma MergedIsShown(all: seq<Point>, cutoff: real, result: seq<Point>)
    requires Merged(all, cutoff, result)
    ensures forall p | p in result :: Shown(p, cutoff)
  {
    forall p | p in result
      ensures Shown(p, cutoff)
    {
      PointAtMeaning(result, p.t);
      LastIsShown(all, cutoff, p.t);
    }
  }

  lemma TwoStepsEqualOnce(all: seq<Point>, more: seq<Point>, early: real, late: real, first: seq<Point>,
                          result: seq<Point>)
    requires early <= late && Merged(all, early, first) && Merged(first + more, late, result)
    ensures Merged(all + more, late, result)
  {
    MergedIsShown(all, early, first);
    forall t
      ensures PointAt(result, t) == LastAt(all + more, late, t)
    {
      LastAtConcat(first, more, late, t);
      LastAtConcat(all, more, late, t);
      LastOfSeries(first, early, late, t);
      LaterCutoff(all, early, late, t);
    }
  }

  datatype Batch = Batch(points: seq<Point>, cutoff: real)

  function Everything(batches: seq<Batch>, n: nat): seq<Point>
    requires n <= |batches|
  {
    if n == 0 then [] else Everything(batches, n - 1) + batches[n - 1].points
  }

  /** Each series is the merge of the one before with the next batch. */
  ghost predicate Steps(batches: seq<Batch>, series: seq<seq<Point>>) {
    |series| == |batches| && forall i | 0 <= i < |batches| :: StepAt(batches, series, i)
  }

  ghost predicate StepAt(batches: seq<Batch>, series: seq<seq<Point>>, i: nat)
    requires i < |batches| == |series|
  {
    Merged((if i == 0 then [] else series[i - 1]) + batches[i].points, batches[i].cutoff, series[i])
  }

  /** Merging batch by batch, with cutoffs that never go back, shows after each batch what merging everything so far
      at once would. */
  lemma {:induction false} StepsEqualOnce(batches: seq<Batch>, series: seq<seq<Point>>, n: nat)
    requires Steps(batches, series) && 0 < n <= |batches|
    requires forall i, j | 0 <= i < j < |batches| :: batches[i].cutoff <= batches[j].cutoff
    ensures Merged(Everything(batches, n), batches[n - 1].cutoff, series[n - 1])
  {
    assert StepAt(batches, series, n - 1);
    if n == 1 {
      assert Everything(batches, 0) == [];
    } else {
      StepsEqualOnce(batches, series, n - 1);
      TwoStepsEqualOnce(Everything(batches, n - 1), batches[n - 1].points, batches[n - 2].cutoff, batches[n - 1].cutoff,
                        series[n - 2], series[n - 1]);
    }
  }

  // ---------------------------------------------------------------- the points kept

  /** `slice(-n)`. */
  function Cut(s: seq<Point>, n: nat): seq<Point> {
    if |s| <= n then s else s[|s| - n..]
  }

  /** How many points come before a time. */
  function Before(s: seq<Point>, since: real): (k: nat)
    requires InTime(s)
    ensures k <= |s| && (forall i | 0 <= i < k :: s[i].t.value < since)
            && forall i | k <= i < |s| :: s[i].t.value >= since
  {
    if s == [] || s[|s| - 1].t.value < since then |s| else Before(s[..|s| - 1], since)
  }

  /** The points from a time on. */
  function From(s: seq<Point>, since: real): (r: seq<Point>)
    requires InTime(s)
    ensures InTime(r)
  {
    s[Before(s, since)..]
  }

  lemma PointIs(s: seq<Point>, i: nat)
    requires InTime(s) && i < |s|
    ensures PointAt(s, s[i].t) == Some(s[i])
  {
    PointAtMeaning(s, s[i].t);
  }

  lemma PointFrom(s: seq<Point>, since: real, t: Number)
    requires InTime(s)
    ensures PointAt(From(s, since), t) == if t.Finite? && t.value >= since then PointAt(s, t) else None
  {
    if PointAt(From(s, since), t).Some? {
      KeptPoint(s, since, t);
    } else if PointAt(s, t).Some? {
      PointKept(s, since, t);
    }
  }

  /** A point that is left was there... */
  lemma KeptPoint(s: seq<Point>, since: real, t: Number)
    requires InTime(s) && PointAt(From(s, since), t).Some?
    ensures t.Finite? && t.value >= since && PointAt(From(s, since), t) == PointAt(s, t)
  {
    var (r, k) := (From(s, since), Before(s, since));
    var j := IndexAt(r, t);
    assert r[j] == s[k + j];
    PointIs(s, k + j);
  }

  /** ... and a point that was there is left if it is not before. */
  lemma PointKept(s: seq<Point>, since: real, t: Number)
    requires InTime(s) && PointAt(s, t).Some?
    ensures t.Finite? && t.value >= since ==> PointAt(From(s, since), t).Some?
  {
    var (r, k) := (From(s, since), Before(s, since));
    var i := IndexAt(s, t);
    if i >= k {
      assert s[i] == r[i - k];
      PointIs(r, i - k);
    }
  }

  lemma IndexAt(s: seq<Point>, t: Number) returns (i: nat)
    requires InTime(s) && PointAt(s, t).Some?
    ensures i < |s| && PointAt(s, t) == Some(s[i]) && s[i].t == t
  {
    PointAtMeaning(s, t);
    i :| 0 <= i < |s| && s[i] == PointAt(s, t).value;
  }

  function Times(s: seq<Point>): set<Number> {
    set p | p in s :: p.t
  }

  lemma {:induction false} TimesAreApart(s: seq<Point>)
    requires InTime(s)
    ensures |Times(s)| == |s|
  {
    if s == [] {
    } else {
      var (init, last) := (s[..|s| - 1], s[|s| - 1]);
      TimesAreApart(init);
      assert s == init + [last];
      assert Times(s) == Times(init) + {last.t};
      assert last.t !in Times(init);
    }
  }

  /** A series with a point at every time of another is as long. */
  lemma NoShorter(a: seq<Point>, b: seq<Point>)
    requires InTime(a) && InTime(b) && forall p | p in a :: PointAt(b, p.t).Some?
    ensures |a| <= |b|
  {
    forall t | t in Times(a)
      ensures t in Times(b)
    {
      PointAtMeaning(b, t);
    }
    TimesAreApart(a);
    TimesAreApart(b);
    SubsetIsSmaller(Times(a), Times(b));
  }

  lemma {:induction false} SubsetIsSmaller(a: set<Number>, b: set<Number>)
    requires a <= b
    ensures |a| <= |b|
  {
    if a == {} {
    } else {
      var t :| t in a;
      SubsetIsSmaller(a - {t}, b - {t});
    }
  }

  lemma CutFrom(s: seq<Point>, since: real, n: nat)
    requires InTime(s) && |From(s, since)| >= n
    ensures Cut(From(s, since), n) == Cut(s, n)
  {
  }

  lemma {:induction false} BeforeIs(s: seq<Point>, since: real, k: nat)
    requires InTime(s) && k <= |s| && (forall i | 0 <= i < k :: s[i].t.value < since)
    requires forall i | k <= i < |s| :: s[i].t.value >= since
    ensures Before(s, since) == k
  {
    if k == |s| {
    } else {
      BeforeIs(s[..|s| - 1], since, k);
    }
  }

  lemma FromOneOn(s: seq<Point>, k: nat)
    requires InTime(s) && k < |s|
    ensures From(s, s[k].t.value) == s[k..]
  {
    BeforeIs(s, s[k].t.value, k);
  }

  lemma PointOfMerge(whole: seq<Point>, more: seq<Point>, early: real, cutoff: real, result: seq<Point>, t: Number)
    requires InTime(whole) && early <= cutoff && forall p | p in whole :: Shown(p, early)
    requires Merged(whole + more, cutoff, result)
    ensures PointAt(result, t) == if LastAt(more, cutoff, t).Some? then LastAt(more, cutoff, t)
                                  else if t.Finite? && t.value >= cutoff then PointAt(whole, t) else None
  {
    LastAtConcat(whole, more, cutoff, t);
    LastOfSeries(whole, early, cutoff, t);
  }

  /** What is cut away before a merge would be cut away after it. */
  lemma CutBefore(whole: seq<Point>, more: seq<Point>, early: real, cutoff: real, n: nat, big: seq<Point>,
                  small: seq<Point>)
    requires InTime(whole) && n > 0 && early <= cutoff && forall p | p in whole :: Shown(p, early)
    requires Merged(whole + more, cutoff, big) && Merged(Cut(whole, n) + more, cutoff, small)
    ensures Cut(big, n) == Cut(small, n)
  {
    if |whole| <= n {
      OneMerge(whole + more, cutoff, big, small);
    } else {
      var since := whole[|whole| - n].t.value;
      FromOneOn(whole, |whole| - n);
      forall t
        ensures SameLater(whole, cutoff, since, big, small, t)
      {
        PointsOfBoth(whole, more, early, cutoff, since, big, small, t);
      }
      if since < cutoff {
        assert forall t | SameLater(whole, cutoff, since, big, small, t) :: PointAt(big, t) == PointAt(small, t);
        SameSeries(big, small);
      } else {
        LongEnough(whole, cutoff, since, big, small, n);
      }
    }
  }

  /** With the points from `since` on kept, two merges agree from then on, and everywhere if the cutoff is later. */
  predicate SameLater(whole: seq<Point>, cutoff: real, since: real, big: seq<Point>, small: seq<Point>, t: Number)
    requires InTime(whole)
  {
    && (!t.Finite? || t.value >= since || since < cutoff ==> PointAt(big, t) == PointAt(small, t))
    && (since >= cutoff && PointAt(From(whole, since), t).Some? ==>
        t.Finite? && t.value >= since && PointAt(small, t).Some?)
  }

  lemma PointsOfBoth(whole: seq<Point>, more: seq<Point>, early: real, cutoff: real, since: real,
                     big: seq<Point>, small: seq<Point>, t: Number)
    requires InTime(whole) && early <= cutoff && forall p | p in whole :: Shown(p, early)
    requires Merged(whole + more, cutoff, big) && Merged(From(whole, since) + more, cutoff, small)
    ensures SameLater(whole, cutoff, since, big, small, t)
  {
    PointOfMerge(whole, more, early, cutoff, big, t);
    PointOfMerge(From(whole, since), more, early, cutoff, small, t);
    PointFrom(whole, since, t);
    PointAtMeaning(whole, t);
  }

  lemma LongEnough(whole: seq<Point>, cutoff: real, since: real, big: seq<Point>, small: seq<Point>, n: nat)
    requires InTime(whole) && InTime(big) && InTime(small) && |From(whole, since)| == n && since >= cutoff
    requires forall t :: SameLater(whole, cutoff, since, big, small, t)
    ensures Cut(big, n) == Cut(small, n)
  {
    forall t
      ensures PointAt(From(big, since), t) == PointAt(From(small, since), t)
      ensures PointAt(From(whole, since), t).Some? ==> PointAt(From(small, since), t).Some?
    {
      assert SameLater(whole, cutoff, since, big, small, t);
      PointFrom(big, since, t);
      PointFrom(small, since, t);
    }
    SameSeries(From(big, since), From(small, since));
    forall p | p in From(whole, since)
      ensures PointAt(From(small, since), p.t).Some?
    {
      PointAtMeaning(From(whole, since), p.t);
    }
    NoShorter(From(whole, since), From(small, since));
    CutFrom(big, since, n);
    CutFrom(small, since, n);
  }

  /** Each series is the merge of the one before with the next batch, cut to its last `n` points. */
  ghost predicate CutSteps(batches: seq<Batch>, n: nat, series: seq<seq<Point>>) {
    |series| == |batches| && forall i | 0 <= i < |batches| :: CutStepAt(batches, n, series, i)
  }

  ghost predicate CutStepAt(batches: seq<Batch>, n: nat, series: seq<seq<Point>>, i: nat)
    requires i < |batches| == |series|
  {
    CutMerge((if i == 0 then [] else series[i - 1]) + batches[i].points, batches[i].cutoff, n, series[i])
  }

  /** The last `n` points of the right merge. */
  ghost predicate CutMerge(all: seq<Point>, cutoff: real, n: nat, kept: seq<Point>) {
    exists merged :: Merged(all, cutoff, merged) && kept == Cut(merged, n)
  }

  /** Merging batch by batch and cutting every time keeps the last points of merging everything at once: cutting on the
      way loses none of them, however the points are spaced. */
  lemma {:induction false} CutStepsEqualOnce(batches: seq<Batch>, n: nat, series: seq<seq<Point>>, k: nat)
    returns (once: seq<Point>)
    requires CutSteps(batches, n, series) && n > 0 && 0 < k <= |batches|
    requires forall i, j | 0 <= i < j < |batches| :: batches[i].cutoff <= batches[j].cutoff
    ensures Merged(Everything(batches, k), batches[k - 1].cutoff, once) && series[k - 1] == Cut(once, n)
  {
    assert CutStepAt(batches, n, series, k - 1);
    var batch := batches[k - 1];
    if k == 1 {
      assert Everything(batches, 0) == [];
      once := CutFirst(batch.points, batch.cutoff, n, series[0]);
    } else {
      var whole := CutStepsEqualOnce(batches, n, series, k - 1);
      once := CutNext(Everything(batches, k - 1), whole, batch.points, batches[k - 2].cutoff, batch.cutoff, n,
                      series[k - 2], series[k - 1]);
    }
  }

  lemma CutFirst(points: seq<Point>, cutoff: real, n: nat, kept: seq<Point>) returns (once: seq<Point>)
    requires CutMerge([] + points, cutoff, n, kept)
    ensures Merged([] + points, cutoff, once) && kept == Cut(once, n)
  {
    once :| Merged([] + points, cutoff, once) && kept == Cut(once, n);
  }

  lemma CutNext(all: seq<Point>, whole: seq<Point>, more: seq<Point>, early: real, cutoff: real, n: nat,
                before: seq<Point>, kept: seq<Point>) returns (once: seq<Point>)
    requires n > 0 && early <= cutoff && Merged(all, early, whole)
    requires before == Cut(whole, n) && CutMerge(before + more, cutoff, n, kept)
    ensures Merged(all + more, cutoff, once) && kept == Cut(once, n)
  {
    var merged :| Merged(before + more, cutoff, merged) && kept == Cut(merged, n);
    MergedIsShown(all, early, whole);
    once := AnyMerge(whole + more, cutoff);
    TwoStepsEqualOnce(all, more, early, cutoff, whole, once);
    CutBefore(whole, more, early, cutoff, n, once, merged);
  }

  /** There is a rate exactly between two counters of one source that are safe counts, none going back, at most a minute
      apart. */
  lemma WhenThereIsARate(previous: Counter, current: Counter)
    ensures CounterRate(None, current) == None
    ensures CounterRate(Some(previous), current).Some?
            <==> previous.source == current.source && previous.t < current.t <= previous.t + 60.0
                 && (forall n | n in [previous.inOctets, previous.outOctets, current.inOctets, current.outOctets] ::
                       n.Finite? && 0.0 <= n.value <= 9007199254740991.0 && n.value == n.value.Floor as real)
                 && previous.inOctets.value <= current.inOctets.value
                 && previous.outOctets.value <= current.outOctets.value
  {
    var ns := [previous.inOctets, previous.outOctets, current.inOctets, current.outOctets];
    assert ns[0] in ns && ns[1] in ns && ns[2] in ns && ns[3] in ns;
    assert (forall n | n in ns :: Count(n)) <==> Count(ns[0]) && Count(ns[1]) && Count(ns[2]) && Count(ns[3]);
  }

  /** A rate stands for exactly the octets counted in its time. */
  lemma RateIsGrowth(previous: Counter, current: Counter)
    requires CounterRate(Some(previous), current).Some?
    ensures var (p, seconds) := (CounterRate(Some(previous), current).value, current.t - previous.t);
            && p.inBps.value * seconds / 8.0 == current.inOctets.value - previous.inOctets.value
            && p.outBps.value * seconds / 8.0 == current.outOctets.value - previous.outOctets.value
            && p.inBps.value >= 0.0 && p.outBps.value >= 0.0 && p.t == Finite(current.t)
  {
    OneRate(previous.inOctets.value, current.inOctets.value, current.t - previous.t);
    OneRate(previous.outOctets.value, current.outOctets.value, current.t - previous.t);
  }

  lemma OneRate(from: real, to: real, seconds: real)
    requires seconds > 0.0 && from <= to
    ensures (to - from) * 8.0 / seconds * seconds / 8.0 == to - from && (to - from) * 8.0 / seconds >= 0.0
  {
    var rate := (to - from) * 8.0 / seconds;
    assert rate * seconds == (to - from) * 8.0;
    if rate < 0.0 {
      NegativeTimesPositive(rate, seconds);
    }
  }

  lemma NegativeTimesPositive(a: real, b: real)
    requires a < 0.0 && b > 0.0
    ensures a * b < 0.0
  {
  }

  const CHART_SECONDS := 10800.0
  const CHART_POINTS := 2160

  /** A new sample of the chart: merged with the ones before, within its three hours, and cut. */
  method AddSample(rows: seq<Point>, point: Point, now: real) returns (kept: seq<Point>)
    ensures CutMerge(rows + [point], now - CHART_SECONDS, CHART_POINTS, kept)
  {
    var merged := MergeTraffic(rows, [point], now - CHART_SECONDS);
    kept := if |merged| <= CHART_POINTS then merged else merged[|merged| - CHART_POINTS..];
    assert kept == Cut(merged, CHART_POINTS);
  }

  lemma {:induction false} LastIsThere(all: seq<Point>, cutoff: real, t: Number)
    ensures LastAt(all, cutoff, t).Some? ==> LastAt(all, cutoff, t).value in all && LastAt(all, cutoff, t).value.t == t
  {
    if all == [] {
    } else {
      LastIsThere(all[..|all| - 1], cutoff, t);
    }
  }

  /** A point stays when it is among the last `n`. */
  lemma CutKeeps(s: seq<Point>, n: nat, k: nat)
    requires InTime(s) && k < |s|
    ensures PointAt(Cut(s, n), s[k].t) == if |s| - k <= n then Some(s[k]) else None
  {
    PointAtMeaning(Cut(s, n), s[k].t);
    assert |s| - k <= n < |s| ==> s[k] == Cut(s, n)[k - (|s| - n)];
  }

  /** A live rate merged last, within the chart's three hours, is the point at its time, and stays when the series is
      cut if and only if fewer than 2160 points are later. So it is the last one unless a point is later. */
  lemma FreshRateIsShown(rows: seq<Point>, previous: Counter, current: Counter, result: seq<Point>) returns (k: nat)
    requires CounterRate(Some(previous), current).Some?
    requires Merged(rows + [CounterRate(Some(previous), current).value], current.t - CHART_SECONDS, result)
    ensures PointAt(result, Finite(current.t)) == CounterRate(Some(previous), current)
    ensures k < |result| && Some(result[k]) == CounterRate(Some(previous), current)
    ensures PointAt(Cut(result, CHART_POINTS), Finite(current.t)) == CounterRate(Some(previous), current)
            <==> |result| - k <= CHART_POINTS
    ensures (forall p :: p in rows && p.t.Finite? ==> p.t.value <= current.t) ==> k == |result| - 1
  {
    RateIsGrowth(previous, current);
    var rate := CounterRate(Some(previous), current).value;
    PointAtMeaning(result, Finite(current.t));
    k :| 0 <= k < |result| && result[k] == rate;
    CutKeeps(result, CHART_POINTS, k);
    NoneIsLater(rows, rate, current.t - CHART_SECONDS, result, k);
  }

  lemma NoneIsLater(rows: seq<Point>, rate: Point, cutoff: real, result: seq<Point>, k: nat)
    requires rate.t.Finite? && Merged(rows + [rate], cutoff, result) && k < |result| && result[k] == rate
    ensures (forall p :: p in rows && p.t.Finite? ==> p.t.value <= rate.t.value) ==> k == |result| - 1
  {
    var last := result[|result| - 1];
    PointAtMeaning(result, last.t);
    LastIsThere(rows + [rate], cutoff, last.t);
    assert last in rows || last == rate;
  }
}
