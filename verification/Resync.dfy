/** Running the same sync twice on one day: packages and prices. */
module Resync {
  import opened Money
  import opened Pricing
  import opened Plans
  import opened Sync
  import opened Text

  // ---------------------------------------------------------------- package codes

  lemma {:induction false} FindCodeUnique(packages: seq<Package>, i: nat)
    requires forall j, k | 0 <= j < k < |packages| :: packages[j].code != packages[k].code
    requires i < |packages|
    ensures FindCode(packages, packages[i].code) == Some(i)
  {
  }

  /** New packages leave the ids of known codes alone. */
  lemma CodesAreStable(c: Catalog, today: Date, p: Profile, code: string)
    requires ValidCatalog(c, today)
    ensures var (c', id) := UpsertPackage(c, PackageCode(p.name), p.name);
            && ValidCatalog(c', today)
            && FindCode(c'.packages, PackageCode(p.name)) == Some(id)
            && (FindCode(c.packages, code).Some? ==> FindCode(c'.packages, code) == FindCode(c.packages, code))
  {
    var (c', id) := UpsertPackage(c, PackageCode(p.name), p.name);
    assert ValidCatalog(c', today);
    FindCodeUnique(c'.packages, id);
    if FindCode(c.packages, code).Some? {
      FindCodeUnique(c'.packages, FindCode(c.packages, code).value);
    }
  }

  // ---------------------------------------------------------------- the last price named for a code

  function LastAmount(profiles: seq<Profile>, code: string): Option<int> {
    if profiles == [] then None
    else
      var last := profiles[|profiles| - 1];
      if last.amount.Some? && PackageCode(last.name) == code then last.amount
      else LastAmount(profiles[..|profiles| - 1], code)
  }

  predicate Names(p: Profile, code: string) {
    p.amount.Some? && PackageCode(p.name) == code
  }

  /** Every profile that prices `code` names the same amount. */
  predicate OneAmount(profiles: seq<Profile>, code: string) {
    forall p :: p in profiles && Names(p, code) ==> p.amount == LastAmount(profiles, code)
  }

  /** What profiles processed so far have established for package `id`: the last amount is in force today;
      and if today's price was not written today, every profile agreed with it. */
  predicate Established(c: Catalog, profiles: seq<Profile>, today: Date, id: nat)
    requires id < |c.packages|
  {
    EstablishedBy(InForce(c.prices, id, today), profiles, c.packages[id].code, today)
  }

  predicate EstablishedBy(inForce: Option<Quote>, profiles: seq<Profile>, code: string, today: Date) {
    LastAmount(profiles, code).Some? ==>
      && inForce.Some?
      && inForce.value.price.amount == LastAmount(profiles, code).value >= 0
      && (inForce.value.since != today ==> OneAmount(profiles, code))
  }

  /** The map from profile names to packages is a function of the package table. */
  function ProfileMap(packages: seq<Package>, profiles: seq<Profile>): map<string, Option<nat>> {
    if profiles == [] then map[]
    else
      var last := profiles[|profiles| - 1];
      ProfileMap(packages, profiles[..|profiles| - 1])[Lower(last.name) := FindCode(packages, PackageCode(last.name))]
  }

  predicate SameMap(byProfile: map<string, nat>, expected: map<string, Option<nat>>) {
    byProfile.Keys == expected.Keys && forall k :: k in byProfile ==> expected[k] == Some(byProfile[k])
  }

  lemma {:induction false} ProfileMapStable(before: seq<Package>, after: seq<Package>, profiles: seq<Profile>)
    requires forall p :: p in profiles ==> FindCode(before, PackageCode(p.name)).Some?
    requires forall p :: p in profiles ==> FindCode(after, PackageCode(p.name)) == FindCode(before, PackageCode(p.name))
    ensures ProfileMap(before, profiles) == ProfileMap(after, profiles)
  {
    if profiles == [] {
    } else {
      ProfileMapStable(before, after, profiles[..|profiles| - 1]);
    }
  }

  // ---------------------------------------------------------------- first run

  lemma Members(profiles: seq<Profile>)
    requires profiles != []
    ensures forall p :: p in profiles <==> p in profiles[..|profiles| - 1] || p == profiles[|profiles| - 1]
  {
  }

  lemma LastAmountSplits(profiles: seq<Profile>, code: string)
    requires profiles != []
    ensures var (init, last) := (profiles[..|profiles| - 1], profiles[|profiles| - 1]);
            && (LastAmount(profiles, code) == if Names(last, code) then last.amount else LastAmount(init, code))
            && (!Names(last, code) ==> OneAmount(profiles, code) == OneAmount(init, code))
            && (Names(last, code) && LastAmount(init, code) in {None, last.amount} && OneAmount(init, code)
                ==> OneAmount(profiles, code))
  {
    var init := profiles[..|profiles| - 1];
    Members(profiles);
    NoLastAmount(init, code);
  }

  lemma {:induction false} NoLastAmount(profiles: seq<Profile>, code: string)
    ensures LastAmount(profiles, code).None? <==> forall p :: p in profiles ==> !Names(p, code)
  {
    if profiles == [] {
    } else {
      var (init, last) := (profiles[..|profiles| - 1], profiles[|profiles| - 1]);
      NoLastAmount(init, code);
      assert last in profiles && forall p :: p in profiles ==> p in init || p == last;
      assert forall p :: p in init ==> p in profiles;
    }
  }

  /** The effect of one profile on the price of one package. */
  lemma ProfileSetsPrice(st: ProfileState, p: Profile, today: Date, id: nat)
    requires ValidCatalog(st.catalog, today) && !ProfileRefused(st.catalog, p, today)
    requires id < |SyncOneProfile(st, p, today).catalog.packages|
    ensures var c := st.catalog;
            var out := SyncOneProfile(st, p, today).catalog;
            var was := InForce(c.prices, id, today);
            var now := InForce(out.prices, id, today);
            && ValidCatalog(out, today)
            && (Names(p, out.packages[id].code) ==>
                  && now.Some? && now.value.price.amount == p.amount.value >= 0
                  && (now.value.since != today ==> now == was))
            && (!Names(p, out.packages[id].code) ==> now == was)
  {
    var c := st.catalog;
    var (c', mine) := UpsertPackage(c, PackageCode(p.name), p.name);
    CodesAreStable(c, today, p, PackageCode(p.name));
    var out := SyncOneProfile(st, p, today).catalog;
    StepKeepsValid(c, today, PlanOp.Sync(PackageCode(p.name), p.name, p.amount), today);
    assert out == Step(c, PlanOp.Sync(PackageCode(p.name), p.name, p.amount), today);
    FindCodeUnique(out.packages, id);
    if p.amount.Some? {
      SyncChangesMeaning(c'.prices, today, mine, p.amount.value, today);
      if id == mine {
        WriteSetsPrice(c'.prices, today, mine, p.amount.value, 0, None, today, today);
        if InForce(c'.prices, id, today).Some? {
          AmountsAreAllowed(c', today, id, today);
        }
      } else {
        WriteChangesNothingElse(c'.prices, today, mine, p.amount.value, 0, None, today, id, today);
      }
    }
  }

  lemma AmountsAreAllowed(c: Catalog, today: Date, id: nat, d: Date)
    requires ValidCatalog(c, today) && InForce(c.prices, id, d).Some?
    ensures PriceAllowed(InForce(c.prices, id, d).value.price) && id < |c.packages|
  {
    var r := Latest(c.prices, id, d).value;
    var i :| 0 <= i < |c.prices| && c.prices[i] == r;
  }

  /** After a run: every profile's package exists under its code, the name map is that of the table, and
      prices are as the last profiles said. */
  ghost predicate Ran(st: ProfileState, profiles: seq<Profile>, today: Date) {
    && ValidCatalog(st.catalog, today)
    && (forall p :: p in profiles ==> FindCode(st.catalog.packages, PackageCode(p.name)).Some?)
    && SameMap(st.byProfile, ProfileMap(st.catalog.packages, profiles))
    && (forall id | 0 <= id < |st.catalog.packages| :: Established(st.catalog, profiles, today, id))
  }

  lemma EstablishedMore(was: Option<Quote>, now: Option<Quote>, profiles: seq<Profile>, code: string, today: Date)
    requires profiles != [] && EstablishedBy(was, profiles[..|profiles| - 1], code, today)
    requires var last := profiles[|profiles| - 1];
             && (Names(last, code) ==> now.Some? && now.value.price.amount == last.amount.value >= 0
                                       && (now.value.since != today ==> now == was))
             && (!Names(last, code) ==> now == was)
    ensures EstablishedBy(now, profiles, code, today)
  {
    LastAmountSplits(profiles, code);
    NoLastAmount(profiles[..|profiles| - 1], code);
  }

  lemma MapMore(st: ProfileState, next: ProfileState, profiles: seq<Profile>, today: Date)
    requires OneMoreRun(st, next, profiles, today)
    ensures forall p :: p in profiles ==> FindCode(next.catalog.packages, PackageCode(p.name)).Some?
    ensures SameMap(next.byProfile, ProfileMap(next.catalog.packages, profiles))
  {
    var last := profiles[|profiles| - 1];
    CodesStay(st, next, profiles, today);
    CodesAreStable(st.catalog, today, last, PackageCode(last.name));
    GrowMap(st.byProfile, st.catalog.packages, next.catalog.packages, profiles);
    Members(profiles);
  }

  lemma CodesStay(st: ProfileState, next: ProfileState, profiles: seq<Profile>, today: Date)
    requires OneMoreRun(st, next, profiles, today)
    ensures forall p :: p in profiles[..|profiles| - 1] ==>
              && FindCode(st.catalog.packages, PackageCode(p.name)).Some?
              && FindCode(next.catalog.packages, PackageCode(p.name))
                  == FindCode(st.catalog.packages, PackageCode(p.name))
  {
    forall p | p in profiles[..|profiles| - 1]
      ensures FindCode(next.catalog.packages, PackageCode(p.name)) == FindCode(st.catalog.packages, PackageCode(p.name))
    {
      CodesAreStable(st.catalog, today, profiles[|profiles| - 1], PackageCode(p.name));
    }
  }

  /** The map of the names grows with the table it reads. */
  lemma GrowMap(byProfile: map<string, nat>, before: seq<Package>, after: seq<Package>, profiles: seq<Profile>)
    requires profiles != [] && SameMap(byProfile, ProfileMap(before, profiles[..|profiles| - 1]))
    requires forall p :: p in profiles[..|profiles| - 1] ==>
               && FindCode(before, PackageCode(p.name)).Some?
               && FindCode(after, PackageCode(p.name)) == FindCode(before, PackageCode(p.name))
    requires FindCode(after, PackageCode(profiles[|profiles| - 1].name)).Some?
    ensures var last := profiles[|profiles| - 1];
            SameMap(byProfile[Lower(last.name) := FindCode(after, PackageCode(last.name)).value],
                    ProfileMap(after, profiles))
  {
    ProfileMapStable(before, after, profiles[..|profiles| - 1]);
  }

  /** `next` is what the last profile makes of the run of the others. */
  ghost predicate OneMoreRun(st: ProfileState, next: ProfileState, profiles: seq<Profile>, today: Date) {
    && profiles != [] && Ran(st, profiles[..|profiles| - 1], today)
    && !ProfileRefused(st.catalog, profiles[|profiles| - 1], today)
    && next == SyncOneProfile(st, profiles[|profiles| - 1], today)
  }

  lemma RanMore(st: ProfileState, next: ProfileState, profiles: seq<Profile>, today: Date)
    requires OneMoreRun(st, next, profiles, today)
    ensures Ran(next, profiles, today)
  {
    MapMore(st, next, profiles, today);
    ProfileSetsPrice(st, profiles[|profiles| - 1], today, 0);
    EstablishedAll(st, next, profiles, today);
  }

  lemma EstablishedAll(st: ProfileState, next: ProfileState, profiles: seq<Profile>, today: Date)
    requires OneMoreRun(st, next, profiles, today)
    ensures forall id | 0 <= id < |next.catalog.packages| :: Established(next.catalog, profiles, today, id)
  {
    var (out, init, last) := (next.catalog, profiles[..|profiles| - 1], profiles[|profiles| - 1]);
    forall id | 0 <= id < |out.packages|
      ensures Established(out, profiles, today, id)
    {
      ProfileSetsPrice(st, last, today, id);
      if id < |st.catalog.packages| {
        assert Established(st.catalog, init, today, id);
      } else {
        NewPackageIsUnnamed(st.catalog, init, out.packages[id].code);
      }
      EstablishedMore(InForce(st.catalog.prices, id, today), InForce(out.prices, id, today), profiles,
                      out.packages[id].code, today);
    }
  }

  lemma NewPackageIsUnnamed(c: Catalog, profiles: seq<Profile>, code: string)
    requires forall p :: p in profiles ==> FindCode(c.packages, PackageCode(p.name)).Some?
    requires FindCode(c.packages, code).None?
    ensures LastAmount(profiles, code).None?
  {
    NoLastAmount(profiles, code);
  }

  lemma {:induction false} FirstRun(c: Catalog, profiles: seq<Profile>, today: Date)
    requires ValidCatalog(c, today) && SyncProfiles(c, profiles, today).Some?
    ensures Ran(SyncProfiles(c, profiles, today).value, profiles, today)
  {
    if profiles == [] {
      NothingRan(c, today);
    } else {
      var init := profiles[..|profiles| - 1];
      SplitRun(c, profiles, today);
      FirstRun(c, init, today);
      RanMore(SyncProfiles(c, init, today).value, SyncProfiles(c, profiles, today).value, profiles, today);
    }
  }

  lemma NothingRan(c: Catalog, today: Date)
    requires ValidCatalog(c, today)
    ensures Ran(SyncProfiles(c, [], today).value, [], today)
  {
  }

  lemma OneProfileIsAPlanStep(st: ProfileState, p: Profile, today: Date)
    requires ValidCatalog(st.catalog, today) && !ProfileRefused(st.catalog, p, today)
    ensures SyncOneProfile(st, p, today).catalog
            == Step(st.catalog, PlanOp.Sync(PackageCode(p.name), p.name, p.amount), today)
    ensures |st.catalog.packages| <= |SyncOneProfile(st, p, today).catalog.packages|
  {
  }

  lemma {:induction false} PackagesGrow(c: Catalog, profiles: seq<Profile>, today: Date)
    requires ValidCatalog(c, today) && SyncProfiles(c, profiles, today).Some?
    ensures |c.packages| <= |SyncProfiles(c, profiles, today).value.catalog.packages|
  {
    if profiles == [] {
    } else {
      var init := profiles[..|profiles| - 1];
      SplitRun(c, profiles, today);
      PackagesGrow(c, init, today);
      FirstRun(c, init, today);
      OneProfileIsAPlanStep(SyncProfiles(c, init, today).value, profiles[|profiles| - 1], today);
    }
  }

  lemma {:induction false} ProfilesKeepPastPrices(c: Catalog, profiles: seq<Profile>, today: Date, p: nat, d: Date)
    requires ValidCatalog(c, today) && SyncProfiles(c, profiles, today).Some? && d < today
    ensures InForce(SyncProfiles(c, profiles, today).value.catalog.prices, p, d) == InForce(c.prices, p, d)
  {
    if profiles == [] {
    } else {
      var (init, last) := (profiles[..|profiles| - 1], profiles[|profiles| - 1]);
      SplitRun(c, profiles, today);
      ProfilesKeepPastPrices(c, init, today, p, d);
      FirstRun(c, init, today);
      var before := SyncProfiles(c, init, today).value;
      OneProfileIsAPlanStep(before, last, today);
      PastPricesAreFixed(before.catalog, today, PlanOp.Sync(PackageCode(last.name), last.name, last.amount), today, p,
                         d);
    }
  }

  lemma {:induction false} MapPointsAtPackages(packages: seq<Package>, profiles: seq<Profile>)
    ensures forall k :: k in ProfileMap(packages, profiles) && ProfileMap(packages, profiles)[k].Some? ==>
              ProfileMap(packages, profiles)[k].value < |packages|
  {
    if profiles == [] {
    } else {
      MapPointsAtPackages(packages, profiles[..|profiles| - 1]);
    }
  }

  // ---------------------------------------------------------------- second run

  /** `now` differs from `rows` at most in the amounts of rows that start today. */
  predicate Retouched(rows: seq<PriceRow>, now: seq<PriceRow>, today: Date) {
    && |now| == |rows|
    && forall i | 0 <= i < |rows| ::
         now[i] == rows[i].(price := now[i].price) && now[i].price.tax == rows[i].price.tax
         && (rows[i].from != today ==> now[i] == rows[i])
  }

  /** Rewriting a price already written today only changes that row's amount. */
  lemma RewriteRetouches(rows: seq<PriceRow>, now: seq<PriceRow>, today: Date, id: nat, amount: int, i: nat)
    requires ValidHistory(rows, today) && Retouched(rows, now, today)
    requires i < |rows| && Opens(rows[i], id, today)
    ensures Retouched(rows, Upsert(Close(now, id, today), id, amount, 0, None, today), today)
  {
    var closed := Close(now, id, today);
    forall j | 0 <= j < |now|
      ensures closed[j] == now[j]
    {
      assert j < i ==> (rows[j].pkg == rows[i].pkg ==> Disjoint(rows[j], rows[i]));
      assert i < j ==> (rows[j].pkg == rows[i].pkg ==> Disjoint(rows[i], rows[j]));
    }
    assert closed == now;
    assert Opens(now[i], id, today);
  }

  lemma RetouchedIsValid(rows: seq<PriceRow>, now: seq<PriceRow>, today: Date)
    requires ValidHistory(rows, today) && Retouched(rows, now, today)
    ensures ValidHistory(now, today)
  {
    forall i, j | 0 <= i < j < |now| && now[i].pkg == now[j].pkg
      ensures Disjoint(now[i], now[j])
    {
      assert Disjoint(rows[i], rows[j]);
    }
  }

  /** If nothing of `id` was written today, retouching today's rows leaves its price. */
  lemma RetouchedElsewhere(rows: seq<PriceRow>, now: seq<PriceRow>, today: Date, id: nat)
    requires ValidHistory(rows, today) && Retouched(rows, now, today)
    requires InForce(rows, id, today).Some? && InForce(rows, id, today).value.since != today
    ensures InForce(now, id, today) == InForce(rows, id, today)
  {
    RetouchedIsValid(rows, now, today);
    var r := Latest(rows, id, today).value;
    var i :| 0 <= i < |rows| && rows[i] == r;
    TheOnlyCover(now, today, id, today, i);
  }

  lemma TodaysRow(rows: seq<PriceRow>, today: Date, id: nat) returns (i: nat)
    requires InForce(rows, id, today).Some? && InForce(rows, id, today).value.since == today
    ensures i < |rows| && Opens(rows[i], id, today) && Latest(rows, id, today) == Some(rows[i])
  {
    var r := Latest(rows, id, today).value;
    i :| 0 <= i < |rows| && rows[i] == r;
  }

  /** The second run after some of its profiles: same packages, prices retouched at most. */
  ghost predicate Rerunning(first: Catalog, st: ProfileState, today: Date) {
    && st.catalog.packages == first.packages && ValidCatalog(st.catalog, today)
    && Retouched(first.prices, st.catalog.prices, today)
    && st.tally.created == 0
  }

  lemma RerunStep(first: Catalog, all: seq<Profile>, st: ProfileState, p: Profile, today: Date)
    requires ValidCatalog(first, today) && Rerunning(first, st, today) && p in all
    requires FindCode(first.packages, PackageCode(p.name)).Some?
    requires Established(first, all, today, FindCode(first.packages, PackageCode(p.name)).value)
    requires p.amount.Some? ==> p.amount.value >= 0
    ensures !ProfileRefused(st.catalog, p, today) && Rerunning(first, SyncOneProfile(st, p, today), today)
  {
    var id := FindCode(first.packages, PackageCode(p.name)).value;
    assert UpsertPackage(st.catalog, PackageCode(p.name), p.name) == (st.catalog, id);
    if p.amount.Some? && SyncChanges(st.catalog.prices, id, p.amount.value, today) {
      SyncChangesMeaning(st.catalog.prices, today, id, p.amount.value, today);
      NoLastAmount(all, PackageCode(p.name));
      assert Names(p, PackageCode(p.name));
      if InForce(first.prices, id, today).value.since != today {
        RetouchedElsewhere(first.prices, st.catalog.prices, today, id);
      } else {
        var i := TodaysRow(first.prices, today, id);
        RewriteRetouches(first.prices, st.catalog.prices, today, id, p.amount.value, i);
        WriteKeepsValid(st.catalog, today, id, p.amount.value, 0, None, today);
      }
    }
  }

  lemma {:induction false} RunRefusesNegative(c: Catalog, profiles: seq<Profile>, today: Date)
    requires ValidCatalog(c, today) && SyncProfiles(c, profiles, today).Some?
    ensures forall p :: p in profiles && p.amount.Some? ==> p.amount.value >= 0
  {
    if profiles == [] {
    } else {
      var (init, last) := (profiles[..|profiles| - 1], profiles[|profiles| - 1]);
      RunRefusesNegative(c, init, today);
      assert forall p :: p in profiles ==> p in init || p == last;
      FirstRun(c, init, today);
      var st := SyncProfiles(c, init, today).value;
      CodesAreStable(st.catalog, today, last, PackageCode(last.name));
    }
  }

  /** What a second run needs to know about the catalog the first one left. */
  ghost predicate Steady(first: Catalog, all: seq<Profile>, today: Date) {
    && ValidCatalog(first, today)
    && (forall p :: p in all ==> FindCode(first.packages, PackageCode(p.name)).Some?
                                 && Established(first, all, today, FindCode(first.packages, PackageCode(p.name)).value)
                                 && (p.amount.Some? ==> p.amount.value >= 0))
  }

  lemma FirstRunIsSteady(c: Catalog, profiles: seq<Profile>, today: Date)
    requires ValidCatalog(c, today) && SyncProfiles(c, profiles, today).Some?
    ensures Steady(SyncProfiles(c, profiles, today).value.catalog, profiles, today)
  {
    FirstRun(c, profiles, today);
    RunRefusesNegative(c, profiles, today);
  }

  /** The run of the first `k` profiles is accepted and leaves the tables as they are but for today's amounts. */
  ghost predicate Reran(first: Catalog, all: seq<Profile>, k: nat, today: Date)
    requires k <= |all|
  {
    && SyncProfiles(first, all[..k], today).Some?
    && Rerunning(first, SyncProfiles(first, all[..k], today).value, today)
  }

  lemma {:induction false} Rerun(first: Catalog, all: seq<Profile>, k: nat, today: Date)
    requires Steady(first, all, today) && k <= |all|
    ensures Reran(first, all, k, today)
    decreases k
  {
    if k == 0 {
      NothingReran(first, all, today);
    } else {
      Rerun(first, all, k - 1, today);
      RerunNext(first, all, k - 1, today);
    }
  }

  lemma NothingReran(first: Catalog, all: seq<Profile>, today: Date)
    requires ValidCatalog(first, today)
    ensures Reran(first, all, 0, today)
  {
    assert all[..0] == [];
  }

  lemma RerunNext(first: Catalog, all: seq<Profile>, k: nat, today: Date)
    requires Steady(first, all, today) && k < |all| && Reran(first, all, k, today)
    ensures Reran(first, all, k + 1, today)
  {
    var st := SyncProfiles(first, all[..k], today).value;
    SteadyMember(first, all, k, today);
    RerunStep(first, all, st, all[k], today);
    OneProfileMore(first, all, k, today);
  }

  lemma SteadyMember(first: Catalog, all: seq<Profile>, k: nat, today: Date)
    requires Steady(first, all, today) && k < |all|
    ensures all[k] in all && FindCode(first.packages, PackageCode(all[k].name)).Some?
    ensures Established(first, all, today, FindCode(first.packages, PackageCode(all[k].name)).value)
    ensures all[k].amount.Some? ==> all[k].amount.value >= 0
  {
  }

  lemma OneProfileMore(c: Catalog, all: seq<Profile>, k: nat, today: Date)
    requires k < |all| && SyncProfiles(c, all[..k], today).Some?
    requires !ProfileRefused(SyncProfiles(c, all[..k], today).value.catalog, all[k], today)
    ensures SyncProfiles(c, all[..k + 1], today)
            == Some(SyncOneProfile(SyncProfiles(c, all[..k], today).value, all[k], today))
  {
    assert all[..k + 1][..k] == all[..k];
  }

  /** A second sync of the same profiles on the same day is accepted, creates no package, maps the same
      names to the same packages and leaves both tables exactly as the first sync left them, even when
      profiles that share a code disagree on the price. */
  lemma SecondSyncKeepsCatalog(c: Catalog, profiles: seq<Profile>, today: Date)
    requires ValidCatalog(c, today) && SyncProfiles(c, profiles, today).Some?
    ensures var first := SyncProfiles(c, profiles, today).value;
            var again := SyncProfiles(first.catalog, profiles, today);
            again.Some? && again.value.catalog == first.catalog && again.value.byProfile == first.byProfile
            && again.value.tally.created == 0
  {
    var first := SyncProfiles(c, profiles, today).value;
    RerunAll(c, profiles, today);
    SameNames(c, profiles, today);
    SamePrices(c, profiles, today);
    assert SyncProfiles(first.catalog, profiles, today).value.catalog == first.catalog;
  }

  lemma RerunAll(c: Catalog, profiles: seq<Profile>, today: Date)
    requires ValidCatalog(c, today) && SyncProfiles(c, profiles, today).Some?
    ensures var first := SyncProfiles(c, profiles, today).value;
            var again := SyncProfiles(first.catalog, profiles, today);
            again.Some? && Rerunning(first.catalog, again.value, today)
  {
    FirstRunIsSteady(c, profiles, today);
    Rerun(SyncProfiles(c, profiles, today).value.catalog, profiles, |profiles|, today);
    assert profiles[..|profiles|] == profiles;
  }

  lemma SameNames(c: Catalog, profiles: seq<Profile>, today: Date)
    requires ValidCatalog(c, today) && SyncProfiles(c, profiles, today).Some?
    requires var first := SyncProfiles(c, profiles, today).value;
             var again := SyncProfiles(first.catalog, profiles, today);
             again.Some? && Rerunning(first.catalog, again.value, today)
    ensures var first := SyncProfiles(c, profiles, today).value;
            SyncProfiles(first.catalog, profiles, today).value.byProfile == first.byProfile
  {
    var first := SyncProfiles(c, profiles, today).value;
    FirstRun(c, profiles, today);
    FirstRun(first.catalog, profiles, today);
    SameMaps(first.byProfile, SyncProfiles(first.catalog, profiles, today).value.byProfile,
             ProfileMap(first.catalog.packages, profiles));
  }

  lemma SameMaps(a: map<string, nat>, b: map<string, nat>, expected: map<string, Option<nat>>)
    requires SameMap(a, expected) && SameMap(b, expected)
    ensures a == b
  {
  }

  lemma SamePrices(c: Catalog, profiles: seq<Profile>, today: Date)
    requires ValidCatalog(c, today) && SyncProfiles(c, profiles, today).Some?
    requires var first := SyncProfiles(c, profiles, today).value;
             var again := SyncProfiles(first.catalog, profiles, today);
             again.Some? && Rerunning(first.catalog, again.value, today)
    ensures var first := SyncProfiles(c, profiles, today).value;
            SyncProfiles(first.catalog, profiles, today).value.catalog.prices == first.catalog.prices
  {
    var first := SyncProfiles(c, profiles, today).value.catalog;
    var again := SyncProfiles(first, profiles, today).value.catalog;
    forall i | 0 <= i < |first.prices|
      ensures again.prices[i] == first.prices[i]
    {
      RetouchedIsTheSame(c, profiles, today, i);
    }
  }

  /** Today's row of a package carries the last amount named for it after either run; a package nobody
      names is not written. */
  lemma RetouchedIsTheSame(c: Catalog, profiles: seq<Profile>, today: Date, i: nat)
    requires ValidCatalog(c, today) && SyncProfiles(c, profiles, today).Some?
    requires var first := SyncProfiles(c, profiles, today).value;
             var again := SyncProfiles(first.catalog, profiles, today);
             again.Some? && Rerunning(first.catalog, again.value, today) && i < |first.catalog.prices|
    ensures var first := SyncProfiles(c, profiles, today).value.catalog;
            SyncProfiles(first, profiles, today).value.catalog.prices[i] == first.prices[i]
  {
    var first := SyncProfiles(c, profiles, today).value.catalog;
    var again := SyncProfiles(first, profiles, today).value.catalog;
    var (rows, now) := (first.prices, again.prices);
    if rows[i].from == today {
      var id := rows[i].pkg;
      FirstRun(c, profiles, today);
      FirstRun(first, profiles, today);
      TheOnlyCover(rows, today, id, today, i);
      TheOnlyCover(now, today, id, today, i);
      assert Established(first, profiles, today, id) && Established(again, profiles, today, id);
      if LastAmount(profiles, first.packages[id].code).None? {
        NoLastAmount(profiles, first.packages[id].code);
        UnnamedKeepsPrice(first, profiles, today, id);
      }
    }
  }

  lemma {:induction false} UnnamedKeepsPrice(c: Catalog, profiles: seq<Profile>, today: Date, id: nat)
    requires ValidCatalog(c, today) && SyncProfiles(c, profiles, today).Some? && id < |c.packages|
    requires forall p :: p in profiles ==> !Names(p, c.packages[id].code)
    ensures var out := SyncProfiles(c, profiles, today).value.catalog;
            InForce(out.prices, id, today) == InForce(c.prices, id, today)
            && id < |out.packages| && out.packages[id] == c.packages[id]
  {
    if profiles == [] {
    } else {
      var (init, last) := (profiles[..|profiles| - 1], profiles[|profiles| - 1]);
      UnnamedKeepsPrice(c, init, today, id);
      FirstRun(c, init, today);
      ProfileSetsPrice(SyncProfiles(c, init, today).value, last, today, id);
    }
  }

  /** The repeat reports no price update exactly when profiles that share a package code agree on the price. Which
      names make them agree is settled in `ProfilePrice`. */
  lemma SecondSyncReportsNoUpdate(c: Catalog, profiles: seq<Profile>, today: Date)
    requires ValidCatalog(c, today) && SyncProfiles(c, profiles, today).Some?
    ensures var first := SyncProfiles(c, profiles, today).value.catalog;
            SyncProfiles(first, profiles, today).Some?
            && (SyncProfiles(first, profiles, today).value.tally.updated == 0 <==> PricesAgree(profiles))
  {
    var first := SyncProfiles(c, profiles, today).value.catalog;
    FirstRunIsSteady(c, profiles, today);
    Rerun(first, profiles, |profiles|, today);
    assert profiles[..|profiles|] == profiles;
    if PricesAgree(profiles) {
      forall p | p in profiles && p.amount.Some?
        ensures InForceAmount(first, p, today)
      {
        LastIsNamed(profiles, PackageCode(p.name));
      }
      QuietRun(first, profiles, today);
    } else {
      var p, q :| p in profiles && q in profiles && p.amount.Some? && q.amount.Some?
                  && PackageCode(p.name) == PackageCode(q.name) && p.amount != q.amount;
      if SyncProfiles(first, profiles, today).value.tally.updated == 0 {
        QuietRunAgrees(first, profiles, today);
      }
    }
  }

  predicate PricesAgree(profiles: seq<Profile>) {
    forall p, q | p in profiles && q in profiles && p.amount.Some? && q.amount.Some?
                  && PackageCode(p.name) == PackageCode(q.name) :: p.amount == q.amount
  }

  /** The amount the profile names is the one in force for its package. */
  predicate InForceAmount(c: Catalog, p: Profile, today: Date) {
    var id := FindCode(c.packages, PackageCode(p.name));
    p.amount.Some? ==>
      id.Some? && InForce(c.prices, id.value, today).Some?
      && InForce(c.prices, id.value, today).value.price.amount == p.amount.value
  }

  lemma {:induction false} LastIsNamed(profiles: seq<Profile>, code: string)
    requires exists p :: p in profiles && Names(p, code)
    ensures exists p :: p in profiles && Names(p, code) && p.amount == LastAmount(profiles, code)
  {
    var (init, last) := (profiles[..|profiles| - 1], profiles[|profiles| - 1]);
    assert last in profiles;
    if !Names(last, code) {
      var p :| p in profiles && Names(p, code);
      assert p in init;
      LastIsNamed(init, code);
      var q :| q in init && Names(q, code) && q.amount == LastAmount(init, code);
      assert q in profiles;
    }
  }

  lemma {:induction false} QuietRun(c: Catalog, profiles: seq<Profile>, today: Date)
    requires ValidCatalog(c, today)
    requires forall p :: p in profiles ==> FindCode(c.packages, PackageCode(p.name)).Some? && InForceAmount(c, p, today)
    ensures SyncProfiles(c, profiles, today).Some?
    ensures var st := SyncProfiles(c, profiles, today).value; st.catalog == c && st.tally.updated == 0
  {
    if profiles == [] {
    } else {
      var (init, last) := (profiles[..|profiles| - 1], profiles[|profiles| - 1]);
      QuietRun(c, init, today);
      assert last in profiles;
      var id := FindCode(c.packages, PackageCode(last.name)).value;
      if last.amount.Some? {
        SyncChangesMeaning(c.prices, today, id, last.amount.value, today);
      }
    }
  }

  lemma QuietStepAgrees(c: Catalog, st: ProfileState, p: Profile, today: Date)
    requires ValidCatalog(c, today) && st.catalog == c && FindCode(c.packages, PackageCode(p.name)).Some?
    requires !ProfileRefused(c, p, today)
    requires SyncOneProfile(st, p, today).tally.updated == st.tally.updated
    ensures SyncOneProfile(st, p, today).catalog == c && InForceAmount(c, p, today)
  {
    var id := FindCode(c.packages, PackageCode(p.name)).value;
    assert UpsertPackage(c, PackageCode(p.name), p.name) == (c, id);
    if p.amount.Some? {
      SyncChangesMeaning(c.prices, today, id, p.amount.value, today);
    }
  }

  lemma {:induction false} QuietRunAgrees(first: Catalog, profiles: seq<Profile>, today: Date)
    requires ValidCatalog(first, today)
    requires forall p :: p in profiles ==> FindCode(first.packages, PackageCode(p.name)).Some?
    requires SyncProfiles(first, profiles, today).Some? && SyncProfiles(first, profiles, today).value.tally.updated == 0
    ensures SyncProfiles(first, profiles, today).value.catalog == first
    ensures forall p :: p in profiles ==> InForceAmount(first, p, today)
  {
    if profiles == [] {
    } else {
      var (init, last) := (profiles[..|profiles| - 1], profiles[|profiles| - 1]);
      SplitRun(first, profiles, today);
      Members(profiles);
      QuietRunAgrees(first, init, today);
      QuietNext(first, SyncProfiles(first, init, today).value, SyncProfiles(first, profiles, today).value, last, today);
    }
  }

  lemma QuietNext(first: Catalog, st: ProfileState, next: ProfileState, p: Profile, today: Date)
    requires ValidCatalog(first, today) && st.catalog == first && FindCode(first.packages, PackageCode(p.name)).Some?
    requires !ProfileRefused(first, p, today) && next == SyncOneProfile(st, p, today)
             && next.tally.updated == st.tally.updated
    ensures next.catalog == first && InForceAmount(first, p, today)
  {
    QuietStepAgrees(first, st, p, today);
  }

  lemma SplitRun(c: Catalog, profiles: seq<Profile>, today: Date)
    requires profiles != [] && SyncProfiles(c, profiles, today).Some?
    ensures var (init, last) := (profiles[..|profiles| - 1], profiles[|profiles| - 1]);
            && SyncProfiles(c, init, today).Some?
            && !ProfileRefused(SyncProfiles(c, init, today).value.catalog, last, today)
            && SyncProfiles(c, profiles, today).value == SyncOneProfile(SyncProfiles(c, init, today).value, last, today)
            && SyncProfiles(c, init, today).value.tally.updated <= SyncProfiles(c, profiles, today).value.tally.updated
  {
  }

  // ---------------------------------------------------------------- what one sync establishes

  /** The last profile of that name, ignoring case. */
  function LastProfile(profiles: seq<Profile>, name: string): (p: Option<Profile>)
    ensures p.Some? ==> p.value in profiles && Lower(p.value.name) == Lower(name)
    ensures p.None? ==> forall q :: q in profiles ==> Lower(q.name) != Lower(name)
  {
    if profiles == [] then None
    else
      var last := profiles[|profiles| - 1];
      if Lower(last.name) == Lower(name) then Some(last) else LastProfile(profiles[..|profiles| - 1], name)
  }

  /** The last secret of a username that names a profile of the router. */
  function LastSecret(secrets: seq<Secret>, profiles: seq<Profile>, username: string): (s: Option<Secret>)
    ensures s.Some? ==>
              && s.value in secrets && s.value.username == username
              && LastProfile(profiles, s.value.profileName).Some?
  {
    if secrets == [] then None
    else
      var last := secrets[|secrets| - 1];
      if last.username == username && LastProfile(profiles, last.profileName).Some? then Some(last)
      else LastSecret(secrets[..|secrets| - 1], profiles, username)
  }

  lemma {:induction false} MapNamesLast(packages: seq<Package>, profiles: seq<Profile>, name: string)
    ensures Lower(name) in ProfileMap(packages, profiles) <==> LastProfile(profiles, name).Some?
    ensures LastProfile(profiles, name).Some? ==>
              ProfileMap(packages, profiles)[Lower(name)]
              == FindCode(packages, PackageCode(LastProfile(profiles, name).value.name))
  {
    if profiles == [] {
    } else {
      MapNamesLast(packages, profiles[..|profiles| - 1], name);
    }
  }

  /** `byProfile` is what a run of `profiles` leaves. */
  ghost predicate FromProfiles(byProfile: map<string, nat>, profiles: seq<Profile>, packages: seq<Package>) {
    forall name :: (Lower(name) in byProfile <==> LastProfile(profiles, name).Some?)
                   && (Lower(name) in byProfile ==>
                         byProfile[Lower(name)] < |packages|
                         && packages[byProfile[Lower(name)]].code
                             == PackageCode(LastProfile(profiles, name).value.name))
  }

  lemma MapIsFromProfiles(st: ProfileState, profiles: seq<Profile>, today: Date)
    requires Ran(st, profiles, today)
    ensures FromProfiles(st.byProfile, profiles, st.catalog.packages)
  {
    forall name
      ensures (Lower(name) in st.byProfile <==> LastProfile(profiles, name).Some?)
      ensures Lower(name) in st.byProfile ==>
                ProfileMap(st.catalog.packages, profiles)[Lower(name)] == Some(st.byProfile[Lower(name)])
                == FindCode(st.catalog.packages, PackageCode(LastProfile(profiles, name).value.name))
    {
      MapNamesLast(st.catalog.packages, profiles, name);
    }
  }

  lemma {:induction false} SameDecision(byProfile: map<string, nat>, packages: seq<Package>, secrets: seq<Secret>,
                                        profiles: seq<Profile>, username: string)
    requires FromProfiles(byProfile, profiles, packages)
    ensures Deciding(secrets, byProfile, username) == LastSecret(secrets, profiles, username)
  {
    if secrets == [] {
    } else {
      SameDecision(byProfile, packages, secrets[..|secrets| - 1], profiles, username);
    }
  }

  /** One sync leaves the service of a username as the router's lists say: its package is the one whose code is that
      of the last profile with the name the last secret gives, priced today at the last amount named for that code. */
  lemma ServiceFollowsRouter(c: Catalog, d: Directory, router: nat, profiles: seq<Profile>, secrets: seq<Secret>,
                             today: Date, username: string)
    requires ValidCatalog(c, today) && References(d) && SyncProfiles(c, profiles, today).Some?
    requires LastSecret(secrets, profiles, username).Some?
    ensures var s := LastSecret(secrets, profiles, username).value;
            var code := PackageCode(LastProfile(profiles, s.profileName).value.name);
            var (out, key) := (ApplySync(c, d, router, profiles, secrets, today), AccountKey(router, username));
            && out.Stored? && key in out.dir.accounts && out.dir.accounts[key].externalId == s.externalId
            && out.dir.accounts[key].service < |out.dir.services|
            && var service := out.dir.services[out.dir.accounts[key].service];
               !service.archived ==>
                 && AsAsked(service, service.pkg, s.disabled)
                 && service.pkg < |out.catalog.packages| && out.catalog.packages[service.pkg].code == code
                 && (LastAmount(profiles, code).Some? ==>
                       var inForce := InForce(out.catalog.prices, service.pkg, today);
                       inForce.Some? && inForce.value.price.amount == LastAmount(profiles, code).value)
  {
    var st := SyncProfiles(c, profiles, today).value;
    FirstRun(c, profiles, today);
    MapIsFromProfiles(st, profiles, today);
    SameDecision(st.byProfile, st.catalog.packages, secrets, profiles, username);
    var s := LastSecret(secrets, profiles, username).value;
    assert Lower(s.profileName) in st.byProfile;
    SyncConverges(d, router, st.byProfile, secrets, username);
    assert Established(st.catalog, profiles, today, st.byProfile[Lower(s.profileName)]);
  }
}
