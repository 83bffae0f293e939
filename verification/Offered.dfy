/** The packages a router sync makes of the profiles, and what its counters of packages count. */
module Offered {
  import opened Money
  import opened Plans
  import opened Pricing
  import opened Resync
  import opened Sync

  /** The package of a profile whose code was new: under that code, with the profile's name, active and not archived. */
  ghost predicate MadeFor(c: Catalog, profiles: seq<Profile>, pkg: Package, k: nat) {
    && k < |profiles| && pkg == Package(PackageCode(profiles[k].name), profiles[k].name, true, false)
    && (forall i | 0 <= i < |c.packages| :: c.packages[i].code != pkg.code)
    && forall j | 0 <= j < k :: PackageCode(profiles[j].name) != pkg.code
  }

  ghost predicate Made(c: Catalog, profiles: seq<Profile>, pkg: Package) {
    exists k :: MadeFor(c, profiles, pkg, k)
  }

  predicate HasCode(packages: seq<Package>, code: string) {
    exists i :: 0 <= i < |packages| && packages[i].code == code
  }

  /** Packages are only added: old ones stay as they are, a new one is made for the first profile of its code, and every
      profile has one. */
  ghost predicate PackagesFor(c: Catalog, profiles: seq<Profile>, packages: seq<Package>) {
    && c.packages <= packages
    && (forall i | |c.packages| <= i < |packages| :: Made(c, profiles, packages[i]))
    && forall k | 0 <= k < |profiles| :: HasCode(packages, PackageCode(profiles[k].name))
  }

  function WithPackage(packages: seq<Package>, p: Profile): (after: seq<Package>)
    ensures HasCode(after, PackageCode(p.name))
  {
    if HasCode(packages, PackageCode(p.name)) then packages
    else
      var after := packages + [Package(PackageCode(p.name), p.name, true, false)];
      assert after[|packages|].code == PackageCode(p.name);
      after
  }

  lemma OneProfilePackages(st: ProfileState, p: Profile, today: Date)
    requires !ProfileRefused(st.catalog, p, today)
    ensures var (before, after) := (st.catalog.packages, SyncOneProfile(st, p, today).catalog.packages);
            && HasCode(after, PackageCode(p.name))
            && after == WithPackage(before, p)
  {
    var after := SyncOneProfile(st, p, today).catalog.packages;
    var id := UpsertPackage(st.catalog, PackageCode(p.name), p.name).1;
    assert after[id].code == PackageCode(p.name);
  }

  lemma {:induction false} ProfilesMakePackages(c: Catalog, profiles: seq<Profile>, today: Date)
    requires SyncProfiles(c, profiles, today).Some?
    ensures PackagesFor(c, profiles, SyncProfiles(c, profiles, today).value.catalog.packages)
    decreases |profiles|
  {
    if profiles != [] {
      var (init, last) := (profiles[..|profiles| - 1], profiles[|profiles| - 1]);
      var st := SyncProfiles(c, init, today).value;
      ProfilesMakePackages(c, init, today);
      OneProfilePackages(st, last, today);
      PackagesForMore(c, profiles, st.catalog.packages, SyncOneProfile(st, last, today).catalog.packages);
    }
  }

  lemma StillMadeFor(c: Catalog, profiles: seq<Profile>, pkg: Package, k: nat)
    requires profiles != [] && MadeFor(c, profiles[..|profiles| - 1], pkg, k)
    ensures MadeFor(c, profiles, pkg, k)
  {
    var init := profiles[..|profiles| - 1];
    assert forall j | 0 <= j < |init| :: init[j] == profiles[j];
  }

  lemma PackagesForMore(c: Catalog, profiles: seq<Profile>, before: seq<Package>, after: seq<Package>)
    requires profiles != [] && PackagesFor(c, profiles[..|profiles| - 1], before)
    requires after == WithPackage(before, profiles[|profiles| - 1])
    ensures PackagesFor(c, profiles, after)
  {
    forall i | |c.packages| <= i < |after|
      ensures Made(c, profiles, after[i])
    {
      OnePackageMade(c, profiles, before, after, i);
    }
    forall k | 0 <= k < |profiles|
      ensures HasCode(after, PackageCode(profiles[k].name))
    {
      if k < |profiles| - 1 {
        StillHasCode(before, after, PackageCode(profiles[..|profiles| - 1][k].name));
      }
    }
  }

  lemma StillHasCode(before: seq<Package>, after: seq<Package>, code: string)
    requires before <= after && HasCode(before, code)
    ensures HasCode(after, code)
  {
    var i :| 0 <= i < |before| && before[i].code == code;
    assert after[i] == before[i];
  }

  lemma OnePackageMade(c: Catalog, profiles: seq<Profile>, before: seq<Package>, after: seq<Package>, i: nat)
    requires profiles != [] && PackagesFor(c, profiles[..|profiles| - 1], before)
    requires after == WithPackage(before, profiles[|profiles| - 1]) && |c.packages| <= i < |after|
    ensures Made(c, profiles, after[i])
  {
    if i < |before| {
      var k :| MadeFor(c, profiles[..|profiles| - 1], before[i], k);
      StillMadeFor(c, profiles, before[i], k);
      assert after[i] == before[i];
    } else {
      LastIsMade(c, profiles, before);
      assert after[i] == after[|before|];
    }
  }

  lemma LastIsMade(c: Catalog, profiles: seq<Profile>, before: seq<Package>)
    requires profiles != [] && PackagesFor(c, profiles[..|profiles| - 1], before)
    requires !HasCode(before, PackageCode(profiles[|profiles| - 1].name))
    ensures var p := profiles[|profiles| - 1];
            MadeFor(c, profiles, Package(PackageCode(p.name), p.name, true, false), |profiles| - 1)
  {
    var (init, code) := (profiles[..|profiles| - 1], PackageCode(profiles[|profiles| - 1].name));
    forall i | 0 <= i < |c.packages|
      ensures c.packages[i].code != code
    {
      assert before[i] == c.packages[i];
    }
    forall j | 0 <= j < |init|
      ensures PackageCode(profiles[j].name) != code
    {
      assert HasCode(before, PackageCode(init[j].name));
    }
  }

  // ---------------------------------------------------------------- refused profiles

  lemma {:induction false} NoNegativeNoRefusal(c: Catalog, profiles: seq<Profile>, today: Date)
    requires forall p :: p in profiles && p.amount.Some? ==> p.amount.value >= 0
    ensures SyncProfiles(c, profiles, today).Some?
    decreases |profiles|
  {
    if profiles != [] {
      assert profiles[|profiles| - 1] in profiles;
      assert forall p :: p in profiles[..|profiles| - 1] ==> p in profiles;
      NoNegativeNoRefusal(c, profiles[..|profiles| - 1], today);
    }
  }

  /** A sync is refused exactly when some profile names a negative price. */
  lemma RefusedForNegative(c: Catalog, profiles: seq<Profile>, today: Date)
    requires ValidCatalog(c, today)
    ensures SyncProfiles(c, profiles, today).None?
            <==> exists p :: p in profiles && p.amount.Some? && p.amount.value < 0
  {
    if SyncProfiles(c, profiles, today).Some? {
      RunRefusesNegative(c, profiles, today);
    } else if forall p :: p in profiles && p.amount.Some? ==> p.amount.value >= 0 {
      NoNegativeNoRefusal(c, profiles, today);
      assert false;
    }
  }

  // ---------------------------------------------------------------- counters

  /** The profile's code has a package already, and the price it names differs from the one in force there. */
  ghost predicate Reprices(c: Catalog, p: Profile, today: Date) {
    p.amount.Some? && exists i :: PricedOtherwise(c, p, today, i)
  }

  predicate PricedOtherwise(c: Catalog, p: Profile, today: Date, i: nat)
    requires p.amount.Some?
  {
    && i < |c.packages| && c.packages[i].code == PackageCode(p.name)
    && (InForce(c.prices, i, today).None? || InForce(c.prices, i, today).value.price.amount != p.amount.value)
  }

  /** How many profiles name no price. */
  function CountUnnamed(profiles: seq<Profile>): nat {
    if profiles == [] then 0
    else CountUnnamed(profiles[..|profiles| - 1]) + if profiles[|profiles| - 1].amount.None? then 1 else 0
  }

  /** How many profiles reprice a package as it is when their turn comes. */
  ghost function CountRepriced(c: Catalog, profiles: seq<Profile>, today: Date): nat
    requires SyncProfiles(c, profiles, today).Some?
  {
    if profiles == [] then 0
    else
      var (init, last) := (profiles[..|profiles| - 1], profiles[|profiles| - 1]);
      CountRepriced(c, init, today) + if Reprices(SyncProfiles(c, init, today).value.catalog, last, today) then 1 else 0
  }

  /** Packages created are the rows added, those without a price the profiles that name none, and those updated the
      profiles that set another price for a package that was there. */
  lemma {:induction false} PackageCounters(c: Catalog, profiles: seq<Profile>, today: Date)
    requires ValidCatalog(c, today) && SyncProfiles(c, profiles, today).Some?
    ensures var st := SyncProfiles(c, profiles, today).value;
            && st.tally.created == |st.catalog.packages| - |c.packages|
            && st.tally.noPrice == CountUnnamed(profiles)
            && st.tally.updated == CountRepriced(c, profiles, today)
    decreases |profiles|
  {
    if profiles != [] {
      var (init, last) := (profiles[..|profiles| - 1], profiles[|profiles| - 1]);
      var st := SyncProfiles(c, init, today).value;
      PackageCounters(c, init, today);
      FirstRun(c, init, today);
      OneProfileCounted(st, last, today);
    }
  }

  lemma OneProfileCounted(st: ProfileState, p: Profile, today: Date)
    requires ValidCatalog(st.catalog, today) && !ProfileRefused(st.catalog, p, today)
    ensures var out := SyncOneProfile(st, p, today);
            && out.tally.created - st.tally.created == |out.catalog.packages| - |st.catalog.packages|
            && out.tally.noPrice - st.tally.noPrice == (if p.amount.None? then 1 else 0)
            && out.tally.updated - st.tally.updated == (if Reprices(st.catalog, p, today) then 1 else 0)
  {
    if p.amount.Some? {
      RepricesIs(st.catalog, p, today);
    }
  }

  lemma RepricesIs(c: Catalog, p: Profile, today: Date)
    requires ValidCatalog(c, today) && p.amount.Some?
    ensures var (c', id) := UpsertPackage(c, PackageCode(p.name), p.name);
            Reprices(c, p, today) <==> c' == c && SyncChanges(c'.prices, id, p.amount.value, today)
  {
    var (c', id) := UpsertPackage(c, PackageCode(p.name), p.name);
    SyncChangesMeaning(c.prices, today, id, p.amount.value, today);
    if c' == c && SyncChanges(c.prices, id, p.amount.value, today) {
      assert PricedOtherwise(c, p, today, id);
    }
  }
}
