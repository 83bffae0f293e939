/** Whose the services are that a router sync links. */
module Subscribers {
  import opened Billing
  import opened Money
  import opened Plans
  import opened Pricing
  import opened Resync
  import opened Sync
  import opened Text

  /** What a sync may do to customers and services: add rows, and change a service's package or status. */
  ghost predicate OnlyAdds(d: Directory, out: Directory) {
    && d.customers <= out.customers && |d.services| <= |out.services|
    && (forall i | 0 <= i < |d.services| :: out.services[i].customer == d.services[i].customer)
    && (forall k :: k in d.accounts ==> k in out.accounts && out.accounts[k].service == d.accounts[k].service)
  }

  lemma OneSecretOnlyAdds(st: SecretState, router: nat, byProfile: map<string, nat>, s: Secret)
    requires References(st.dir)
    ensures OnlyAdds(st.dir, SyncOneSecret(st, router, byProfile, s).dir)
  {
  }

  lemma OnlyAddsTransitive(a: Directory, b: Directory, c: Directory)
    requires OnlyAdds(a, b) && OnlyAdds(b, c)
    ensures OnlyAdds(a, c)
  {
  }

  /** No sync moves a service to another customer, or an account to another service. */
  lemma {:induction false} ServicesKeepCustomer(d: Directory, router: nat, byProfile: map<string, nat>,
                                                secrets: seq<Secret>)
    requires References(d)
    ensures OnlyAdds(d, SyncSecrets(d, router, byProfile, secrets).dir)
  {
    if secrets == [] {
    } else {
      var before := SyncSecrets(d, router, byProfile, secrets[..|secrets| - 1]);
      ServicesKeepCustomer(d, router, byProfile, secrets[..|secrets| - 1]);
      OneSecretOnlyAdds(before, router, byProfile, secrets[|secrets| - 1]);
      OnlyAddsTransitive(d, before.dir, SyncSecrets(d, router, byProfile, secrets).dir);
    }
  }

  /** Customer `c` is not archived and goes by the comment of the secret, or by its username if that is empty, cut at
      200 and whatever the case; no earlier row does. */
  ghost predicate FirstOfThatName(customers: seq<Customer>, c: nat, s: Secret) {
    && c < |customers| && !customers[c].archived && CalledAs(customers[c].name, s)
    && forall i | 0 <= i < c :: customers[i].archived || !CalledAs(customers[i].name, s)
  }

  predicate CalledAs(name: string, s: Secret) {
    SameButCase(name, NameOf(s))
  }

  function NameOf(s: Secret): string {
    var full := if s.comment == "" then s.username else s.comment;
    if |full| > 200 then full[..200] else full
  }

  lemma LinkedToNamed(st: SecretState, router: nat, byProfile: map<string, nat>, s: Secret)
    requires References(st.dir) && Mapped(byProfile, s) && AccountKey(router, s.username) !in st.dir.accounts
    ensures var (key, out) := (AccountKey(router, s.username), SyncOneSecret(st, router, byProfile, s).dir);
            && key in out.accounts && out.accounts[key].service == |st.dir.services| < |out.services|
            && FirstOfThatName(out.customers, out.services[|st.dir.services|].customer, s)
            && (out.customers == st.dir.customers
                || (out.services[|st.dir.services|].customer == |st.dir.customers|
                    && out.customers == st.dir.customers + [Customer(NameOf(s), false)]))
  {
    forall name: string
      ensures Lower(name) == Lower(CustomerName(s)) <==> CalledAs(name, s)
    {
      LowerForgetsCase(name, CustomerName(s));
    }
  }

  ghost predicate SomebodyCalled(customers: seq<Customer>, s: Secret) {
    exists i :: 0 <= i < |customers| && !customers[i].archived && CalledAs(customers[i].name, s)
  }

  /** The customer `c` of a service linked for `s`: the first of that name if the table had one, else a row appended. */
  ghost predicate Owns(before: seq<Customer>, after: seq<Customer>, c: nat, s: Secret) {
    && before <= after && FirstOfThatName(after, c, s)
    && (if SomebodyCalled(before, s) then c < |before| else c == |before| && after[c] == Customer(NameOf(s), false))
  }

  lemma OwnsStays(before: seq<Customer>, mid: seq<Customer>, after: seq<Customer>, c: nat, s: Secret)
    requires Owns(before, mid, c, s) && mid <= after
    ensures Owns(before, after, c, s)
  {
  }

  lemma LinkedIsOwned(before: seq<Customer>, after: seq<Customer>, c: nat, s: Secret)
    requires FirstOfThatName(after, c, s)
    requires after == before || (c == |before| && after == before + [Customer(NameOf(s), false)])
    ensures Owns(before, after, c, s)
  {
    forall i | 0 <= i < |before|
      ensures after[i] == before[i]
    {
    }
    assert SomebodyCalled(before, s) ==> SomebodyCalled(after[..|before|], s);
    assert c < |before| ==> SomebodyCalled(before, s);
  }

  /** The account of `username` was linked when the turn of secret `k` came, the first of it with a known profile, and
      its service belongs to the customer that secret names. */
  ghost predicate LinkedBy(d: Directory, router: nat, byProfile: map<string, nat>, secrets: seq<Secret>,
                           username: string, k: nat)
    requires References(d)
  {
    && k < |secrets| && secrets[k].username == username && Mapped(byProfile, secrets[k])
    && (forall j | 0 <= j < k && secrets[j].username == username :: !Mapped(byProfile, secrets[j]))
    && var (before, out) := (SyncSecrets(d, router, byProfile, secrets[..k]).dir,
                             SyncSecrets(d, router, byProfile, secrets).dir);
       var key := AccountKey(router, username);
    && key in out.accounts && out.accounts[key].service < |out.services|
    && Owns(before.customers, out.customers, out.services[out.accounts[key].service].customer, secrets[k])
  }

  /** The service of an account that a sync creates belongs to the customer named by its first secret with a known
      profile: the first of that name who is not archived, if there was one when that secret's turn came, else one
      appended then. */
  lemma {:induction false} NewServiceFindsItsCustomer(d: Directory, router: nat, byProfile: map<string, nat>,
                                                      secrets: seq<Secret>, username: string) returns (k: nat)
    requires References(d) && AccountKey(router, username) !in d.accounts
    requires AccountKey(router, username) in SyncSecrets(d, router, byProfile, secrets).dir.accounts
    ensures LinkedBy(d, router, byProfile, secrets, username, k)
    decreases |secrets|
  {
    var init := secrets[..|secrets| - 1];
    if AccountKey(router, username) in SyncSecrets(d, router, byProfile, init).dir.accounts {
      k := NewServiceFindsItsCustomer(d, router, byProfile, init, username);
      LinkedEarlier(d, router, byProfile, secrets, username, k);
    } else {
      k := |init|;
      LinkedNow(d, router, byProfile, secrets, username);
    }
  }

  lemma LinkedEarlier(d: Directory, router: nat, byProfile: map<string, nat>, secrets: seq<Secret>, username: string,
                      k: nat)
    requires References(d) && secrets != [] && LinkedBy(d, router, byProfile, secrets[..|secrets| - 1], username, k)
    ensures LinkedBy(d, router, byProfile, secrets, username, k)
  {
    var (init, last, key) := (secrets[..|secrets| - 1], secrets[|secrets| - 1], AccountKey(router, username));
    var before := SyncSecrets(d, router, byProfile, init);
    OneSecretOnlyAdds(before, router, byProfile, last);
    assert init[..k] == secrets[..k];
    AccountStaysOwned(SyncSecrets(d, router, byProfile, init[..k]).dir.customers, before.dir,
                      SyncSecrets(d, router, byProfile, secrets).dir, key, init[k]);
  }

  lemma LinkedNow(d: Directory, router: nat, byProfile: map<string, nat>, secrets: seq<Secret>, username: string)
    requires References(d) && secrets != []
    requires AccountKey(router, username) !in SyncSecrets(d, router, byProfile, secrets[..|secrets| - 1]).dir.accounts
    requires AccountKey(router, username) in SyncSecrets(d, router, byProfile, secrets).dir.accounts
    ensures LinkedBy(d, router, byProfile, secrets, username, |secrets| - 1)
  {
    var init := secrets[..|secrets| - 1];
    NotLinkedNotMapped(d, router, byProfile, secrets, |secrets| - 1, username);
    LinkStep(SyncSecrets(d, router, byProfile, init), router, byProfile, secrets[|secrets| - 1], username);
  }

  lemma LinkStep(st: SecretState, router: nat, byProfile: map<string, nat>, s: Secret, username: string)
    requires References(st.dir) && AccountKey(router, username) !in st.dir.accounts
    requires AccountKey(router, username) in SyncOneSecret(st, router, byProfile, s).dir.accounts
    ensures s.username == username && Mapped(byProfile, s)
    ensures var (key, out) := (AccountKey(router, username), SyncOneSecret(st, router, byProfile, s).dir);
            && out.accounts[key].service < |out.services|
            && Owns(st.dir.customers, out.customers, out.services[out.accounts[key].service].customer, s)
  {
    var (key, out) := (AccountKey(router, username), SyncOneSecret(st, router, byProfile, s).dir);
    LinkedToNamed(st, router, byProfile, s);
    LinkedIsOwned(st.dir.customers, out.customers, out.services[out.accounts[key].service].customer, s);
  }

  lemma AccountStaysOwned(customers: seq<Customer>, mid: Directory, out: Directory, key: AccountKey, s: Secret)
    requires OnlyAdds(mid, out) && key in mid.accounts && mid.accounts[key].service < |mid.services|
    requires Owns(customers, mid.customers, mid.services[mid.accounts[key].service].customer, s)
    ensures key in out.accounts && out.accounts[key].service < |out.services|
    ensures Owns(customers, out.customers, out.services[out.accounts[key].service].customer, s)
  {
    OwnsStays(customers, mid.customers, out.customers, mid.services[mid.accounts[key].service].customer, s);
  }

  lemma NotLinkedNotMapped(d: Directory, router: nat, byProfile: map<string, nat>, secrets: seq<Secret>, n: nat,
                           username: string)
    requires References(d) && n <= |secrets|
    requires AccountKey(router, username) !in SyncSecrets(d, router, byProfile, secrets[..n]).dir.accounts
    ensures forall j | 0 <= j < n && secrets[j].username == username :: !Mapped(byProfile, secrets[j])
  {
    FirstSyncLinks(d, router, byProfile, secrets[..n]);
    forall j | 0 <= j < n && secrets[j].username == username
      ensures !Mapped(byProfile, secrets[j])
    {
      assert secrets[..n][j] == secrets[j] && secrets[j] in secrets[..n];
    }
  }

  // ---------------------------------------------------------------- counters

  function CountUnmapped(byProfile: map<string, nat>, secrets: seq<Secret>): nat {
    if secrets == [] then 0
    else
      CountUnmapped(byProfile, secrets[..|secrets| - 1]) + if Mapped(byProfile, secrets[|secrets| - 1]) then 0 else 1
  }

  /** What the counters of a sync count: secrets of unknown profiles, new accounts, each with a service, and new
      customers. */
  lemma {:induction false} CountersCount(d: Directory, router: nat, byProfile: map<string, nat>, secrets: seq<Secret>)
    requires References(d)
    ensures var st := SyncSecrets(d, router, byProfile, secrets);
            && st.tally.skipped == CountUnmapped(byProfile, secrets)
            && st.tally.linked == |st.dir.accounts.Keys| - |d.accounts.Keys| == |st.dir.services| - |d.services|
            && st.tally.customersCreated == |st.dir.customers| - |d.customers|
            && st.dir.serviceCounter == d.serviceCounter + st.tally.linked
            && st.dir.customerCounter == d.customerCounter + st.tally.customersCreated
  {
    if secrets == [] {
    } else {
      var before := SyncSecrets(d, router, byProfile, secrets[..|secrets| - 1]);
      CountersCount(d, router, byProfile, secrets[..|secrets| - 1]);
      OneSecretCounted(before, router, byProfile, secrets[|secrets| - 1]);
    }
  }

  lemma OneSecretCounted(st: SecretState, router: nat, byProfile: map<string, nat>, s: Secret)
    requires References(st.dir)
    ensures var (out, t) := (SyncOneSecret(st, router, byProfile, s), st.tally);
            && out.tally.skipped == t.skipped + (if Mapped(byProfile, s) then 0 else 1)
            && out.tally.linked - t.linked == |out.dir.accounts.Keys| - |st.dir.accounts.Keys|
               == |out.dir.services| - |st.dir.services| == out.dir.serviceCounter - st.dir.serviceCounter
            && out.tally.customersCreated - t.customersCreated == |out.dir.customers| - |st.dir.customers|
               == out.dir.customerCounter - st.dir.customerCounter
  {
    var (key, out) := (AccountKey(router, s.username), SyncOneSecret(st, router, byProfile, s));
    if Mapped(byProfile, s) {
      assert out.dir.accounts.Keys == st.dir.accounts.Keys + {key};
      assert key in st.dir.accounts ==> out.dir.accounts.Keys == st.dir.accounts.Keys;
    }
  }

  /** The same of a whole sync of a router, its profiles read first. */
  lemma NewServicesOfSync(c: Catalog, d: Directory, router: nat, profiles: seq<Profile>, secrets: seq<Secret>,
                          today: Date, username: string) returns (k: nat, before: seq<Customer>)
    requires ValidCatalog(c, today) && References(d) && SyncProfiles(c, profiles, today).Some?
    requires AccountKey(router, username) !in d.accounts
    requires var out := ApplySync(c, d, router, profiles, secrets, today);
             out.Stored? && AccountKey(router, username) in out.dir.accounts
    ensures k < |secrets| && secrets[k].username == username && LastProfile(profiles, secrets[k].profileName).Some?
    ensures forall j | 0 <= j < k && secrets[j].username == username ::
              LastProfile(profiles, secrets[j].profileName).None?
    ensures var out := ApplySync(c, d, router, profiles, secrets, today).dir;
            var account := out.accounts[AccountKey(router, username)];
            && d.customers <= before && account.service < |out.services|
            && Owns(before, out.customers, out.services[account.service].customer, secrets[k])
  {
    var st := SyncProfiles(c, profiles, today).value;
    MappedByName(c, profiles, today);
    k := NewServiceFindsItsCustomer(d, router, st.byProfile, secrets, username);
    before := SyncSecrets(d, router, st.byProfile, secrets[..k]).dir.customers;
    ServicesKeepCustomer(d, router, st.byProfile, secrets[..k]);
  }

  lemma MappedByName(c: Catalog, profiles: seq<Profile>, today: Date)
    requires ValidCatalog(c, today) && SyncProfiles(c, profiles, today).Some?
    ensures forall s: Secret :: Mapped(SyncProfiles(c, profiles, today).value.byProfile, s)
                                <==> LastProfile(profiles, s.profileName).Some?
  {
    FirstRun(c, profiles, today);
    MapIsFromProfiles(SyncProfiles(c, profiles, today).value, profiles, today);
  }

  /** A whole sync leaves every service with its customer and every account with its service. */
  lemma SyncOnlyAdds(c: Catalog, d: Directory, router: nat, profiles: seq<Profile>, secrets: seq<Secret>, today: Date)
    requires References(d) && ApplySync(c, d, router, profiles, secrets, today).Stored?
    ensures OnlyAdds(d, ApplySync(c, d, router, profiles, secrets, today).dir)
  {
    ServicesKeepCustomer(d, router, SyncProfiles(c, profiles, today).value.byProfile, secrets);
  }
}
