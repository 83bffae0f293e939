/** Router synchronisation: PPPoE profiles become packages, secrets become customers, services and accounts. */
module Sync {
  import opened Money
  import opened Pricing
  import opened Plans
  import opened Billing
  import opened Text

  datatype Profile = Profile(name: string, amount: Option<int>)
  datatype Secret = Secret(externalId: string, username: string, profileName: string, comment: string, disabled: bool)

  datatype Customer = Customer(name: string, archived: bool)

  /** Stamps, versions and the password ciphertext of an account are not modelled. */
  datatype Account = Account(service: nat, externalId: string)
  datatype AccountKey = AccountKey(router: nat, username: string)

  datatype Directory = Directory(customers: seq<Customer>, services: seq<Service>, accounts: map<AccountKey, Account>,
                                 customerCounter: nat, serviceCounter: nat)

  datatype ProfileTally = ProfileTally(created: nat, updated: nat, noPrice: nat)
  datatype SecretTally = SecretTally(skipped: nat, customersCreated: nat, linked: nat, updated: nat,
                                     isolated: nat, restored: nat)

  // ---------------------------------------------------------------- package codes

  predicate IsAlnum(c: char) {
    'A' <= c <= 'Z' || '0' <= c <= '9'
  }

  function CodeChar(c: char): char {
    if IsAlnum(c) || c == '-' || c == '_' then c else '-'
  }

  const MAX_CODE := 50

  function CodeLetters(s: string): (letters: string)
    ensures |letters| == |s|
    ensures forall c :: c in letters ==> IsAlnum(c) || c == '-' || c == '_'
  {
    seq(|s|, i requires 0 <= i < |s| => CodeChar(UpperChar(s[i])))
  }

  /** A name in the letters of codes, without dashes at its ends. */
  function CodeText(name: string): (text: string)
    ensures text != [] ==> IsAlnum(text[0])
    ensures forall c :: c in text ==> IsAlnum(c) || c == '-' || c == '_'
  {
    var letters := CodeLetters(TrimSpace(name));
    var text := Trim(letters, {'-', '_'});
    assert text != "" ==> text[0] in text && text[0] in letters;
    text
  }

  function PackageCode(name: string): (code: string)
    ensures 1 <= |code| <= MAX_CODE && IsAlnum(code[0])
    ensures forall c :: c in code ==> IsAlnum(c) || c == '-' || c == '_'
  {
    var code := if CodeText(name) == "" then "PROFIL" else CodeText(name);
    assert |code| > MAX_CODE ==> forall c :: c in code[..MAX_CODE] ==> c in code;
    if |code| > MAX_CODE then code[..MAX_CODE] else code
  }

  // ---------------------------------------------------------------- profiles

  datatype ProfileState = ProfileState(catalog: Catalog, byProfile: map<string, nat>, tally: ProfileTally)

  predicate ProfileRefused(c: Catalog, p: Profile, today: Date) {
    var (c', id) := UpsertPackage(c, PackageCode(p.name), p.name);
    p.amount.Some? && p.amount.value < 0 && SyncChanges(c'.prices, id, p.amount.value, today)
  }

  function SyncOneProfile(st: ProfileState, p: Profile, today: Date): ProfileState
    requires !ProfileRefused(st.catalog, p, today)
  {
    var (c', id) := UpsertPackage(st.catalog, PackageCode(p.name), p.name);
    var created := c' != st.catalog;
    var changes := p.amount.Some? && SyncChanges(c'.prices, id, p.amount.value, today);
    ProfileState(
      if p.amount.Some? then c'.(prices := SyncPrice(c'.prices, id, p.amount.value, today)) else c',
      st.byProfile[Lower(p.name) := id],
      ProfileTally(st.tally.created + (if created then 1 else 0),
                   st.tally.updated + (if changes && !created then 1 else 0),
                   st.tally.noPrice + (if p.amount.None? then 1 else 0)))
  }

  /** All profiles, first to last; `None` when a price is refused by the CHECK constraint. */
  function SyncProfiles(c: Catalog, profiles: seq<Profile>, today: Date): Option<ProfileState> {
    if profiles == [] then Some(ProfileState(c, map[], ProfileTally(0, 0, 0)))
    else
      var (init, last) := (profiles[..|profiles| - 1], profiles[|profiles| - 1]);
      match SyncProfiles(c, init, today)
      case None => None
      case Some(st) => if ProfileRefused(st.catalog, last, today) then None else Some(SyncOneProfile(st, last, today))
  }

  // ---------------------------------------------------------------- secrets

  const MAX_NAME := 200

  function CustomerName(s: Secret): string {
    var name := if s.comment == "" then s.username else s.comment;
    if |name| > MAX_NAME then name[..MAX_NAME] else name
  }

  /** The oldest customer of that name, ignoring case, that is not archived. */
  function FindCustomer(customers: seq<Customer>, name: string): (c: Option<nat>)
    ensures c.Some? ==>
              c.value < |customers| && !customers[c.value].archived && Lower(customers[c.value].name) == Lower(name)
    ensures forall i | 0 <= i < (if c.Some? then c.value else |customers|) ::
              customers[i].archived || Lower(customers[i].name) != Lower(name)
  {
    if customers == [] then None
    else
      var earlier := FindCustomer(customers[..|customers| - 1], name);
      if earlier.Some? then earlier
      else if !customers[|customers| - 1].archived && Lower(customers[|customers| - 1].name) == Lower(name)
      then Some(|customers| - 1)
      else None
  }

  function Repackaged(s: Service, pkg: nat): Service {
    if s.archived then s else s.(pkg := pkg)
  }

  function Aligned(s: Service, disabled: bool): Service {
    if s.archived then s
    else if disabled && s.status == Active then s.(status := Isolated)
    else if !disabled && s.status == Isolated then s.(status := Active)
    else s
  }

  /** What a secret does to the service of its account. */
  function Applied(s: Service, pkg: nat, disabled: bool): Service {
    Aligned(Repackaged(s, pkg), disabled)
  }

  datatype SecretState = SecretState(dir: Directory, tally: SecretTally)

  function UpdateAccount(st: SecretState, key: AccountKey, pkg: nat, s: Secret): SecretState
    requires key in st.dir.accounts && st.dir.accounts[key].service < |st.dir.services|
  {
    var account := st.dir.accounts[key];
    var before := Repackaged(st.dir.services[account.service], pkg);
    var after := Aligned(before, s.disabled);
    SecretState(
      st.dir.(accounts := st.dir.accounts[key := account.(externalId := s.externalId)],
              services := st.dir.services[account.service := after]),
      st.tally.(updated := st.tally.updated + 1,
                isolated := st.tally.isolated + (if s.disabled && after != before then 1 else 0),
                restored := st.tally.restored + (if !s.disabled && after != before then 1 else 0)))
  }

  function LinkAccount(st: SecretState, key: AccountKey, pkg: nat, s: Secret): SecretState {
    var d := st.dir;
    var found := FindCustomer(d.customers, CustomerName(s));
    var (customers, customer) :=
      if found.Some? then (d.customers, found.value)
      else (d.customers + [Customer(CustomerName(s), false)], |d.customers|);
    SecretState(
      Directory(customers,
                d.services + [Service(customer, pkg, if s.disabled then Isolated else Active, false)],
                d.accounts[key := Account(|d.services|, s.externalId)],
                d.customerCounter + (if found.None? then 1 else 0),
                d.serviceCounter + 1),
      st.tally.(linked := st.tally.linked + 1,
                customersCreated := st.tally.customersCreated + (if found.None? then 1 else 0)))
  }

  function SyncOneSecret(st: SecretState, router: nat, byProfile: map<string, nat>, s: Secret): SecretState
    requires References(st.dir)
  {
    var key := AccountKey(router, s.username);
    if Lower(s.profileName) !in byProfile then st.(tally := st.tally.(skipped := st.tally.skipped + 1))
    else if key in st.dir.accounts then UpdateAccount(st, key, byProfile[Lower(s.profileName)], s)
    else LinkAccount(st, key, byProfile[Lower(s.profileName)], s)
  }

  /** The unique and foreign keys of `pppoe_accounts`: every account has a service of its own. */
  ghost predicate References(d: Directory) {
    && (forall k :: k in d.accounts ==> d.accounts[k].service < |d.services|)
    && (forall j, k :: j in d.accounts && k in d.accounts && d.accounts[j].service == d.accounts[k].service ==> j == k)
  }

  function SyncSecrets(d: Directory, router: nat, byProfile: map<string, nat>, secrets: seq<Secret>): (st: SecretState)
    requires References(d)
    ensures References(st.dir)
  {
    if secrets == [] then SecretState(d, SecretTally(0, 0, 0, 0, 0, 0))
    else SyncOneSecret(SyncSecrets(d, router, byProfile, secrets[..|secrets| - 1]), router, byProfile,
                       secrets[|secrets| - 1])
  }

  datatype Synced =
    | Stored(catalog: Catalog, dir: Directory, profiles: ProfileTally, secrets: SecretTally)
    | Refused

  function ApplySync(c: Catalog, d: Directory, router: nat, profiles: seq<Profile>, secrets: seq<Secret>,
                     today: Date): Synced
    requires References(d)
  {
    match SyncProfiles(c, profiles, today)
    case None => Refused
    case Some(st) =>
      var done := SyncSecrets(d, router, st.byProfile, secrets);
      Stored(st.catalog, done.dir, st.tally, done.tally)
  }

  // ---------------------------------------------------------------- secrets: convergence

  predicate Mapped(byProfile: map<string, nat>, s: Secret) {
    Lower(s.profileName) in byProfile
  }

  /** The last secret of a username whose profile is known: the one that decides. */
  function Deciding(secrets: seq<Secret>, byProfile: map<string, nat>, username: string): (r: Option<Secret>)
    ensures r.Some? ==> r.value in secrets && r.value.username == username && Mapped(byProfile, r.value)
    ensures r.None? ==> forall s :: s in secrets && s.username == username ==> !Mapped(byProfile, s)
  {
    if secrets == [] then None
    else
      var last := secrets[|secrets| - 1];
      if last.username == username && Mapped(byProfile, last) then Some(last)
      else Deciding(secrets[..|secrets| - 1], byProfile, username)
  }

  /** The account has the secret's number, and applying the secret again would leave its service as it is. */
  predicate InStep(d: Directory, key: AccountKey, pkg: nat, s: Secret) {
    && key in d.accounts && d.accounts[key].externalId == s.externalId
    && d.accounts[key].service < |d.services|
    && Applied(d.services[d.accounts[key].service], pkg, s.disabled) == d.services[d.accounts[key].service]
  }

  /** What a secret asks of a service that is not archived: the package, and that it is isolated if and only if the
      secret is disabled, unless it is neither active nor isolated. */
  predicate AsAsked(service: Service, pkg: nat, disabled: bool) {
    !service.archived ==>
      service.pkg == pkg && (service.status in {Active, Isolated} ==> (service.status == Isolated <==> disabled))
  }

  /** After a sync every username with a known profile has an account in step with its deciding secret, whose service
      is as that secret asks. */
  lemma {:induction false} SyncConverges(d: Directory, router: nat, byProfile: map<string, nat>, secrets: seq<Secret>,
                                         username: string)
    requires References(d) && Deciding(secrets, byProfile, username).Some?
    ensures var s := Deciding(secrets, byProfile, username).value;
            var (out, key) := (SyncSecrets(d, router, byProfile, secrets).dir, AccountKey(router, username));
            && InStep(out, key, byProfile[Lower(s.profileName)], s)
            && AsAsked(out.services[out.accounts[key].service], byProfile[Lower(s.profileName)], s.disabled)
  {
    var (init, last) := (secrets[..|secrets| - 1], secrets[|secrets| - 1]);
    var before := SyncSecrets(d, router, byProfile, init);
    if last.username == username && Mapped(byProfile, last) {
      MappedSecretDecides(before, router, byProfile, last);
    } else {
      SyncConverges(d, router, byProfile, init, username);
      OtherAccountsStay(before, router, byProfile, last, AccountKey(router, username));
    }
  }

  lemma MappedSecretDecides(st: SecretState, router: nat, byProfile: map<string, nat>, s: Secret)
    requires References(st.dir) && Mapped(byProfile, s)
    ensures var (out, key) := (SyncOneSecret(st, router, byProfile, s).dir, AccountKey(router, s.username));
            && InStep(out, key, byProfile[Lower(s.profileName)], s)
            && AsAsked(out.services[out.accounts[key].service], byProfile[Lower(s.profileName)], s.disabled)
  {
  }

  lemma OtherAccountsStay(st: SecretState, router: nat, byProfile: map<string, nat>, s: Secret, key: AccountKey)
    requires References(st.dir) && key in st.dir.accounts
             && (key == AccountKey(router, s.username) ==> !Mapped(byProfile, s))
    ensures var out := SyncOneSecret(st, router, byProfile, s).dir;
            && key in out.accounts && out.accounts[key] == st.dir.accounts[key]
            && out.accounts[key].service < |out.services|
            && out.services[out.accounts[key].service] == st.dir.services[st.dir.accounts[key].service]
  {
  }

  /** Every secret is counted once. */
  lemma {:induction false} EverySecretIsCounted(d: Directory, router: nat, byProfile: map<string, nat>,
                                                secrets: seq<Secret>)
    requires References(d)
    ensures var t := SyncSecrets(d, router, byProfile, secrets).tally;
            t.skipped + t.updated + t.linked == |secrets|
  {
    if secrets == [] {
    } else {
      EverySecretIsCounted(d, router, byProfile, secrets[..|secrets| - 1]);
    }
  }

  // ---------------------------------------------------------------- secrets: a second run

  /** Every known secret already has its account. */
  predicate AllLinked(d: Directory, router: nat, byProfile: map<string, nat>, secrets: seq<Secret>) {
    forall s :: s in secrets && Mapped(byProfile, s) ==> AccountKey(router, s.username) in d.accounts
  }

  /** What the deciding secret of an account, if it has one, makes of the account and its service. */
  predicate Overlaid(d: Directory, out: Directory, router: nat, byProfile: map<string, nat>, secrets: seq<Secret>,
                     key: AccountKey)
    requires References(d) && key in d.accounts && key in out.accounts && |out.services| == |d.services|
  {
    var i := d.accounts[key].service;
    var decides := if key.router == router then Deciding(secrets, byProfile, key.username) else None;
    && out.accounts[key].service == i
    && match decides
       case None => out.accounts[key] == d.accounts[key] && out.services[i] == d.services[i]
       case Some(s) => out.accounts[key].externalId == s.externalId
                       && out.services[i] == Applied(d.services[i], byProfile[Lower(s.profileName)], s.disabled)
  }

  /** A state reached by overlaying `secrets` on `d`. */
  ghost predicate Overlay(d: Directory, st: SecretState, router: nat, byProfile: map<string, nat>, secrets: seq<Secret>)
    requires References(d)
  {
    && st.tally.linked == 0 && st.tally.customersCreated == 0
    && st.dir == d.(services := st.dir.services, accounts := st.dir.accounts)
    && |st.dir.services| == |d.services| && st.dir.accounts.Keys == d.accounts.Keys
    && (forall key :: key in d.accounts ==> Overlaid(d, st.dir, router, byProfile, secrets, key))
    && (forall i | 0 <= i < |d.services| && !Owned(d, i) :: st.dir.services[i] == d.services[i])
  }

  predicate Owned(d: Directory, i: nat) {
    exists key :: key in d.accounts && d.accounts[key].service == i
  }

  lemma OverlayMore(d: Directory, st: SecretState, router: nat, byProfile: map<string, nat>, init: seq<Secret>,
                    last: Secret)
    requires References(d) && References(st.dir) && Overlay(d, st, router, byProfile, init)
    requires Mapped(byProfile, last) && AccountKey(router, last.username) in d.accounts
    ensures Overlay(d, SyncOneSecret(st, router, byProfile, last), router, byProfile, init + [last])
  {
    var mine := AccountKey(router, last.username);
    var out := SyncOneSecret(st, router, byProfile, last);
    var all := init + [last];
    assert all[..|init|] == init;
    assert Overlaid(d, st.dir, router, byProfile, init, mine);
    forall key | key in d.accounts
      ensures Overlaid(d, out.dir, router, byProfile, all, key)
    {
      assert Overlaid(d, st.dir, router, byProfile, init, key);
      if key == mine {
        assert Deciding(all, byProfile, last.username) == Some(last);
      } else if key.router == router {
        assert Deciding(all, byProfile, key.username) == Deciding(init, byProfile, key.username);
      }
    }
    assert Owned(d, d.accounts[mine].service);
  }

  lemma OverlaySkip(d: Directory, st: SecretState, router: nat, byProfile: map<string, nat>, init: seq<Secret>,
                    last: Secret)
    requires References(d) && References(st.dir) && Overlay(d, st, router, byProfile, init) && !Mapped(byProfile, last)
    ensures Overlay(d, SyncOneSecret(st, router, byProfile, last), router, byProfile, init + [last])
  {
    var all := init + [last];
    assert all[..|init|] == init;
    forall key | key in d.accounts
      ensures Overlaid(d, st.dir, router, byProfile, all, key)
    {
      assert Overlaid(d, st.dir, router, byProfile, init, key);
      assert Deciding(all, byProfile, key.username) == Deciding(init, byProfile, key.username);
    }
  }

  /** With every account present a sync only overlays: nothing is created, and a service ends up as its
      deciding secret alone would leave it, whatever the earlier ones did. */
  lemma {:induction false} ResyncOverlays(d: Directory, router: nat, byProfile: map<string, nat>, secrets: seq<Secret>)
    requires References(d) && AllLinked(d, router, byProfile, secrets)
    ensures Overlay(d, SyncSecrets(d, router, byProfile, secrets), router, byProfile, secrets)
  {
    if secrets == [] {
    } else {
      var (init, last) := (secrets[..|secrets| - 1], secrets[|secrets| - 1]);
      assert secrets == init + [last];
      ResyncOverlays(d, router, byProfile, init);
      if Mapped(byProfile, last) {
        OverlayMore(d, SyncSecrets(d, router, byProfile, init), router, byProfile, init, last);
      } else {
        OverlaySkip(d, SyncSecrets(d, router, byProfile, init), router, byProfile, init, last);
      }
    }
  }

  /** A second sync of the same secrets leaves customers, services and accounts exactly as they are. */
  lemma SecondSyncKeepsDirectory(d: Directory, router: nat, byProfile: map<string, nat>, secrets: seq<Secret>)
    requires References(d)
    ensures var first := SyncSecrets(d, router, byProfile, secrets).dir;
            var again := SyncSecrets(first, router, byProfile, secrets);
            again.dir == first && again.tally.linked == 0 && again.tally.customersCreated == 0
  {
    var first := SyncSecrets(d, router, byProfile, secrets).dir;
    FirstSyncLinks(d, router, byProfile, secrets);
    ResyncOverlays(first, router, byProfile, secrets);
    var again := SyncSecrets(first, router, byProfile, secrets).dir;
    forall key | key in first.accounts
      ensures again.accounts[key] == first.accounts[key]
      ensures again.services[first.accounts[key].service] == first.services[first.accounts[key].service]
    {
      assert Overlaid(first, again, router, byProfile, secrets, key);
      if key.router == router && Deciding(secrets, byProfile, key.username).Some? {
        SyncConverges(d, router, byProfile, secrets, key.username);
      }
    }
    forall i | 0 <= i < |first.services|
      ensures again.services[i] == first.services[i]
    {
      assert Owned(first, i) || !Owned(first, i);
    }
    assert again.services == first.services;
    assert again.accounts == first.accounts;
  }

  lemma FirstSyncLinks(d: Directory, router: nat, byProfile: map<string, nat>, secrets: seq<Secret>)
    requires References(d)
    ensures AllLinked(SyncSecrets(d, router, byProfile, secrets).dir, router, byProfile, secrets)
  {
    forall s | s in secrets && Mapped(byProfile, s)
      ensures AccountKey(router, s.username) in SyncSecrets(d, router, byProfile, secrets).dir.accounts
    {
      SyncConverges(d, router, byProfile, secrets, s.username);
    }
  }

  predicate DistinctUsernames(secrets: seq<Secret>) {
    forall i, j | 0 <= i < j < |secrets| :: secrets[i].username != secrets[j].username
  }

  /** Each secret is already in step. */
  predicate AllInStep(d: Directory, router: nat, byProfile: map<string, nat>, secrets: seq<Secret>) {
    forall s :: s in secrets && Mapped(byProfile, s) ==>
      InStep(d, AccountKey(router, s.username), byProfile[Lower(s.profileName)], s)
  }

  lemma {:induction false} NothingToDo(d: Directory, router: nat, byProfile: map<string, nat>, secrets: seq<Secret>)
    requires References(d) && AllInStep(d, router, byProfile, secrets)
    ensures var st := SyncSecrets(d, router, byProfile, secrets);
            st.dir == d && st.tally.isolated == 0 && st.tally.restored == 0
  {
    if secrets == [] {
    } else {
      var last := secrets[|secrets| - 1];
      NothingToDo(d, router, byProfile, secrets[..|secrets| - 1]);
      if Mapped(byProfile, last) {
        var key := AccountKey(router, last.username);
        assert InStep(d, key, byProfile[Lower(last.profileName)], last);
        var st := SyncOneSecret(SyncSecrets(d, router, byProfile, secrets[..|secrets| - 1]), router, byProfile, last);
        assert st.dir.services == d.services;
        assert st.dir.accounts == d.accounts;
      }
    }
  }

  /** With distinct usernames the second sync isolates and restores nothing either. */
  lemma SecondSyncIsSilent(d: Directory, router: nat, byProfile: map<string, nat>, secrets: seq<Secret>)
    requires References(d) && DistinctUsernames(secrets)
    ensures var first := SyncSecrets(d, router, byProfile, secrets).dir;
            var again := SyncSecrets(first, router, byProfile, secrets);
            again.dir == first && Silent(again.tally)
  {
    var first := SyncSecrets(d, router, byProfile, secrets).dir;
    forall s | s in secrets && Mapped(byProfile, s)
      ensures InStep(first, AccountKey(router, s.username), byProfile[Lower(s.profileName)], s)
    {
      DistinctDecides(secrets, byProfile, s);
      SyncConverges(d, router, byProfile, secrets, s.username);
    }
    NothingToDo(first, router, byProfile, secrets);
  }

  lemma {:induction false} DistinctDecides(secrets: seq<Secret>, byProfile: map<string, nat>, s: Secret)
    requires DistinctUsernames(secrets) && s in secrets && Mapped(byProfile, s)
    ensures Deciding(secrets, byProfile, s.username) == Some(s)
  {
    var n := |secrets| - 1;
    if secrets[n] != s {
      assert s in secrets[..n];
      var i :| 0 <= i < n && secrets[i] == s;
      DistinctDecides(secrets[..n], byProfile, s);
    }
  }

  // ---------------------------------------------------------------- what a repeat isolates and restores

  /** Applying the secret would not change the status of its account's service. */
  predicate Aligns(d: Directory, router: nat, s: Secret)
    requires References(d) && AccountKey(router, s.username) in d.accounts
  {
    var service := d.services[d.accounts[AccountKey(router, s.username)].service];
    Aligned(service, s.disabled) == service
  }

  /** The same services in the same states, whatever their packages, with the same accounts. */
  ghost predicate SameStates(d: Directory, e: Directory) {
    && |e.services| == |d.services| && e.accounts.Keys == d.accounts.Keys
    && (forall k :: k in d.accounts ==> e.accounts[k].service == d.accounts[k].service)
    && (forall i | 0 <= i < |d.services| ::
          e.services[i].status == d.services[i].status && e.services[i].archived == d.services[i].archived)
  }

  predicate Silent(t: SecretTally) {
    t.isolated == 0 && t.restored == 0
  }

  /** In a state with the services of `d`, a secret goes unnoticed exactly when it aligns with `d`. */
  lemma OneSecretNoticed(d: Directory, st: SecretState, router: nat, byProfile: map<string, nat>, s: Secret)
    requires References(d) && References(st.dir) && SameStates(d, st.dir) && Mapped(byProfile, s)
    requires AccountKey(router, s.username) in d.accounts && Silent(st.tally)
    ensures var out := SyncOneSecret(st, router, byProfile, s);
            && (Silent(out.tally) <==> Aligns(d, router, s))
            && (Silent(out.tally) ==> SameStates(d, out.dir))
  {
  }

  lemma OneSecretCounts(st: SecretState, router: nat, byProfile: map<string, nat>, s: Secret)
    requires References(st.dir)
    ensures Silent(SyncOneSecret(st, router, byProfile, s).tally) ==> Silent(st.tally)
    ensures !Mapped(byProfile, s) ==> SyncOneSecret(st, router, byProfile, s).dir == st.dir
    ensures !Mapped(byProfile, s) && Silent(st.tally) ==> Silent(SyncOneSecret(st, router, byProfile, s).tally)
  {
  }

  ghost predicate AllAlign(d: Directory, router: nat, byProfile: map<string, nat>, secrets: seq<Secret>)
    requires References(d) && AllLinked(d, router, byProfile, secrets)
  {
    forall s :: s in secrets && Mapped(byProfile, s) ==> Aligns(d, router, s)
  }

  lemma AllButLast(d: Directory, router: nat, byProfile: map<string, nat>, secrets: seq<Secret>)
    requires References(d) && AllLinked(d, router, byProfile, secrets) && secrets != []
    ensures AllLinked(d, router, byProfile, secrets[..|secrets| - 1])
    ensures var last := secrets[|secrets| - 1];
            && (Mapped(byProfile, last) ==> AccountKey(router, last.username) in d.accounts)
            && (AllAlign(d, router, byProfile, secrets)
                <==> AllAlign(d, router, byProfile, secrets[..|secrets| - 1])
                     && (Mapped(byProfile, last) ==> Aligns(d, router, last)))
  {
    var (init, last) := (secrets[..|secrets| - 1], secrets[|secrets| - 1]);
    assert forall s :: s in secrets <==> s in init || s == last;
  }

  /** A run over linked accounts is silent exactly when every secret aligns with the state it started from. */
  lemma {:induction false} SilentRun(d: Directory, router: nat, byProfile: map<string, nat>, secrets: seq<Secret>)
    requires References(d) && AllLinked(d, router, byProfile, secrets)
    ensures var st := SyncSecrets(d, router, byProfile, secrets);
            && (Silent(st.tally) <==> AllAlign(d, router, byProfile, secrets))
            && (Silent(st.tally) ==> SameStates(d, st.dir))
  {
    if secrets == [] {
    } else {
      var (init, last) := (secrets[..|secrets| - 1], secrets[|secrets| - 1]);
      AllButLast(d, router, byProfile, secrets);
      SilentRun(d, router, byProfile, init);
      var before := SyncSecrets(d, router, byProfile, init);
      OneSecretCounts(before, router, byProfile, last);
      if Silent(before.tally) && Mapped(byProfile, last) {
        OneSecretNoticed(d, before, router, byProfile, last);
      }
    }
  }

  /** The secret is not the one that decides, disagrees with it on `disabled`, and their service can be isolated. */
  predicate Contradicted(d: Directory, router: nat, byProfile: map<string, nat>, secrets: seq<Secret>, s: Secret) {
    var key := AccountKey(router, s.username);
    && Mapped(byProfile, s) && Deciding(secrets, byProfile, s.username).Some?
    && Deciding(secrets, byProfile, s.username).value.disabled != s.disabled
    && key in d.accounts && d.accounts[key].service < |d.services|
    && var service := d.services[d.accounts[key].service];
       !service.archived && service.status in {Active, Isolated}
  }

  /** The repeat isolates or restores nothing exactly when no secret is contradicted: no username occurs both enabled
      and disabled on a service that is active or isolated. It restores as many as it isolates. */
  lemma RepeatIsSilent(d: Directory, router: nat, byProfile: map<string, nat>, secrets: seq<Secret>)
    requires References(d)
    ensures var first := SyncSecrets(d, router, byProfile, secrets).dir;
            var again := SyncSecrets(first, router, byProfile, secrets);
            && (Silent(again.tally)
                <==> forall s :: s in secrets ==> !Contradicted(first, router, byProfile, secrets, s))
            && again.tally.isolated == again.tally.restored
  {
    var first := SyncSecrets(d, router, byProfile, secrets).dir;
    FirstSyncLinks(d, router, byProfile, secrets);
    SilentRun(first, router, byProfile, secrets);
    forall s | s in secrets && Mapped(byProfile, s)
      ensures Aligns(first, router, s) <==> !Contradicted(first, router, byProfile, secrets, s)
    {
      SyncConverges(d, router, byProfile, secrets, s.username);
    }
    SecondSyncKeepsDirectory(d, router, byProfile, secrets);
    IsolatedBalance(first, router, byProfile, secrets);
  }

  lemma StatusOfOne(st: SecretState, router: nat, byProfile: map<string, nat>, s: Secret)
    requires References(st.dir) && AccountKey(router, s.username) in st.dir.accounts && Mapped(byProfile, s)
    ensures var (key, out) := (AccountKey(router, s.username), SyncOneSecret(st, router, byProfile, s).dir);
            var (i, pkg) := (st.dir.accounts[key].service, byProfile[Lower(s.profileName)]);
            && key in out.accounts && out.accounts[key].service == i < |out.services|
            && out.services[i] == Applied(st.dir.services[i], pkg, s.disabled)
  {
  }

  /** A router that lists a username both enabled and disabled has its service isolated and restored by each sync. */
  lemma BothWaysFlaps(d: Directory, router: nat, byProfile: map<string, nat>, on: Secret, off: Secret)
    requires References(d) && AccountKey(router, on.username) in d.accounts && Mapped(byProfile, on)
             && Mapped(byProfile, off)
    requires on.username == off.username && !on.disabled && off.disabled
    requires var service := d.services[d.accounts[AccountKey(router, on.username)].service];
             !service.archived && service.status in {Active, Isolated}
    ensures var first := SyncSecrets(d, router, byProfile, [on, off]).dir;
            !Silent(SyncSecrets(first, router, byProfile, [on, off]).tally)
  {
    var secrets := [on, off];
    assert secrets[..1] == [on] && [on][..0] == [];
    assert Deciding(secrets, byProfile, on.username) == Some(off);
    var key := AccountKey(router, on.username);
    var nothing := SyncSecrets(d, router, byProfile, []);
    var one := SyncSecrets(d, router, byProfile, [on]);
    assert one == SyncOneSecret(nothing, router, byProfile, on);
    StatusOfOne(nothing, router, byProfile, on);
    var first := SyncSecrets(d, router, byProfile, secrets).dir;
    assert first == SyncOneSecret(one, router, byProfile, off).dir;
    StatusOfOne(one, router, byProfile, off);
    assert Contradicted(first, router, byProfile, secrets, on);
    RepeatIsSilent(d, router, byProfile, secrets);
  }

  // ---------------------------------------------------------------- isolated services

  function CountIsolated(services: seq<Service>): nat {
    if services == [] then 0
    else
      var last := services[|services| - 1];
      CountIsolated(services[..|services| - 1]) + if last.status == Isolated then 1 else 0
  }

  lemma {:induction false} CountAfter(services: seq<Service>, i: nat, s: Service)
    requires i < |services|
    ensures CountIsolated(services[i := s])
            == CountIsolated(services) - (if services[i].status == Isolated then 1 else 0)
               + (if s.status == Isolated then 1 else 0)
  {
    var n := |services| - 1;
    if i == n {
      assert services[i := s][..n] == services[..n];
    } else {
      CountAfter(services[..n], i, s);
      assert services[i := s][..n] == services[..n][i := s];
    }
  }

  /** Isolating and restoring account for every change in the number of isolated services. */
  lemma {:induction false} IsolatedBalance(d: Directory, router: nat, byProfile: map<string, nat>, secrets: seq<Secret>)
    requires References(d) && AllLinked(d, router, byProfile, secrets)
    ensures var st := SyncSecrets(d, router, byProfile, secrets);
            && CountIsolated(st.dir.services) + st.tally.restored == CountIsolated(d.services) + st.tally.isolated
            && forall k :: k in d.accounts ==> k in st.dir.accounts
  {
    if secrets == [] {
    } else {
      var (init, last) := (secrets[..|secrets| - 1], secrets[|secrets| - 1]);
      AllButLast(d, router, byProfile, secrets);
      IsolatedBalance(d, router, byProfile, init);
      var before := SyncSecrets(d, router, byProfile, init);
      var key := AccountKey(router, last.username);
      if Mapped(byProfile, last) {
        BalanceStep(before, key, byProfile[Lower(last.profileName)], last);
      }
    }
  }

  lemma BalanceStep(st: SecretState, key: AccountKey, pkg: nat, s: Secret)
    requires key in st.dir.accounts && st.dir.accounts[key].service < |st.dir.services|
    ensures var out := UpdateAccount(st, key, pkg, s);
            CountIsolated(out.dir.services) + out.tally.restored - out.tally.isolated
            == CountIsolated(st.dir.services) + st.tally.restored - st.tally.isolated
  {
    var i := st.dir.accounts[key].service;
    CountAfter(st.dir.services, i, Applied(st.dir.services[i], pkg, s.disabled));
  }
}
