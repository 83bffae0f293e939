/** What becomes of customers and services over any run of the back office. */
module Lifecycle {
  import opened Backoffice
  import opened Billed
  import opened Billing
  import opened Ledger
  import opened Plans
  import opened Sync

  // ---------------------------------------------------------------- what may become of a row

  /** A service stays with its customer; once archived it does not change, and only closing archives it; an open one
      keeps its status or is active or isolated. */
  predicate ServiceMoves(a: Service, b: Service) {
    && b.customer == a.customer
    && (a.archived ==> b == a)
    && (b.archived && !a.archived ==> b.status == Archived)
    && (!b.archived ==> b.status == a.status || b.status in {Active, Isolated})
  }

  /** A customer keeps its name, and what is archived stays so. */
  predicate CustomerMoves(a: Customer, b: Customer) {
    b.name == a.name && (a.archived ==> b.archived)
  }

  /** A service added later is active, isolated or closed again, and its customer was not archived before. */
  predicate Admitted(customers: seq<Customer>, s: Service) {
    && (s.customer < |customers| ==> !customers[s.customer].archived)
    && (if s.archived then s.status == Archived else s.status in {Active, Isolated})
  }

  ghost predicate Moves(d: Directory, out: Directory) {
    && |d.customers| <= |out.customers| && |d.services| <= |out.services|
    && (forall i | 0 <= i < |d.customers| :: CustomerMoves(d.customers[i], out.customers[i]))
    && (forall i | 0 <= i < |d.services| :: ServiceMoves(d.services[i], out.services[i]))
    && (forall i | |d.services| <= i < |out.services| :: Admitted(d.customers, out.services[i]))
  }

  lemma MovesTransitive(a: Directory, b: Directory, c: Directory)
    requires Moves(a, b) && Moves(b, c)
    ensures Moves(a, c)
  {
    forall i | 0 <= i < |a.customers|
      ensures CustomerMoves(a.customers[i], c.customers[i])
    {
      assert CustomerMoves(a.customers[i], b.customers[i]) && CustomerMoves(b.customers[i], c.customers[i]);
    }
    forall i | 0 <= i < |a.services|
      ensures ServiceMoves(a.services[i], c.services[i])
    {
      assert ServiceMoves(a.services[i], b.services[i]) && ServiceMoves(b.services[i], c.services[i]);
    }
    forall i | |a.services| <= i < |c.services|
      ensures Admitted(a.customers, c.services[i])
    {
      LaterAdmitted(a, b, c, i);
    }
  }

  lemma LaterAdmitted(a: Directory, b: Directory, c: Directory, i: nat)
    requires Moves(a, b) && Moves(b, c) && |a.services| <= i < |c.services|
    ensures Admitted(a.customers, c.services[i])
  {
    var customer := c.services[i].customer;
    assert customer < |a.customers| ==> CustomerMoves(a.customers[customer], b.customers[customer]);
    if i < |b.services| {
      assert Admitted(a.customers, b.services[i]) && ServiceMoves(b.services[i], c.services[i]);
    } else {
      assert Admitted(b.customers, c.services[i]);
    }
  }

  lemma MovesNot(d: Directory)
    ensures Moves(d, d)
  {
  }

  // ---------------------------------------------------------------- one action

  lemma OneSecretMoves(st: SecretState, router: nat, byProfile: map<string, nat>, s: Secret)
    requires References(st.dir)
    ensures Moves(st.dir, SyncOneSecret(st, router, byProfile, s).dir)
  {
  }

  lemma {:induction false} SecretsMove(d: Directory, router: nat, byProfile: map<string, nat>, secrets: seq<Secret>)
    requires References(d)
    ensures Moves(d, SyncSecrets(d, router, byProfile, secrets).dir)
    decreases |secrets|
  {
    if secrets == [] {
      MovesNot(d);
    } else {
      var before := SyncSecrets(d, router, byProfile, secrets[..|secrets| - 1]);
      SecretsMove(d, router, byProfile, secrets[..|secrets| - 1]);
      OneSecretMoves(before, router, byProfile, secrets[|secrets| - 1]);
      MovesTransitive(d, before.dir, SyncSecrets(d, router, byProfile, secrets).dir);
    }
  }

  lemma SynchronizeMoves(st: State, router: nat, profiles: seq<Profile>, secrets: seq<Secret>)
    requires References(st.dir)
    ensures Moves(st.dir, Apply(st, Synchronize(router, profiles, secrets)).dir)
  {
    MovesNot(st.dir);
    var ran := SyncProfiles(st.catalog, profiles, st.today);
    if ran.Some? {
      SecretsMove(st.dir, router, ran.value.byProfile, secrets);
    }
  }

  lemma ActionMoves(st: State, a: Action)
    requires References(st.dir)
    ensures Moves(st.dir, Apply(st, a).dir)
  {
    if a.Synchronize? {
      SynchronizeMoves(st, a.router, a.profiles, a.secrets);
    }
  }

  // ---------------------------------------------------------------- every run

  /** Over any run, services and customers move only as they may: archived rows do not change, no service changes hands,
      and none is added for a customer who was archived. */
  lemma {:induction false} RunMoves(st: State, run: seq<Action>)
    requires References(st.dir)
    ensures Moves(st.dir, RunFrom(st, run).dir)
    decreases |run|
  {
    if run == [] {
      MovesNot(st.dir);
    } else {
      var before := RunFrom(st, run[..|run| - 1]);
      RunMoves(st, run[..|run| - 1]);
      ActionMoves(before, run[|run| - 1]);
      MovesTransitive(st.dir, before.dir, RunFrom(st, run).dir);
    }
  }

  /** In every reachable state a service is active, isolated or closed, and closed is the same as archived. */
  lemma ReachableStatuses(run: seq<Action>, s: nat)
    ensures var services := RunFrom(INITIAL, run).dir.services;
            s < |services| ==> if services[s].archived then services[s].status == Archived
                               else services[s].status == Active || services[s].status == Isolated
  {
    RunMoves(INITIAL, run);
    var later := RunFrom(INITIAL, run).dir;
    assert s < |later.services| ==> Admitted(INITIAL.dir.customers, later.services[s]);
  }

  // ---------------------------------------------------------------- billing and closing

  /** After a service is closed no run bills it again. */
  lemma {:induction false} ClosedIsNotBilled(st: State, run: seq<Action>, s: nat, i: nat)
    requires ValidState(st) && s < |st.dir.services| && st.dir.services[s].archived
    ensures var b := RunFrom(st, run).books;
            |st.books.invoices| <= i < |b.invoices| ==> b.invoices[i].service != s
    decreases |run|
  {
    if run != [] {
      var before := RunFrom(st, run[..|run| - 1]);
      ClosedIsNotBilled(st, run[..|run| - 1], s, i);
      RunKeepsValid(st, run[..|run| - 1]);
      RunMoves(st, run[..|run| - 1]);
      assert ServiceMoves(st.dir.services[s], before.dir.services[s]);
      NextDoesNotBill(before, run[|run| - 1], s, i);
    }
  }

  lemma NextDoesNotBill(st: State, a: Action, s: nat, i: nat)
    requires ValidState(st) && s < |st.dir.services| && st.dir.services[s].archived
    ensures var b := Apply(st, a).books;
            && (i < |st.books.invoices| ==> i < |b.invoices| && b.invoices[i].service == st.books.invoices[i].service)
            && (|st.books.invoices| <= i < |b.invoices| ==> b.invoices[i].service != s)
  {
    ApplyPreserves(st, a);
    if IsLedgerAction(a) {
      LedgerActionKeepsValid(st.books, a);
    } else if a.GenerateInvoices? {
      NextRunDoesNotBill(st, a.start, a.end, a.due, s, i);
    } else {
      OtherActionsKeepBooks(st, a);
    }
  }

  lemma NextRunDoesNotBill(st: State, start: int, end: int, due: int, s: nat, i: nat)
    requires ValidState(st) && s < |st.dir.services| && st.dir.services[s].archived
    ensures var b := Apply(st, GenerateInvoices(start, end, due)).books;
            |st.books.invoices| <= i < |b.invoices| ==> b.invoices[i].service != s
  {
    PricesOfValidCatalog(st.catalog, st.today);
    var r := Generate(st.books, st.dir.services, st.catalog.prices, start, end, due);
    if r.Committed? && |st.books.invoices| <= i < |r.books.invoices| {
      OnlyActiveOrIsolatedAreBilled(st.books, st.dir.services, st.catalog.prices, start, end, due, i);
    }
  }

  // ---------------------------------------------------------------- isolating and restoring

  /** Isolating an active service changes its status and nothing else, and restoring it gives the state back. */
  lemma RestoreUndoesIsolate(st: State, s: nat)
    requires References(st.dir) && s < |st.dir.services| && !st.dir.services[s].archived
    requires st.dir.services[s].status == Active
    ensures var service := st.dir.services[s];
            var isolated := Service(service.customer, service.pkg, Isolated, false);
            && Apply(st, Isolate(s)) == st.(dir := st.dir.(services := st.dir.services[s := isolated]))
            && Apply(Apply(st, Isolate(s)), Restore(s)) == st
  {
    var out := Apply(Apply(st, Isolate(s)), Restore(s));
    assert out.dir.services == st.dir.services;
  }

  /** Isolating and restoring do nothing to any other service: one is for active services, the other for isolated ones
      and those awaiting provisioning. */
  lemma OtherwiseNothing(st: State, s: nat)
    requires References(st.dir)
    ensures s >= |st.dir.services| || st.dir.services[s].archived || st.dir.services[s].status != Active
            <==> Apply(st, Isolate(s)) == st
    ensures s >= |st.dir.services| || st.dir.services[s].archived
            || (st.dir.services[s].status != Isolated && st.dir.services[s].status != PendingProvisioning)
            <==> Apply(st, Restore(s)) == st
  {
    assert Apply(st, Isolate(s)).dir.services == st.dir.services
           ==> s < |st.dir.services| ==> Apply(st, Isolate(s)).dir.services[s] == st.dir.services[s];
    assert Apply(st, Restore(s)).dir.services == st.dir.services
           ==> s < |st.dir.services| ==> Apply(st, Restore(s)).dir.services[s] == st.dir.services[s];
  }
}
