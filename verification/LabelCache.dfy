/** The per-OLT cache of interface labels: one walk at a time, no mutex held while it runs. */
module LabelCache {

  type Key = string
  type Labels = map<string, string>
  type Seconds = int

  const CACHE_TTL: Seconds := 600
  const REFRESH_TTL: Seconds := 30

  /** A cache entry stamped when it was stored; `walked` is when its walk had finished. */
  datatype Entry = Entry(labels: Labels, at: Seconds, walked: Seconds)

  /** What gave a request its labels. */
  datatype Look = FirstLook | SecondLook | OwnWalk

  datatype Answer =
    | Busy                                               // another request is refreshing
    | Nothing                                            // the walk found no label
    | Labelled(entry: Entry, when: Seconds, look: Look)  // labels, and when they were taken

  /** How long labels live for each look, in whole seconds; those of an own walk are taken as they are stored. */
  function Ttl(look: Look): Seconds {
    match look
    case FirstLook => CACHE_TTL
    case SecondLook => REFRESH_TTL
    case OwnWalk => 1
  }

  /** Where a request stands. Between `Walking` and `Clearing` it owes the removal of its flag. */
  datatype Phase =
    | Guarding
    | Walking
    | Storing(found: Labels, finished: Seconds)
    | Clearing(pending: Answer)
    | Answered(answer: Answer)

  datatype Request = Request(key: Key, phase: Phase)

  datatype State = State(now: Seconds, cache: map<Key, Entry>, refreshing: set<Key>, requests: seq<Request>)

  const IDLE := State(0, map[], {}, [])

  /** Each event is one critical section of the mutex, or the walk outside it. */
  datatype Event =
    | Pass(seconds: nat)
    | Ask(key: Key)                 // first look at the cache, ten minutes old at most
    | Guard(request: nat)           // second look, thirty seconds; then the flag
    | Walk(request: nat, found: Labels)
    | Store(request: nat)
    | Clear(request: nat)           // the deferred cleanup

  predicate Enabled(st: State, e: Event) {
    match e
    case Pass(_) => true
    case Ask(_) => true
    case Guard(r) => r < |st.requests| && st.requests[r].phase == Guarding
    case Walk(r, _) => r < |st.requests| && st.requests[r].phase == Walking
    case Store(r) => r < |st.requests| && st.requests[r].phase.Storing?
    case Clear(r) => r < |st.requests| && st.requests[r].phase.Clearing?
  }

  predicate Fresh(st: State, key: Key, ttl: Seconds) {
    key in st.cache && st.now - st.cache[key].at < ttl
  }

  function At(st: State, r: nat, phase: Phase): State
    requires r < |st.requests|
  {
    st.(requests := st.requests[r := st.requests[r].(phase := phase)])
  }

  function Next(st: State, e: Event): State {
    if !Enabled(st, e) then st
    else
      match e
      case Pass(seconds) => st.(now := st.now + seconds)
      case Ask(key) =>
        var phase := if Fresh(st, key, CACHE_TTL) then Answered(Labelled(st.cache[key], st.now, FirstLook))
            else Guarding;
        st.(requests := st.requests + [Request(key, phase)])
      case Guard(r) =>
        var key := st.requests[r].key;
        if Fresh(st, key, REFRESH_TTL) then At(st, r, Answered(Labelled(st.cache[key], st.now, SecondLook)))
        else if key in st.refreshing then At(st, r, Answered(Busy))
        else At(st.(refreshing := st.refreshing + {key}), r, Walking)
      case Walk(r, found) =>
        if |found| == 0 then At(st, r, Clearing(Nothing)) else At(st, r, Storing(found, st.now))
      case Store(r) =>
        var phase := st.requests[r].phase;
        var entry := Entry(phase.found, st.now, phase.finished);
        At(st.(cache := st.cache[st.requests[r].key := entry]), r, Clearing(Labelled(entry, st.now, OwnWalk)))
      case Clear(r) =>
        At(st.(refreshing := st.refreshing - {st.requests[r].key}), r, Answered(st.requests[r].phase.pending))
  }

  function Run(st: State, events: seq<Event>): State {
    if events == [] then st else Next(Run(st, events[..|events| - 1]), events[|events| - 1])
  }

  // ---------------------------------------------------------------- invariant

  /** Between guard and cleanup. */
  predicate InFlight(q: Request) {
    q.phase.Walking? || q.phase.Storing? || q.phase.Clearing?
  }

  /** Non-empty labels whose walk finished before they were stored, stored in the past and within the lifetime of
      the look that gave them. */
  predicate Sound(a: Answer, now: Seconds) {
    a.Labelled? ==>
      && |a.entry.labels| > 0 && a.entry.walked <= a.entry.at <= a.when <= now
      && a.when - a.entry.at < Ttl(a.look)
  }

  predicate CacheSound(cache: map<Key, Entry>, now: Seconds) {
    forall k :: k in cache ==> |cache[k].labels| > 0 && cache[k].walked <= cache[k].at <= now
  }

  /** Some request owes the removal of this flag. */
  predicate Owed(requests: seq<Request>, key: Key) {
    exists r :: 0 <= r < |requests| && requests[r].key == key && InFlight(requests[r])
  }

  ghost predicate FlagsSound(requests: seq<Request>, refreshing: set<Key>) {
    && (forall k :: k in refreshing ==> Owed(requests, k))
    && (forall r | 0 <= r < |requests| && InFlight(requests[r]) :: requests[r].key in refreshing)
    && (forall r, s | 0 <= r < s < |requests| && InFlight(requests[r]) && InFlight(requests[s]) ::
          requests[r].key != requests[s].key)
  }

  predicate PhaseSound(p: Phase, now: Seconds) {
    match p
    case Guarding => true
    case Walking => true
    case Storing(found, finished) => |found| > 0 && finished <= now
    case Clearing(a) => Sound(a, now)
    case Answered(a) => Sound(a, now)
  }

  ghost predicate Consistent(st: State) {
    && CacheSound(st.cache, st.now)
    && FlagsSound(st.requests, st.refreshing)
    && (forall r | 0 <= r < |st.requests| :: PhaseSound(st.requests[r].phase, st.now))
  }

  lemma StillOwed(requests: seq<Request>, r: nat, q: Request, key: Key)
    requires r < |requests| && Owed(requests, key) && (requests[r].key != key || (q.key == key && InFlight(q)))
    ensures Owed(requests[r := q], key)
  {
    var s :| 0 <= s < |requests| && requests[s].key == key && InFlight(requests[s]);
    assert requests[r := q][s].key == key && InFlight(requests[r := q][s]);
  }

  /** A request that changes phase and, when it passes the guard or the cleanup, the flag of its key. */
  lemma FlagsFollow(requests: seq<Request>, refreshing: set<Key>, r: nat, phase: Phase)
    requires FlagsSound(requests, refreshing) && r < |requests|
    requires var q := requests[r].(phase := phase);
             InFlight(q) && !InFlight(requests[r]) ==> q.key !in refreshing
    ensures var q := requests[r].(phase := phase);
            FlagsSound(requests[r := q],
                       if InFlight(q) then refreshing + {q.key} else if InFlight(requests[r]) then refreshing - {q.key}
                           else refreshing)
  {
    var q := requests[r].(phase := phase);
    var out := requests[r := q];
    var flags := if InFlight(q) then refreshing + {q.key} else if InFlight(requests[r]) then refreshing - {q.key}
        else refreshing;
    forall k | k in flags
      ensures Owed(out, k)
    {
      if k == q.key && InFlight(q) {
        assert InFlight(out[r]);
      } else {
        if k == q.key {
          OtherOwes(requests, r, k);
          var s :| 0 <= s < |requests| && s != r && requests[s].key == k && InFlight(requests[s]);
          assert InFlight(out[s]);
        } else {
          StillOwed(requests, r, q, k);
        }
      }
    }
  }

  lemma OtherOwes(requests: seq<Request>, r: nat, key: Key)
    requires r < |requests| && !InFlight(requests[r]) && Owed(requests, key)
    ensures exists s :: 0 <= s < |requests| && s != r && requests[s].key == key && InFlight(requests[s])
  {
    var s :| 0 <= s < |requests| && requests[s].key == key && InFlight(requests[s]);
  }

  lemma NewRequestKeepsFlags(requests: seq<Request>, refreshing: set<Key>, q: Request)
    requires FlagsSound(requests, refreshing) && !InFlight(q)
    ensures FlagsSound(requests + [q], refreshing)
  {
    forall k | k in refreshing
      ensures Owed(requests + [q], k)
    {
      var s :| 0 <= s < |requests| && requests[s].key == k && InFlight(requests[s]);
      assert InFlight((requests + [q])[s]);
    }
  }

  lemma GuardKeeps(st: State, r: nat)
    requires Consistent(st) && Enabled(st, Guard(r))
    ensures Consistent(Next(st, Guard(r)))
  {
    var out := Next(st, Guard(r));
    FlagsFollow(st.requests, st.refreshing, r, out.requests[r].phase);
  }

  lemma WalkKeeps(st: State, r: nat, found: Labels)
    requires Consistent(st) && Enabled(st, Walk(r, found))
    ensures Consistent(Next(st, Walk(r, found)))
  {
    var out := Next(st, Walk(r, found));
    FlagsFollow(st.requests, st.refreshing, r, out.requests[r].phase);
    assert st.requests[r].key in st.refreshing;
    assert st.refreshing + {st.requests[r].key} == st.refreshing;
  }

  lemma StoreKeeps(st: State, r: nat)
    requires Consistent(st) && Enabled(st, Store(r))
    ensures Consistent(Next(st, Store(r)))
  {
    var out := Next(st, Store(r));
    FlagsFollow(st.requests, st.refreshing, r, out.requests[r].phase);
    assert PhaseSound(st.requests[r].phase, st.now);
    assert st.requests[r].key in st.refreshing;
    assert st.refreshing + {st.requests[r].key} == st.refreshing;
  }

  lemma ClearKeeps(st: State, r: nat)
    requires Consistent(st) && Enabled(st, Clear(r))
    ensures Consistent(Next(st, Clear(r)))
  {
    FlagsFollow(st.requests, st.refreshing, r, Next(st, Clear(r)).requests[r].phase);
    assert PhaseSound(st.requests[r].phase, st.now);
  }

  lemma NextKeeps(st: State, e: Event)
    requires Consistent(st)
    ensures Consistent(Next(st, e))
  {
    if Enabled(st, e) {
      match e
      case Pass(_) =>
      case Ask(key) => NewRequestKeepsFlags(st.requests, st.refreshing, Next(st, e).requests[|st.requests|]);
      case Guard(r) => GuardKeeps(st, r);
      case Walk(r, found) => WalkKeeps(st, r, found);
      case Store(r) => StoreKeeps(st, r);
      case Clear(r) => ClearKeeps(st, r);
    }
  }

  lemma {:induction false} RunKeeps(st: State, events: seq<Event>)
    requires Consistent(st)
    ensures Consistent(Run(st, events))
  {
    if events == [] {
    } else {
      RunKeeps(st, events[..|events| - 1]);
      NextKeeps(Run(st, events[..|events| - 1]), events[|events| - 1]);
    }
  }

  // ---------------------------------------------------------------- main results

  /** In every interleaving the flag of a key is set exactly while one request is between the guard and the
      cleanup, and there is never a second one. */
  lemma OneRefreshPerKey(events: seq<Event>, key: Key)
    ensures var st := Run(IDLE, events);
            && (key in st.refreshing <==> Owed(st.requests, key))
            && forall r, s | 0 <= r < |st.requests| && 0 <= s < |st.requests|
                             && InFlight(st.requests[r]) && InFlight(st.requests[s])
                             && st.requests[r].key == key && st.requests[s].key == key :: r == s
  {
    RunKeeps(IDLE, events);
  }

  /** The answer of a request, if it has labels. */
  predicate Returned(st: State, r: nat) {
    r < |st.requests| && st.requests[r].phase.Answered? && st.requests[r].phase.answer.Labelled?
  }

  function AnswerOf(st: State, r: nat): Answer
    requires Returned(st, r)
  {
    st.requests[r].phase.answer
  }

  /** Every map returned is non-empty, comes from a finished walk, and was stored less than the lifetime of the look
      that gave it before: ten minutes, thirty seconds, or that very second. */
  lemma ReturnedLabelsAreFresh(events: seq<Event>, r: nat)
    ensures var st := Run(IDLE, events);
            Returned(st, r) ==>
              var a := AnswerOf(st, r);
              |a.entry.labels| > 0 && a.entry.walked <= a.entry.at <= a.when
              && a.when - a.entry.at < match a.look case FirstLook => 600 case SecondLook => 30 case OwnWalk => 1
  {
    RunKeeps(IDLE, events);
  }

  /** A request past the first look gets labels under thirty seconds old, another's or its own, in every run. */
  lemma GuardedLabelsAreNew(events: seq<Event>, r: nat)
    ensures var st := Run(IDLE, events);
            Returned(st, r) && AnswerOf(st, r).look != FirstLook ==>
                AnswerOf(st, r).when - AnswerOf(st, r).entry.at < 30
  {
    ReturnedLabelsAreFresh(events, r);
  }

  // ---------------------------------------------------------------- whose labels they are

  /** Event `i` is the end of a walk for this key that found these labels at this time. */
  predicate WalkedAt(events: seq<Event>, i: nat, key: Key, labels: Labels, walked: Seconds) {
    && i < |events| && events[i].Walk? && events[i].found == labels
    && var st := Run(IDLE, events[..i]);
    && Enabled(st, events[i]) && st.requests[events[i].request].key == key && st.now == walked
  }

  ghost predicate WalkedFor(events: seq<Event>, key: Key, labels: Labels, walked: Seconds) {
    exists i: nat :: WalkedAt(events, i, key, labels, walked)
  }

  ghost predicate AnswerWalked(events: seq<Event>, key: Key, a: Answer) {
    a.Labelled? ==> WalkedFor(events, key, a.entry.labels, a.entry.walked)
  }

  ghost predicate RequestWalked(events: seq<Event>, q: Request) {
    match q.phase
    case Guarding => true
    case Walking => true
    case Storing(found, finished) => WalkedFor(events, q.key, found, finished)
    case Clearing(a) => AnswerWalked(events, q.key, a)
    case Answered(a) => AnswerWalked(events, q.key, a)
  }

  ghost predicate AllWalked(events: seq<Event>, st: State) {
    && (forall k :: k in st.cache ==> WalkedFor(events, k, st.cache[k].labels, st.cache[k].walked))
    && RequestsWalked(events, st.requests)
  }

  ghost predicate RequestsWalked(events: seq<Event>, requests: seq<Request>) {
    forall r | 0 <= r < |requests| :: RequestWalked(events, requests[r])
  }

  lemma StillWalked(init: seq<Event>, last: Event, key: Key, labels: Labels, walked: Seconds)
    requires WalkedFor(init, key, labels, walked)
    ensures WalkedFor(init + [last], key, labels, walked)
  {
    var i: nat :| WalkedAt(init, i, key, labels, walked);
    assert (init + [last])[..i] == init[..i];
    assert WalkedAt(init + [last], i, key, labels, walked);
  }

  lemma RequestStillWalked(init: seq<Event>, last: Event, q: Request)
    requires RequestWalked(init, q)
    ensures RequestWalked(init + [last], q)
  {
    match q.phase
    case Guarding =>
    case Walking =>
    case Storing(found, finished) => StillWalked(init, last, q.key, found, finished);
    case Clearing(a) =>
      if a.Labelled? { StillWalked(init, last, q.key, a.entry.labels, a.entry.walked); }
    case Answered(a) =>
      if a.Labelled? { StillWalked(init, last, q.key, a.entry.labels, a.entry.walked); }
  }

  lemma AllStillWalked(init: seq<Event>, last: Event, st: State)
    requires AllWalked(init, st)
    ensures AllWalked(init + [last], st)
  {
    forall k | k in st.cache
      ensures WalkedFor(init + [last], k, st.cache[k].labels, st.cache[k].walked)
    {
      StillWalked(init, last, k, st.cache[k].labels, st.cache[k].walked);
    }
    forall r | 0 <= r < |st.requests|
      ensures RequestWalked(init + [last], st.requests[r])
    {
      RequestStillWalked(init, last, st.requests[r]);
    }
  }

  /** The walk that ends now is one for its request's key. */
  lemma WalkIsWalked(init: seq<Event>, r: nat, found: Labels)
    requires Enabled(Run(IDLE, init), Walk(r, found))
    ensures var st := Run(IDLE, init);
            WalkedFor(init + [Walk(r, found)], st.requests[r].key, found, st.now)
  {
    var (st, events) := (Run(IDLE, init), init + [Walk(r, found)]);
    assert events[..|init|] == init;
    assert WalkedAt(events, |init|, st.requests[r].key, found, st.now);
  }

  lemma NextWalked(events: seq<Event>, st: State, e: Event)
    requires AllWalked(events, st)
    requires e.Walk? && Enabled(st, e) ==> WalkedFor(events, st.requests[e.request].key, e.found, st.now)
    ensures AllWalked(events, Next(st, e))
  {
    if Enabled(st, e) && !e.Pass? && !e.Ask? {
      assert RequestWalked(events, st.requests[e.request]);
      var out := Next(st, e);
      RequestsStayWalked(events, st.requests, e.request, out.requests[e.request]);
    }
  }

  lemma RequestsStayWalked(events: seq<Event>, requests: seq<Request>, r: nat, q: Request)
    requires r < |requests| && RequestWalked(events, q)
    requires RequestsWalked(events, requests)
    ensures RequestsWalked(events, requests[r := q])
  {
  }

  lemma {:induction false} RunWalked(events: seq<Event>)
    ensures AllWalked(events, Run(IDLE, events))
    decreases |events|
  {
    if events != [] {
      var (init, last) := (events[..|events| - 1], events[|events| - 1]);
      RunWalked(init);
      assert events == init + [last];
      var st := Run(IDLE, init);
      AllStillWalked(init, last, st);
      if last.Walk? && Enabled(st, last) {
        WalkIsWalked(init, last.request, last.found);
      }
      NextWalked(events, st, last);
    }
  }

  /** Whatever a request returns was found by a walk for its own key, in every interleaving. */
  lemma LabelsAreOfTheirKey(events: seq<Event>, r: nat)
    ensures var st := Run(IDLE, events);
            Returned(st, r) ==>
              var entry := AnswerOf(st, r).entry;
              exists i: nat :: WalkedAt(events, i, st.requests[r].key, entry.labels, entry.walked)
  {
    RunWalked(events);
    var st := Run(IDLE, events);
    if Returned(st, r) {
      assert RequestWalked(events, st.requests[r]);
    }
  }

  // ---------------------------------------------------------------- age since the walk

  /** From a state that has labels of a key, some later question is answered by labels walked a whole lifetime
      before, exactly when they are still alive and were not stored the second they were walked. */
  lemma OldLabelsPossible(st: State, key: Key)
    requires Consistent(st) && key in st.cache
    ensures (exists wait: nat :: AnsweredOld(st, key, wait))
            <==> st.now - st.cache[key].at < 600 && st.cache[key].walked < st.cache[key].at
  {
    var entry := st.cache[key];
    if st.now - entry.at < CACHE_TTL && entry.walked < entry.at {
      assert AnsweredOld(st, key, entry.at + CACHE_TTL - 1 - st.now);
    }
  }

  /** Asked after `wait` seconds, the first look answers with labels walked ten minutes or more before. */
  predicate AnsweredOld(st: State, key: Key, wait: nat) {
    var out := Next(Next(st, Pass(wait)), Ask(key));
    var r := |st.requests|;
    Returned(out, r) && AnswerOf(out, r).when - AnswerOf(out, r).entry.walked >= 600
  }

  /** In this run no walk waits longer than `delay` to be stored. */
  predicate Prompt(st: State, events: seq<Event>, delay: nat) {
    events == []
    || (Prompt(st, events[..|events| - 1], delay)
        && PromptStep(Run(st, events[..|events| - 1]), events[|events| - 1], delay))
  }

  predicate PromptStep(st: State, e: Event, delay: nat) {
    e.Store? && Enabled(st, e) ==> st.now - st.requests[e.request].phase.finished <= delay
  }

  predicate StoredWithin(entry: Entry, delay: nat) {
    entry.at - entry.walked <= delay
  }

  predicate AnswerWithin(p: Phase, delay: nat) {
    match p
    case Clearing(a) => a.Labelled? ==> StoredWithin(a.entry, delay)
    case Answered(a) => a.Labelled? ==> StoredWithin(a.entry, delay)
    case _ => true
  }

  ghost predicate AllWithin(st: State, delay: nat) {
    && (forall k :: k in st.cache ==> StoredWithin(st.cache[k], delay))
    && (forall r | 0 <= r < |st.requests| :: AnswerWithin(st.requests[r].phase, delay))
  }

  lemma {:induction false} PromptRunsKeep(st: State, events: seq<Event>, delay: nat)
    requires AllWithin(st, delay) && Prompt(st, events, delay)
    ensures AllWithin(Run(st, events), delay)
  {
    if events == [] {
    } else {
      PromptRunsKeep(st, events[..|events| - 1], delay);
      PromptStepKeeps(Run(st, events[..|events| - 1]), events[|events| - 1], delay);
    }
  }

  lemma PromptStepKeeps(st: State, e: Event, delay: nat)
    requires AllWithin(st, delay) && PromptStep(st, e, delay)
    ensures AllWithin(Next(st, e), delay)
  {
    if e.Clear? && Enabled(st, e) {
      assert AnswerWithin(st.requests[e.request].phase, delay);
    }
  }

  /** In every run whose walks are stored within `delay`, labels of that look were walked less than `bound` before
      they were taken. */
  ghost predicate WalkedWithin(look: Look, delay: nat, bound: int) {
    forall events, r: nat :: Prompt(IDLE, events, delay) ==> YoungerThan(Run(IDLE, events), r, look, bound)
  }

  predicate YoungerThan(st: State, r: nat, look: Look, bound: int) {
    Returned(st, r) && AnswerOf(st, r).look == look ==> AnswerOf(st, r).when - AnswerOf(st, r).entry.walked < bound
  }

  /** The lifetime counts from the storing, not from the walk: when walks may wait `delay` seconds for the mutex, the
      age since the walk is bounded by the lifetime plus that delay, and by nothing less. So labels come from a walk
      within the lifetime used exactly when every walk is stored at once. */
  lemma AgeCountsFromStoring(look: Look, delay: nat, bound: int)
    ensures WalkedWithin(look, delay, bound)
            <==> bound >= delay + match look case FirstLook => 600 case SecondLook => 30 case OwnWalk => 1
  {
    if bound >= Ttl(look) + delay {
      forall events, r: nat | Prompt(IDLE, events, delay)
        ensures YoungerThan(Run(IDLE, events), r, look, bound)
      {
        PromptRunsKeep(IDLE, events, delay);
        ReturnedLabelsAreFresh(events, r);
      }
    } else {
      var events, r := OldestLabels(look, delay);
      assert !YoungerThan(Run(IDLE, events), r, look, bound);
    }
  }

  // ---------------------------------------------------------------- the oldest labels

  lemma RunMore(st: State, events: seq<Event>, e: Event, delay: nat)
    requires Prompt(st, events, delay) && PromptStep(Run(st, events), e, delay)
    ensures Run(st, events + [e]) == Next(Run(st, events), e) && Prompt(st, events + [e], delay)
  {
    assert (events + [e])[..|events|] == events;
  }

  /** Two requests miss the cache; the first walks, and stores `delay` seconds later. */
  lemma StoredLate(key: Key, found: Labels, delay: nat) returns (events: seq<Event>)
    requires |found| > 0
    ensures Prompt(IDLE, events, delay)
    ensures var st := Run(IDLE, events);
            && st.now == delay && st.cache == map[key := Entry(found, delay, 0)]
            && st.requests == [Request(key, Answered(Labelled(Entry(found, delay, 0), delay, OwnWalk))),
                               Request(key, Guarding)]
  {
    events := TwoMisses(key, found, delay);
    var st := Run(IDLE, events);
    RunMore(IDLE, events, Pass(delay), delay);
    var late := Next(st, Pass(delay));
    RunMore(IDLE, events + [Pass(delay)], Store(0), delay);
    var stored := Next(late, Store(0));
    RunMore(IDLE, events + [Pass(delay)] + [Store(0)], Clear(0), delay);
    events := events + [Pass(delay)] + [Store(0)] + [Clear(0)];
  }

  lemma TwoMisses(key: Key, found: Labels, delay: nat) returns (events: seq<Event>)
    requires |found| > 0
    ensures Prompt(IDLE, events, delay)
    ensures Run(IDLE, events) == State(0, map[], {key}, [Request(key, Storing(found, 0)), Request(key, Guarding)])
  {
    RunMore(IDLE, [], Ask(key), delay);
    RunMore(IDLE, [] + [Ask(key)], Ask(key), delay);
    RunMore(IDLE, [] + [Ask(key)] + [Ask(key)], Guard(0), delay);
    RunMore(IDLE, [] + [Ask(key)] + [Ask(key)] + [Guard(0)], Walk(0, found), delay);
    events := [] + [Ask(key)] + [Ask(key)] + [Guard(0)] + [Walk(0, found)];
  }

  /** For every look, labels as old as its lifetime and the delay allow. */
  lemma OldestLabels(look: Look, delay: nat) returns (events: seq<Event>, r: nat)
    ensures Prompt(IDLE, events, delay)
    ensures var st := Run(IDLE, events);
            Returned(st, r) && AnswerOf(st, r).look == look
            && AnswerOf(st, r).when - AnswerOf(st, r).entry.walked == Ttl(look) + delay - 1
  {
    var key := "olt";
    var found: Labels := map["1/1/1:1" := "285278465.1"];
    assert "1/1/1:1" in found && |found| > 0;
    events := StoredLate(key, found, delay);
    match look
    case OwnWalk => r := 0;
    case FirstLook =>
      RunMore(IDLE, events, Pass(CACHE_TTL - 1), delay);
      RunMore(IDLE, events + [Pass(CACHE_TTL - 1)], Ask(key), delay);
      events, r := events + [Pass(CACHE_TTL - 1)] + [Ask(key)], 2;
    case SecondLook =>
      RunMore(IDLE, events, Pass(REFRESH_TTL - 1), delay);
      RunMore(IDLE, events + [Pass(REFRESH_TTL - 1)], Guard(1), delay);
      events, r := events + [Pass(REFRESH_TTL - 1)] + [Guard(1)], 1;
  }

  // ---------------------------------------------------------------- the shared tables

  /** The package variables: the cache and the flags. Each method is one critical section. */
  class LabelTable {
    var cache: map<Key, Entry>
    var refreshing: set<Key>

    constructor ()
      ensures cache == IDLE.cache && refreshing == IDLE.refreshing
    {
      cache, refreshing := map[], {};
    }

    method EnterGuard(ghost st: State, r: nat, key: Key, now: Seconds) returns (phase: Phase)
      requires Enabled(st, Guard(r)) && st.requests[r].key == key
      requires cache == st.cache && refreshing == st.refreshing && now == st.now
      modifies this`refreshing
      ensures cache == Next(st, Guard(r)).cache && refreshing == Next(st, Guard(r)).refreshing
      ensures phase == Next(st, Guard(r)).requests[r].phase
    {
      if key in cache && now - cache[key].at < REFRESH_TTL {
        return Answered(Labelled(cache[key], now, SecondLook));
      }
      if key in refreshing {
        return Answered(Busy);
      }
      refreshing := refreshing + {key};
      return Walking;
    }

    method StoreLabels(ghost st: State, r: nat, key: Key, found: Labels, finished: Seconds, now: Seconds)
        returns (phase: Phase)
      requires Enabled(st, Store(r)) && st.requests[r] == Request(key, Storing(found, finished))
      requires cache == st.cache && refreshing == st.refreshing && now == st.now
      modifies this`cache
      ensures cache == Next(st, Store(r)).cache && refreshing == Next(st, Store(r)).refreshing
      ensures phase == Next(st, Store(r)).requests[r].phase
    {
      var entry := Entry(found, now, finished);
      cache := cache[key := entry];
      return Clearing(Labelled(entry, now, OwnWalk));
    }

    method ClearFlag(ghost st: State, r: nat, key: Key)
      requires Enabled(st, Clear(r)) && st.requests[r].key == key
      requires cache == st.cache && refreshing == st.refreshing
      modifies this`refreshing
      ensures cache == Next(st, Clear(r)).cache && refreshing == Next(st, Clear(r)).refreshing
    {
      refreshing := refreshing - {key};
    }
  }
}
