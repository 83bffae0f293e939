/** One CLI session per OLT: the mutex handed out by the session manager, and the goroutine that takes it
    on behalf of a caller who may give up waiting. */
module SessionLock {

  type Key = string

  /** What the caller of `Acquire` has seen. */
  datatype Phase = Waiting | Serving | TimedOut | Released

  /** A call of `Acquire`; `locked` once its goroutine is past `block.Lock()`. */
  datatype Call = Call(key: Key, phase: Phase, locked: bool)

  /** All calls so far, and for each locked mutex the call whose goroutine holds it. */
  datatype State = State(calls: seq<Call>, owner: map<Key, nat>)

  const NO_CALLS := State([], map[])

  datatype Event =
    | Begin(key: Key)      // a caller asks for the session of a key
    | Lock(call: nat)      // its goroutine gets the mutex
    | Deliver(call: nat)   // the caller sees it in time
    | Expire(call: nat)    // the caller's context ends first (or wins the race)
    | Release(call: nat)   // the caller is done with the session

  predicate Enabled(st: State, e: Event) {
    match e
    case Begin(_) => true
    case Lock(t) => t < |st.calls| && !st.calls[t].locked && st.calls[t].key !in st.owner
    case Deliver(t) => t < |st.calls| && st.calls[t].phase == Waiting && st.calls[t].locked
    case Expire(t) => t < |st.calls| && st.calls[t].phase == Waiting
    case Release(t) => t < |st.calls| && st.calls[t].phase == Serving
  }

  /** Events that cannot happen leave the state alone. */
  function Next(st: State, e: Event): State {
    if !Enabled(st, e) then st
    else
      match e
      case Begin(key) => st.(calls := st.calls + [Call(key, Waiting, false)])
      case Lock(t) => State(st.calls[t := st.calls[t].(locked := true)], st.owner[st.calls[t].key := t])
      case Deliver(t) => st.(calls := st.calls[t := st.calls[t].(phase := Serving)])
      case Expire(t) => st.(calls := st.calls[t := st.calls[t].(phase := TimedOut)])
      case Release(t) => State(st.calls[t := st.calls[t].(phase := Released)], st.owner - {st.calls[t].key})
  }

  function Run(st: State, events: seq<Event>): State {
    if events == [] then st else Next(Run(st, events[..|events| - 1]), events[|events| - 1])
  }

  // ---------------------------------------------------------------- mutual exclusion

  /** The mutex of a key is held by exactly the call whose goroutine locked it and has not released it. */
  ghost predicate Consistent(st: State) {
    && (forall k :: k in st.owner ==> st.owner[k] < |st.calls| && st.calls[st.owner[k]].key == k
                                      && st.calls[st.owner[k]].locked && st.calls[st.owner[k]].phase != Released)
    && (forall t | 0 <= t < |st.calls| && st.calls[t].locked && st.calls[t].phase != Released ::
          st.calls[t].key in st.owner && st.owner[st.calls[t].key] == t)
    && (forall t | 0 <= t < |st.calls| && st.calls[t].phase in {Serving, Released} :: st.calls[t].locked)
  }

  lemma LockKeepsConsistent(st: State, t: nat)
    requires Consistent(st) && Enabled(st, Lock(t))
    ensures Consistent(Next(st, Lock(t)))
  {
    assert st.calls[t].phase !in {Serving, Released};
  }

  lemma NextKeepsConsistent(st: State, e: Event)
    requires Consistent(st)
    ensures Consistent(Next(st, e))
  {
    if Enabled(st, e) {
      match e
      case Begin(_) =>
      case Lock(t) => LockKeepsConsistent(st, t);
      case Deliver(t) =>
      case Expire(t) =>
      case Release(t) =>
    }
  }

  lemma {:induction false} RunKeepsConsistent(st: State, events: seq<Event>)
    requires Consistent(st)
    ensures Consistent(Run(st, events))
  {
    if events == [] {
    } else {
      RunKeepsConsistent(st, events[..|events| - 1]);
      NextKeepsConsistent(Run(st, events[..|events| - 1]), events[|events| - 1]);
    }
  }

  /** In every interleaving at most one caller holds the session of a key. */
  lemma OneSessionPerKey(events: seq<Event>, s: nat, t: nat)
    ensures var calls := Run(NO_CALLS, events).calls;
            (s < |calls| && t < |calls| && calls[s].phase == Serving && calls[t].phase == Serving
             && calls[s].key == calls[t].key) ==> s == t
  {
    RunKeepsConsistent(NO_CALLS, events);
  }

  // ---------------------------------------------------------------- abandoned locks

  /** The mutex is held for a caller who has already given up, and so has no release to call. */
  predicate Stuck(st: State, key: Key) {
    key in st.owner && st.owner[key] < |st.calls| && st.calls[st.owner[key]].phase == TimedOut
  }

  lemma StuckStays(st: State, e: Event, key: Key)
    requires Consistent(st) && Stuck(st, key)
    ensures Stuck(Next(st, e), key)
  {
  }

  lemma StuckServesNobody(st: State, key: Key)
    requires Consistent(st) && Stuck(st, key)
    ensures forall t | 0 <= t < |st.calls| && st.calls[t].key == key :: st.calls[t].phase != Serving
  {
  }

  lemma {:induction false} StuckForever(st: State, events: seq<Event>, key: Key)
    requires Consistent(st) && Stuck(st, key)
    ensures Stuck(Run(st, events), key)
    ensures forall t | 0 <= t < |Run(st, events).calls| && Run(st, events).calls[t].key == key ::
              Run(st, events).calls[t].phase != Serving
  {
    RunKeepsConsistent(st, events);
    if events != [] {
      RunKeepsConsistent(st, events[..|events| - 1]);
      StuckForever(st, events[..|events| - 1], key);
      StuckStays(Run(st, events[..|events| - 1]), events[|events| - 1], key);
    }
    StuckServesNobody(Run(st, events), key);
  }

  lemma {:induction false} TimedOutStays(st: State, events: seq<Event>, t: nat)
    requires t < |st.calls| && st.calls[t].phase == TimedOut
    ensures var calls := Run(st, events).calls;
            t < |calls| && calls[t].phase == TimedOut && calls[t].key == st.calls[t].key
    ensures st.calls[t].locked ==> Run(st, events).calls[t].locked
  {
    if events == [] {
    } else {
      TimedOutStays(st, events[..|events| - 1], t);
    }
  }

  /** A caller who gave up dooms the key: in every later state it is stuck from the moment its goroutine has got the
      mutex, whatever else happens, and until then that goroutine can get it whenever the mutex is free. */
  lemma GivingUpDooms(st: State, events: seq<Event>, more: seq<Event>, t: nat)
    requires Consistent(st) && t < |st.calls| && st.calls[t].phase == TimedOut
    ensures var (key, later) := (st.calls[t].key, Run(st, events));
            && t < |later.calls|
            && (later.calls[t].locked ==> Stuck(Run(later, more), key))
            && (!later.calls[t].locked && key !in later.owner ==> Stuck(Next(later, Lock(t)), key))
  {
    var later := Run(st, events);
    RunKeepsConsistent(st, events);
    TimedOutStays(st, events, t);
    if later.calls[t].locked {
      StuckForever(later, more, st.calls[t].key);
    }
  }

  /** A key is stuck exactly when the goroutine of some caller who gave up has got its mutex. */
  lemma StuckMeaning(st: State, key: Key)
    requires Consistent(st)
    ensures Stuck(st, key)
            <==> exists t :: 0 <= t < |st.calls| && st.calls[t] == Call(key, TimedOut, true)
  {
    if Stuck(st, key) {
      assert st.calls[st.owner[key]] == Call(key, TimedOut, true);
    }
  }

  /** Some call on the key begun after `st` is served at the end of the run. */
  predicate ServesNewCall(st: State, events: seq<Event>, key: Key) {
    exists t :: |st.calls| <= t < |Run(st, events).calls| && Run(st, events).calls[t] == Call(key, Serving, true)
  }

  lemma {:induction false} RunAppend(st: State, first: seq<Event>, second: seq<Event>)
    ensures Run(st, first + second) == Run(Run(st, first), second)
  {
    var events := first + second;
    if second == [] {
      assert events == first;
    } else {
      assert events[..|events| - 1] == first + second[..|second| - 1];
      RunAppend(st, first, second[..|second| - 1]);
    }
  }

  lemma RunOne(st: State, e: Event)
    ensures Run(st, [e]) == Next(st, e)
  {
    assert [e][..0] == [];
  }

  /** With the mutex free a new call can be served. */
  lemma FreeServes(st: State, key: Key)
    requires key !in st.owner
    ensures var n := |st.calls|;
            Run(st, [Begin(key), Lock(n), Deliver(n)])
                == State(st.calls + [Call(key, Serving, true)], st.owner[key := n])
  {
    var n := |st.calls|;
    RunOne(st, Begin(key));
    RunAppend(st, [Begin(key)], [Lock(n)]);
    var begun := Next(st, Begin(key));
    RunOne(begun, Lock(n));
    var locked := Next(begun, Lock(n));
    RunAppend(st, [Begin(key)] + [Lock(n)], [Deliver(n)]);
    RunOne(locked, Deliver(n));
    assert [Begin(key)] + [Lock(n)] + [Deliver(n)] == [Begin(key), Lock(n), Deliver(n)];
    assert Next(locked, Deliver(n)).calls == st.calls + [Call(key, Serving, true)];
  }

  /** Unless it is stuck, the holder of the mutex can still finish. */
  lemma HolderFinishes(st: State, key: Key) returns (events: seq<Event>)
    requires Consistent(st) && !Stuck(st, key)
    ensures key !in Run(st, events).owner && |Run(st, events).calls| == |st.calls|
  {
    if key !in st.owner {
      events := [];
    } else {
      var t := st.owner[key];
      if st.calls[t].phase == Serving {
        events := [Release(t)];
        RunOne(st, Release(t));
      } else {
        events := [Deliver(t)] + [Release(t)];
        RunOne(st, Deliver(t));
        RunAppend(st, [Deliver(t)], [Release(t)]);
        RunOne(Next(st, Deliver(t)), Release(t));
      }
    }
  }

  /** A key can serve another caller, in some continuation, exactly when its mutex is not held for a caller
      who timed out. Once it is, `Acquire` on that key fails for ever. */
  lemma ServableUnlessStuck(st: State, key: Key)
    requires Consistent(st)
    ensures (exists events :: ServesNewCall(st, events, key)) <==> !Stuck(st, key)
  {
    if Stuck(st, key) {
      forall events
        ensures !ServesNewCall(st, events, key)
      {
        StuckForever(st, events, key);
      }
    } else {
      var finish := HolderFinishes(st, key);
      var free := Run(st, finish);
      var serve := [Begin(key), Lock(|free.calls|), Deliver(|free.calls|)];
      FreeServes(free, key);
      RunAppend(st, finish, serve);
      assert Run(st, finish + serve).calls[|free.calls|] == Call(key, Serving, true);
      assert ServesNewCall(st, finish + serve, key);
    }
  }

  /** It takes one caller who gives up while another has the session. */
  lemma OneTimeoutSticks(st: State, key: Key)
    requires Consistent(st) && key !in st.owner
    ensures var n := |st.calls|;
            Stuck(Run(st, [Begin(key), Lock(n), Deliver(n)]
                      + ([Begin(key), Expire(n + 1)] + [Release(n), Lock(n + 1)])), key)
  {
    var n := |st.calls|;
    FreeServes(st, key);
    var served := Run(st, [Begin(key), Lock(n), Deliver(n)]);
    var (giveUp, handOver) := ([Begin(key), Expire(n + 1)], [Release(n), Lock(n + 1)]);
    RunAppend(st, [Begin(key), Lock(n), Deliver(n)], giveUp + handOver);
    RunAppend(served, giveUp, handOver);
    RunTwo(served, Begin(key), Expire(n + 1));
    RunTwo(Run(served, giveUp), Release(n), Lock(n + 1));
  }

  lemma RunTwo(st: State, first: Event, second: Event)
    ensures Run(st, [first, second]) == Next(Next(st, first), second)
  {
    assert [first, second] == [first] + [second];
    RunAppend(st, [first], [second]);
    RunOne(st, first);
    RunOne(Next(st, first), second);
  }

  // ---------------------------------------------------------------- the manager

  class SessionMutex {
    constructor () {
    }
  }

  /** The lazily filled table of mutexes, guarded by the manager's own mutex. */
  class Manager {
    var blocks: map<Key, SessionMutex>

    constructor ()
      ensures blocks == map[]
    {
      blocks := map[];
    }

    /** Two calls for one key get one mutex, calls for different keys different ones. */
    ghost predicate Valid()
      reads this
    {
      forall j, k :: j in blocks && k in blocks && blocks[j] == blocks[k] ==> j == k
    }

    method BlockFor(key: Key) returns (block: SessionMutex)
      requires Valid()
      modifies this
      ensures Valid() && key in blocks && blocks[key] == block
      ensures blocks == old(blocks)[key := block]
      ensures key in old(blocks) ==> blocks == old(blocks)
    {
      if key in blocks {
        block := blocks[key];
      } else {
        block := new SessionMutex();
        blocks := blocks[key := block];
      }
    }
  }
}
