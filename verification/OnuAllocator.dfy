/** Suggesting numbers for ONUs that a PON port sees but that are not provisioned. */
module OnuAllocator {
  import opened Decimal
  import opened Money
  import opened Text
  import opened ZteIndex

  const MAX_ONU := 128

  // ---------------------------------------------------------------- ports and occupancy

  /** A PON port by its name. */
  datatype Port = Port(name: string)

  const NO_PORT := Port("")

  /** `sanitizePON`: two or three short numerals between slashes, or nothing. */
  function SanitizePon(port: string): Port {
    var t := TrimSpace(port);
    var parts := Split(t, '/');
    if |parts| < 2 || |parts| > 3 || !(forall i | 0 <= i < |parts| :: 0 < |parts[i]| <= 3 && AllDigits(parts[i]))
        then NO_PORT
    else Port(t)
  }

  /** A cached ONU. */
  datatype Cached = Cached(number: string, index: string)

  /** The port and number it holds, if they can be told and are in range: its label decides, its index only when
      the label says nothing. */
  function Holds(onu: Cached): Option<(Port, int)> {
    match (if SplitIndex(onu.number).Some? then SplitIndex(onu.number) else SplitIndex(onu.index))
    case None => None
    case Some((pon, id)) =>
      if SanitizePon(pon) == NO_PORT || id < 1 || id > MAX_ONU then None else Some((SanitizePon(pon), id))
  }

  ghost predicate Occupied(onus: seq<Cached>, port: Port, id: int) {
    exists i :: 0 <= i < |onus| && Holds(onus[i]) == Some((port, id))
  }

  lemma PonIsSanitary(board: int, pon: int)
    requires Physical(board, pon)
    ensures SanitizePon(Pon(1, board, pon)) == Port(Pon(1, board, pon))
  {
    ShortNumeral(1);
    ShortNumeral(board);
    ShortNumeral(pon);
    ThreeNumerals(Itoa(1), Itoa(board), Itoa(pon));
  }

  predicate Short(part: string) {
    0 < |part| <= 3 && AllDigits(part) && '/' !in part
  }

  lemma ThreeNumerals(a: string, b: string, c: string)
    requires Short(a) && Short(b) && Short(c)
    ensures SanitizePon(a + "/" + b + "/" + c) == Port(a + "/" + b + "/" + c)
  {
    JoinThree(a, b, c);
    SplitJoin([a, b, c], '/');
    var t := a + "/" + b + "/" + c;
    DigitsAtBothEnds(t);
    assert forall i | 0 <= i < 3 :: 0 < |[a, b, c][i]| <= 3 && AllDigits([a, b, c][i]);
  }

  lemma DigitsAtBothEnds(t: string)
    requires t != [] && IsDigit(t[0]) && IsDigit(t[|t| - 1])
    ensures TrimSpace(t) == t
  {
  }

  lemma JoinThree(a: string, b: string, c: string)
    ensures Join([a, b, c], '/') == a + "/" + b + "/" + c
  {
    assert [a, b, c][1..] == [b, c] && [b, c][1..] == [c];
    assert Join([a, b, c], '/') == a + ['/'] + Join([b, c], '/');
    assert Join([b, c], '/') == b + ['/'] + c;
    assert a + ['/'] + (b + ['/'] + c) == a + ['/'] + b + ['/'] + c;
  }

  lemma ShortNumeral(n: nat)
    requires n < 100
    ensures Short(Itoa(n))
  {
    NoSeparator(n, '/');
    assert n >= 10 ==> |Digits(n / 10)| == 1;
  }

  /** An ONU of any physical port is held where its label says, and where its index says if the label is lost. */
  lemma LabelAndIndexAgree(board: int, pon: int, id: nat, lost: string)
    requires Physical(board, pon) && 1 <= id <= MAX_ONU && SplitIndex(lost).None?
    ensures var index := Key(GenerateBoardPon(board, pon).value.onuIdSuffix, id);
            && Holds(Cached(OnuLabel(index), index)) == Some((Port(Pon(1, board, pon)), id))
            && Holds(Cached(lost, index)) == Some((Port(Pon(1, board, pon)), id))
  {
    LabelOfSuffix(board, pon, id);
    PonIsSanitary(board, pon);
  }

  type Occupancy = map<Port, set<int>>

  function Used(occupancy: Occupancy, port: Port): set<int> {
    if port in occupancy then occupancy[port] else {}
  }

  /** The map holds what the ONUs occupy, and no empty set. */
  ghost predicate Tracks(occupancy: Occupancy, onus: seq<Cached>) {
    && (forall port, id :: id in Used(occupancy, port) <==> Occupied(onus, port, id))
    && (forall port :: port in occupancy ==> exists id :: id in occupancy[port])
  }

  function WithOnu(occupancy: Occupancy, onu: Cached): Occupancy {
    match Holds(onu)
    case None => occupancy
    case Some((port, id)) => occupancy[port := Used(occupancy, port) + {id}]
  }

  lemma TracksMore(occupancy: Occupancy, onus: seq<Cached>, onu: Cached)
    requires Tracks(occupancy, onus)
    ensures Tracks(WithOnu(occupancy, onu), onus + [onu])
  {
    forall port, id
      ensures id in Used(WithOnu(occupancy, onu), port) <==> Occupied(onus + [onu], port, id)
    {
      OccupiedByOneMore(onus, onu, port, id);
    }
  }

  lemma TracksNothing()
    ensures Tracks(map[], [])
  {
  }

  lemma TracksSomething(occupancy: Occupancy, onus: seq<Cached>, port: Port)
    requires Tracks(occupancy, onus) && port in occupancy
    ensures exists id :: Occupied(onus, port, id)
  {
    var id :| id in occupancy[port];
    assert id in Used(occupancy, port);
  }

  /** `buildONUPortOccupancy`. */
  method BuildOccupancy(onus: seq<Cached>) returns (occupancy: Occupancy)
    ensures forall port, id :: id in Used(occupancy, port) <==> Occupied(onus, port, id)
    ensures forall port :: port in occupancy ==> exists id :: Occupied(onus, port, id)
  {
    occupancy := map[];
    TracksNothing();
    for k := 0 to |onus|
      invariant Tracks(occupancy, onus[..k])
    {
      assert onus[..k + 1] == onus[..k] + [onus[k]];
      TracksMore(occupancy, onus[..k], onus[k]);
      var held := Holds(onus[k]);
      if held.Some? {
        var (port, id) := held.value;
        occupancy := occupancy[port := Used(occupancy, port) + {id}];
      }
    }
    assert onus[..|onus|] == onus;
    forall port | port in occupancy
      ensures exists id :: Occupied(onus, port, id)
    {
      TracksSomething(occupancy, onus, port);
    }
  }

  lemma OccupiedByOneMore(onus: seq<Cached>, onu: Cached, port: Port, id: int)
    ensures Occupied(onus + [onu], port, id) <==> Occupied(onus, port, id) || Holds(onu) == Some((port, id))
  {
    var all := onus + [onu];
    assert all[|onus|] == onu;
    if Occupied(onus, port, id) {
      var i :| 0 <= i < |onus| && Holds(onus[i]) == Some((port, id));
      assert all[i] == onus[i];
    }
  }

  predicate Ascending(ids: seq<int>) {
    forall i, j | 0 <= i < j < |ids| :: ids[i] < ids[j]
  }

  /** `findEmptyONUIDs`: the numbers not in use, in order. */
  method FindEmpty(used: set<int>, maxId: int) returns (empty: seq<int>)
    ensures Ascending(empty)
    ensures forall id :: id in empty <==> 1 <= id <= (if maxId < 1 then MAX_ONU else maxId) && id !in used
  {
    var top := if maxId < 1 then MAX_ONU else maxId;
    empty := [];
    var id := 1;
    while id <= top
      invariant 1 <= id <= top + 1 && Ascending(empty)
      invariant forall e :: e in empty <==> 1 <= e < id && e !in used
    {
      if id !in used {
        assert forall i | 0 <= i < |empty| :: empty[i] in empty;
        empty := empty + [id];
      }
      id := id + 1;
    }
  }

  // ---------------------------------------------------------------- deduplication

  /** An unconfigured ONU as the scan reports it; a hint of 0 is none. */
  datatype Seen = Seen(serial: string, port: Port, hint: int)

  function Normal(item: Seen): Seen {
    item.(serial := Upper(TrimSpace(item.serial)), port := SanitizePon(item.port.name))
  }

  predicate Same(a: Seen, b: Seen) {
    a.port == b.port && a.serial == b.serial
  }

  ghost predicate Mentioned(items: seq<Seen>, item: Seen) {
    exists i :: 0 <= i < |items| && Same(items[i], item)
  }

  /** The first report of each serial on each port, normalised, in order. */
  ghost function FirstReports(items: seq<Seen>): seq<Seen> {
    if items == [] then []
    else
      var (before, item) := (FirstReports(items[..|items| - 1]), Normal(items[|items| - 1]));
      if item.serial == "" || Mentioned(before, item) then before else before + [item]
  }

  function DedupeKey(item: Seen): string {
    item.port.name + "|" + item.serial
  }

  predicate PortLike(port: Port) {
    '|' !in port.name
  }

  /** The key tells reports apart: no port holds a bar. */
  lemma KeyTellsApart(a: Seen, b: Seen)
    requires PortLike(a.port) && PortLike(b.port)
    ensures DedupeKey(a) == DedupeKey(b) <==> Same(a, b)
  {
    assert a.port.name + "|" + a.serial == a.port.name + (['|'] + a.serial);
    assert b.port.name + "|" + b.serial == b.port.name + (['|'] + b.serial);
    if DedupeKey(a) == DedupeKey(b) {
      SplitFirst(a.port.name, a.serial, '|');
      SplitFirst(b.port.name, b.serial, '|');
      assert a.port.name == Split(DedupeKey(a), '|')[0] && b.port.name == Split(DedupeKey(b), '|')[0];
      assert a.serial == DedupeKey(a)[|a.port.name| + 1..] && b.serial == DedupeKey(b)[|b.port.name| + 1..];
    }
  }

  lemma SanitizedHasNoBar(port: string)
    ensures PortLike(SanitizePon(port))
  {
    var t := TrimSpace(port);
    var parts := Split(t, '/');
    if SanitizePon(port) != NO_PORT {
      JoinSplit(t, '/');
      forall i | 0 <= i < |parts|
        ensures '|' !in parts[i]
      {
        assert AllDigits(parts[i]);
      }
      NotInJoin(parts, '/', '|');
    }
  }

  lemma {:induction false} NotInJoin(parts: seq<string>, sep: char, c: char)
    requires |parts| >= 1 && c != sep && forall i | 0 <= i < |parts| :: c !in parts[i]
    ensures c !in Join(parts, sep)
  {
    if |parts| > 1 {
      NotInJoin(parts[1..], sep, c);
    }
  }

  function KeysOf(items: seq<Seen>): set<string> {
    if items == [] then {} else KeysOf(items[..|items| - 1]) + {DedupeKey(items[|items| - 1])}
  }

  /** `dedupeUnconfiguredONUs`. */
  method Dedupe(items: seq<Seen>) returns (result: seq<Seen>)
    ensures result == FirstReports(items)
  {
    result := [];
    var seen: set<string> := {};
    for k := 0 to |items|
      invariant result == FirstReports(items[..k]) && seen == KeysOf(result)
    {
      var item := Normal(items[k]);
      OneMoreReport(items, k);
      if item.serial == "" || DedupeKey(item) in seen {
        continue;
      }
      seen := seen + {DedupeKey(item)};
      result := result + [item];
    }
    assert items[..|items|] == items;
  }

  /** One more report is kept exactly when it has a serial and its key is new. */
  lemma OneMoreReport(items: seq<Seen>, k: nat)
    requires k < |items|
    ensures var (before, after, item) := (FirstReports(items[..k]), FirstReports(items[..k + 1]), Normal(items[k]));
            if item.serial == "" || DedupeKey(item) in KeysOf(before) then after == before
            else after == before + [item] && KeysOf(after) == KeysOf(before) + {DedupeKey(item)}
  {
    var (before, item) := (FirstReports(items[..k]), Normal(items[k]));
    assert items[..k + 1][..k] == items[..k];
    ReportPortsLackBars(items[..k]);
    SanitizedHasNoBar(items[k].port.name);
    SeenMeansMentioned(before, item);
    assert (before + [item])[..|before|] == before;
  }

  lemma {:induction false} ReportPortsLackBars(items: seq<Seen>)
    ensures forall i | 0 <= i < |FirstReports(items)| :: PortLike(FirstReports(items)[i].port)
  {
    if items == [] {
    } else {
      ReportPortsLackBars(items[..|items| - 1]);
      SanitizedHasNoBar(items[|items| - 1].port.name);
    }
  }

  lemma {:induction false} SeenMeansMentioned(result: seq<Seen>, item: Seen)
    requires PortLike(item.port) && forall i | 0 <= i < |result| :: PortLike(result[i].port)
    ensures Mentioned(result, item) <==> DedupeKey(item) in KeysOf(result)
  {
    if result == [] {
    } else {
      var n := |result| - 1;
      SeenMeansMentioned(result[..n], item);
      KeyTellsApart(result[n], item);
      assert Mentioned(result, item) <==> Mentioned(result[..n], item) || Same(result[n], item) by {
        MentionedMore(result, item);
      }
    }
  }

  lemma MentionedMore(items: seq<Seen>, item: Seen)
    requires items != []
    ensures Mentioned(items, item) <==> Mentioned(items[..|items| - 1], item) || Same(items[|items| - 1], item)
  {
    if Mentioned(items[..|items| - 1], item) {
      var i :| 0 <= i < |items| - 1 && Same(items[..|items| - 1][i], item);
      assert Same(items[i], item);
    }
  }

  /** No serial appears twice on a port. */
  lemma {:induction false} EachReportOnce(items: seq<Seen>)
    ensures forall i, j | 0 <= i < j < |FirstReports(items)| :: !Same(FirstReports(items)[i], FirstReports(items)[j])
  {
    if items == [] {
    } else {
      EachReportOnce(items[..|items| - 1]);
    }
  }

  /** No report with a serial is lost. */
  lemma {:induction false} NoReportLost(items: seq<Seen>, i: nat)
    requires i < |items| && Normal(items[i]).serial != ""
    ensures Mentioned(FirstReports(items), Normal(items[i]))
  {
    var (before, all) := (FirstReports(items[..|items| - 1]), FirstReports(items));
    if i < |items| - 1 {
      NoReportLost(items[..|items| - 1], i);
    }
    if Mentioned(before, Normal(items[i])) {
      var k :| 0 <= k < |before| && Same(before[k], Normal(items[i]));
      assert Same(all[k], Normal(items[i]));
    } else {
      assert Same(all[|before|], Normal(items[i]));
    }
  }

  // ---------------------------------------------------------------- suggestions

  function IndexOf(queue: seq<int>, id: int): (i: nat)
    requires id in queue
    ensures i < |queue| && queue[i] == id
  {
    if queue[0] == id then 0 else 1 + IndexOf(queue[1..], id)
  }

  /** `pickSuggestedONUID`: the hint if it is still there, else the first; 0 when nothing is left. */
  function Pick(hint: int, queue: seq<int>): (int, seq<int>) {
    if queue == [] then (0, queue)
    else if hint >= 1 && hint in queue then
      (hint, queue[..IndexOf(queue, hint)] + queue[IndexOf(queue, hint) + 1..])
    else (queue[0], queue[1..])
  }

  /** Of an ordered queue of positive numbers: one number is taken, the hinted one or the least, and the others
      stay, in order. */
  lemma PickTakesOne(hint: int, queue: seq<int>)
    requires Ascending(queue) && queue != []
    ensures var (id, rest) := Pick(hint, queue);
            && id in queue && Ascending(rest) && |rest| == |queue| - 1
            && (forall e :: e in rest <==> e in queue && e != id)
            && (if hint >= 1 && hint in queue then id == hint else forall e :: e in queue ==> id <= e)
  {
    var (id, rest) := Pick(hint, queue);
    var i := if hint >= 1 && hint in queue then IndexOf(queue, hint) else 0;
    assert rest == queue[..i] + queue[i + 1..];
    forall e | e in queue && e != id
      ensures e in rest
    {
      var p :| 0 <= p < |queue| && queue[p] == e;
      assert if p < i then rest[p] == e else rest[p - 1] == e;
    }
  }

  type Queues = map<Port, seq<int>>

  function Queue(queues: Queues, port: Port): seq<int> {
    if port in queues then queues[port] else []
  }

  lemma PutQueue(queues: Queues, port: Port, queue: seq<int>)
    ensures Queue(queues[port := queue], port) == queue
    ensures forall p :: p != port ==> Queue(queues[port := queue], p) == Queue(queues, p)
  {
    assert port in queues[port := queue];
    forall p | p != port
      ensures Queue(queues[port := queue], p) == Queue(queues, p)
    {
      assert p in queues[port := queue] <==> p in queues;
    }
  }

  /** The numbers of the port that are free and that none of the items before has been given. */
  ghost function Left(queues: Queues, items: seq<Seen>, given: seq<int>, port: Port): set<int>
    requires |given| <= |items|
  {
    if given == [] then (set id | id in Queue(queues, port))
    else
      var before := Left(queues, items, given[..|given| - 1], port);
      if items[|given| - 1].port == port then before - {given[|given| - 1]} else before
  }

  /** What the suggestion for item `k` must be: none exactly when nothing is left, the hint if that is left, else
      the least number left. */
  ghost predicate RightSuggestion(queues: Queues, items: seq<Seen>, suggested: seq<int>, k: nat)
    requires k < |suggested| <= |items|
  {
    var (port, hint, id) := (items[k].port, items[k].hint, suggested[k]);
    var left := Left(queues, items, suggested[..k], port);
    if port == NO_PORT || left == {} then id == 0
    else id in left && if hint >= 1 && hint in left then id == hint else forall e :: e in left ==> id <= e
  }

  ghost predicate RightSuggestions(queues: Queues, items: seq<Seen>, suggested: seq<int>)
    requires |suggested| <= |items|
  {
    forall k | 0 <= k < |suggested| :: RightSuggestion(queues, items, suggested, k)
  }

  ghost predicate OrderedQueues(queues: Queues) {
    forall port :: Ascending(Queue(queues, port)) && forall id :: id in Queue(queues, port) ==> id >= 1
  }

  ghost predicate Follows(rest: Queues, queues: Queues, items: seq<Seen>, suggested: seq<int>)
    requires |suggested| <= |items|
  {
    forall port, id :: port != NO_PORT ==> (id in Queue(rest, port) <==> id in Left(queues, items, suggested, port))
  }

  /** The allocation loop of `ListUnconfiguredONUsBulk`. */
  method Suggest(items: seq<Seen>, queues: Queues) returns (suggested: seq<int>)
    requires OrderedQueues(queues)
    ensures |suggested| == |items| && RightSuggestions(queues, items, suggested)
  {
    suggested := [];
    var rest := queues;
    for k := 0 to |items|
      invariant |suggested| == k && OrderedQueues(rest)
      invariant Follows(rest, queues, items, suggested)
      invariant RightSuggestions(queues, items, suggested)
    {
      var port := items[k].port;
      if port == NO_PORT {
        AppendRight(queues, items, suggested, 0);
        suggested := suggested + [0];
      } else {
        var (id, next) := Pick(items[k].hint, Queue(rest, port));
        StepRight(rest, queues, items, suggested);
        suggested := suggested + [id];
        rest := rest[port := next];
      }
    }
  }

  lemma AppendRight(queues: Queues, items: seq<Seen>, suggested: seq<int>, id: int)
    requires |suggested| < |items| && RightSuggestions(queues, items, suggested)
    requires RightSuggestion(queues, items, suggested + [id], |suggested|)
    ensures RightSuggestions(queues, items, suggested + [id])
    ensures forall port :: Left(queues, items, suggested + [id], port)
                           == if items[|suggested|].port == port then Left(queues, items, suggested, port) - {id}
                              else Left(queues, items, suggested, port)
  {
    var after := suggested + [id];
    assert after[..|suggested|] == suggested;
    forall k | 0 <= k < |suggested|
      ensures RightSuggestion(queues, items, after, k)
    {
      assert after[..k] == suggested[..k];
      assert RightSuggestion(queues, items, suggested, k);
    }
  }

  lemma StepRight(rest: Queues, queues: Queues, items: seq<Seen>, suggested: seq<int>)
    requires |suggested| < |items| && OrderedQueues(rest) && Follows(rest, queues, items, suggested)
    requires RightSuggestions(queues, items, suggested) && items[|suggested|].port != NO_PORT
    ensures var item := items[|suggested|]; var (id, next) := Pick(item.hint, Queue(rest, item.port));
            && RightSuggestions(queues, items, suggested + [id])
            && OrderedQueues(rest[item.port := next])
            && Follows(rest[item.port := next], queues, items, suggested + [id])
  {
    var item := items[|suggested|];
    var queue := Queue(rest, item.port);
    var (id, next) := Pick(item.hint, queue);
    var left := Left(queues, items, suggested, item.port);
    assert (suggested + [id])[..|suggested|] == suggested;
    assert Ascending(queue) && forall e :: e in queue <==> e in left;
    if queue == [] {
      assert forall e :: e !in queue;
      assert forall e :: e !in left;
      assert left == {};
    } else {
      PickTakesOne(item.hint, queue);
      assert queue[0] in left;
    }
    assert RightSuggestion(queues, items, suggested + [id], |suggested|);
    AppendRight(queues, items, suggested, id);
    PutQueue(rest, item.port, next);
    StillFollows(rest, queues, items, suggested, id, next);
  }

  lemma StillFollows(rest: Queues, queues: Queues, items: seq<Seen>, suggested: seq<int>, id: int, next: seq<int>)
    requires |suggested| < |items| && OrderedQueues(rest) && Follows(rest, queues, items, suggested)
    requires var queue := Queue(rest, items[|suggested|].port);
             Ascending(next) && forall e :: e in next <==> e in queue && e != id
    ensures OrderedQueues(rest[items[|suggested|].port := next])
    ensures Follows(rest[items[|suggested|].port := next], queues, items, suggested + [id])
  {
    assert (suggested + [id])[..|suggested|] == suggested;
    var here := items[|suggested|].port;
    var after := rest[here := next];
    PutQueue(rest, here, next);
    forall port
      ensures Ascending(Queue(after, port)) && forall e :: e in Queue(after, port) ==> e >= 1
    {
      if port != here {
        assert Queue(after, port) == Queue(rest, port);
      }
    }
    forall port, e | port != NO_PORT
      ensures e in Queue(after, port) <==> e in Left(queues, items, suggested + [id], port)
    {
      if port != here {
        assert Queue(after, port) == Queue(rest, port);
      }
    }
  }

  // ---------------------------------------------------------------- main results

  lemma {:induction false} LeftMeaning(queues: Queues, items: seq<Seen>, given: seq<int>, port: Port, id: int)
    requires |given| <= |items|
    ensures id in Left(queues, items, given, port)
            <==> id in Queue(queues, port) && forall j | 0 <= j < |given| :: !(items[j].port == port && given[j] == id)
  {
    if given == [] {
    } else {
      LeftMeaning(queues, items, given[..|given| - 1], port, id);
    }
  }

  /** A suggested number is free on its port, and no two items of a port are suggested the same. */
  lemma SuggestionsAreApart(queues: Queues, items: seq<Seen>, suggested: seq<int>, j: nat, k: nat)
    requires |suggested| == |items| && RightSuggestions(queues, items, suggested) && j < k < |items|
    ensures suggested[k] != 0 ==> items[k].port != NO_PORT && suggested[k] in Queue(queues, items[k].port)
    ensures suggested[k] != 0 && items[j].port == items[k].port ==> suggested[j] != suggested[k]
  {
    assert RightSuggestion(queues, items, suggested, k);
    LeftMeaning(queues, items, suggested[..k], items[k].port, suggested[k]);
    assert suggested[..k][j] == suggested[j];
  }

  /** How many of the items are on the port. */
  function CountOn(items: seq<Seen>, port: Port): nat {
    if items == [] then 0 else CountOn(items[..|items| - 1], port) + if items[|items| - 1].port == port then 1 else 0
  }

  lemma {:induction false} QueueSize(queue: seq<int>)
    requires Ascending(queue)
    ensures |set id | id in queue| == |queue|
  {
    if queue == [] {
    } else {
      var n := |queue| - 1;
      QueueSize(queue[..n]);
      assert (set id | id in queue) == (set id | id in queue[..n]) + {queue[n]};
    }
  }

  lemma FirstOnes(queues: Queues, items: seq<Seen>, suggested: seq<int>, n: nat)
    requires n <= |suggested| <= |items| && RightSuggestions(queues, items, suggested)
    ensures RightSuggestions(queues, items, suggested[..n])
  {
    forall k | 0 <= k < n
      ensures RightSuggestion(queues, items, suggested[..n], k)
    {
      assert suggested[..n][..k] == suggested[..k];
      assert RightSuggestion(queues, items, suggested, k);
    }
  }

  /** Every item of the port before took one number, as long as there were any. */
  lemma {:induction false} LeftSize(queues: Queues, items: seq<Seen>, suggested: seq<int>, port: Port)
    requires |suggested| <= |items| && OrderedQueues(queues) && RightSuggestions(queues, items, suggested)
             && port != NO_PORT
    ensures |Left(queues, items, suggested, port)| == LeftCount(queues, items[..|suggested|], port)
  {
    if suggested == [] {
      QueueSize(Queue(queues, port));
    } else {
      var n := |suggested| - 1;
      FirstOnes(queues, items, suggested, n);
      LeftSize(queues, items, suggested[..n], port);
      assert items[..n + 1][..n] == items[..n];
      LeftShrinks(queues, items, suggested, port);
    }
  }

  lemma LeftShrinks(queues: Queues, items: seq<Seen>, suggested: seq<int>, port: Port)
    requires 0 < |suggested| <= |items| && RightSuggestions(queues, items, suggested) && port != NO_PORT
    ensures var (n, before) := (|suggested| - 1, |Left(queues, items, suggested[..|suggested| - 1], port)|);
            |Left(queues, items, suggested, port)| == if items[n].port == port && before > 0 then before - 1 else before
  {
    var n := |suggested| - 1;
    var left := Left(queues, items, suggested[..n], port);
    if items[n].port == port {
      assert RightSuggestion(queues, items, suggested, n);
      SizeWithout(left, suggested[n]);
      LeftMeaning(queues, items, suggested[..n], port, 0);
    }
  }

  lemma SizeWithout(s: set<int>, x: int)
    ensures |s - {x}| == if x in s then |s| - 1 else |s|
  {
    if x !in s {
      assert s - {x} == s;
    }
  }

  function LeftCount(queues: Queues, items: seq<Seen>, port: Port): nat {
    var (all, gone) := (|Queue(queues, port)|, CountOn(items, port));
    if gone < all then all - gone else 0
  }

  /** An item gets nothing exactly when it has no port, or when as many items of its port came before it as the
      port has free numbers. */
  lemma NothingOnlyWhenUsedUp(queues: Queues, items: seq<Seen>, suggested: seq<int>, k: nat)
    requires |suggested| == |items| && OrderedQueues(queues) && RightSuggestions(queues, items, suggested)
             && k < |items|
    ensures suggested[k] == 0
            <==> items[k].port == NO_PORT || CountOn(items[..k], items[k].port) >= |Queue(queues, items[k].port)|
  {
    assert RightSuggestion(queues, items, suggested, k);
    if items[k].port != NO_PORT {
      FirstOnes(queues, items, suggested, k);
      LeftSize(queues, items, suggested[..k], items[k].port);
      LeftMeaning(queues, items, suggested[..k], items[k].port, 0);
    }
  }

  /** There is one right way to suggest. */
  lemma {:induction false} OneAllocation(queues: Queues, items: seq<Seen>, a: seq<int>, b: seq<int>, n: nat)
    requires n <= |a| == |b| == |items| && RightSuggestions(queues, items, a) && RightSuggestions(queues, items, b)
    ensures a[..n] == b[..n]
  {
    if n == 0 {
    } else {
      OneAllocation(queues, items, a, b, n - 1);
      assert RightSuggestion(queues, items, a, n - 1) && RightSuggestion(queues, items, b, n - 1);
      assert a[..n] == a[..n - 1] + [a[n - 1]] && b[..n] == b[..n - 1] + [b[n - 1]];
    }
  }

  // ---------------------------------------------------------------- the whole request

  /** The ports the request scans: the one asked for, or all that the cache knows. */
  ghost predicate Scanned(requested: string, onus: seq<Cached>, port: Port) {
    if TrimSpace(requested) != "" then port == SanitizePon(requested) else exists id :: Occupied(onus, port, id)
  }

  /** The queues of the scanned ports hold the numbers no cached ONU has. */
  ghost predicate FreeQueues(queues: Queues, requested: string, onus: seq<Cached>) {
    && OrderedQueues(queues)
    && forall port, id :: id in Queue(queues, port)
                          <==> Scanned(requested, onus, port) && 1 <= id <= MAX_ONU && !Occupied(onus, port, id)
  }

  method PortQueues(requested: string, onus: seq<Cached>) returns (queues: Queues)
    ensures FreeQueues(queues, requested, onus)
  {
    var occupancy := BuildOccupancy(onus);
    var ports := if TrimSpace(requested) != "" then {SanitizePon(requested)} else occupancy.Keys;
    queues := FillQueues(ports, occupancy);
    ReadyIsFree(requested, onus, occupancy, ports, queues);
  }

  lemma ReadyIsFree(requested: string, onus: seq<Cached>, occupancy: Occupancy, ports: set<Port>, queues: Queues)
    requires forall port, id :: id in Used(occupancy, port) <==> Occupied(onus, port, id)
    requires forall port :: port in occupancy ==> exists id :: Occupied(onus, port, id)
    requires ports == if TrimSpace(requested) != "" then {SanitizePon(requested)} else occupancy.Keys
    requires AllReady(queues, occupancy, ports)
    ensures FreeQueues(queues, requested, onus)
  {
    forall port
      ensures port in ports <==> Scanned(requested, onus, port)
    {
      if id :| Occupied(onus, port, id) {
        assert id in Used(occupancy, port);
      }
    }
    forall port
      ensures Ascending(Queue(queues, port))
      ensures forall id :: id in Queue(queues, port)
                           <==> Scanned(requested, onus, port) && 1 <= id <= MAX_ONU && !Occupied(onus, port, id)
    {
      assert Ready(queues, occupancy, ports, port);
    }
  }

  /** The queue holds what is free on the port. */
  ghost predicate FreeOn(queue: seq<int>, used: set<int>) {
    Ascending(queue) && forall id :: id in queue <==> 1 <= id <= MAX_ONU && id !in used
  }

  /** The port's queue is filled, if it is among those done. */
  ghost predicate Ready(queues: Queues, occupancy: Occupancy, done: set<Port>, port: Port) {
    if port in done then FreeOn(Queue(queues, port), Used(occupancy, port)) else Queue(queues, port) == []
  }

  ghost predicate AllReady(queues: Queues, occupancy: Occupancy, done: set<Port>) {
    forall port :: Ready(queues, occupancy, done, port)
  }

  method FillQueues(ports: set<Port>, occupancy: Occupancy) returns (queues: Queues)
    ensures AllReady(queues, occupancy, ports)
  {
    var done := {};
    queues := map[];
    while done != ports
      invariant done <= ports && AllReady(queues, occupancy, done)
      decreases |ports - done|
    {
      var port :| port in ports - done;
      var empty := FindEmpty(Used(occupancy, port), MAX_ONU);
      OneMoreReady(queues, occupancy, done, port, empty);
      queues := queues[port := empty];
      assert ports - (done + {port}) < ports - done;
      done := done + {port};
    }
  }

  lemma OneMoreReady(queues: Queues, occupancy: Occupancy, done: set<Port>, port: Port, empty: seq<int>)
    requires AllReady(queues, occupancy, done) && FreeOn(empty, Used(occupancy, port))
    ensures AllReady(queues[port := empty], occupancy, done + {port})
  {
    var (after, more) := (queues[port := empty], done + {port});
    PutQueue(queues, port, empty);
    forall p
      ensures Ready(after, occupancy, more, p)
    {
      assert Ready(queues, occupancy, done, p);
      if p != port {
        assert Queue(after, p) == Queue(queues, p);
      }
    }
  }

  datatype Request = BadPort | Suggestions(items: seq<Seen>, ids: seq<int>)

  /** What a caller relies on: every suggestion can be provisioned. */
  ghost predicate Provisionable(onus: seq<Cached>, items: seq<Seen>, ids: seq<int>)
    requires |items| == |ids|
  {
    && (forall k | 0 <= k < |ids| && ids[k] != 0 :: 1 <= ids[k] <= 128 && !Occupied(onus, items[k].port, ids[k]))
    && (forall j, k | 0 <= j < k < |ids| && ids[k] != 0 && items[j].port == items[k].port :: ids[j] != ids[k])
  }

  /** `ListUnconfiguredONUsBulk`, given what the scans of the ports reported. */
  method ListUnconfigured(requested: string, onus: seq<Cached>, reported: seq<Seen>) returns (r: Request)
    ensures r.BadPort? <==> TrimSpace(requested) != "" && SanitizePon(requested) == NO_PORT
    ensures r.Suggestions? ==>
            r.items == FirstReports(reported) && |r.ids| == |r.items| && Provisionable(onus, r.items, r.ids)
    ensures r.Suggestions? ==> forall k | 0 <= k < |r.ids| && r.ids[k] == 0 && Scanned(requested, onus, r.items[k].port)
                                 && r.items[k].port != NO_PORT ::
              forall id | 1 <= id <= 128 :: Occupied(onus, r.items[k].port, id)
                  || GivenEarlier(r.items, r.ids, k, id)
    ensures r.Suggestions? ==>
            exists queues :: FreeQueues(queues, requested, onus) && RightSuggestions(queues, r.items, r.ids)
  {
    if TrimSpace(requested) != "" && SanitizePon(requested) == NO_PORT {
      return BadPort;
    }
    var queues := PortQueues(requested, onus);
    var items := Dedupe(reported);
    var ids := Suggest(items, queues);
    AllProvisionable(requested, onus, queues, items, ids);
    return Suggestions(items, ids);
  }

  ghost predicate GivenEarlier(items: seq<Seen>, ids: seq<int>, k: nat, id: int)
    requires k < |items| == |ids|
  {
    exists j :: 0 <= j < k && items[j].port == items[k].port && ids[j] == id
  }

  lemma AllProvisionable(requested: string, onus: seq<Cached>, queues: Queues, items: seq<Seen>, ids: seq<int>)
    requires FreeQueues(queues, requested, onus) && |ids| == |items| && RightSuggestions(queues, items, ids)
    ensures Provisionable(onus, items, ids)
    ensures forall k | 0 <= k < |ids| && ids[k] == 0 && Scanned(requested, onus, items[k].port)
            && items[k].port != NO_PORT ::
              forall id | 1 <= id <= 128 :: Occupied(onus, items[k].port, id) || GivenEarlier(items, ids, k, id)
  {
    forall k | 0 <= k < |ids| && ids[k] != 0
      ensures ids[k] in Queue(queues, items[k].port)
    {
      assert RightSuggestion(queues, items, ids, k);
      LeftMeaning(queues, items, ids[..k], items[k].port, ids[k]);
    }
    forall j, k | 0 <= j < k < |ids| && ids[k] != 0 && items[j].port == items[k].port
      ensures ids[j] != ids[k]
    {
      SuggestionsAreApart(queues, items, ids, j, k);
    }
    forall k, id | 0 <= k < |ids| && ids[k] == 0 && Scanned(requested, onus, items[k].port) && items[k].port != NO_PORT
                   && 1 <= id <= 128
      ensures Occupied(onus, items[k].port, id) || GivenEarlier(items, ids, k, id)
    {
      UsedUp(queues, items, ids, k, id);
    }
  }

  lemma UsedUp(queues: Queues, items: seq<Seen>, ids: seq<int>, k: nat, id: int)
    requires OrderedQueues(queues) && |ids| == |items| && RightSuggestions(queues, items, ids)
    requires k < |ids| && ids[k] == 0 && items[k].port != NO_PORT
    ensures id in Queue(queues, items[k].port) ==> GivenEarlier(items, ids, k, id)
  {
    assert RightSuggestion(queues, items, ids, k);
    LeftMeaning(queues, items, ids[..k], items[k].port, 0);
    LeftMeaning(queues, items, ids[..k], items[k].port, id);
  }

  // ---------------------------------------------------------------- what the inputs mean

  /** `s[l..r]` is the text without the blanks at its ends. */
  predicate TrimmedTo(s: string, l: nat, r: nat) {
    && l <= r <= |s| && (forall i | 0 <= i < l :: s[i] in BLANKS) && (forall i | r <= i < |s| :: s[i] in BLANKS)
    && (l < r ==> s[l] !in BLANKS && s[r - 1] !in BLANKS)
  }

  lemma TrimSpaceMeaning(s: string) returns (l: nat, r: nat)
    ensures TrimmedTo(s, l, r) && TrimSpace(s) == s[l..r]
  {
    l, r := TrimSlice(s, BLANKS);
  }

  /** A numeral of one to three digits. */
  predicate ShortNumber(s: string) {
    1 <= |s| <= 3 && forall i | 0 <= i < |s| :: '0' <= s[i] <= '9'
  }

  predicate TwoNumbers(t: string, i: nat) {
    i < |t| && t[i] == '/' && ShortNumber(t[..i]) && ShortNumber(t[i + 1..])
  }

  predicate ThreeNumbers(t: string, i: nat, j: nat) {
    i < j < |t| && t[i] == '/' == t[j] && ShortNumber(t[..i]) && ShortNumber(t[i + 1..j]) && ShortNumber(t[j + 1..])
  }

  /** Two or three short numerals with slashes between them. */
  ghost predicate PonShape(t: string) {
    (exists i: nat :: TwoNumbers(t, i)) || exists i: nat, j: nat :: ThreeNumbers(t, i, j)
  }

  predicate GoodParts(parts: seq<string>) {
    2 <= |parts| <= 3 && forall i | 0 <= i < |parts| :: ShortNumber(parts[i])
  }

  lemma SanitizeIsParts(port: string)
    ensures SanitizePon(port) == if GoodParts(Split(TrimSpace(port), '/')) then Port(TrimSpace(port)) else NO_PORT
  {
  }

  lemma NumbersLackSlash(part: string)
    requires ShortNumber(part)
    ensures '/' !in part
  {
  }

  lemma TwoSplit(a: string, b: string)
    requires ShortNumber(a) && ShortNumber(b)
    ensures GoodParts(Split(a + (['/'] + b), '/'))
  {
    NumbersLackSlash(a);
    NumbersLackSlash(b);
    SplitTwo(a, b, '/');
  }

  lemma ThreeSplit(a: string, b: string, c: string)
    requires ShortNumber(a) && ShortNumber(b) && ShortNumber(c)
    ensures GoodParts(Split(a + (['/'] + (b + (['/'] + c))), '/'))
  {
    NumbersLackSlash(a);
    NumbersLackSlash(b);
    NumbersLackSlash(c);
    SplitFirst(a, b + (['/'] + c), '/');
    SplitTwo(b, c, '/');
    assert Split(a + (['/'] + (b + (['/'] + c))), '/') == [a, b, c];
  }

  lemma ShapeIsParts(t: string)
    requires PonShape(t)
    ensures GoodParts(Split(t, '/'))
  {
    if i: nat :| TwoNumbers(t, i) {
      TwoAreParts(t, i);
    } else {
      var i: nat, j: nat :| ThreeNumbers(t, i, j);
      ThreeAreParts(t, i, j);
    }
  }

  lemma TwoAreParts(t: string, i: nat)
    requires TwoNumbers(t, i)
    ensures GoodParts(Split(t, '/'))
  {
    TwoSplit(t[..i], t[i + 1..]);
    assert t == t[..i] + (['/'] + t[i + 1..]);
  }

  lemma ThreeAreParts(t: string, i: nat, j: nat)
    requires ThreeNumbers(t, i, j)
    ensures GoodParts(Split(t, '/'))
  {
    var (a, b, c) := (t[..i], t[i + 1..j], t[j + 1..]);
    ThreeSplit(a, b, c);
    assert t[i + 1..] == b + (['/'] + c);
    assert t == a + (['/'] + t[i + 1..]);
  }

  lemma PartsAreShape(t: string)
    requires GoodParts(Split(t, '/'))
    ensures PonShape(t)
  {
    var parts := Split(t, '/');
    JoinSplit(t, '/');
    if |parts| == 2 {
      assert t == parts[0] + ['/'] + parts[1];
      assert TwoNumbers(t, |parts[0]|);
    } else {
      var (i, j) := (|parts[0]|, |parts[0]| + 1 + |parts[1]|);
      JoinThree(parts[0], parts[1], parts[2]);
      assert parts == [parts[0], parts[1], parts[2]];
      assert t == parts[0] + "/" + parts[1] + "/" + parts[2];
      assert t[..i] == parts[0] && t[i + 1..j] == parts[1] && t[j + 1..] == parts[2];
      assert ThreeNumbers(t, i, j);
    }
  }

  /** A port is the text without blanks at its ends if that is two or three numerals of at most three digits between
      slashes, and nothing otherwise. */
  lemma SanitizeMeaning(port: string) returns (l: nat, r: nat)
    ensures TrimmedTo(port, l, r)
    ensures SanitizePon(port).name == if PonShape(port[l..r]) then port[l..r] else ""
  {
    l, r := TrimSpaceMeaning(port);
    SanitizeIsParts(port);
    if PonShape(port[l..r]) {
      ShapeIsParts(port[l..r]);
    }
    if GoodParts(Split(port[l..r], '/')) {
      PartsAreShape(port[l..r]);
    }
  }

  /** A report keeps its hint, and the capitals of its serial without the blanks around it. */
  lemma ReportMeaning(item: Seen) returns (l: nat, r: nat)
    ensures var kept := Normal(item);
            && TrimmedTo(item.serial, l, r) && SameButCase(kept.serial, item.serial[l..r])
            && (forall c :: c in kept.serial ==> !('a' <= c <= 'z'))
            && kept.hint == item.hint && kept.port == SanitizePon(item.port.name)
  {
    l, r := TrimSpaceMeaning(item.serial);
    Capitals(item.serial[l..r]);
  }

  lemma Capitals(s: string)
    ensures SameButCase(Upper(s), s) && forall c :: c in Upper(s) ==> !('a' <= c <= 'z')
  {
    forall i | 0 <= i < |s|
      ensures SameLetter(Upper(s)[i], s[i]) && !('a' <= Upper(s)[i] <= 'z')
    {
    }
  }

  /** What a text that names a port and a number stands for: numbers beyond 128 and malformed ports are nothing. */
  ghost predicate Stands(split: Option<(string, int)>, held: Option<(Port, int)>) {
    match split
    case None => held == None
    case Some((pon, id)) =>
      exists l: nat, r: nat :: TrimmedTo(pon, l, r)
                               && held == if PonShape(pon[l..r]) && 1 <= id <= 128 then Some((Port(pon[l..r]), id))
                                   else None
  }

  /** The label of an ONU decides what it holds, even if that is nothing; the index only counts when the label names
      no port and number. */
  lemma HoldsMeaning(onu: Cached)
    ensures SplitIndex(onu.number).Some? ==> Stands(SplitIndex(onu.number), Holds(onu))
    ensures SplitIndex(onu.number).None? ==> Stands(SplitIndex(onu.index), Holds(onu))
  {
    if SplitIndex(onu.number).Some? {
      HeldStands(onu, SplitIndex(onu.number));
    } else {
      HeldStands(onu, SplitIndex(onu.index));
    }
  }

  lemma HeldStands(onu: Cached, split: Option<(string, int)>)
    requires split == if SplitIndex(onu.number).Some? then SplitIndex(onu.number) else SplitIndex(onu.index)
    ensures Stands(split, Holds(onu))
  {
    if split.Some? {
      var (pon, id) := split.value;
      var l, r := SanitizeMeaning(pon);
      ShapeIsSomething(pon[l..r]);
      assert TrimmedTo(pon, l, r);
    }
  }

  lemma ShapeIsSomething(t: string)
    ensures PonShape(t) ==> t != ""
  {
  }

  /** Where the kept reports come from: in order, each with a serial and the first of its port and serial. */
  ghost predicate KeptFrom(items: seq<Seen>, kept: seq<Seen>, at: seq<nat>) {
    && |at| == |kept|
    && (forall i | 0 <= i < |at| :: KeptAt(items, kept[i], at[i]))
    && forall i, j | 0 <= i < j < |at| :: at[i] < at[j]
  }

  ghost predicate KeptAt(items: seq<Seen>, item: Seen, k: nat) {
    && k < |items| && item == Normal(items[k]) && item.serial != ""
    && forall j | 0 <= j < k :: !Same(Normal(items[j]), item)
  }

  ghost predicate NeverReported(items: seq<Seen>, item: Seen) {
    forall j | 0 <= j < |items| :: !Same(Normal(items[j]), item)
  }

  /** The kept reports are first reports, in the order they came. */
  lemma {:induction false} KeptReports(items: seq<Seen>) returns (at: seq<nat>)
    ensures KeptFrom(items, FirstReports(items), at)
    decreases |items|
  {
    at := [];
    if items != [] {
      var (init, last) := (items[..|items| - 1], items[|items| - 1]);
      at := KeptReports(init);
      KeptStays(items, FirstReports(init), at);
      if Normal(last).serial != "" && !Mentioned(FirstReports(init), Normal(last)) {
        NotReported(init, Normal(last));
        LastKept(items, Normal(last));
        KeptMore(items, FirstReports(init), at, Normal(last), |init|);
        at := at + [|init|];
      }
    }
  }

  lemma LastKept(items: seq<Seen>, item: Seen)
    requires items != [] && item == Normal(items[|items| - 1]) && item.serial != ""
    requires NeverReported(items[..|items| - 1], item)
    ensures KeptAt(items, item, |items| - 1)
  {
    assert forall j | 0 <= j < |items| - 1 :: items[..|items| - 1][j] == items[j];
  }

  lemma KeptStays(items: seq<Seen>, kept: seq<Seen>, at: seq<nat>)
    requires items != [] && KeptFrom(items[..|items| - 1], kept, at)
    ensures KeptFrom(items, kept, at) && forall i | 0 <= i < |at| :: at[i] < |items| - 1
  {
    var init := items[..|items| - 1];
    forall i | 0 <= i < |at|
      ensures KeptAt(items, kept[i], at[i]) && at[i] < |init|
    {
      assert KeptAt(init, kept[i], at[i]);
      assert forall j | 0 <= j < |init| :: init[j] == items[j];
    }
  }

  lemma KeptMore(items: seq<Seen>, kept: seq<Seen>, at: seq<nat>, item: Seen, k: nat)
    requires KeptFrom(items, kept, at) && KeptAt(items, item, k) && forall i | 0 <= i < |at| :: at[i] < k
    ensures KeptFrom(items, kept + [item], at + [k])
  {
  }

  lemma SameMentioned(items: seq<Seen>, a: Seen, b: Seen)
    requires Mentioned(items, a) && Same(a, b)
    ensures Mentioned(items, b)
  {
    var i :| 0 <= i < |items| && Same(items[i], a);
    assert Same(items[i], b);
  }

  /** A report that is not mentioned among the kept ones was not made before. */
  lemma NotReported(items: seq<Seen>, item: Seen)
    requires item.serial != "" && !Mentioned(FirstReports(items), item)
    ensures NeverReported(items, item)
  {
    forall j | 0 <= j < |items|
      ensures !Same(Normal(items[j]), item)
    {
      if Same(Normal(items[j]), item) {
        NoReportLost(items, j);
        SameMentioned(FirstReports(items), Normal(items[j]), item);
      }
    }
  }
}
