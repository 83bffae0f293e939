/** Service ports of an ONU: the command that sets one, and reading them back from the running configuration. */
module ServicePort {
  import opened Decimal
  import opened Money
  import opened Text

  // ---------------------------------------------------------------- text to words

  /** The words of a line: what `\s+` in the expressions and `strings.TrimSpace` leave. */
  function Words(line: string): (words: seq<string>)
    decreases |line|
  {
    if line == [] then []
    else if line[0] in BLANKS then Words(line[1..])
    else [line[..WordEnd(line, 0)]] + Words(line[WordEnd(line, 0)..])
  }

  function WordEnd(line: string, i: nat): (j: nat)
    requires i <= |line|
    ensures i <= j <= |line| && (forall k | i <= k < j :: line[k] !in BLANKS) && (j < |line| ==> line[j] in BLANKS)
    ensures i < |line| && line[i] !in BLANKS ==> i < j
    decreases |line| - i
  {
    if i < |line| && line[i] !in BLANKS then WordEnd(line, i + 1) else i
  }

  function Lines(raw: string): seq<seq<string>> {
    var lines := Split(raw, '\n');
    seq(|lines|, i requires 0 <= i < |lines| => Words(lines[i]))
  }

  // ---------------------------------------------------------------- the expressions, on words

  /** `\bkey` at the end of a word, in any case. */
  predicate EndsIn(word: string, key: string) {
    && |word| >= |key| && Lower(word[|word| - |key|..]) == key
    && (|word| == |key| || !WordChar(word[|word| - |key| - 1]))
  }

  function DigitsLength(word: string): (n: nat)
    ensures n <= |word| && AllDigits(word[..n]) && (n < |word| ==> !IsDigit(word[n]))
  {
    if word != [] && IsDigit(word[0]) then 1 + DigitsLength(word[1..]) else 0
  }

  /** `([0-9]+)\b` at the start of a word. */
  predicate NumberLike(word: string) {
    var n := DigitsLength(word);
    n > 0 && (n == |word| || !WordChar(word[n]))
  }

  /** `strconv.Atoi`, its error giving 0. */
  function Atoi(s: string): int {
    match ParseInt(s)
    case Some(n) => n
    case None => 0
  }

  function NumberOf(word: string): int {
    Atoi(word[..DigitsLength(word)])
  }

  datatype Field = VPort | UserVlan | UserSvlan | Vlan | Svlan | CTagCos | STagCos

  /** The word before the number of a field, `before` being the word before that. */
  predicate Announces(before: string, word: string, field: Field) {
    match field
    case VPort => EndsIn(word, "vport")
    case UserVlan => EndsIn(word, "user-vlan")
    case UserSvlan => EndsIn(word, "user-svlan")
    case Vlan => Lower(word) == "vlan"
    case Svlan => Lower(word) == "svlan"
    case CTagCos => EndsIn(word, "cos")
    case STagCos => EndsIn(word, "scos") || EndsIn(word, "s-cos") || (EndsIn(before, "s-tag") && Lower(word) == "cos")
  }

  /** `parseServicePortInt`: the first number announced, 0 if there is none or it is too large. */
  function Find(before: string, cfg: seq<string>, field: Field): int
    decreases |cfg|
  {
    if |cfg| < 2 then 0
    else if Announces(before, cfg[0], field) && NumberLike(cfg[1]) then NumberOf(cfg[1])
    else Find(cfg[0], cfg[1..], field)
  }

  /** ` cos 0` or ` scos 0` in the text: a class of service set back to 0. */
  predicate SetsZero(cfg: seq<string>, key: string) {
    exists i | 0 < i < |cfg| - 1 :: Lower(cfg[i]) == key && cfg[i + 1] != [] && cfg[i + 1][0] == '0'
  }

  predicate EtypeChar(c: char) {
    WordChar(c) || c == '-'
  }

  function EtypeLength(word: string): (n: nat)
    ensures n <= |word|
  {
    if word != [] && EtypeChar(word[0]) then 1 + EtypeLength(word[1..]) else 0
  }

  /** The longest beginning of at most `n` characters that ends at a word boundary. */
  function ToBoundary(word: string, n: nat): (k: nat)
    requires n <= |word|
    ensures k <= n
  {
    if n == 0 then 0
    else if WordChar(word[n - 1]) != (n < |word| && WordChar(word[n])) then n
    else ToBoundary(word, n - 1)
  }

  /** The value of the first `etype` or `user-etype`. */
  function FindEtype(cfg: seq<string>): (e: Option<string>)
    ensures e.Some? ==> e.value != []
  {
    if |cfg| < 2 then None
    else
      var k := ToBoundary(cfg[1], EtypeLength(cfg[1]));
      if EndsIn(cfg[0], "etype") && k > 0 then Some(cfg[1][..k]) else FindEtype(cfg[1..])
  }

  predicate Within(part: string, word: string) {
    |word| >= |part| && (Lower(word[..|part|]) == part || (word != [] && Within(part, word[1..])))
  }

  predicate Mentions(cfg: seq<string>, part: string) {
    exists i | 0 <= i < |cfg| :: Within(part, cfg[i])
  }

  const ALL_ETHER := "All Ether Type"

  function EtherLabel(etype: string): string {
    var low := Lower(etype);
    if low in {"all", "all_ether_type", "all-ether-type"} then ALL_ETHER
    else if low == "pppoe" then "PPPoE"
    else if low == "ipoe" then "IPoE"
    else Upper(etype)
  }

  // ---------------------------------------------------------------- the parser

  /** One service port as read; 0 where nothing was said. */
  datatype Entry = Entry(id: int, vport: int, userVlan: int, userSvlan: int, vlan: int, svlan: int, cTagCos: int,
                         sTagCos: int,
                         etherType: string)

  /** What a line says about a field, if anything: a positive number, or a class of service set to 0. */
  function Says(cfg: seq<string>, field: Field): Option<int> {
    var n := Find("", cfg, field);
    if n > 0 || (field == CTagCos && SetsZero(cfg, "cos")) || (field == STagCos && SetsZero(cfg, "scos")) then Some(n)
        else None
  }

  function Later(now: int, said: Option<int>): int {
    if said.Some? then said.value else now
  }

  /** What a line says about the ether type: an explicit value first, else a protocol named anywhere in it. */
  function SaysEther(cfg: seq<string>): Option<string> {
    match FindEtype(cfg)
    case Some(e) => Some(EtherLabel(e))
    case None =>
      if Mentions(cfg, "pppoe") then Some("PPPoE")
      else if Mentions(cfg, "ipoe") then Some("IPoE")
      else None
  }

  /** A further line about a port. */
  function Merge(e: Entry, cfg: seq<string>): Entry {
    Entry(e.id, Later(e.vport, Says(cfg, VPort)), Later(e.userVlan, Says(cfg, UserVlan)),
          Later(e.userSvlan, Says(cfg, UserSvlan)), Later(e.vlan, Says(cfg, Vlan)), Later(e.svlan, Says(cfg, Svlan)),
          Later(e.cTagCos, Says(cfg, CTagCos)), Later(e.sTagCos, Says(cfg, STagCos)),
          if SaysEther(cfg).Some? then SaysEther(cfg).value else if e.etherType == "" then ALL_ETHER else e.etherType)
  }

  function New(id: int): Entry {
    Entry(id, 0, 0, 0, 0, 0, 0, 0, "")
  }

  /** A WAN line, which is taken before service ports are looked for. */
  predicate IsWanLine(line: seq<string>) {
    exists i | 0 <= i < |line| - 2 :: EndsIn(line[i], "wan-ip") && line[i + 1] != [] && AllDigits(line[i + 1])
  }

  /** `strconv.Atoi` of digits without its error: a number too large gives the largest one. */
  function Clipped(digits: string): int {
    match ParseInt(digits)
    case Some(n) => n
    case None => MAX_INT64
  }

  /** The port a line is about and what it says. */
  function ServicePortLine(line: seq<string>): Option<(int, seq<string>)> {
    if |line| < 3 || Lower(line[0]) != "service-port" || line[1] == [] || !AllDigits(line[1]) || IsWanLine(line)
        then None
    else
      var id := Clipped(line[1]);
      if id < 1 then None else Some((id, line[2..]))
  }

  function IndexOf(ports: seq<Entry>, id: int): (i: nat)
    ensures i <= |ports| && (i < |ports| ==> ports[i].id == id) && forall j | 0 <= j < i :: ports[j].id != id
  {
    if ports == [] || ports[0].id == id then 0 else 1 + IndexOf(ports[1..], id)
  }

  /** The entry of a port, a new one if it has none. */
  function Current(ports: seq<Entry>, id: int): (e: Entry)
    ensures e.id == id
  {
    var i := IndexOf(ports, id);
    if i < |ports| then ports[i] else New(id)
  }

  function Put(ports: seq<Entry>, e: Entry): seq<Entry> {
    var i := IndexOf(ports, e.id);
    if i < |ports| then ports[i := e] else ports + [e]
  }

  function Take(ports: seq<Entry>, line: seq<string>): seq<Entry> {
    match ServicePortLine(line)
    case None => ports
    case Some((id, cfg)) => Put(ports, Merge(Current(ports, id), cfg))
  }

  /** The service ports of a configuration, each where it was first seen. */
  function Parse(lines: seq<seq<string>>): seq<Entry> {
    if lines == [] then [] else Take(Parse(lines[..|lines| - 1]), lines[|lines| - 1])
  }

  /** The service-port part of `parseRunningConfigCLI`: a map of the ports and the order they came in. */
  method ParseRunningConfig(raw: string) returns (ports: seq<Entry>)
    ensures ports == Parse(Lines(raw))
  {
    var lines := Lines(raw);
    var byId: map<int, Entry> := map[];
    var order: seq<int> := [];
    ghost var taken: seq<Entry> := [];
    for k := 0 to |lines|
      invariant Represents(byId, order, taken) && taken == Parse(lines[..k])
    {
      assert lines[..k + 1][..k] == lines[..k];
      byId, order := TakeLine(byId, order, lines[k], taken);
      taken := Take(taken, lines[k]);
    }
    assert lines[..|lines|] == lines;
    ports := InOrder(byId, order, taken);
  }

  method TakeLine(byId: map<int, Entry>, order: seq<int>, line: seq<string>, ghost ports: seq<Entry>)
    returns (byId': map<int, Entry>, order': seq<int>)
    requires Represents(byId, order, ports)
    ensures Represents(byId', order', Take(ports, line))
  {
    byId', order' := byId, order;
    var found := ServicePortLine(line);
    if found.Some? {
      var (id, cfg) := found.value;
      byId', order' := EnsureServicePort(byId, order, id, ports);
      byId' := SetEntry(byId', order', Merge(byId'[id], cfg), ports);
    }
  }

  /** `ensureServicePort`: the entry of a port, a blank one at the end if it has none. */
  method EnsureServicePort(byId: map<int, Entry>, order: seq<int>, id: int, ghost ports: seq<Entry>)
    returns (byId': map<int, Entry>, order': seq<int>)
    requires Represents(byId, order, ports)
    ensures Represents(byId', order', Put(ports, Current(ports, id))) && id in byId' && byId'[id] == Current(ports, id)
  {
    CurrentRepresented(byId, order, ports, id);
    PutRepresented(byId, order, ports, Current(ports, id));
    byId', order' := byId, order;
    if id in byId {
      assert byId[id := byId[id]] == byId;
    } else {
      byId', order' := byId[id := New(id)], order + [id];
    }
  }

  method SetEntry(byId: map<int, Entry>, order: seq<int>, e: Entry, ghost ports: seq<Entry>)
      returns (byId': map<int, Entry>)
    requires Represents(byId, order, Put(ports, Current(ports, e.id))) && e.id in byId
    ensures Represents(byId', order, Put(ports, e))
  {
    PutRepresented(byId, order, Put(ports, Current(ports, e.id)), e);
    PutTwice(ports, Current(ports, e.id), e);
    byId' := byId[e.id := e];
  }

  lemma PutTwice(ports: seq<Entry>, first: Entry, second: Entry)
    requires first.id == second.id
    ensures Put(Put(ports, first), second) == Put(ports, second)
  {
    IndexAfterPut(ports, first);
  }

  lemma {:induction false} IndexAfterPut(ports: seq<Entry>, e: Entry)
    ensures IndexOf(Put(ports, e), e.id) == IndexOf(ports, e.id)
  {
    var i := IndexOf(Put(ports, e), e.id);
    assert Put(ports, e)[IndexOf(ports, e.id)].id == e.id;
    assert i <= IndexOf(ports, e.id);
  }

  method InOrder(byId: map<int, Entry>, order: seq<int>, ghost ports: seq<Entry>) returns (result: seq<Entry>)
    requires Represents(byId, order, ports)
    ensures result == ports
  {
    result := [];
    for k := 0 to |order|
      invariant result == ports[..k]
    {
      result := result + [byId[order[k]]];
    }
  }

  ghost predicate Represents(byId: map<int, Entry>, order: seq<int>, ports: seq<Entry>) {
    && |order| == |ports|
    && (forall i | 0 <= i < |order| :: order[i] in byId && byId[order[i]] == ports[i] && ports[i].id == order[i])
    && (forall i, j | 0 <= i < j < |order| :: order[i] != order[j])
    && (forall id :: id in byId ==> id in order)
  }

  lemma CurrentRepresented(byId: map<int, Entry>, order: seq<int>, ports: seq<Entry>, id: int)
    requires Represents(byId, order, ports)
    ensures id in byId <==> IndexOf(ports, id) < |ports|
    ensures Current(ports, id) == if id in byId then byId[id] else New(id)
  {
    if id in byId {
      var j :| 0 <= j < |order| && order[j] == id;
      assert ports[j].id == id;
    }
  }

  lemma PutRepresented(byId: map<int, Entry>, order: seq<int>, ports: seq<Entry>, e: Entry)
    requires Represents(byId, order, ports)
    ensures Represents(byId[e.id := e], if e.id in byId then order else order + [e.id], Put(ports, e))
  {
    CurrentRepresented(byId, order, ports, e.id);
  }

  // ---------------------------------------------------------------- repeated lines

  function ValueOf(e: Entry, field: Field): int {
    match field
    case VPort => e.vport
    case UserVlan => e.userVlan
    case UserSvlan => e.userSvlan
    case Vlan => e.vlan
    case Svlan => e.svlan
    case CTagCos => e.cTagCos
    case STagCos => e.sTagCos
  }

  predicate About(line: seq<string>, id: int) {
    ServicePortLine(line).Some? && ServicePortLine(line).value.0 == id
  }

  /** What the last line of the port that says anything about the field says. */
  function LastSaid(lines: seq<seq<string>>, id: int, field: Field): int {
    if lines == [] then 0
    else
      var (before, line) := (LastSaid(lines[..|lines| - 1], id, field), lines[|lines| - 1]);
      if About(line, id) then Later(before, Says(ServicePortLine(line).value.1, field)) else before
  }

  function LastEther(lines: seq<seq<string>>, id: int): string {
    if lines == [] then ALL_ETHER
    else
      var (before, line) := (LastEther(lines[..|lines| - 1], id), lines[|lines| - 1]);
      if About(line, id) && SaysEther(ServicePortLine(line).value.1).Some?
          then SaysEther(ServicePortLine(line).value.1).value
      else before
  }

  /** The ids of the service-port lines. */
  function Ids(lines: seq<seq<string>>): seq<int> {
    if lines == [] then []
    else
      var before := Ids(lines[..|lines| - 1]);
      match ServicePortLine(lines[|lines| - 1])
      case None => before
      case Some((id, _)) => before + [id]
  }

  /** A list without its repetitions, each element where it came first. */
  function FirstSeen(ids: seq<int>): seq<int> {
    if ids == [] then []
    else
      var before := FirstSeen(ids[..|ids| - 1]);
      if ids[|ids| - 1] in before then before else before + [ids[|ids| - 1]]
  }

  function IdsOf(ports: seq<Entry>): seq<int> {
    seq(|ports|, i requires 0 <= i < |ports| => ports[i].id)
  }

  lemma IndexOfIds(ports: seq<Entry>, id: int)
    ensures IndexOf(ports, id) < |ports| <==> id in IdsOf(ports)
  {
    if id in IdsOf(ports) {
      var j :| 0 <= j < |ports| && IdsOf(ports)[j] == id;
      assert ports[j].id == id;
    } else {
      assert forall j | 0 <= j < |ports| :: IdsOf(ports)[j] == ports[j].id;
    }
  }

  /** The ports come out once each, in the order their first lines came. */
  lemma {:induction false} PortsAreFirstSeen(lines: seq<seq<string>>)
    ensures IdsOf(Parse(lines)) == FirstSeen(Ids(lines))
  {
    if lines == [] {
    } else {
      var (init, line) := (lines[..|lines| - 1], lines[|lines| - 1]);
      PortsAreFirstSeen(init);
      TakeIds(Parse(init), line);
      if ServicePortLine(line).Some? {
        assert Ids(lines)[..|Ids(init)|] == Ids(init);
      }
    }
  }

  lemma TakeIds(ports: seq<Entry>, line: seq<string>)
    ensures IdsOf(Take(ports, line))
            == match ServicePortLine(line)
               case None => IdsOf(ports)
               case Some((id, _)) => if id in IdsOf(ports) then IdsOf(ports) else IdsOf(ports) + [id]
  {
    if ServicePortLine(line).Some? {
      IndexOfIds(ports, ServicePortLine(line).value.0);
    }
  }

  /** Field by field, a port is what the last line saying something about the field said. */
  lemma {:induction false} LastWordCounts(lines: seq<seq<string>>, i: nat, field: Field)
    requires i < |Parse(lines)|
    ensures var e := Parse(lines)[i];
            ValueOf(e, field) == LastSaid(lines, e.id, field) && e.etherType == LastEther(lines, e.id)
  {
    var (init, line) := (lines[..|lines| - 1], lines[|lines| - 1]);
    var before := Parse(init);
    if i < |before| {
      LastWordCounts(init, i, field);
      EtherIsKnown(init, i);
    }
    if ServicePortLine(line).Some? {
      var (id, cfg) := ServicePortLine(line).value;
      ParsedOnce(init);
      IndexOfIds(before, id);
      if id in IdsOf(before) {
        assert i == IndexOf(before, id) <==> before[i].id == id;
      } else {
        UnsaidSoFar(init, id, field);
      }
    }
  }

  lemma ParsedOnce(lines: seq<seq<string>>)
    ensures forall i, j | 0 <= i < j < |Parse(lines)| :: Parse(lines)[i].id != Parse(lines)[j].id
  {
    PortsAreFirstSeen(lines);
    FirstSeenOnce(Ids(lines));
    assert forall i | 0 <= i < |Parse(lines)| :: Parse(lines)[i].id == IdsOf(Parse(lines))[i];
  }

  lemma {:induction false} FirstSeenOnce(ids: seq<int>)
    ensures forall i, j | 0 <= i < j < |FirstSeen(ids)| :: FirstSeen(ids)[i] != FirstSeen(ids)[j]
    ensures forall id :: id in FirstSeen(ids) <==> id in ids
  {
    if ids == [] {
    } else {
      FirstSeenOnce(ids[..|ids| - 1]);
    }
  }

  lemma {:induction false} EtherIsKnown(lines: seq<seq<string>>, i: nat)
    requires i < |Parse(lines)|
    ensures Parse(lines)[i].etherType != ""
  {
    if i < |Parse(lines[..|lines| - 1])| {
      EtherIsKnown(lines[..|lines| - 1], i);
    }
    EtherSaid(lines[|lines| - 1]);
  }

  lemma EtherSaid(line: seq<string>)
    ensures ServicePortLine(line).Some? && SaysEther(ServicePortLine(line).value.1).Some?
            ==> SaysEther(ServicePortLine(line).value.1).value != ""
  {
  }

  lemma {:induction false} UnsaidSoFar(lines: seq<seq<string>>, id: int, field: Field)
    requires id !in IdsOf(Parse(lines))
    ensures LastSaid(lines, id, field) == 0 && LastEther(lines, id) == ALL_ETHER
  {
    PortsAreFirstSeen(lines);
    FirstSeenOnce(Ids(lines));
    NeverSaid(lines, id, field);
  }

  lemma {:induction false} NeverSaid(lines: seq<seq<string>>, id: int, field: Field)
    requires id !in Ids(lines)
    ensures LastSaid(lines, id, field) == 0 && LastEther(lines, id) == ALL_ETHER
  {
    if lines == [] {
    } else {
      NeverSaid(lines[..|lines| - 1], id, field);
    }
  }
}
