/** Joining SNMP tables that are keyed in different index spaces: first the exact key, then the place it means. */
module ZteJoin {
  import opened Money
  import opened ZteIndex

  type Table = map<string, string>

  function Get(table: Table, key: string): string {
    if key in table then table[key] else ""
  }

  // ---------------------------------------------------------------- the lookup by place

  predicate Filled(table: Table, k: string) {
    k in table && table[k] != "" && KeyLoc(k).Some?
  }

  function LocOf(k: string): string
    requires KeyLoc(k).Some?
  {
    LocKey(KeyLoc(k).value)
  }

  /** `out` may be what `buildLocMap` makes of `source`: every filled entry has its place, and every place holds
      the value of an entry that belongs there. */
  ghost predicate LocMapOf(source: Table, out: Table) {
    && (forall k :: Filled(source, k) ==> LocOf(k) in out)
    && (forall l :: l in out ==> HasSource(source, l, out[l]))
  }

  ghost predicate HasSource(source: Table, l: string, v: string) {
    exists k :: Filled(source, k) && LocOf(k) == l && source[k] == v
  }

  /** `buildLocMap`: the entries in whatever order the runtime yields them. */
  method BuildLocMap(source: Table) returns (out: Table)
    ensures LocMapOf(source, out)
  {
    out := map[];
    var todo := source.Keys;
    while todo != {}
      invariant todo <= source.Keys
      invariant forall k :: Filled(source, k) && k !in todo ==> LocOf(k) in out
      invariant forall l :: l in out ==> HasSource(source, l, out[l])
      decreases |todo|
    {
      var k :| k in todo;
      todo := todo - {k};
      if source[k] == "" {
        continue;
      }
      var at := KeyLoc(k);
      if at.Some? {
        out := out[LocKey(at.value) := source[k]];
        assert Filled(source, k) && LocOf(k) == LocKey(at.value);
      }
    }
  }

  /** `pick`: the exact key, else the place. */
  function Pick(index: string, exact: Table, loc: Table): string {
    if Get(exact, index) != "" then exact[index]
    else if KeyLoc(index).Some? then Get(loc, LocOf(index))
    else ""
  }

  /** The table stores `v` for the place. */
  ghost predicate Stored(table: Table, at: Location, v: string) {
    exists k :: Filled(table, k) && KeyLoc(k) == Some(at) && table[k] == v
  }

  /** No place has two different values. */
  ghost predicate Unambiguous(table: Table) {
    forall j, k :: Filled(table, j) && Filled(table, k) && KeyLoc(j) == KeyLoc(k) ==> table[j] == table[k]
  }

  lemma SamePlace(j: string, k: string)
    requires KeyLoc(j).Some? && KeyLoc(k).Some?
    ensures LocOf(j) == LocOf(k) <==> KeyLoc(j) == KeyLoc(k)
  {
    if LocOf(j) == LocOf(k) {
      LocKeyInjective(KeyLoc(j).value, KeyLoc(k).value);
    }
  }

  /** What the value joined to an index has to be: one stored for its place, the exact entry's if there is one,
      and nothing only if nothing is stored; an index that means no place gets its exact entry alone. */
  ghost predicate Belongs(index: string, table: Table, v: string) {
    && (Get(table, index) != "" ==> v == table[index])
    && (KeyLoc(index).None? ==> v == Get(table, index))
    && (KeyLoc(index).Some? && v != "" ==> Stored(table, KeyLoc(index).value, v))
    && (KeyLoc(index).Some? && v == "" ==> forall w :: !Stored(table, KeyLoc(index).value, w))
  }

  lemma PickIsRight(index: string, table: Table, loc: Table)
    requires LocMapOf(table, loc)
    ensures Belongs(index, table, Pick(index, table, loc))
  {
    if KeyLoc(index).Some? {
      if Pick(index, table, loc) != "" {
        FoundIsStored(index, table, loc);
      }
      forall w | Stored(table, KeyLoc(index).value, w)
        ensures Pick(index, table, loc) != ""
      {
        StoredIsFound(index, table, loc, w);
      }
    }
  }

  /** In an unambiguous table that leaves one value. */
  lemma OneValueBelongs(index: string, table: Table, a: string, b: string)
    requires Unambiguous(table) && Belongs(index, table, a) && Belongs(index, table, b)
    ensures a == b
  {
    if KeyLoc(index).Some? && a != "" && b != "" {
      var j :| Filled(table, j) && KeyLoc(j) == KeyLoc(index) && table[j] == a;
      var k :| Filled(table, k) && KeyLoc(k) == KeyLoc(index) && table[k] == b;
    }
  }

  lemma FoundIsStored(index: string, table: Table, loc: Table)
    requires LocMapOf(table, loc) && KeyLoc(index).Some? && Pick(index, table, loc) != ""
    ensures Stored(table, KeyLoc(index).value, Pick(index, table, loc))
  {
    if Get(table, index) != "" {
      assert Filled(table, index);
    } else {
      var k :| Filled(table, k) && LocOf(k) == LocOf(index) && table[k] == loc[LocOf(index)];
      SamePlace(k, index);
    }
  }

  lemma StoredIsFound(index: string, table: Table, loc: Table, v: string)
    requires LocMapOf(table, loc) && KeyLoc(index).Some? && Stored(table, KeyLoc(index).value, v)
    ensures Pick(index, table, loc) != ""
    ensures Unambiguous(table) ==> Pick(index, table, loc) == v
  {
    var k :| Filled(table, k) && KeyLoc(k) == KeyLoc(index) && table[k] == v;
    if Get(table, index) != "" {
      assert Filled(table, index);
    } else {
      assert LocOf(k) in loc;
      var j :| Filled(table, j) && LocOf(j) == LocOf(k) && table[j] == loc[LocOf(k)];
      SamePlace(j, k);
    }
  }

  /** The order of a map's iteration can be told from the result exactly when some place has two values. */
  lemma OrderIsInvisible(source: Table)
    ensures Unambiguous(source) <==> forall a, b :: LocMapOf(source, a) && LocMapOf(source, b) ==> a == b
  {
    if Unambiguous(source) {
      forall a, b | LocMapOf(source, a) && LocMapOf(source, b)
        ensures a == b
      {
        SameKeys(source, a, b);
        SameKeys(source, b, a);
      }
    } else {
      var j, k :| Filled(source, j) && Filled(source, k) && KeyLoc(j) == KeyLoc(k) && source[j] != source[k];
      var a, b := ConflictShows(source, j, k);
    }
  }

  lemma ConflictShows(source: Table, j: string, k: string) returns (a: Table, b: Table)
    requires Filled(source, j) && Filled(source, k) && KeyLoc(j) == KeyLoc(k) && source[j] != source[k]
    ensures LocMapOf(source, a) && LocMapOf(source, b) && a != b
  {
    var base := AnyLocMap(source, source.Keys);
    a := Replace(source, base, j);
    b := Replace(source, base, k);
    assert a[LocOf(j)] != b[LocOf(j)];
  }

  lemma Replace(source: Table, base: Table, k: string) returns (out: Table)
    requires LocMapOf(source, base) && Filled(source, k)
    ensures LocMapOf(source, out) && LocOf(k) in out && out[LocOf(k)] == source[k]
  {
    out := base[LocOf(k) := source[k]];
    assert HasSource(source, LocOf(k), source[k]);
  }

  lemma SameKeys(source: Table, a: Table, b: Table)
    requires Unambiguous(source) && LocMapOf(source, a) && LocMapOf(source, b)
    ensures forall l :: l in a ==> l in b && a[l] == b[l]
  {
    forall l | l in a
      ensures l in b && a[l] == b[l]
    {
      var k :| Filled(source, k) && LocOf(k) == l && source[k] == a[l];
      assert HasSource(source, l, b[l]);
      var j :| Filled(source, j) && LocOf(j) == l && source[j] == b[l];
      SamePlace(j, k);
    }
  }

  lemma {:induction false} AnyLocMap(source: Table, keys: set<string>) returns (out: Table)
    ensures forall k :: k in keys && Filled(source, k) ==> LocOf(k) in out
    ensures forall l :: l in out ==> HasSource(source, l, out[l])
    decreases |keys|
  {
    out := map[];
    if keys != {} {
      var k :| k in keys;
      out := AnyLocMap(source, keys - {k});
      if Filled(source, k) {
        out := out[LocOf(k) := source[k]];
      }
    }
  }

  // ---------------------------------------------------------------- which tables are unambiguous

  datatype Space = OnuIdSpace | TypeSpace

  /** The key an OLT gives the entry of a place in a table of either space. */
  function KeyIn(space: Space, at: Location): string
    requires Addressable(at)
  {
    var port := GenerateBoardPon(at.slot, at.port).value;
    Key(if space.OnuIdSpace? then port.onuIdSuffix else port.onuTypeSuffix, at.id)
  }

  predicate Addressable(at: Location) {
    Physical(at.slot, at.port) && 0 <= at.id <= Decimal.MAX_INT64
  }

  lemma KeyInDecodes(space: Space, at: Location)
    requires Addressable(at)
    ensures KeyLoc(KeyIn(space, at)) == Some(at)
  {
    BothSuffixesDecode(at.slot, at.port, at.id);
  }

  /** The table prints `truth`, the values of some places, in one of the spaces. */
  ghost predicate Tabulates(table: Table, space: Space, truth: map<Location, string>) {
    && (forall at :: at in truth ==> Addressable(at) && Get(table, KeyIn(space, at)) == truth[at])
    && (forall k :: k in table ==> Prints(k, space, truth))
  }

  ghost predicate Prints(k: string, space: Space, truth: map<Location, string>) {
    exists at :: at in truth && Addressable(at) && k == KeyIn(space, at)
  }

  /** The table holds the values of some places, whatever spaces and shelves its keys are of: every key is that of a
      place with its value, and every place that has a value has a key. */
  ghost predicate Charts(table: Table, truth: map<Location, string>) {
    && (forall k :: k in table ==> KeyLoc(k).Some? && KeyLoc(k).value in truth && table[k] == truth[KeyLoc(k).value])
    && (forall at :: at in truth && truth[at] != "" ==> HasKey(table, at))
  }

  ghost predicate HasKey(table: Table, at: Location) {
    exists k :: k in table && KeyLoc(k) == Some(at)
  }

  /** Whatever key the list has for a place and whatever the order of iteration, an ONU gets the value of its own slot,
      port and number, and nothing when the table has none. */
  lemma JoinFollowsPlaces(table: Table, loc: Table, truth: map<Location, string>, index: string)
    requires Charts(table, truth) && LocMapOf(table, loc) && KeyLoc(index).Some?
    ensures Pick(index, table, loc) == if KeyLoc(index).value in truth then truth[KeyLoc(index).value] else ""
    ensures Unambiguous(table)
  {
    var at := KeyLoc(index).value;
    if Pick(index, table, loc) != "" {
      FoundIsStored(index, table, loc);
    } else if at in truth && truth[at] != "" {
      assert HasKey(table, at);
      var k :| k in table && KeyLoc(k) == Some(at);
      assert Filled(table, k);
      StoredIsFound(index, table, loc, truth[at]);
    }
  }

  lemma TabulatesCharts(table: Table, space: Space, truth: map<Location, string>)
    requires Tabulates(table, space, truth)
    ensures Charts(table, truth)
  {
    forall k | k in table
      ensures KeyLoc(k).Some? && KeyLoc(k).value in truth && table[k] == truth[KeyLoc(k).value]
    {
      assert Prints(k, space, truth);
      var at :| at in truth && Addressable(at) && k == KeyIn(space, at);
      KeyInDecodes(space, at);
    }
    forall at | at in truth && truth[at] != ""
      ensures HasKey(table, at)
    {
      KeyInDecodes(space, at);
    }
  }

  /** In particular the list and the table may each be keyed in either space. */
  lemma JoinCrossesSpaces(table: Table, loc: Table, space: Space, truth: map<Location, string>, listed: Space,
                          at: Location)
    requires Tabulates(table, space, truth) && LocMapOf(table, loc) && Addressable(at)
    ensures Pick(KeyIn(listed, at), table, loc) == if at in truth then truth[at] else ""
    ensures Unambiguous(table)
  {
    TabulatesCharts(table, space, truth);
    KeyInDecodes(listed, at);
    JoinFollowsPlaces(table, loc, truth, KeyIn(listed, at));
  }

  /** A key as an OLT prints it: a packed index and a number. */
  ghost predicate Printed(k: string, v: nat, id: nat) {
    k == Key(v, id) && 0xFFFF < v <= Decimal.MAX_INT64 && id <= Decimal.MAX_INT64
  }

  ghost predicate InOneSpace(j: string, k: string) {
    exists v: nat, w: nat, a: nat, b: nat :: Printed(j, v, a) && Printed(k, w, b) && SameSpace(v, w)
  }

  /** Every key is printed, and all in one index space on one shelf. */
  ghost predicate OneSpace(table: Table) {
    forall j, k :: j in table && k in table ==> InOneSpace(j, k)
  }

  /** No table of one space and shelf gives a place two values, whatever its entries, boards and ports. */
  lemma OneSpaceIsUnambiguous(table: Table)
    requires OneSpace(table)
    ensures Unambiguous(table)
  {
    forall j, k | Filled(table, j) && Filled(table, k) && KeyLoc(j) == KeyLoc(k)
      ensures j == k
    {
      assert InOneSpace(j, k);
      var v: nat, w: nat, a: nat, b: nat :| Printed(j, v, a) && Printed(k, w, b) && SameSpace(v, w);
      KeyLocInjective(v, w, a, b);
    }
  }

  /** A table with both keys of one ONU of port 1/1 and two values for it: which one its place gets depends on the
      order. */
  lemma TwoKeysOfOnePlace() returns (table: Table, a: Table, b: Table)
    ensures table == map[KeyIn(OnuIdSpace, Location(1, 1, 1)) := "-18.5",
                         KeyIn(TypeSpace, Location(1, 1, 1)) := "-19.0"]
    ensures LocMapOf(table, a) && LocMapOf(table, b)
    ensures Get(a, LocKey(Location(1, 1, 1))) == "-18.5" && Get(b, LocKey(Location(1, 1, 1))) == "-19.0"
  {
    var at := Location(1, 1, 1);
    var (j, k) := (KeyIn(OnuIdSpace, at), KeyIn(TypeSpace, at));
    KeyInDecodes(OnuIdSpace, at);
    KeyInDecodes(TypeSpace, at);
    KeysApart(at);
    table := map[j := "-18.5", k := "-19.0"];
    var base := AnyLocMap(table, table.Keys);
    a := Replace(table, base, j);
    b := Replace(table, base, k);
  }

  lemma KeysApart(at: Location)
    requires Addressable(at)
    ensures KeyIn(OnuIdSpace, at) != KeyIn(TypeSpace, at)
  {
    var (v, w) := (GenerateBoardPon(at.slot, at.port).value.onuIdSuffix,
                   GenerateBoardPon(at.slot, at.port).value.onuTypeSuffix);
    SuffixesApart(at.slot, at.port, at.slot, at.port);
    SplitKey(v, at.id);
    SplitKey(w, at.id);
    if Key(v, at.id) == Key(w, at.id) {
      Decimal.PrintInjective(v, w);
    }
  }

  // ---------------------------------------------------------------- sorted keys

  /** Go's order on strings. */
  predicate Less(a: string, b: string) {
    if b == [] then false
    else if a == [] then true
    else if a[0] != b[0] then a[0] < b[0]
    else Less(a[1..], b[1..])
  }

  lemma {:induction false} LessIsTotal(a: string, b: string)
    ensures !(Less(a, b) && Less(b, a))
    ensures !Less(a, b) && !Less(b, a) ==> a == b
    ensures a == b ==> !Less(a, b)
  {
    if a != [] && b != [] {
      LessIsTotal(a[1..], b[1..]);
      assert a == [a[0]] + a[1..] && b == [b[0]] + b[1..];
    }
  }

  lemma {:induction false} LessIsTransitive(a: string, b: string, c: string)
    requires Less(a, b) && Less(b, c)
    ensures Less(a, c)
  {
    if a != [] && a[0] == b[0] == c[0] {
      LessIsTransitive(a[1..], b[1..], c[1..]);
    }
  }

  predicate AtMost(a: string, b: string) {
    !Less(b, a)
  }

  lemma AtMostIsTransitive(a: string, b: string, c: string)
    requires AtMost(a, b) && AtMost(b, c)
    ensures AtMost(a, c)
  {
    LessIsTotal(a, b);
    LessIsTotal(b, c);
    LessIsTotal(a, c);
    if Less(a, b) && Less(b, c) {
      LessIsTransitive(a, b, c);
    }
  }

  predicate Ascending(s: seq<string>) {
    forall p, q | 0 <= p < q < |s| :: AtMost(s[p], s[q])
  }

  /** `sortStrings`: insertion by swapping neighbours, in place. */
  method SortStrings(list: array<string>)
    modifies list
    ensures Ascending(list[..])
    ensures multiset(list[..]) == multiset(old(list[..]))
  {
    var i := 1;
    while i < list.Length
      invariant 1 <= i && (i <= list.Length ==> Ascending(list[..i]))
      invariant i > list.Length ==> list.Length == 0
      invariant multiset(list[..]) == multiset(old(list[..]))
    {
      var j := i;
      while j > 0 && Less(list[j], list[j - 1])
        invariant 0 <= j <= i && InOrderBut(list[..i + 1], j)
        invariant multiset(list[..]) == multiset(old(list[..]))
      {
        ghost var was := list[..];
        SwapKeepsOrder(list[..i + 1], j);
        SwapKeepsAll(was, j);
        list[j], list[j - 1] := list[j - 1], list[j];
        assert list[..] == Swapped(was, j) && list[..i + 1] == Swapped(was[..i + 1], j);
        j := j - 1;
      }
      InsertionEnds(list[..i + 1], j);
      i := i + 1;
    }
    assert list.Length > 0 ==> list[..i] == list[..];
  }

  /** Ascending but for the string at `j`, which may be too far up. */
  predicate InOrderBut(s: seq<string>, j: nat) {
    forall p, q | 0 <= p < q < |s| && q != j :: AtMost(s[p], s[q])
  }

  function Swapped(s: seq<string>, j: nat): (r: seq<string>)
    requires 0 < j < |s|
    ensures |r| == |s|
  {
    s[j := s[j - 1]][j - 1 := s[j]]
  }

  lemma SwapKeepsOrder(s: seq<string>, j: nat)
    requires 0 < j < |s| && InOrderBut(s, j) && Less(s[j], s[j - 1])
    ensures InOrderBut(Swapped(s, j), j - 1)
  {
    LessIsTotal(s[j], s[j - 1]);
  }

  lemma SwapKeepsAll(s: seq<string>, j: nat)
    requires 0 < j < |s|
    ensures multiset(Swapped(s, j)) == multiset(s)
  {
  }

  lemma InsertionEnds(s: seq<string>, j: nat)
    requires j < |s| && InOrderBut(s, j) && (j > 0 ==> AtMost(s[j - 1], s[j]))
    ensures Ascending(s)
  {
    forall p | 0 <= p < j
      ensures AtMost(s[p], s[j])
    {
      if p < j - 1 {
        AtMostIsTransitive(s[p], s[j - 1], s[j]);
      }
    }
  }

  predicate Strict(s: seq<string>) {
    forall p, q | 0 <= p < q < |s| :: Less(s[p], s[q])
  }

  lemma CountedOnce(s: seq<string>, keys: set<string>)
    requires multiset(s) == multiset(keys)
    ensures forall p, q | 0 <= p < q < |s| :: s[p] != s[q]
    ensures forall k :: k in s <==> k in keys
  {
    forall p, q | 0 <= p < q < |s|
      ensures s[p] != s[q]
    {
      assert s == s[..q] + s[q..];
      assert s[p] in s[..q] && s[q] in s[q..];
      assert multiset(s)[s[q]] <= 1;
    }
    assert forall k :: k in s <==> k in multiset(s);
  }

  /** `sortedKeys`: the keys, each once and in order, whatever order the map yields them in. */
  method SortedKeys(m: Table) returns (keys: seq<string>)
    ensures Strict(keys) && forall k :: k in keys <==> k in m
  {
    var gathered: seq<string> := [];
    var todo := m.Keys;
    while todo != {}
      invariant todo <= m.Keys && multiset(gathered) == multiset(m.Keys - todo)
      decreases |todo|
    {
      var k :| k in todo;
      assert m.Keys - (todo - {k}) == m.Keys - todo + {k};
      gathered := gathered + [k];
      todo := todo - {k};
    }
    assert m.Keys - {} == m.Keys;
    var list := new string[|gathered|](i requires 0 <= i < |gathered| => gathered[i]);
    assert list[..] == gathered;
    SortStrings(list);
    keys := list[..];
    CountedOnce(keys, m.Keys);
    forall p, q | 0 <= p < q < |keys|
      ensures Less(keys[p], keys[q])
    {
      LessIsTotal(keys[p], keys[q]);
    }
  }

  /** There is only one such listing. */
  lemma {:induction false} OneOrder(a: seq<string>, b: seq<string>)
    requires Strict(a) && Strict(b) && forall k :: k in a <==> k in b
    ensures a == b
  {
    assert a != [] ==> a[0] in a;
    assert b != [] ==> b[0] in b;
    if a != [] && b != [] {
      SameFirst(a, b);
      TailElements(a);
      TailElements(b);
      OneOrder(a[1..], b[1..]);
      assert a == [a[0]] + a[1..] && b == [b[0]] + b[1..];
    }
  }

  lemma SameFirst(a: seq<string>, b: seq<string>)
    requires Strict(a) && Strict(b) && a != [] && b != [] && a[0] in b && b[0] in a
    ensures a[0] == b[0]
  {
    LessIsTotal(a[0], b[0]);
  }

  lemma TailElements(s: seq<string>)
    requires Strict(s) && s != []
    ensures forall k :: k in s[1..] <==> k in s && k != s[0]
  {
    forall k | k in s[1..]
      ensures k != s[0]
    {
      LessIsTotal(k, s[0]);
    }
  }

  // ---------------------------------------------------------------- the walk's result

  /** The tables a walk collects, the list of ONUs being that of `names`. */
  datatype Walk = Walk(names: Table, serial: Table, status: Table, descr: Table, rx: Table, tx: Table, dist: Table)

  /** One ONU, its columns as they were read. */
  datatype Onu = Onu(index: string, number: string, name: string, serial: string, status: string, descr: string,
                     rx: string, tx: string, dist: string)

  /** An ONU whose every column belongs to its index. */
  ghost predicate Joined(w: Walk, o: Onu) {
    && o.number == OnuLabel(o.index) && o.name == Get(w.names, o.index)
    && Belongs(o.index, w.serial, o.serial) && Belongs(o.index, w.status, o.status)
    && Belongs(o.index, w.descr, o.descr) && Belongs(o.index, w.rx, o.rx)
    && Belongs(o.index, w.tx, o.tx) && Belongs(o.index, w.dist, o.dist)
  }

  function Indices(onus: seq<Onu>): seq<string> {
    seq(|onus|, i requires 0 <= i < |onus| => onus[i].index)
  }

  /** A right result: one ONU for each key of the list, in order, each joined rightly. */
  ghost predicate ResultOf(w: Walk, onus: seq<Onu>) {
    && Strict(Indices(onus)) && (forall k :: k in Indices(onus) <==> k in w.names)
    && forall i | 0 <= i < |onus| :: Joined(w, onus[i])
  }

  /** The lookups by place of all the tables joined. */
  ghost predicate LocMapsOf(w: Walk, locs: Walk) {
    && LocMapOf(w.serial, locs.serial) && LocMapOf(w.status, locs.status) && LocMapOf(w.descr, locs.descr)
    && LocMapOf(w.rx, locs.rx) && LocMapOf(w.tx, locs.tx) && LocMapOf(w.dist, locs.dist)
  }

  function JoinOne(index: string, w: Walk, locs: Walk): Onu {
    Onu(index, OnuLabel(index), Get(w.names, index), Pick(index, w.serial, locs.serial),
        Pick(index, w.status, locs.status), Pick(index, w.descr, locs.descr), Pick(index, w.rx, locs.rx),
        Pick(index, w.tx, locs.tx), Pick(index, w.dist, locs.dist))
  }

  lemma JoinOneIsRight(index: string, w: Walk, locs: Walk)
    requires LocMapsOf(w, locs)
    ensures Joined(w, JoinOne(index, w, locs))
  {
    PickIsRight(index, w.serial, locs.serial);
    PickIsRight(index, w.status, locs.status);
    PickIsRight(index, w.descr, locs.descr);
    PickIsRight(index, w.rx, locs.rx);
    PickIsRight(index, w.tx, locs.tx);
    PickIsRight(index, w.dist, locs.dist);
  }

  /** The joining part of `walkONUs`. */
  method JoinTables(w: Walk) returns (onus: seq<Onu>)
    ensures ResultOf(w, onus)
  {
    var rxLoc := BuildLocMap(w.rx);
    var txLoc := BuildLocMap(w.tx);
    var statusLoc := BuildLocMap(w.status);
    var distLoc := BuildLocMap(w.dist);
    var serialLoc := BuildLocMap(w.serial);
    var descrLoc := BuildLocMap(w.descr);
    var locs := Walk(map[], serialLoc, statusLoc, descrLoc, rxLoc, txLoc, distLoc);
    var keys := SortedKeys(w.names);
    onus := JoinKeys(w, locs, keys);
    EachIsRight(w, locs, keys, onus);
  }

  method JoinKeys(w: Walk, locs: Walk, keys: seq<string>) returns (onus: seq<Onu>)
    ensures |onus| == |keys| && forall j | 0 <= j < |keys| :: onus[j] == JoinOne(keys[j], w, locs)
  {
    onus := [];
    for i := 0 to |keys|
      invariant |onus| == i
      invariant forall j | 0 <= j < i :: onus[j] == JoinOne(keys[j], w, locs)
    {
      onus := onus + [JoinOne(keys[i], w, locs)];
    }
  }

  lemma EachIsRight(w: Walk, locs: Walk, keys: seq<string>, onus: seq<Onu>)
    requires LocMapsOf(w, locs) && Strict(keys) && (forall k :: k in keys <==> k in w.names)
    requires |onus| == |keys| && forall j | 0 <= j < |keys| :: onus[j] == JoinOne(keys[j], w, locs)
    ensures ResultOf(w, onus)
  {
    assert Indices(onus) == keys;
    forall j | 0 <= j < |keys|
      ensures Joined(w, onus[j])
    {
      JoinOneIsRight(keys[j], w, locs);
    }
  }

  ghost predicate AllUnambiguous(w: Walk) {
    && Unambiguous(w.serial) && Unambiguous(w.status) && Unambiguous(w.descr)
    && Unambiguous(w.rx) && Unambiguous(w.tx) && Unambiguous(w.dist)
  }

  /** Over unambiguous tables the result does not depend on any order of iteration. */
  lemma OneResult(w: Walk, a: seq<Onu>, b: seq<Onu>)
    requires AllUnambiguous(w) && ResultOf(w, a) && ResultOf(w, b)
    ensures a == b
  {
    OneOrder(Indices(a), Indices(b));
    assert |a| == |Indices(a)| && |b| == |Indices(b)|;
    forall i | 0 <= i < |a|
      ensures a[i] == b[i]
    {
      assert Indices(a)[i] == Indices(b)[i];
      JoinedOnce(w, a[i], b[i]);
    }
  }

  lemma JoinedOnce(w: Walk, a: Onu, b: Onu)
    requires AllUnambiguous(w) && Joined(w, a) && Joined(w, b) && a.index == b.index
    ensures a == b
  {
    OneValueBelongs(a.index, w.serial, a.serial, b.serial);
    OneValueBelongs(a.index, w.status, a.status, b.status);
    OneValueBelongs(a.index, w.descr, a.descr, b.descr);
    OneValueBelongs(a.index, w.rx, a.rx, b.rx);
    OneValueBelongs(a.index, w.tx, a.tx, b.tx);
    OneValueBelongs(a.index, w.dist, a.dist, b.dist);
  }

  /** When each table keeps to one space and shelf, which may differ between tables, there is one result. */
  lemma OneSpaceEachOneResult(w: Walk, a: seq<Onu>, b: seq<Onu>)
    requires OneSpace(w.serial) && OneSpace(w.status) && OneSpace(w.descr)
    requires OneSpace(w.rx) && OneSpace(w.tx) && OneSpace(w.dist)
    requires ResultOf(w, a) && ResultOf(w, b)
    ensures a == b
  {
    OneSpaceIsUnambiguous(w.serial);
    OneSpaceIsUnambiguous(w.status);
    OneSpaceIsUnambiguous(w.descr);
    OneSpaceIsUnambiguous(w.rx);
    OneSpaceIsUnambiguous(w.tx);
    OneSpaceIsUnambiguous(w.dist);
    OneResult(w, a, b);
  }
}
