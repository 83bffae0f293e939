/** The packed interface indices of a ZTE OLT: printing, the several decoders, and the labels made of them. */
module ZteIndex {
  import opened Decimal
  import opened Money
  import opened Text
  import Bits

  const ONU_ID_BASE := 285278208
  const ONU_ID_SLOT_STRIDE := 256
  const ONU_ID_INCREMENT := 1
  const ONU_TYPE_BASE := 268435456
  const ONU_TYPE_SLOT_STRIDE := 65536
  const ONU_TYPE_INCREMENT := 256
  const MAX_BOARD := 30
  const MAX_PON := 16

  datatype BoardPon = BoardPon(onuIdSuffix: nat, onuTypeSuffix: nat)

  predicate Physical(board: int, pon: int) {
    1 <= board <= MAX_BOARD && 1 <= pon <= MAX_PON
  }

  /** `GenerateBoardPonOID`: the index of one port in the ONU-ID space and in the TYPE space. */
  function GenerateBoardPon(board: int, pon: int): (out: Option<BoardPon>)
    ensures out.Some? <==> Physical(board, pon)
  {
    if board < 1 || board > MAX_BOARD || pon < 1 || pon > MAX_PON then None
    else
      Some(BoardPon(ONU_ID_BASE + board * ONU_ID_SLOT_STRIDE + pon * ONU_ID_INCREMENT,
                    ONU_TYPE_BASE + board * ONU_TYPE_SLOT_STRIDE + pon * ONU_TYPE_INCREMENT))
  }

  // ---------------------------------------------------------------- the decoders

  datatype Location = Location(slot: int, port: int, id: int)

  lemma ByteShifts()
    ensures Bits.Pow2(0) == 1 && Bits.Pow2(8) == 256 && Bits.Pow2(16) == 65536 && Bits.Pow2(24) == 16777216
  {
    assert Bits.Pow2(4) == 16;
    assert Bits.Pow2(8) == 16 * 16;
    assert Bits.Pow2(12) == 4096;
    assert Bits.Pow2(16) == 65536;
    assert Bits.Pow2(20) == 1048576;
  }

  /** A key's packed part, if it is a number above 0xFFFF. */
  function Packed(part: string): Option<nat> {
    match ParseInt(part)
    case Some(v) => if v > 0xFFFF then Some(v) else None
    case None => None
  }

  function Place(v: nat): (int, int) {
    if v % 256 != 0 then (v / 256 % 256, v % 256) else (v / 65536 % 256, v / 256 % 256)
  }

  function IdPart(parts: seq<string>): int {
    if |parts| >= 2 then
      match ParseInt(parts[1])
      case Some(n) => if n > 0 then n else 0
      case None => 0
    else 0
  }

  /** `keyLoc`: where a table key points, in either index space. */
  function KeyLoc(key: string): (at: Option<Location>)
    ensures at.Some? ==> 0 <= at.value.slot < 256 && 0 < at.value.port < 256 && at.value.id >= 0
  {
    var parts := Split(key, '.');
    match Packed(parts[0])
    case None => None
    case Some(v) =>
      var (slot, port) := Place(v);
      if port <= 0 then None else Some(Location(slot, port, IdPart(parts)))
  }

  /** `locKey`. */
  function LocKey(at: Location): string {
    Itoa(at.slot) + "/" + Itoa(at.port) + ":" + Itoa(at.id)
  }

  function Pon(shelf: int, slot: int, port: int): string {
    Itoa(shelf) + "/" + Itoa(slot) + "/" + Itoa(port)
  }

  /** `onuLabel`: shelf/slot/port:id for an index of the ONU-ID space, anything else as it is. */
  function OnuLabel(index: string): string {
    var parts := Split(index, '.');
    if |parts| < 2 then index
    else
      match Packed(parts[0])
      case None => index
      case Some(v) =>
        var (shelf, slot, port) := (v / 65536 % 256, v / 256 % 256, v % 256);
        if shelf > 0 && slot > 0 && port > 0 then Pon(shelf, slot, port) + ":" + parts[|parts| - 1] else index
  }

  /** The PON and the ONU number of the parts of an index. */
  function ReadParts(seg: seq<string>): Option<(string, int)>
    requires |seg| >= 2
  {
    match (Packed(seg[0]), ParseInt(seg[|seg| - 1]))
    case (Some(v), Some(n)) =>
      var shelf := v / 65536 % 256;
      var (slot, port) := Place(v);
      if n < 1 || shelf < 1 || slot < 1 || port < 1 then None else Some((Pon(shelf, slot, port), n))
    case _ => None
  }

  /** `splitIndex`: the PON and the ONU number of a label or of an index. */
  function SplitIndex(index: string): Option<(string, int)> {
    var parts := Split(index, ':');
    if |parts| == 2 then
      match ParseInt(parts[1])
      case Some(n) => if n < 1 then None else Some((parts[0], n))
      case None => None
    else
      var seg := Split(index, '.');
      if |seg| < 2 then None else ReadParts(seg)
  }

  /** `zteMgmtOltID`: 0x10SSPP00, put together with bitwise operators. */
  function MgmtOltId(slot: int, port: int): nat {
    OrFields(0x1000_0000, slot % 256 * 65536, port % 256 * 256)
  }

  function OrFields(base: nat, slot: nat, port: nat): nat {
    Bits.Or(Bits.Or(base, slot), port)
  }

  // ---------------------------------------------------------------- main results

  /** A table key: a packed index and, in per-ONU tables, the ONU's number. */
  function Key(v: nat, id: nat): string {
    if id == 0 then Itoa(v) else Itoa(v) + "." + Itoa(id)
  }

  lemma SplitKey(v: nat, id: nat)
    ensures Split(Key(v, id), '.') == if id == 0 then [Itoa(v)] else [Itoa(v), Itoa(id)]
  {
    NoSeparator(v, '.');
    NoSeparator(id, '.');
    if id == 0 {
      SplitOne(Itoa(v), '.');
    } else {
      SplitJoin([Itoa(v), Itoa(id)], '.');
    }
  }

  /** What a well-printed key decodes to. */
  lemma KeyLocOfKey(v: nat, id: nat)
    requires v <= MAX_INT64 && id <= MAX_INT64
    ensures KeyLoc(Key(v, id))
            == if v <= 0xFFFF || Place(v).1 == 0 then None else Some(Location(Place(v).0, Place(v).1, id))
  {
    SplitKey(v, id);
    PrintParse(v);
    PrintParse(id);
  }

  /** The two index spaces encode the same place: both generated suffixes decode to the board, the port and
      the number they were made for. */
  lemma BothSuffixesDecode(board: int, pon: int, id: nat)
    requires Physical(board, pon) && id <= MAX_INT64
    ensures KeyLoc(Key(GenerateBoardPon(board, pon).value.onuIdSuffix, id)) == Some(Location(board, pon, id))
    ensures KeyLoc(Key(GenerateBoardPon(board, pon).value.onuTypeSuffix, id)) == Some(Location(board, pon, id))
  {
    var (v, w) := (GenerateBoardPon(board, pon).value.onuIdSuffix, GenerateBoardPon(board, pon).value.onuTypeSuffix);
    PlaceOfIdSuffix(board, pon);
    PlaceOfTypeSuffix(board, pon);
    KeyLocOfKey(v, id);
    KeyLocOfKey(w, id);
  }

  /** No two ports share an index in either space, and no index of one space is an index of the other. */
  lemma SuffixesApart(board: int, pon: int, board': int, pon': int)
    requires Physical(board, pon) && Physical(board', pon')
    ensures var (a, b) := (GenerateBoardPon(board, pon).value, GenerateBoardPon(board', pon').value);
            && (a.onuIdSuffix == b.onuIdSuffix <==> board == board' && pon == pon')
            && (a.onuTypeSuffix == b.onuTypeSuffix <==> board == board' && pon == pon')
            && a.onuIdSuffix != b.onuTypeSuffix
  {
    PlaceOfIdSuffix(board, pon);
    PlaceOfIdSuffix(board', pon');
    PlaceOfTypeSuffix(board, pon);
    PlaceOfTypeSuffix(board', pon');
    assert GenerateBoardPon(board', pon').value.onuTypeSuffix / 65536 == 4096 + board';
  }

  lemma PlaceOfIdSuffix(board: int, pon: int)
    requires Physical(board, pon)
    ensures var v := GenerateBoardPon(board, pon).value.onuIdSuffix;
            v > 0xFFFF && v / 65536 % 256 == 1 && v / 256 % 256 == board && v % 256 == pon && Place(v) == (board, pon)
  {
    var v := GenerateBoardPon(board, pon).value.onuIdSuffix;
    assert v / 256 == 1114368 + board;
    assert v / 65536 == 4353;
  }

  lemma PlaceOfTypeSuffix(board: int, pon: int)
    requires Physical(board, pon)
    ensures var v := GenerateBoardPon(board, pon).value.onuTypeSuffix; v > 0xFFFF && Place(v) == (board, pon)
  {
    var v := GenerateBoardPon(board, pon).value.onuTypeSuffix;
    assert v / 256 == 1048576 + board * 256 + pon;
    assert v / 65536 == 4096 + board;
  }

  /** Two indices of one space: the same shelf of the ONU-ID space, or the TYPE space. */
  predicate SameSpace(v: nat, w: nat) {
    if v % 256 != 0 then w % 256 != 0 && v / 65536 == w / 65536
    else w % 256 == 0 && v / 16777216 == w / 16777216
  }

  /** Within either space and one shelf no two keys of a table point to the same place. */
  lemma KeyLocInjective(v: nat, w: nat, a: nat, b: nat)
    requires 0xFFFF < v <= MAX_INT64 && 0xFFFF < w <= MAX_INT64 && a <= MAX_INT64 && b <= MAX_INT64
    requires SameSpace(v, w)
    requires KeyLoc(Key(v, a)).Some? && KeyLoc(Key(v, a)) == KeyLoc(Key(w, b))
    ensures v == w && a == b
  {
    KeyLocOfKey(v, a);
    KeyLocOfKey(w, b);
    PlaceInjective(v, w);
  }

  lemma PlaceInjective(v: nat, w: nat)
    requires SameSpace(v, w) && Place(v) == Place(w)
    ensures v == w
  {
    Bytes(v);
    Bytes(w);
  }

  lemma Bytes(v: nat)
    ensures v == v / 16777216 * 16777216 + v / 65536 % 256 * 65536 + v / 256 % 256 * 256 + v % 256
    ensures v == v / 65536 * 65536 + v / 256 % 256 * 256 + v % 256
  {
    assert v / 65536 == v / 256 / 256;
    assert v / 16777216 == v / 65536 / 256;
  }

  /** The management index is the TYPE-space index of the same port. */
  lemma MgmtIsTypeSuffix(slot: int, port: int)
    ensures MgmtOltId(slot, port) == ONU_TYPE_BASE + slot % 256 * ONU_TYPE_SLOT_STRIDE + port % 256 * ONU_TYPE_INCREMENT
    ensures Physical(slot, port) ==> MgmtOltId(slot, port) == GenerateBoardPon(slot, port).value.onuTypeSuffix
  {
    OrFieldsIsSum(0x1000_0000, slot % 256, port % 256);
    if Physical(slot, port) {
      assert slot % 256 == slot && port % 256 == port;
    }
  }

  lemma OrFieldsIsSum(base: nat, s: nat, p: nat)
    requires base == 0x1000_0000 && s < 256 && p < 256
    ensures OrFields(base, s * 65536, p * 256) == base + s * 65536 + p * 256
  {
    ByteShifts();
    Bits.DisjointBits(base, 16, 24, 16777216, s * 65536);
    Bits.DisjointBits(base + s * 65536, 4096 + s, 16, 65536, p * 256);
  }

  predicate Positive(s: string) {
    ParseInt(s).Some? && ParseInt(s).value >= 1
  }

  function LastPart(s: string, sep: char): string {
    Split(s, sep)[|Split(s, sep)| - 1]
  }

  /** A label says what its index says: the number and PON read from either are the same, unless the index has exactly
      one colon, and a number after it or after the last dot. An SNMP walk gives no colon. */
  lemma LabelKeepsMeaning(index: string)
    ensures SplitIndex(OnuLabel(index)) == SplitIndex(index)
            <==> OnuLabel(index) == index || |Split(index, ':')| != 2
                 || !(Positive(LastPart(index, ':')) || Positive(LastPart(index, '.')))
  {
    if OnuLabel(index) != index {
      var pon := LabelReads(index);
      if |Split(index, ':')| == 2 {
        NotBoth(index);
      }
    }
  }

  /** Of "285278465.1:2", shelf 1, slot 1, port 1, the splitter reads number 2 and of its label nothing. */
  lemma ColonLosesNumber(v: nat) returns (index: string)
    requires v == 285278465
    ensures index == Itoa(v) + ".1:2"
    ensures SplitIndex(index) == Some((Itoa(v) + ".1", 2)) && SplitIndex(OnuLabel(index)) == None
  {
    var (first, last, before, number) := (Itoa(v), "1:2", Itoa(v) + ".1", "2");
    index := first + ".1:2";
    NoSeparator(v, '.');
    NoSeparator(v, ':');
    assert index == first + (['.'] + last) && index == before + ([':'] + number);
    SplitTwo(first, last, '.');
    SplitTwo(before, number, ':');
    PrintParse(v);
    PrintParse(2);
    assert Itoa(2) == "2";
    AllPositiveHere(v);
    LabelOfParts(index, v, last);
    ColonReads(index, v, last);
  }

  lemma AllPositiveHere(v: nat)
    requires v == 285278465
    ensures AllPositive(v)
  {
    assert v / 256 == 1114369 && v / 65536 == 4353;
  }

  lemma LabelOfParts(index: string, v: nat, last: string)
    requires |Split(index, '.')| == 2 && Split(index, '.')[1] == last && Packed(Split(index, '.')[0]) == Some(v)
             && AllPositive(v)
    ensures OnuLabel(index) == PonOf(v) + ":" + last
  {
  }

  lemma ColonReads(index: string, v: nat, last: string)
    requires OnuLabel(index) == PonOf(v) + ":" + last && '.' !in last && ':' in last
    ensures SplitIndex(OnuLabel(index)) == None
  {
    LabelSays(v, last);
    NoSign(last, ':');
  }

  /** A PON and the number that ends a text. */
  function Reading(pon: string, last: string): Option<(string, int)> {
    if Positive(last) then Some((pon, ParseInt(last).value)) else None
  }

  /** The PON of an index of the ONU-ID space. */
  function PonOf(v: nat): string {
    Pon(v / 65536 % 256, v / 256 % 256, v % 256)
  }

  predicate AllPositive(v: nat) {
    v / 65536 % 256 > 0 && v / 256 % 256 > 0 && v % 256 > 0
  }

  lemma LabelForm(index: string) returns (v: nat)
    requires OnuLabel(index) != index
    ensures |Split(index, '.')| >= 2 && Packed(Split(index, '.')[0]) == Some(v)
    ensures AllPositive(v)
    ensures OnuLabel(index) == PonOf(v) + ":" + LastPart(index, '.')
  {
    v := Packed(Split(index, '.')[0]).value;
  }

  lemma DotsRead(seg: seq<string>, v: nat) returns (dots: Option<(string, int)>)
    requires |seg| >= 2 && Packed(seg[0]) == Some(v)
    requires AllPositive(v)
    ensures ReadParts(seg) == dots == Reading(PonOf(v), seg[|seg| - 1])
  {
    dots := ReadParts(seg);
  }

  /** What a label is made of, and what the parts of its index say. */
  lemma LabelParts(index: string) returns (pon: string)
    requires OnuLabel(index) != index
    ensures |Split(index, '.')| >= 2 && ':' !in pon && '.' !in pon
    ensures OnuLabel(index) == pon + ":" + LastPart(index, '.')
    ensures ReadParts(Split(index, '.')) == Reading(pon, LastPart(index, '.'))
  {
    var v := LabelForm(index);
    pon := PonOf(v);
    PonIsPlain(v);
    var dots := DotsRead(Split(index, '.'), v);
  }

  lemma LabelReads(index: string) returns (pon: string)
    requires OnuLabel(index) != index
    ensures |Split(index, '.')| >= 2
    ensures SplitIndex(OnuLabel(index)) == Reading(pon, LastPart(index, '.'))
    ensures SplitIndex(index) == if |Split(index, ':')| == 2 then Reading(Split(index, ':')[0], LastPart(index, ':'))
                                 else Reading(pon, LastPart(index, '.'))
  {
    pon := LabelParts(index);
    SplitOfLabel(pon, LastPart(index, '.'));
    IndexReads(index, Reading(pon, LastPart(index, '.')));
  }

  lemma LabelSays(v: nat, last: string)
    requires '.' !in last
    ensures SplitIndex(PonOf(v) + ":" + last) == Reading(PonOf(v), last)
  {
    PonIsPlain(v);
    SplitOfLabel(PonOf(v), last);
  }

  lemma PonIsPlain(v: nat)
    ensures ':' !in PonOf(v) && '.' !in PonOf(v)
  {
    NoColonInPon(v / 65536 % 256, v / 256 % 256, v % 256);
  }

  lemma IndexReads(index: string, dots: Option<(string, int)>)
    requires |Split(index, '.')| >= 2 && ReadParts(Split(index, '.')) == dots
    ensures SplitIndex(index)
            == if |Split(index, ':')| == 2 then Reading(Split(index, ':')[0], LastPart(index, ':')) else dots
  {
  }

  lemma SplitOfLabel(pon: string, last: string)
    requires ':' !in pon && '.' !in pon && '.' !in last
    ensures SplitIndex(pon + ":" + last) == Reading(pon, last)
  {
    SplitFirst(pon, last, ':');
    assert pon + ":" + last == pon + ([':'] + last);
    if ':' in last {
      SplitOne(pon + ":" + last, '.');
      NoSign(last, ':');
      TwoParts(last, ':');
    } else {
      SplitOne(last, ':');
    }
  }

  /** A character that is no digit and no sign keeps a text from being a number. */
  lemma NoSign(s: string, c: char)
    requires c in s && (c == ':' || c == '.')
    ensures ParseInt(s).None?
  {
    var k :| 0 <= k < |s| && s[k] == c;
    if k > 0 && (s[0] == '-' || s[0] == '+') {
      assert s[1..][k - 1] == c;
    }
  }

  lemma {:induction false} TwoParts(s: string, sep: char)
    ensures |Split(s, sep)| >= 2 <==> sep in s
  {
    if s != [] && s[0] != sep {
      TwoParts(s[1..], sep);
    }
  }

  lemma {:induction false} LastPartEnds(s: string, sep: char)
    requires |Split(s, sep)| >= 2
    ensures |LastPart(s, sep)| < |s| && s[|s| - |LastPart(s, sep)| - 1] == sep
    ensures s[|s| - |LastPart(s, sep)|..] == LastPart(s, sep)
  {
    if s[0] == sep {
      if |Split(s[1..], sep)| == 1 {
        TwoParts(s[1..], sep);
        SplitOne(s[1..], sep);
      } else {
        LastPartEnds(s[1..], sep);
      }
    } else {
      LastPartEnds(s[1..], sep);
    }
  }

  /** A number after the last dot and one after the last colon exclude each other. */
  lemma NotBoth(s: string)
    requires |Split(s, '.')| >= 2 && |Split(s, ':')| >= 2
    ensures !(Positive(LastPart(s, '.')) && Positive(LastPart(s, ':')))
  {
    LastPartEnds(s, '.');
    LastPartEnds(s, ':');
    var (a, b) := (LastPart(s, '.'), LastPart(s, ':'));
    if |a| > |b| {
      assert a[|a| - |b| - 1] == ':';
      NoSign(a, ':');
    } else if |b| > |a| {
      assert b[|b| - |a| - 1] == '.';
      NoSign(b, '.');
    }
  }

  /** In the ONU-ID space the label, the splitter and the decoder agree on the shelf-1 port and the number. */
  lemma LabelOfSuffix(board: int, pon: int, id: nat)
    requires Physical(board, pon) && 1 <= id <= MAX_INT64
    ensures var index := Key(GenerateBoardPon(board, pon).value.onuIdSuffix, id);
            && OnuLabel(index) == Pon(1, board, pon) + ":" + Itoa(id)
            && SplitIndex(index) == Some((Pon(1, board, pon), id)) == SplitIndex(OnuLabel(index))
            && KeyLoc(index) == Some(Location(board, pon, id))
  {
    var v := GenerateBoardPon(board, pon).value.onuIdSuffix;
    BothSuffixesDecode(board, pon, id);
    PlaceOfIdSuffix(board, pon);
    SplitKey(v, id);
    PrintParse(v);
    PrintParse(id);
    NoSeparator(v, ':');
    NoSeparator(id, ':');
    SplitOne(Key(v, id), ':');
    LabelKeepsMeaning(Key(v, id));
  }

  /** The bytes of the two suffixes: 0x11, the shelf 1, the board, the port; and 0x10, the board, the port, 0. */
  lemma SuffixBytes(board: int, pon: int)
    requires 1 <= board <= 30 && 1 <= pon <= 16
    ensures GenerateBoardPon(board, pon).Some?
    ensures var v := GenerateBoardPon(board, pon).value.onuIdSuffix;
            v / 0x100_0000 == 0x11 && v / 0x1_0000 % 0x100 == 1 && v / 0x100 % 0x100 == board && v % 0x100 == pon
    ensures var w := GenerateBoardPon(board, pon).value.onuTypeSuffix;
            w / 0x100_0000 == 0x10 && w / 0x1_0000 % 0x100 == board && w / 0x100 % 0x100 == pon && w % 0x100 == 0
  {
    PlaceOfIdSuffix(board, pon);
    TypeBytes(board, pon);
  }

  lemma TypeBytes(board: int, pon: int)
    requires Physical(board, pon)
    ensures var w := GenerateBoardPon(board, pon).value.onuTypeSuffix;
            w / 65536 == 4096 + board && w / 256 == (4096 + board) * 256 + pon && w % 256 == 0
  {
  }

  lemma ReadKey(w: nat, id: nat)
    requires 0xFFFF < w <= MAX_INT64 && 1 <= id <= MAX_INT64
    ensures SplitIndex(Key(w, id)) == ReadParts([Itoa(w), Itoa(id)])
    ensures Packed(Itoa(w)) == Some(w) && ParseInt(Itoa(id)) == Some(id)
  {
    SplitKey(w, id);
    PrintParse(w);
    PrintParse(id);
    NoSeparator(w, ':');
    NoSeparator(id, ':');
    SplitOne(Key(w, id), ':');
  }

  /** Of a TYPE-space index the splitter takes the board for the shelf as well. */
  lemma SplitOfTypeSuffix(board: int, pon: int, id: nat)
    requires Physical(board, pon) && 1 <= id <= MAX_INT64
    ensures SplitIndex(Key(GenerateBoardPon(board, pon).value.onuTypeSuffix, id)) == Some((Pon(board, board, pon), id))
  {
    var w := GenerateBoardPon(board, pon).value.onuTypeSuffix;
    PlaceOfTypeSuffix(board, pon);
    TypeBytes(board, pon);
    ReadKey(w, id);
  }

  /** A third part of a key does not count. */
  lemma ThirdPartIgnored(first: string, second: string, rest: string)
    requires '.' !in first && '.' !in second
    ensures KeyLoc(first + (['.'] + (second + (['.'] + rest)))) == KeyLoc(first + (['.'] + second))
  {
    SplitFirst(first, second + (['.'] + rest), '.');
    SplitFirst(second, rest, '.');
    SplitTwo(first, second, '.');
  }

  /** A second part that is no positive number counts as none. */
  lemma NoNumberIgnored(first: string, second: string)
    requires '.' !in first && '.' !in second && (ParseInt(second).None? || ParseInt(second).value <= 0)
    ensures KeyLoc(first + (['.'] + second)) == KeyLoc(first)
    ensures KeyLoc(first).Some? ==> KeyLoc(first).value.id == 0
  {
    SplitTwo(first, second, '.');
    SplitOne(first, '.');
  }

  /** The lookup key of a place tells places apart. */
  lemma LocKeyInjective(a: Location, b: Location)
    requires a.slot >= 0 && a.port >= 0 && a.id >= 0 && b.slot >= 0 && b.port >= 0 && b.id >= 0
    requires LocKey(a) == LocKey(b)
    ensures a == b
  {
    SplitLocKey(a);
    SplitLocKey(b);
    PrintInjective(a.slot, b.slot);
    PrintInjective(a.port, b.port);
    PrintInjective(a.id, b.id);
  }

  lemma SplitLocKey(at: Location)
    requires at.slot >= 0 && at.port >= 0 && at.id >= 0
    ensures Split(LocKey(at), '/') == [Itoa(at.slot), Itoa(at.port) + ":" + Itoa(at.id)]
    ensures Split(Itoa(at.port) + ":" + Itoa(at.id), ':') == [Itoa(at.port), Itoa(at.id)]
  {
    NoSeparator(at.slot, '/');
    NoSeparator(at.port, '/');
    NoSeparator(at.id, '/');
    NoSeparator(at.port, ':');
    NoSeparator(at.id, ':');
    SplitJoin([Itoa(at.slot), Itoa(at.port) + ":" + Itoa(at.id)], '/');
    assert Itoa(at.slot) + "/" + Itoa(at.port) + ":" + Itoa(at.id)
        == Itoa(at.slot) + "/" + (Itoa(at.port) + ":" + Itoa(at.id));
    SplitJoin([Itoa(at.port), Itoa(at.id)], ':');
  }

  lemma NoColonInPon(shelf: nat, slot: nat, port: nat)
    ensures ':' !in Pon(shelf, slot, port) && '.' !in Pon(shelf, slot, port)
  {
    NoSeparator(shelf, ':');
    NoSeparator(slot, ':');
    NoSeparator(port, ':');
    NoSeparator(shelf, '.');
    NoSeparator(slot, '.');
    NoSeparator(port, '.');
  }
}
