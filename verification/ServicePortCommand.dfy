/** Printing service-port commands, and their round trip through the running configuration. */
module ServicePortCommand {
  import opened Decimal
  import opened Money
  import opened Text
  import opened ServicePort

  datatype Ether = All | Pppoe | Ipoe

  /** A service port as it is asked for; a user S-VLAN, S-VLAN or class of service of 0 is none. */
  datatype Wanted = Wanted(id: nat, vport: nat, userVlan: nat, userSvlan: nat, vlan: nat, svlan: nat, cTagCos: nat,
                           sTagCos: nat,
                           ether: Ether)

  /** The ranges `set_service_port` insists on. */
  predicate Accepted(w: Wanted) {
    && 1 <= w.id <= 4095 && 1 <= w.vport <= 32 && 1 <= w.userVlan <= 4094 && w.userSvlan <= 4094
    && 1 <= w.vlan <= 4094 && w.svlan <= 4094 && w.cTagCos <= 7 && w.sTagCos <= 7
  }

  /** The S-VLAN that is sent: the VLAN itself if none was asked for. */
  function SvlanOf(w: Wanted): nat {
    if w.svlan == 0 then w.vlan else w.svlan
  }

  /** How much of a port one of the alternative commands spells out, and what is put behind it. */
  datatype Form = Form(vport: bool, svlan: bool, userEtype: bool, suffix: Suffix)

  datatype Suffix = Nothing | Untag | Untagged

  function EtypeWords(w: Wanted, form: Form): seq<string> {
    var key := if form.userEtype then "user-etype" else "etype";
    match w.ether
    case All => []
    case Pppoe => [key, "PPPOE"]
    case Ipoe => [key, "IPOE"]
  }

  function SuffixWords(form: Form): seq<string> {
    match form.suffix
    case Nothing => []
    case Untag => ["untag"]
    case Untagged => ["untagged"]
  }

  function Append(parts: seq<string>, given: bool, key: string, n: nat): seq<string> {
    if given then parts + [key, Itoa(n)] else parts
  }

  /** `buildServicePortCmd`, as words. */
  function BuildCommand(w: Wanted, form: Form): seq<string> {
    var parts := ["service-port", Itoa(w.id)];
    var parts := Append(parts, form.vport, "vport", w.vport);
    var parts := Append(parts, true, "user-vlan", w.userVlan);
    var parts := Append(parts, w.userSvlan > 0, "user-svlan", w.userSvlan);
    var parts := Append(parts, true, "vlan", w.vlan);
    var parts := Append(parts, form.svlan, "svlan", SvlanOf(w));
    var parts := Append(parts, w.cTagCos > 0, "cos", w.cTagCos);
    var parts := Append(parts, w.sTagCos > 0, "scos", w.sTagCos);
    parts + EtypeWords(w, form) + SuffixWords(form)
  }

  function EtherShown(ether: Ether): string {
    match ether
    case All => ALL_ETHER
    case Pppoe => "PPPoE"
    case Ipoe => "IPoE"
  }

  /** What reading the command back should give. */
  function Shown(w: Wanted, form: Form): Entry {
    Entry(w.id, if form.vport then w.vport else 0, w.userVlan, w.userSvlan, w.vlan,
          if form.svlan then SvlanOf(w) else 0,
          w.cTagCos, w.sTagCos, EtherShown(w.ether))
  }

  /** The text of a configuration that lists commands. */
  function Listing(commands: seq<seq<string>>): string
    requires forall i | 0 <= i < |commands| :: commands[i] != []
  {
    if commands == [] then []
    else Join(seq(|commands|, i requires 0 <= i < |commands| => Join(commands[i], ' ')), '\n')
  }

  // ---------------------------------------------------------------- words and lines come back

  predicate Word(s: string) {
    s != [] && forall i | 0 <= i < |s| :: s[i] !in BLANKS
  }

  lemma {:induction false} WordEndIs(s: string, i: nat, n: nat)
    requires i <= n <= |s| && (forall k | i <= k < n :: s[k] !in BLANKS) && (n < |s| ==> s[n] in BLANKS)
    ensures WordEnd(s, i) == n
    decreases n - i
  {
    if i < n {
      WordEndIs(s, i + 1, n);
    }
  }

  lemma {:induction false} WordsOfJoin(words: seq<string>)
    requires words != [] && forall i | 0 <= i < |words| :: Word(words[i])
    ensures Words(Join(words, ' ')) == words
  {
    var (s, first) := (Join(words, ' '), words[0]);
    assert s[..|first|] == first;
    assert forall k | 0 <= k < |first| :: s[k] == first[k];
    WordEndIs(s, 0, |first|);
    if |words| > 1 {
      WordsOfJoin(words[1..]);
      var rest := s[|first|..];
      assert rest[0] == ' ' && rest[1..] == Join(words[1..], ' ');
      assert Words(rest) == Words(rest[1..]);
    } else {
      assert s[|first|..] == [];
    }
  }

  lemma {:induction false} NoNewline(words: seq<string>)
    requires words != [] && forall i | 0 <= i < |words| :: Word(words[i])
    ensures '\n' !in Join(words, ' ')
  {
    assert forall k | 0 <= k < |words[0]| :: words[0][k] in BLANKS ==> false;
    if |words| > 1 {
      NoNewline(words[1..]);
    }
  }

  lemma LinesOfListing(commands: seq<seq<string>>)
    requires commands != [] && forall i | 0 <= i < |commands| ::
               commands[i] != [] && forall j | 0 <= j < |commands[i]| :: Word(commands[i][j])
    ensures Lines(Listing(commands)) == commands
  {
    var texts := seq(|commands|, i requires 0 <= i < |commands| => Join(commands[i], ' '));
    forall i | 0 <= i < |commands|
      ensures '\n' !in texts[i] && Words(texts[i]) == commands[i]
    {
      NoNewline(commands[i]);
      WordsOfJoin(commands[i]);
    }
    SplitJoin(texts, '\n');
  }

  // ---------------------------------------------------------------- the words of a command

  function Last(word: string): char
    requires word != []
  {
    LowerChar(word[|word| - 1])
  }

  /** A word ends in a key only if their last letters agree. */
  lemma EndsAlike(word: string, key: string)
    requires word != [] && key != [] && EndsIn(word, key)
    ensures Last(word) == key[|key| - 1]
  {
    assert Lower(word[|word| - |key|..])[|key| - 1] == key[|key| - 1];
  }

  lemma LowerStays(word: string)
    requires forall i | 0 <= i < |word| :: !('A' <= word[i] <= 'Z')
    ensures Lower(word) == word
  {
  }

  lemma NumeralIsPlain(n: nat)
    ensures Word(Itoa(n)) && IsDigit(Last(Itoa(n)))
  {
  }

  function Spell(field: Field): (word: string)
    ensures |word| >= 3
  {
    match field
    case VPort => "vport"
    case UserVlan => "user-vlan"
    case UserSvlan => "user-svlan"
    case Vlan => "vlan"
    case Svlan => "svlan"
    case CTagCos => "cos"
    case STagCos => "scos"
  }

  /** Nothing but the field's own word announces a field, and no number does. */
  lemma NumeralsAnnounceNothing(before: string, n: nat, field: Field)
    ensures !Announces(before, Itoa(n), field)
  {
    var word := Itoa(n);
    NumeralIsPlain(n);
    if field.Vlan? || field.Svlan? || field.STagCos? {
      assert Lower(word)[|word| - 1] == Last(word);
    }
    if EndsIn(word, "vport") { EndsAlike(word, "vport"); }
    if EndsIn(word, "user-vlan") { EndsAlike(word, "user-vlan"); }
    if EndsIn(word, "user-svlan") { EndsAlike(word, "user-svlan"); }
    if EndsIn(word, "cos") { EndsAlike(word, "cos"); }
    if EndsIn(word, "scos") { EndsAlike(word, "scos"); }
    if EndsIn(word, "s-cos") { EndsAlike(word, "s-cos"); }
  }

  lemma EndsAt(word: string, key: string, i: nat)
    requires EndsIn(word, key) && i < |key|
    ensures LowerChar(word[|word| - |key| + i]) == key[i]
  {
    assert Lower(word[|word| - |key|..])[i] == key[i];
  }

  lemma SpellingAnnouncesItself(before: string, f: Field)
    ensures Announces(before, Spell(f), f)
  {
    LowerStays(Spell(f));
    assert Spell(f)[0..] == Spell(f);
  }

  /** A whole-word key is another field's word for no field. */
  lemma OtherWholeWord(f: Field, key: string)
    requires (key == "vlan" && f != Vlan) || (key == "svlan" && f != Svlan)
    ensures Lower(Spell(f)) != key
  {
    assert Lower(Spell(f))[|Spell(f)| - 1] == Last(Spell(f));
  }

  lemma OtherEndingByLast(f: Field, key: string)
    requires key != [] && Last(Spell(f)) != key[|key| - 1]
    ensures !EndsIn(Spell(f), key)
  {
    if EndsIn(Spell(f), key) {
      EndsAlike(Spell(f), key);
    }
  }

  lemma OtherVlanEnding(f: Field)
    ensures f != UserVlan ==> !EndsIn(Spell(f), "user-vlan")
    ensures f != UserSvlan ==> !EndsIn(Spell(f), "user-svlan")
    ensures f != VPort ==> !EndsIn(Spell(f), "vport")
  {
    if f != VPort {
      OtherEndingByLast(f, "vport");
    }
    if f.UserSvlan? {
      if EndsIn("user-svlan", "user-vlan") {
        EndsAt("user-svlan", "user-vlan", 0);
      }
    } else if f.VPort? || f.CTagCos? || f.STagCos? {
      OtherEndingByLast(f, "user-vlan");
      OtherEndingByLast(f, "user-svlan");
    }
  }

  lemma OtherLast(f: Field)
    requires !f.CTagCos? && !f.STagCos?
    ensures Last(Spell(f)) != 's'
  {
  }

  lemma OtherCosEnding(f: Field)
    ensures f != CTagCos ==> !EndsIn(Spell(f), "cos")
    ensures f != STagCos ==> !EndsIn(Spell(f), "scos") && !EndsIn(Spell(f), "s-cos")
  {
    if !f.CTagCos? && !f.STagCos? {
      OtherLast(f);
      OtherEndingByLast(f, "cos");
      OtherEndingByLast(f, "scos");
      OtherEndingByLast(f, "s-cos");
    }
  }

  /** A field is announced by its own word only. */
  lemma SpellingsAnnounceThemselves(before: string, f: Field, field: Field)
    requires !EndsIn(before, "s-tag")
    ensures Announces(before, Spell(f), field) <==> f == field
  {
    if f == field {
      SpellingAnnouncesItself(before, f);
    } else {
      OtherVlanEnding(f);
      OtherCosEnding(f);
      if field.Vlan? {
        OtherWholeWord(f, "vlan");
      } else if field.Svlan? {
        OtherWholeWord(f, "svlan");
      }
    }
  }

  // ---------------------------------------------------------------- pairs of words and numbers

  type Pairs = seq<(Field, nat)>

  function Flatten(pairs: Pairs): seq<string> {
    if pairs == [] then [] else [Spell(pairs[0].0), Itoa(pairs[0].1)] + Flatten(pairs[1..])
  }

  lemma PrefixConcat(x: seq<string>, y: seq<string>, z: seq<string>)
    ensures x + (y + z) == x + y + z
  {
  }

  lemma {:induction false} FlattenConcat(a: Pairs, b: Pairs)
    ensures Flatten(a + b) == Flatten(a) + Flatten(b)
  {
    if a == [] {
      assert a + b == b;
    } else {
      FlattenConcat(a[1..], b);
      assert (a + b)[1..] == a[1..] + b && (a + b)[0] == a[0];
      PrefixConcat([Spell(a[0].0), Itoa(a[0].1)], Flatten(a[1..]), Flatten(b));
    }
  }

  function FirstOf(pairs: Pairs, field: Field): nat {
    if pairs == [] then 0 else if pairs[0].0 == field then pairs[0].1 else FirstOf(pairs[1..], field)
  }

  predicate Printable(pairs: Pairs) {
    forall i | 0 <= i < |pairs| :: 0 < pairs[i].1 <= MAX_INT64
  }

  lemma NumeralReads(n: nat)
    requires n <= MAX_INT64
    ensures NumberLike(Itoa(n)) && NumberOf(Itoa(n)) == n
  {
    AllOfIt(Itoa(n));
    assert Itoa(n)[..|Itoa(n)|] == Itoa(n);
    PrintParse(n);
  }

  lemma {:induction false} AllOfIt(word: string)
    requires AllDigits(word)
    ensures DigitsLength(word) == |word|
  {
    if word == [] {
    } else {
      AllOfIt(word[1..]);
    }
  }

  /** Words without a number in them, which say nothing about any field. */
  predicate Silent(rest: seq<string>) {
    forall i | 0 <= i < |rest| :: rest[i] != [] && !IsDigit(rest[i][0])
  }

  lemma {:induction false} SilentFindsNothing(before: string, rest: seq<string>, field: Field)
    requires Silent(rest)
    ensures Find(before, rest, field) == 0
    decreases |rest|
  {
    if |rest| >= 2 {
      assert DigitsLength(rest[1]) == 0;
      SilentFindsNothing(rest[0], rest[1..], field);
    }
  }

  /** Looking a field up in printed pairs gives the number of its first pair. */
  lemma {:induction false} FindInPairs(before: string, pairs: Pairs, rest: seq<string>, field: Field)
    requires Printable(pairs) && Silent(rest) && !EndsIn(before, "s-tag")
    ensures Find(before, Flatten(pairs) + rest, field) == FirstOf(pairs, field)
    decreases |pairs|
  {
    if pairs == [] {
      assert Flatten(pairs) + rest == rest;
      SilentFindsNothing(before, rest, field);
    } else {
      var (word, number) := (Spell(pairs[0].0), Itoa(pairs[0].1));
      var tail := Flatten(pairs[1..]) + rest;
      assert Flatten(pairs) + rest == [word, number] + tail;
      SpellingsAnnounceThemselves(before, pairs[0].0, field);
      NumeralReads(pairs[0].1);
      if pairs[0].0 != field {
        NumeralsAnnounceNothing(word, pairs[0].1, field);
        NumeralIsNoTag(pairs[0].1);
        PassesOver(before, word, number, tail, field);
        FindInPairs(number, pairs[1..], rest, field);
      }
    }
  }

  /** Two words that announce nothing are passed over. */
  lemma PassesOver(before: string, word: string, number: string, tail: seq<string>, field: Field)
    requires !Announces(before, word, field) && !Announces(word, number, field)
    ensures Find(before, [word, number] + tail, field) == Find(number, tail, field)
  {
    var cfg := [word, number] + tail;
    assert cfg[1..] == [number] + tail && cfg[1..][1..] == tail;
  }

  lemma NumeralIsNoTag(n: nat)
    ensures !EndsIn(Itoa(n), "s-tag") && !EndsIn(Itoa(n), "etype") && !EndsIn(Itoa(n), "wan-ip")
  {
    NumeralIsPlain(n);
    if EndsIn(Itoa(n), "s-tag") { EndsAlike(Itoa(n), "s-tag"); }
    if EndsIn(Itoa(n), "etype") { EndsAlike(Itoa(n), "etype"); }
    if EndsIn(Itoa(n), "wan-ip") { EndsAlike(Itoa(n), "wan-ip"); }
  }

  // ---------------------------------------------------------------- the ether type

  predicate NoEtype(cfg: seq<string>) {
    forall i | 0 <= i < |cfg| :: !EndsIn(cfg[i], "etype")
  }

  lemma {:induction false} SkipToEtype(cfg: seq<string>, rest: seq<string>)
    requires NoEtype(cfg)
    ensures FindEtype(cfg + rest) == FindEtype(rest)
  {
    if cfg == [] {
      assert cfg + rest == rest;
    } else {
      assert (cfg + rest)[1..] == cfg[1..] + rest;
      SkipToEtype(cfg[1..], rest);
      assert (cfg + rest)[0] == cfg[0];
    }
  }

  lemma {:induction false} PairsHaveNoEtype(pairs: Pairs)
    ensures NoEtype(Flatten(pairs))
  {
    if pairs == [] {
    } else {
      PairsHaveNoEtype(pairs[1..]);
      NumeralIsNoTag(pairs[0].1);
      OtherEndingByLast(pairs[0].0, "etype");
    }
  }

  /** No `o` before an `e`, so neither protocol is named in the word. */
  predicate NoOe(word: string) {
    forall j | 0 < j < |word| :: !(LowerChar(word[j - 1]) == 'o' && LowerChar(word[j]) == 'e')
  }

  lemma {:induction false} NotNamed(part: string, word: string)
    requires part == "pppoe" || part == "ipoe"
    requires NoOe(word)
    ensures !Within(part, word)
  {
    if |word| >= |part| {
      var n := |part|;
      assert Lower(word[..n])[n - 1] == LowerChar(word[n - 1]) && Lower(word[..n])[n - 2] == LowerChar(word[n - 2]);
      if word != [] {
        NotNamed(part, word[1..]);
      }
    }
  }

  lemma {:induction false} PairsNameNothing(pairs: Pairs)
    ensures forall i | 0 <= i < |Flatten(pairs)| :: NoOe(Flatten(pairs)[i])
  {
    if pairs == [] {
    } else {
      PairsNameNothing(pairs[1..]);
      assert NoOe(Itoa(pairs[0].1)) by {
        assert AllDigits(Itoa(pairs[0].1));
      }
    }
  }

  lemma EtypeReads(w: Wanted, form: Form)
    requires w.ether != All
    ensures FindEtype(EtypeWords(w, form) + SuffixWords(form)) == Some(if w.ether.Pppoe? then "PPPOE" else "IPOE")
  {
    var cfg := EtypeWords(w, form) + SuffixWords(form);
    KeyEndsInEtype(form);
    var value := if w.ether.Pppoe? then "PPPOE" else "IPOE";
    assert cfg[0] == (if form.userEtype then "user-etype" else "etype") && cfg[1] == value;
    assert EtypeLength(value) == |value| by {
      assert value[|value|..] == [];
      AllEtypeChars(value);
    }
    assert ToBoundary(value, |value|) == |value|;
    assert value[..|value|] == value;
  }

  lemma KeyEndsInEtype(form: Form)
    ensures EndsIn(if form.userEtype then "user-etype" else "etype", "etype")
  {
    assert "user-etype"[5..] == "etype" && "etype"[0..] == "etype";
    LowerStays("etype");
  }

  lemma {:induction false} AllEtypeChars(word: string)
    requires forall i | 0 <= i < |word| :: EtypeChar(word[i])
    ensures EtypeLength(word) == |word|
  {
    if word == [] {
    } else {
      AllEtypeChars(word[1..]);
    }
  }

  lemma LabelsOfTokens()
    ensures EtherLabel("PPPOE") == "PPPoE" && EtherLabel("IPOE") == "IPoE"
  {
    assert Lower("PPPOE") == "pppoe";
    assert Lower("IPOE") == "ipoe";
  }

  // ---------------------------------------------------------------- a command as pairs

  function OnePair(given: bool, field: Field, n: nat): Pairs {
    if given then [(field, n)] else []
  }

  /** One more optional pair: its words, and what a lookup then finds. */
  lemma Extend(head: seq<string>, pairs: Pairs, given: bool, field: Field, n: nat)
    ensures head + Flatten(pairs + OnePair(given, field, n)) == Append(head + Flatten(pairs), given, Spell(field), n)
  {
    var last := OnePair(given, field, n);
    FlattenConcat(pairs, last);
    assert Flatten(last) == if given then [Spell(field), Itoa(n)] else [];
    PrefixConcat(head, Flatten(pairs), Flatten(last));
  }

  lemma {:induction false} FirstOfMore(pairs: Pairs, given: bool, field: Field, n: nat, asked: Field)
    requires forall i | 0 <= i < |pairs| :: pairs[i].0 != field
    ensures FirstOf(pairs + OnePair(given, field, n), asked)
            == if asked == field then (if given then n else 0) else FirstOf(pairs, asked)
  {
    var last := OnePair(given, field, n);
    if pairs == [] {
      assert pairs + last == last;
    } else {
      FirstOfMore(pairs[1..], given, field, n, asked);
      assert (pairs + last)[1..] == pairs[1..] + last && (pairs + last)[0] == pairs[0];
      assert asked == field ==> FirstOf(pairs + last, asked) == FirstOf(pairs[1..] + last, asked);
    }
  }

  const FIELDS := 7

  function FieldAt(k: nat): Field {
    match k
    case 0 => VPort
    case 1 => UserVlan
    case 2 => UserSvlan
    case 3 => Vlan
    case 4 => Svlan
    case 5 => CTagCos
    case _ => STagCos
  }

  function Rank(field: Field): nat {
    match field
    case VPort => 0
    case UserVlan => 1
    case UserSvlan => 2
    case Vlan => 3
    case Svlan => 4
    case CTagCos => 5
    case STagCos => 6
  }

  predicate Given(w: Wanted, form: Form, field: Field) {
    match field
    case VPort => form.vport
    case UserSvlan => w.userSvlan > 0
    case Svlan => form.svlan
    case CTagCos => w.cTagCos > 0
    case STagCos => w.sTagCos > 0
    case _ => true
  }

  function Value(w: Wanted, field: Field): nat {
    match field
    case VPort => w.vport
    case UserVlan => w.userVlan
    case UserSvlan => w.userSvlan
    case Vlan => w.vlan
    case Svlan => SvlanOf(w)
    case CTagCos => w.cTagCos
    case STagCos => w.sTagCos
  }

  /** The pairs of the first `k` fields. */
  function PairsOf(w: Wanted, form: Form, k: nat): Pairs {
    if k == 0 then []
    else
      var field := FieldAt(k - 1);
      PairsOf(w, form, k - 1) + OnePair(Given(w, form, field), field, Value(w, field))
  }

  lemma {:induction false} PairsAreRanked(w: Wanted, form: Form, k: nat)
    requires k <= FIELDS && Accepted(w)
    ensures forall i | 0 <= i < |PairsOf(w, form, k)| :: Rank(PairsOf(w, form, k)[i].0) < k
    ensures Printable(PairsOf(w, form, k))
  {
    if k == 0 {
    } else {
      PairsAreRanked(w, form, k - 1);
      RankOfFieldAt(k - 1);
    }
  }

  lemma RankOfFieldAt(k: nat)
    requires k < FIELDS
    ensures Rank(FieldAt(k)) == k
  {
  }

  lemma FieldAtRank(field: Field)
    ensures FieldAt(Rank(field)) == field && Rank(field) < FIELDS
  {
  }

  /** What the first `k` fields say of a field. */
  function Said(w: Wanted, form: Form, k: nat, asked: Field): nat {
    if Rank(asked) < k && Given(w, form, asked) then Value(w, asked) else 0
  }

  lemma {:induction false} PairsSay(w: Wanted, form: Form, k: nat, asked: Field)
    requires k <= FIELDS && Accepted(w)
    ensures FirstOf(PairsOf(w, form, k), asked) == Said(w, form, k, asked)
    decreases k
  {
    if k == 0 {
    } else {
      PairsSay(w, form, k - 1, asked);
      NextPairSays(w, form, k - 1, asked);
    }
  }

  lemma NextPairSays(w: Wanted, form: Form, k: nat, asked: Field)
    requires k < FIELDS && Accepted(w) && FirstOf(PairsOf(w, form, k), asked) == Said(w, form, k, asked)
    ensures FirstOf(PairsOf(w, form, k + 1), asked) == Said(w, form, k + 1, asked)
  {
    PairsAreRanked(w, form, k);
    OneMoreSays(PairsOf(w, form, k), k, Given(w, form, FieldAt(k)), Value(w, FieldAt(k)), asked);
    RankDecides(asked, k);
  }

  lemma RankDecides(asked: Field, k: nat)
    requires k < FIELDS
    ensures asked == FieldAt(k) <==> Rank(asked) == k
  {
    FieldAtRank(asked);
    RankOfFieldAt(k);
  }

  lemma NotRankedYet(pairs: Pairs, k: nat)
    requires k < FIELDS && forall i | 0 <= i < |pairs| :: Rank(pairs[i].0) < k
    ensures forall i | 0 <= i < |pairs| :: pairs[i].0 != FieldAt(k)
  {
    RankOfFieldAt(k);
  }

  lemma OneMoreSays(pairs: Pairs, k: nat, given: bool, n: nat, asked: Field)
    requires k < FIELDS && forall i | 0 <= i < |pairs| :: Rank(pairs[i].0) < k
    ensures FirstOf(pairs + OnePair(given, FieldAt(k), n), asked)
            == if asked == FieldAt(k) then (if given then n else 0) else FirstOf(pairs, asked)
  {
    NotRankedYet(pairs, k);
    FirstOfMore(pairs, given, FieldAt(k), n, asked);
  }

  /** The words of the command so far. */
  function Built(w: Wanted, form: Form, k: nat): seq<string> {
    if k == 0 then Head(w)
    else
      var field := FieldAt(k - 1);
      Append(Built(w, form, k - 1), Given(w, form, field), Spell(field), Value(w, field))
  }

  lemma {:induction false} BuiltIsPairs(w: Wanted, form: Form, k: nat)
    ensures Built(w, form, k) == Head(w) + Flatten(PairsOf(w, form, k))
  {
    if k == 0 {
    } else {
      BuiltIsPairs(w, form, k - 1);
      Extend(Head(w), PairsOf(w, form, k - 1), Given(w, form, FieldAt(k - 1)), FieldAt(k - 1),
             Value(w, FieldAt(k - 1)));
    }
  }

  lemma CommandIsBuilt(w: Wanted, form: Form)
    ensures BuildCommand(w, form) == Built(w, form, FIELDS) + EtypeWords(w, form) + SuffixWords(form)
  {
    BuiltMore(w, form, 1, VPort);
    BuiltMore(w, form, 2, UserVlan);
    BuiltMore(w, form, 3, UserSvlan);
    BuiltMore(w, form, 4, Vlan);
    BuiltMore(w, form, 5, Svlan);
    BuiltMore(w, form, 6, CTagCos);
    BuiltMore(w, form, 7, STagCos);
  }

  lemma BuiltMore(w: Wanted, form: Form, k: nat, field: Field)
    requires k > 0 && FieldAt(k - 1) == field
    ensures Built(w, form, k) == Append(Built(w, form, k - 1), Given(w, form, field), Spell(field), Value(w, field))
  {
  }

  function Head(w: Wanted): seq<string> {
    ["service-port", Itoa(w.id)]
  }

  lemma CommandIsPairs(w: Wanted, form: Form)
    ensures BuildCommand(w, form)
            == Head(w) + (Flatten(PairsOf(w, form, FIELDS)) + (EtypeWords(w, form) + SuffixWords(form)))
  {
    CommandIsBuilt(w, form);
    BuiltIsPairs(w, form, FIELDS);
    Regroup(Head(w), Flatten(PairsOf(w, form, FIELDS)), EtypeWords(w, form), SuffixWords(form));
  }

  lemma Regroup(a: seq<string>, b: seq<string>, c: seq<string>, d: seq<string>)
    ensures a + b + c + d == a + (b + (c + d))
  {
  }

  // ---------------------------------------------------------------- main results

  function Rest(w: Wanted, form: Form): seq<string> {
    EtypeWords(w, form) + SuffixWords(form)
  }

  /** What a command says about its port. */
  function Config(w: Wanted, form: Form): seq<string> {
    Flatten(PairsOf(w, form, FIELDS)) + Rest(w, form)
  }

  /** Words, none of which ends like `wan-ip`. */
  predicate Plain(words: seq<string>) {
    forall i | 0 <= i < |words| :: Word(words[i]) && Last(words[i]) != 'p'
  }

  lemma PlainConcat(a: seq<string>, b: seq<string>)
    requires Plain(a) && Plain(b)
    ensures Plain(a + b)
  {
  }

  lemma SilentConcat(a: seq<string>, b: seq<string>)
    requires Silent(a) && Silent(b)
    ensures Silent(a + b)
  {
  }

  lemma EtypeWordsArePlain(w: Wanted, form: Form)
    ensures Silent(EtypeWords(w, form)) && Plain(EtypeWords(w, form))
  {
  }

  lemma SuffixWordsArePlain(form: Form)
    ensures Silent(SuffixWords(form)) && Plain(SuffixWords(form))
  {
  }

  lemma RestIsSilent(w: Wanted, form: Form)
    ensures Silent(Rest(w, form)) && Plain(Rest(w, form))
  {
    EtypeWordsArePlain(w, form);
    SuffixWordsArePlain(form);
    PlainConcat(EtypeWords(w, form), SuffixWords(form));
    SilentConcat(EtypeWords(w, form), SuffixWords(form));
  }

  /** Every field reads back as it was printed, and as 0 when it was not. */
  lemma FieldReadsBack(w: Wanted, form: Form, field: Field)
    requires Accepted(w)
    ensures Later(0, Says(Config(w, form), field)) == if Given(w, form, field) then Value(w, field) else 0
  {
    PairsAreRanked(w, form, FIELDS);
    PairsSay(w, form, FIELDS, field);
    FieldAtRank(field);
    RestIsSilent(w, form);
    FindInPairs("", PairsOf(w, form, FIELDS), Rest(w, form), field);
  }

  lemma EtherReadsBack(w: Wanted, form: Form)
    ensures SaysEther(Config(w, form)) == if w.ether.All? then None else Some(EtherShown(w.ether))
  {
    PairsHaveNoEtype(PairsOf(w, form, FIELDS));
    SkipToEtype(Flatten(PairsOf(w, form, FIELDS)), Rest(w, form));
    if w.ether.All? {
      NothingNamed(w, form);
      assert FindEtype(Rest(w, form)) == None;
    } else {
      EtypeReads(w, form);
      LabelsOfTokens();
    }
  }

  lemma NothingNamed(w: Wanted, form: Form)
    requires w.ether.All?
    ensures !Mentions(Config(w, form), "pppoe") && !Mentions(Config(w, form), "ipoe")
  {
    PairsNameNothing(PairsOf(w, form, FIELDS));
    SuffixNamesNothing(form);
    assert Rest(w, form) == SuffixWords(form);
    NoneMentioned(Flatten(PairsOf(w, form, FIELDS)), SuffixWords(form));
  }

  lemma SuffixNamesNothing(form: Form)
    ensures forall i | 0 <= i < |SuffixWords(form)| :: NoOe(SuffixWords(form)[i])
  {
  }

  lemma NoneMentioned(a: seq<string>, b: seq<string>)
    requires (forall i | 0 <= i < |a| :: NoOe(a[i])) && forall i | 0 <= i < |b| :: NoOe(b[i])
    ensures !Mentions(a + b, "pppoe") && !Mentions(a + b, "ipoe")
  {
    var cfg := a + b;
    forall i | 0 <= i < |cfg|
      ensures !Within("pppoe", cfg[i]) && !Within("ipoe", cfg[i])
    {
      NotNamed("pppoe", cfg[i]);
      NotNamed("ipoe", cfg[i]);
    }
  }

  lemma EntryReadsBack(w: Wanted, form: Form)
    requires Accepted(w)
    ensures Merge(New(w.id), Config(w, form)) == Shown(w, form)
  {
    forall field
      ensures Later(0, Says(Config(w, form), field)) == if Given(w, form, field) then Value(w, field) else 0
    {
      FieldReadsBack(w, form, field);
    }
    EtherReadsBack(w, form);
    MergeReads(Config(w, form), w, form);
  }

  lemma MergeReads(cfg: seq<string>, w: Wanted, form: Form)
    requires forall field :: Later(0, Says(cfg, field)) == if Given(w, form, field) then Value(w, field) else 0
    requires SaysEther(cfg) == if w.ether.All? then None else Some(EtherShown(w.ether))
    ensures Merge(New(w.id), cfg) == Shown(w, form)
  {
    assert Later(0, Says(cfg, VPort)) == Shown(w, form).vport;
    assert Later(0, Says(cfg, UserVlan)) == Shown(w, form).userVlan;
    assert Later(0, Says(cfg, UserSvlan)) == Shown(w, form).userSvlan;
    assert Later(0, Says(cfg, Vlan)) == Shown(w, form).vlan;
    assert Later(0, Says(cfg, Svlan)) == Shown(w, form).svlan;
    assert Later(0, Says(cfg, CTagCos)) == Shown(w, form).cTagCos;
    assert Later(0, Says(cfg, STagCos)) == Shown(w, form).sTagCos;
  }

  lemma {:induction false} PairWordsArePlain(pairs: Pairs)
    ensures Plain(Flatten(pairs))
  {
    if pairs == [] {
    } else {
      PairWordsArePlain(pairs[1..]);
      PairIsPlain(pairs[0].0, pairs[0].1);
      PlainConcat([Spell(pairs[0].0), Itoa(pairs[0].1)], Flatten(pairs[1..]));
    }
  }

  lemma PairIsPlain(f: Field, n: nat)
    ensures Plain([Spell(f), Itoa(n)])
  {
    NumeralIsPlain(n);
  }

  lemma CommandWordsArePlain(w: Wanted, form: Form)
    ensures BuildCommand(w, form) == Head(w) + Config(w, form) && Plain(BuildCommand(w, form))
  {
    CommandIsPairs(w, form);
    PairWordsArePlain(PairsOf(w, form, FIELDS));
    RestIsSilent(w, form);
    PlainConcat(Flatten(PairsOf(w, form, FIELDS)), Rest(w, form));
    HeadIsPlain(w);
    PlainConcat(Head(w), Config(w, form));
  }

  lemma HeadIsPlain(w: Wanted)
    ensures Plain(Head(w))
  {
    NumeralIsPlain(w.id);
    assert Word("service-port");
  }

  /** A command is read as a line about its port. */
  lemma CommandIsLine(w: Wanted, form: Form)
    requires Accepted(w)
    ensures ServicePortLine(BuildCommand(w, form)) == Some((w.id, Config(w, form)))
  {
    var line := BuildCommand(w, form);
    CommandWordsArePlain(w, form);
    LowerStays("service-port");
    PrintParse(w.id);
    PlainIsNoWan(line);
    SomethingIsSaid(w, form);
    assert line[2..] == Config(w, form);
  }

  lemma PlainIsNoWan(line: seq<string>)
    requires Plain(line)
    ensures !IsWanLine(line)
  {
    forall i | 0 <= i < |line|
      ensures !EndsIn(line[i], "wan-ip")
    {
      if EndsIn(line[i], "wan-ip") {
        EndsAlike(line[i], "wan-ip");
      }
    }
  }

  lemma SomethingIsSaid(w: Wanted, form: Form)
    requires Accepted(w)
    ensures Config(w, form) != []
  {
    PairsSay(w, form, FIELDS, Vlan);
    assert PairsOf(w, form, FIELDS) != [];
  }

  /** One port wanted and the form its command takes. */
  datatype Item = Item(wanted: Wanted, form: Form)

  function Commands(items: seq<Item>): seq<seq<string>> {
    seq(|items|, i requires 0 <= i < |items| => BuildCommand(items[i].wanted, items[i].form))
  }

  function AllShown(items: seq<Item>): seq<Entry> {
    seq(|items|, i requires 0 <= i < |items| => Shown(items[i].wanted, items[i].form))
  }

  predicate DistinctPorts(items: seq<Item>) {
    forall i, j | 0 <= i < j < |items| :: items[i].wanted.id != items[j].wanted.id
  }

  /** A line about a new port adds it at the end. */
  lemma ReadsOneMore(lines: seq<seq<string>>, line: seq<string>, id: int, cfg: seq<string>)
    requires ServicePortLine(line) == Some((id, cfg)) && forall i | 0 <= i < |Parse(lines)| :: Parse(lines)[i].id != id
    ensures Parse(lines + [line]) == Parse(lines) + [Merge(New(id), cfg)]
  {
    assert (lines + [line])[..|lines|] == lines;
  }

  lemma ItemReadsBack(lines: seq<seq<string>>, item: Item)
    requires Accepted(item.wanted) && forall i | 0 <= i < |Parse(lines)| :: Parse(lines)[i].id != item.wanted.id
    ensures Parse(lines + [BuildCommand(item.wanted, item.form)]) == Parse(lines) + [Shown(item.wanted, item.form)]
  {
    CommandIsLine(item.wanted, item.form);
    EntryReadsBack(item.wanted, item.form);
    ReadsOneMore(lines, BuildCommand(item.wanted, item.form), item.wanted.id, Config(item.wanted, item.form));
  }

  lemma OneMoreItem(items: seq<Item>, last: Item)
    ensures Commands(items + [last]) == Commands(items) + [BuildCommand(last.wanted, last.form)]
    ensures AllShown(items + [last]) == AllShown(items) + [Shown(last.wanted, last.form)]
  {
  }

  lemma ShownIds(items: seq<Item>)
    ensures forall i | 0 <= i < |items| :: AllShown(items)[i].id == items[i].wanted.id
  {
  }

  predicate AllAccepted(items: seq<Item>) {
    forall i | 0 <= i < |items| :: Accepted(items[i].wanted)
  }

  lemma FirstItems(items: seq<Item>)
    requires items != [] && DistinctPorts(items) && AllAccepted(items)
    ensures var (init, last) := (items[..|items| - 1], items[|items| - 1]);
            && DistinctPorts(init) && AllAccepted(init) && Accepted(last.wanted)
            && forall i | 0 <= i < |init| :: init[i].wanted.id != last.wanted.id
  {
  }

  /** The commands of the ports are read as the ports. */
  predicate ReadBack(items: seq<Item>) {
    Parse(Commands(items)) == AllShown(items)
  }

  lemma NextReadsBack(items: seq<Item>, init: seq<Item>, last: Item)
    requires items == init + [last] && ReadBack(init) && Accepted(last.wanted)
    requires forall i | 0 <= i < |init| :: init[i].wanted.id != last.wanted.id
    ensures ReadBack(items)
  {
    ShownIds(init);
    ItemReadsBack(Commands(init), last);
    OneMoreItem(init, last);
  }

  lemma {:induction false} CommandsReadBack(items: seq<Item>)
    requires DistinctPorts(items) && AllAccepted(items)
    ensures ReadBack(items)
  {
    if items == [] {
      NothingReadsBack(items);
    } else {
      var (init, last) := (items[..|items| - 1], items[|items| - 1]);
      FirstItems(items);
      CommandsReadBack(init);
      AllButLast(items);
      NextReadsBack(items, init, last);
    }
  }

  lemma AllButLast(items: seq<Item>)
    requires items != []
    ensures items == items[..|items| - 1] + [items[|items| - 1]]
  {
  }

  lemma NothingReadsBack(items: seq<Item>)
    requires items == []
    ensures ReadBack(items)
  {
  }

  /** Printing any accepted service ports with distinct ids, each in any of its command forms, and reading the
      text gives one entry for each, in order, with every printed field as it was asked for. */
  lemma RoundTrip(items: seq<Item>)
    requires DistinctPorts(items) && AllAccepted(items)
    ensures (forall i | 0 <= i < |items| :: Commands(items)[i] != [])
            && Parse(Lines(Listing(Commands(items)))) == AllShown(items)
  {
    if items == [] {
      assert Lines(Listing(Commands(items))) == [[]];
      var blank: seq<seq<string>> := [[]];
      assert blank[..0] == [];
      assert Parse(blank) == Take(Parse(blank[..0]), blank[0]);
    } else {
      forall i | 0 <= i < |items|
        ensures Commands(items)[i] != [] && forall j | 0 <= j < |Commands(items)[i]| :: Word(Commands(items)[i][j])
      {
        CommandWordsArePlain(items[i].wanted, items[i].form);
      }
      LinesOfListing(Commands(items));
      CommandsReadBack(items);
    }
  }
}
