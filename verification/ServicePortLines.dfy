/** The expressions of a running-configuration line on its text: whose line it is, and its ether type. */
module ServicePortLines {
  import opened Decimal
  import opened Money
  import opened ServicePort
  import opened ServicePortText
  import opened Text

  // ---------------------------------------------------------------- a line and its words

  /** The words of a line: each lies between blanks or the ends, and every character that is no blank is in one. */
  ghost predicate WordsLie(line: string, ws: seq<string>, at: seq<nat>) {
    Placed(line, ws, at) && Apart(ws, at) && Covered(line, ws, at)
  }

  ghost predicate Placed(line: string, ws: seq<string>, at: seq<nat>) {
    |at| == |ws| && forall i | 0 <= i < |ws| :: WordLiesAt(line, ws[i], at[i])
  }

  ghost predicate Apart(ws: seq<string>, at: seq<nat>)
    requires |at| == |ws|
  {
    forall i | 0 < i < |ws| :: at[i - 1] + |ws[i - 1]| < at[i]
  }

  ghost predicate Covered(line: string, ws: seq<string>, at: seq<nat>)
    requires |at| == |ws|
  {
    forall p | 0 <= p < |line| && line[p] !in BLANKS :: exists i :: CoveredBy(ws, at, i, p)
  }

  predicate CoveredBy(ws: seq<string>, at: seq<nat>, i: int, p: int)
    requires |at| == |ws|
  {
    0 <= i < |ws| && at[i] <= p < at[i] + |ws[i]|
  }

  predicate WordLiesAt(line: string, word: string, a: nat) {
    && word != [] && a + |word| <= |line| && line[a..a + |word|] == word && (forall c | c in word :: c !in BLANKS)
    && (a > 0 ==> line[a - 1] in BLANKS) && (a + |word| < |line| ==> line[a + |word|] in BLANKS)
  }

  lemma LiesLater(line: string, n: nat, word: string, a: nat)
    requires n <= |line| && WordLiesAt(line[n..], word, a) && (a == 0 && n > 0 ==> line[n - 1] in BLANKS)
    ensures WordLiesAt(line, word, a + n)
  {
    assert line[n..][a..a + |word|] == line[a + n..a + n + |word|];
    assert a > 0 ==> line[n..][a - 1] == line[a + n - 1];
    assert a + |word| < |line| - n ==> line[n..][a + |word|] == line[a + n + |word|];
  }

  lemma BlankFirst(line: string, ws: seq<string>, at: seq<nat>)
    requires line != [] && line[0] in BLANKS && WordsLie(line[1..], ws, at)
    ensures WordsLie(line, ws, Shifted(at, 1))
  {
    forall i | 0 <= i < |ws|
      ensures WordLiesAt(line, ws[i], at[i] + 1)
    {
      LiesLater(line, 1, ws[i], at[i]);
    }
    forall p | 0 <= p < |line| && line[p] !in BLANKS
      ensures exists i :: CoveredBy(ws, Shifted(at, 1), i, p)
    {
      assert line[1..][p - 1] == line[p];
      var i :| CoveredBy(ws, at, i, p - 1);
      assert CoveredBy(ws, Shifted(at, 1), i, p);
    }
  }

  lemma NotFirst(line: string, word: string, a: nat)
    requires line != [] && line[0] in BLANKS && WordLiesAt(line, word, a)
    ensures a > 0
  {
    assert word[0] in word;
    assert line[a..a + |word|][0] == line[a];
  }

  /** The first word of a line and the words of the rest. */
  predicate FirstOfLine(line: string, n: nat) {
    0 < n <= |line| && (forall k | 0 <= k < n :: line[k] !in BLANKS) && (n < |line| ==> line[n] in BLANKS)
  }

  lemma WordAfterFirst(line: string, n: nat, word: string, a: nat)
    requires FirstOfLine(line, n) && WordLiesAt(line[n..], word, a)
    ensures a > 0 && WordLiesAt(line, word, a + n)
  {
    assert line[n..] != [] && line[n..][0] == line[n];
    NotFirst(line[n..], word, a);
    LiesLater(line, n, word, a);
  }

  lemma FirstCovers(line: string, n: nat, ws: seq<string>, at: seq<nat>, p: nat)
    requires FirstOfLine(line, n) && WordsLie(line[n..], ws, at) && p < |line| && line[p] !in BLANKS
    ensures exists i :: CoveredBy([line[..n]] + ws, [0] + Shifted(at, n), i, p)
  {
    var (all, places) := ([line[..n]] + ws, [0] + Shifted(at, n));
    if p < n {
      assert CoveredBy(all, places, 0, p);
    } else {
      assert line[n..][p - n] == line[p];
      var i :| CoveredBy(ws, at, i, p - n);
      assert CoveredBy(all, places, i + 1, p);
    }
  }

  lemma FirstLies(line: string, n: nat)
    requires FirstOfLine(line, n)
    ensures WordLiesAt(line, line[..n], 0)
  {
    assert line[0..0 + |line[..n]|] == line[..n];
  }

  lemma FirstPlaced(line: string, n: nat, ws: seq<string>, at: seq<nat>)
    requires FirstOfLine(line, n) && Placed(line[n..], ws, at)
    ensures Placed(line, [line[..n]] + ws, [0] + Shifted(at, n)) && forall i | 0 <= i < |at| :: at[i] > 0
  {
    var (all, places) := ([line[..n]] + ws, [0] + Shifted(at, n));
    FirstLies(line, n);
    forall i | 0 <= i < |ws|
      ensures at[i] > 0 && WordLiesAt(line, ws[i], at[i] + n)
    {
      WordAfterFirst(line, n, ws[i], at[i]);
    }
    forall i | 0 <= i < |all|
      ensures WordLiesAt(line, all[i], places[i])
    {
      assert i > 0 ==> all[i] == ws[i - 1] && places[i] == at[i - 1] + n;
    }
  }

  lemma FirstApart(first: string, ws: seq<string>, at: seq<nat>)
    requires |at| == |ws| && Apart(ws, at) && forall i | 0 <= i < |at| :: at[i] > 0
    ensures Apart([first] + ws, [0] + Shifted(at, |first|))
  {
    var (all, places) := ([first] + ws, [0] + Shifted(at, |first|));
    forall i | 0 < i < |all|
      ensures places[i - 1] + |all[i - 1]| < places[i]
    {
      assert all[i] == ws[i - 1] && places[i] == at[i - 1] + |first|;
    }
  }

  lemma WordFirst(line: string, n: nat, ws: seq<string>, at: seq<nat>)
    requires FirstOfLine(line, n) && WordsLie(line[n..], ws, at)
    ensures WordsLie(line, [line[..n]] + ws, [0] + Shifted(at, n))
  {
    FirstPlaced(line, n, ws, at);
    FirstApart(line[..n], ws, at);
    forall p | 0 <= p < |line| && line[p] !in BLANKS
      ensures exists i :: CoveredBy([line[..n]] + ws, [0] + Shifted(at, n), i, p)
    {
      FirstCovers(line, n, ws, at, p);
    }
  }

  function Shifted(at: seq<nat>, n: nat): seq<nat> {
    seq(|at|, i requires 0 <= i < |at| => at[i] + n)
  }

  /** Cutting a line into words loses only its blanks. */
  lemma {:induction false} WordsOfLine(line: string) returns (at: seq<nat>)
    ensures WordsLie(line, Words(line), at)
    decreases |line|
  {
    if line == [] {
      at := [];
    } else if line[0] in BLANKS {
      at := WordsOfLine(line[1..]);
      BlankFirst(line, Words(line), at);
      at := Shifted(at, 1);
    } else {
      var n := WordEnd(line, 0);
      at := WordsOfLine(line[n..]);
      WordFirst(line, n, Words(line[n..]), at);
      at := [0] + Shifted(at, n);
    }
  }

  // ---------------------------------------------------------------- whose line it is

  /** `\s+(\d+)\s+(.+)$` from `a - 1` on, the number being `t[a..b]`. */
  predicate NumberThenMore(t: string, a: nat, b: nat) {
    0 < a < b && b + 1 < |t| && t[a - 1] == ' ' && (forall k | a <= k < b :: '0' <= t[k] <= '9') && t[b] == ' '
  }

  /** `\bwan-ip\s+(\d+)\s+(.+)$` matches from `p` on. */
  predicate WanAt(t: string, p: nat, b: nat) {
    p <= |t| && Boundary(t, p) && Reads(t, p, "wan-ip") && NumberThenMore(t, p + 7, b)
  }

  /** `^service-port\s+(\d+)\s+(.+)$` matches; the two parts are `t[13..b]` and `t[b + 1..]`. */
  predicate PortAt(t: string, b: nat) {
    Reads(t, 0, "service-port") && NumberThenMore(t, 13, b)
  }

  /** A stretch without blanks from where a word lies up to a blank is the word. */
  lemma EndsAtBlank(t: string, a: nat, word: string, b: nat)
    requires Lies(t, a, word) && a <= b < |t| && t[b] == ' ' && forall k | a <= k < b :: t[k] != ' '
    ensures b == a + |word|
  {
    forall j | a <= j < a + |word|
      ensures t[j] != ' '
    {
      assert t[a + (j - a)] == word[j - a];
    }
  }

  lemma NumberWord(ws: seq<string>, t: string, a: nat, b: nat) returns (i: nat)
    requires LineOf(ws, t) && NumberThenMore(t, a, b)
    ensures 0 < i && i + 1 < |ws| && a == At(ws, i) && AllDigits(ws[i]) && ws[i] == t[a..b]
  {
    i := PlaceOf(ws, t, a - 1, |ws|);
    WordLies(ws, t, i);
    EndsAtBlank(t, a, ws[i], b);
    LiesSlice(t, a, ws[i], b - a);
  }

  lemma DigitsWord(ws: seq<string>, t: string, i: nat)
    requires LineOf(ws, t) && 0 < i && i + 1 < |ws| && AllDigits(ws[i])
    ensures var (a, b) := (At(ws, i), At(ws, i) + |ws[i]|);
            NumberThenMore(t, a, b) && t[a..b] == ws[i] && At(ws, i + 1) == b + 1
  {
    WordLies(ws, t, i);
    WordLies(ws, t, i + 1);
    LiesSlice(t, At(ws, i), ws[i], |ws[i]|);
    forall k | At(ws, i) <= k < At(ws, i) + |ws[i]|
      ensures IsDigit(t[k])
    {
      assert t[At(ws, i) + (k - At(ws, i))] == ws[i][k - At(ws, i)];
    }
    WordWithin(ws, t, i);
  }

  lemma WanLineMatches(ws: seq<string>, t: string, i: nat)
    requires LineOf(ws, t) && i + 2 < |ws| && EndsIn(ws[i], "wan-ip") && AllDigits(ws[i + 1])
    ensures exists p: nat, b: nat :: WanAt(t, p, b)
  {
    DigitsWord(ws, t, i + 1);
    WordLies(ws, t, i);
    var p := PlainKeyReads(ws, t, i, "wan-ip");
    assert WanAt(t, p, At(ws, i + 1) + |ws[i + 1]|);
  }

  lemma WanMatchIsLine(ws: seq<string>, t: string, p: nat, b: nat)
    requires LineOf(ws, t) && WanAt(t, p, b)
    ensures IsWanLine(ws)
  {
    var i := NumberWord(ws, t, p + 7, b);
    WordLies(ws, t, i - 1);
    KeyEndsWord(ws, t, i - 1, "wan-ip", p);
    IsWan(ws, i - 1);
  }

  lemma IsWan(ws: seq<string>, i: nat)
    requires i + 2 < |ws| && EndsIn(ws[i], "wan-ip") && AllDigits(ws[i + 1]) && ws[i + 1] != []
    ensures IsWanLine(ws)
  {
  }

  /** A WAN line is one whose text the expression matches. */
  lemma WanLineIsTheExpression(ws: seq<string>, t: string)
    requires LineOf(ws, t)
    ensures IsWanLine(ws) <==> exists p: nat, b: nat :: WanAt(t, p, b)
  {
    if IsWanLine(ws) {
      var i :| 0 <= i < |ws| - 2 && EndsIn(ws[i], "wan-ip") && ws[i + 1] != [] && AllDigits(ws[i + 1]);
      WanLineMatches(ws, t, i);
    }
    if p: nat, b: nat :| WanAt(t, p, b) {
      WanMatchIsLine(ws, t, p, b);
    }
  }

  lemma {:induction false} AtRest(ws: seq<string>, n: nat, i: nat)
    requires n + i <= |ws|
    ensures At(ws[n..], i) + At(ws, n) == At(ws, n + i)
    decreases i
  {
    if i > 0 {
      AtRest(ws, n, i - 1);
      assert ws[n..][i - 1] == ws[n + i - 1];
    }
  }

  /** The words from `n` on are the line from there on. */
  lemma RestOfLine(ws: seq<string>, t: string, n: nat)
    requires LineOf(ws, t) && n < |ws|
    ensures At(ws, n) <= |t| && LineOf(ws[n..], t[At(ws, n)..])
  {
    var (rest, a) := (ws[n..], At(ws, n));
    WordLies(ws, t, n);
    AtRest(ws, n, |rest|);
    forall i, k | 0 <= i < |rest| && 0 <= k < |rest[i]|
      ensures InWord(rest, t[a..], i, k)
    {
      AtRest(ws, n, i);
      CharacterOf(ws, t, n + i, k);
    }
    forall i | 0 < i < |rest|
      ensures BlankBefore(rest, t[a..], i)
    {
      AtRest(ws, n, i);
      assert BlankBefore(ws, t, n + i);
      WordLies(ws, t, n + i);
      LaterAt(ws, n, n + i);
    }
    forall i | 0 <= i < |rest|
      ensures IsWordAt(rest, i)
    {
      assert IsWordAt(ws, n + i);
    }
  }

  /** A key that the text begins with and a blank follows is the first word. */
  lemma FirstIsKey(ws: seq<string>, t: string, i: nat, key: string)
    requires LineOf(ws, t) && i < |ws| && IsKey(key) && Reads(t, 0, key) && At(ws, i) + |ws[i]| == |key|
    ensures i == 0 && Lower(ws[0]) == key
  {
    KeyEndsWord(ws, t, i, key, 0);
    assert At(ws, i) == 0;
  }

  lemma PortWords(ws: seq<string>, t: string, b: nat)
    requires LineOf(ws, t) && PortAt(t, b)
    ensures |ws| >= 3 && Lower(ws[0]) == "service-port" && AllDigits(ws[1]) && ws[1] == t[13..b] != []
    ensures LineOf(ws[2..], t[b + 1..])
  {
    var i := NumberWord(ws, t, 13, b);
    WordLies(ws, t, i - 1);
    FirstIsKey(ws, t, i - 1, "service-port");
    WordLies(ws, t, i);
    RestOfLine(ws, t, 2);
  }

  lemma PortMatches(ws: seq<string>, t: string)
    requires LineOf(ws, t) && |ws| >= 3 && Lower(ws[0]) == "service-port" && AllDigits(ws[1])
    ensures exists b: nat :: PortAt(t, b)
  {
    DigitsWord(ws, t, 1);
    assert ws[0][0..] == ws[0];
    WordEndsInKey(ws, t, 0, "service-port");
    WordLies(ws, t, 0);
    assert PortAt(t, At(ws, 1) + |ws[1]|);
  }

  /** A service-port line is about the number it names, clipped to 64 bits, and says the rest of its text... */
  lemma PortLineReads(ws: seq<string>, t: string, b: nat)
    requires LineOf(ws, t) && PortAt(t, b) && forall p: nat, c: nat :: !WanAt(t, p, c)
    ensures |ws| > 2 && LineOf(ws[2..], t[b + 1..])
    ensures var n := Value(t[13..b]);
            ServicePortLine(ws) == if n < 1 then None
                                   else Some((if n <= 0x7FFF_FFFF_FFFF_FFFF then n else 0x7FFF_FFFF_FFFF_FFFF, ws[2..]))
  {
    PortWords(ws, t, b);
    WanLineIsTheExpression(ws, t);
  }

  /** ... and no other line is one: not a WAN line, and not one the expression does not match. */
  lemma OtherLinesAreSkipped(ws: seq<string>, t: string)
    requires LineOf(ws, t) && ((exists p: nat, b: nat :: WanAt(t, p, b)) || forall b: nat :: !PortAt(t, b))
    ensures ServicePortLine(ws) == None
  {
    WanLineIsTheExpression(ws, t);
    if ServicePortLine(ws).Some? {
      PortMatches(ws, t);
    }
  }

  // ---------------------------------------------------------------- what a line says about a field

  /** ` cos 0` or ` scos 0` in the text, for the class of service it is about. */
  ghost predicate ZeroSaid(t: string, field: Field) {
    (field == CTagCos && SetTo0(t, "cos")) || (field == STagCos && SetTo0(t, "scos"))
  }

  lemma SaysFound(ws: seq<string>, t: string, field: Field)
    requires LineOf(ws, t)
    ensures var n := Find("", ws, field);
            Says(ws, field) == if n > 0 || ZeroSaid(t, field) then Some(n) else None
  {
    SetsZeroIsContains(ws, t, "cos");
    SetsZeroIsContains(ws, t, "scos");
  }

  /** A line sets a field to the first number its expression finds, if that is positive and in range; failing that, a
      class of service is set to 0 by the text ` cos 0` or ` scos 0`. */
  lemma SaysIsTheExpression(ws: seq<string>, t: string, field: Field, p: nat, a: nat, b: nat)
    requires LineOf(ws, t) && FirstMatch(t, field, p, a, b)
    ensures a < b <= |t| && AllDigits(t[a..b])
    ensures Says(ws, field)
            == if 0 < Value(t[a..b]) <= 0x7FFF_FFFF_FFFF_FFFF then Some(Value(t[a..b]))
               else if ZeroSaid(t, field) then Some(0)
               else None
  {
    FindIsTheExpression(ws, t, field, p, a, b);
    MatchIsDigits(t, field, p, a, b);
    SaysFound(ws, t, field);
  }

  lemma SaysNothing(ws: seq<string>, t: string, field: Field)
    requires LineOf(ws, t) && forall p: nat, a: nat, b: nat :: !Matches(t, field, p, a, b)
    ensures Says(ws, field) == if ZeroSaid(t, field) then Some(0) else None
  {
    NothingFoundIsNoMatch(ws, t, field);
    SaysFound(ws, t, field);
  }

  lemma MatchIsDigits(t: string, field: Field, p: nat, a: nat, b: nat)
    requires Matches(t, field, p, a, b)
    ensures a < b <= |t| && AllDigits(t[a..b])
            && Atoi(t[a..b]) == if Value(t[a..b]) <= 0x7FFF_FFFF_FFFF_FFFF then Value(t[a..b]) else 0
  {
    assert NumberAt(t, a, b);
  }

  // ---------------------------------------------------------------- the ether type

  predicate ValueChar(c: char) {
    'a' <= c <= 'z' || 'A' <= c <= 'Z' || '0' <= c <= '9' || c == '_' || c == '-'
  }

  /** `\b(?:etype|user-etype)\s+([a-z0-9_\-]+)\b` matches from `p` to `b`, the value being `t[a..b]`. */
  predicate EtypeAt(t: string, p: nat, a: nat, b: nat) {
    && p <= |t| && Boundary(t, p)
    && ((Reads(t, p, "etype") && a == p + 6) || (Reads(t, p, "user-etype") && a == p + 11))
    && a < b <= |t| && t[a - 1] == ' ' && (forall k | a <= k < b :: ValueChar(t[k])) && Boundary(t, b)
  }

  /** The match the expression finds: the one that starts first, its value as long as it can be. */
  ghost predicate FirstEtype(t: string, p: nat, a: nat, b: nat) {
    && EtypeAt(t, p, a, b)
    && forall p': nat, a': nat, b': nat | EtypeAt(t, p', a', b') :: p <= p' && (p' == p ==> b' <= b)
  }

  function ValueLength(word: string): nat
    ensures ValueLength(word) <= |word|
  {
    ToBoundary(word, EtypeLength(word))
  }

  predicate EndsAt(word: string, k: nat)
    requires 0 < k <= |word|
  {
    WordChar(word[k - 1]) != (k < |word| && WordChar(word[k]))
  }

  lemma {:induction false} EtypeLengthIs(word: string, n: nat)
    requires n <= |word| && forall k | 0 <= k < n :: ValueChar(word[k])
    ensures n <= EtypeLength(word)
    ensures forall k | 0 <= k < EtypeLength(word) :: ValueChar(word[k])
    decreases |word|
  {
    if word != [] {
      if EtypeChar(word[0]) {
        EtypeLengthIs(word[1..], if n == 0 then 0 else n - 1);
        assert forall k | 1 <= k < EtypeLength(word) :: word[k] == word[1..][k - 1];
      }
    }
  }

  lemma {:induction false} ToBoundaryIs(word: string, n: nat, k: nat)
    requires n <= |word| && (0 < k <= n ==> EndsAt(word, k))
    ensures k <= n ==> k <= ToBoundary(word, n)
    ensures ToBoundary(word, n) > 0 ==> EndsAt(word, ToBoundary(word, n))
    decreases n
  {
    if n > 0 {
      ToBoundaryIs(word, n - 1, if k == n then 0 else k);
    }
  }

  lemma BoundaryInWord(t: string, a: nat, word: string, k: nat)
    requires Lies(t, a, word) && 0 < k <= |word|
    ensures Boundary(t, a + k) <==> EndsAt(word, k)
  {
    assert t[a + (k - 1)] == word[k - 1];
    assert k < |word| ==> t[a + k] == word[k];
  }

  predicate EtypeWord(ws: seq<string>, i: nat) {
    i + 1 < |ws| && EndsIn(ws[i], "etype") && ValueLength(ws[i + 1]) > 0
  }

  lemma UserEtypeEnds(word: string)
    requires EndsIn(word, "user-etype")
    ensures EndsIn(word, "etype")
  {
    var long := word[|word| - 10..];
    assert long[5..] == word[|word| - 5..];
    assert Lower(long)[4] == '-' && long[4] == word[|word| - 6];
    assert forall k | 0 <= k < 5 :: Lower(long[5..])[k] == Lower(long)[k + 5];
    assert Lower(long[5..]) == "etype";
  }

  lemma EtypeIsWord(ws: seq<string>, t: string, p: nat, a: nat, b: nat) returns (i: nat)
    requires LineOf(ws, t) && EtypeAt(t, p, a, b)
    ensures EtypeWord(ws, i) && a == At(ws, i + 1) && b <= a + ValueLength(ws[i + 1])
  {
    var j := PlaceOf(ws, t, a - 1, |ws|);
    i := j - 1;
    WordLies(ws, t, i);
    WordLies(ws, t, i + 1);
    KeyBeforeValue(ws, t, p, i);
    ValueInWord(t, a, ws[i + 1], b);
  }

  lemma KeyBeforeValue(ws: seq<string>, t: string, p: nat, i: nat)
    requires LineOf(ws, t) && i < |ws| && p <= |t| && Boundary(t, p)
    requires (Reads(t, p, "etype") && At(ws, i) + |ws[i]| == p + 5)
             || (Reads(t, p, "user-etype") && At(ws, i) + |ws[i]| == p + 10)
    ensures EndsIn(ws[i], "etype")
  {
    if Reads(t, p, "etype") && At(ws, i) + |ws[i]| == p + 5 {
      KeyEndsWord(ws, t, i, "etype", p);
    } else {
      KeyEndsWord(ws, t, i, "user-etype", p);
      UserEtypeEnds(ws[i]);
    }
  }

  lemma ValueInWord(t: string, a: nat, word: string, b: nat)
    requires Lies(t, a, word) && a < b <= |t| && (forall k | a <= k < b :: ValueChar(t[k])) && Boundary(t, b)
    ensures b <= a + |word| && b <= a + ValueLength(word)
  {
    assert forall k | a <= k < b :: t[k] != ' ';
    assert a + |word| < |t| ==> t[a + |word|] == ' ';
    forall k | 0 <= k < b - a
      ensures ValueChar(word[k])
    {
      assert t[a + k] == word[k];
    }
    EtypeLengthIs(word, b - a);
    BoundaryInWord(t, a, word, b - a);
    ToBoundaryIs(word, EtypeLength(word), b - a);
  }

  lemma ValueLies(t: string, a: nat, word: string)
    requires Lies(t, a, word) && ValueLength(word) > 0
    ensures var b := a + ValueLength(word);
            b <= |t| && Boundary(t, b) && t[a..b] == word[..ValueLength(word)]
                && forall k | a <= k < b :: ValueChar(t[k])
  {
    var n := ValueLength(word);
    EtypeLengthIs(word, 0);
    ToBoundaryIs(word, EtypeLength(word), 0);
    BoundaryInWord(t, a, word, n);
    LiesSlice(t, a, word, n);
    forall k | a <= k < a + n
      ensures ValueChar(t[k])
    {
      assert t[a + (k - a)] == word[k - a];
    }
  }

  lemma WordIsEtype(ws: seq<string>, t: string, i: nat) returns (p: nat, a: nat, b: nat)
    requires LineOf(ws, t) && EtypeWord(ws, i)
    ensures EtypeAt(t, p, a, b) && a == p + 6 == At(ws, i + 1) && b == a + ValueLength(ws[i + 1])
    ensures t[a..b] == ws[i + 1][..ValueLength(ws[i + 1])]
  {
    p := PlainKeyReads(ws, t, i, "etype");
    WordLies(ws, t, i);
    WordLies(ws, t, i + 1);
    a, b := At(ws, i + 1), At(ws, i + 1) + ValueLength(ws[i + 1]);
    ValueLies(t, a, ws[i + 1]);
  }

  /** A match whose value is later starts later. */
  lemma LaterEtype(t: string, p: nat, a: nat, b: nat, p': nat, a': nat, b': nat)
    requires EtypeAt(t, p, a, b) && EtypeAt(t, p', a', b') && a < a'
    ensures p < p'
  {
    if Reads(t, p', "etype") && a' == p' + 6 {
      NoBlankIn(t, p', "etype", a - 1);
    } else {
      NoBlankIn(t, p', "user-etype", a - 1);
    }
  }

  lemma NoBlankIn(t: string, p: nat, key: string, q: nat)
    requires IsKey(key) && Reads(t, p, key) && q < p + |key| && t[q] == ' '
    ensures q < p
  {
    KeyHasNoBlank(t, p, key);
  }

  /** Word `j` is the first from `i` on that is followed by an ether type. */
  ghost predicate FirstEtypeWord(ws: seq<string>, i: nat, j: nat) {
    i <= j && EtypeWord(ws, j) && forall k | i <= k < j :: !EtypeWord(ws, k)
  }

  lemma {:induction false} FindEtypeFrom(ws: seq<string>, i: nat, j: nat)
    requires i <= |ws|
    ensures FirstEtypeWord(ws, i, j) ==> FindEtype(ws[i..]) == Some(ws[j + 1][..ValueLength(ws[j + 1])])
    ensures (forall k | i <= k < |ws| :: !EtypeWord(ws, k)) ==> FindEtype(ws[i..]) == None
    decreases |ws| - i
  {
    FindEtypeStep(ws, i);
    if i + 1 < |ws| {
      FindEtypeFrom(ws, i + 1, j);
    }
  }

  lemma FindEtypeStep(ws: seq<string>, i: nat)
    requires i <= |ws|
    ensures FindEtype(ws[i..]) == if i + 1 >= |ws| then None
                                  else if EtypeWord(ws, i) then Some(ws[i + 1][..ValueLength(ws[i + 1])])
                                  else FindEtype(ws[i + 1..])
  {
    var cfg := ws[i..];
    if i + 1 < |ws| {
      assert cfg[0] == ws[i] && cfg[1] == ws[i + 1] && cfg[1..] == ws[i + 1..];
    }
  }

  lemma FirstEtypeIsFirstWord(ws: seq<string>, t: string, p: nat, a: nat, b: nat) returns (i: nat)
    requires LineOf(ws, t) && FirstEtype(t, p, a, b)
    ensures FirstEtypeWord(ws, 0, i) && t[a..b] == ws[i + 1][..ValueLength(ws[i + 1])]
  {
    i := EtypeIsWord(ws, t, p, a, b);
    SameValue(ws, t, p, a, b, i);
    forall k | 0 <= k < i
      ensures !EtypeWord(ws, k)
    {
      NoEtypeBefore(ws, t, p, a, b, i, k);
    }
  }

  lemma NoEtypeBefore(ws: seq<string>, t: string, p: nat, a: nat, b: nat, i: nat, k: nat)
    requires LineOf(ws, t) && FirstEtype(t, p, a, b) && k < i < |ws| && a == At(ws, i + 1)
    ensures !EtypeWord(ws, k)
  {
    LaterAt(ws, k + 1, i + 1);
    if EtypeWord(ws, k) {
      EtypeLater(ws, t, p, a, b, k);
    }
  }

  lemma EtypeLater(ws: seq<string>, t: string, p: nat, a: nat, b: nat, k: nat)
    requires LineOf(ws, t) && FirstEtype(t, p, a, b) && EtypeWord(ws, k)
    ensures a <= At(ws, k + 1)
  {
    var p', a', b' := WordIsEtype(ws, t, k);
    if a' < a {
      LaterEtype(t, p', a', b', p, a, b);
    }
  }

  /** The first match is as long as the word lets it be. */
  lemma SameValue(ws: seq<string>, t: string, p: nat, a: nat, b: nat, i: nat)
    requires LineOf(ws, t) && FirstEtype(t, p, a, b) && EtypeWord(ws, i) && a == At(ws, i + 1)
    requires b <= a + ValueLength(ws[i + 1])
    ensures t[a..b] == ws[i + 1][..ValueLength(ws[i + 1])]
  {
    var p', a', b' := WordIsEtype(ws, t, i);
    assert EtypeAt(t, p, a, b') by {
      assert EtypeAt(t, p', a', b');
    }
  }

  /** An explicit ether type is the value of the first match of its expression, shown by its name... */
  lemma EtypeIsTheExpression(ws: seq<string>, t: string, p: nat, a: nat, b: nat)
    requires LineOf(ws, t) && FirstEtype(t, p, a, b)
    ensures SaysEther(ws) == Some(EtherLabel(t[a..b]))
  {
    var i := FirstEtypeIsFirstWord(ws, t, p, a, b);
    FindEtypeFrom(ws, 0, i);
    assert ws[0..] == ws;
  }

  /** ... and without one, a protocol counts that the text contains anywhere, PPPoE before IPoE. */
  lemma WithoutEtype(ws: seq<string>, t: string)
    requires LineOf(ws, t) && forall p: nat, a: nat, b: nat :: !EtypeAt(t, p, a, b)
    ensures SaysEther(ws) == if Contains(t, "pppoe") then Some("PPPoE")
                             else if Contains(t, "ipoe") then Some("IPoE") else None
  {
    MentionsIsContains(ws, t, "pppoe");
    MentionsIsContains(ws, t, "ipoe");
    assert ws[0..] == ws;
    FindEtypeFrom(ws, 0, 0);
    forall k | 0 <= k < |ws|
      ensures !EtypeWord(ws, k)
    {
      if EtypeWord(ws, k) {
        var p, a, b := WordIsEtype(ws, t, k);
      }
    }
  }

  /** The names: three spellings of all types, the two protocols, and anything else in capitals. */
  lemma EtherNames(e: string)
    ensures (SameButCase(e, "all") || SameButCase(e, "all_ether_type") || SameButCase(e, "all-ether-type"))
            ==> EtherLabel(e) == "All Ether Type"
    ensures SameButCase(e, "pppoe") ==> EtherLabel(e) == "PPPoE"
    ensures SameButCase(e, "ipoe") ==> EtherLabel(e) == "IPoE"
    ensures SameButCase(e, "all") || SameButCase(e, "all_ether_type") || SameButCase(e, "all-ether-type")
            || SameButCase(e, "pppoe") || SameButCase(e, "ipoe")
            || (SameButCase(e, EtherLabel(e)) && forall c :: c in EtherLabel(e) ==> !('a' <= c <= 'z'))
  {
    LowerForgetsCase(e, "all");
    LowerForgetsCase(e, "all_ether_type");
    LowerForgetsCase(e, "all-ether-type");
    LowerForgetsCase(e, "pppoe");
    LowerForgetsCase(e, "ipoe");
    LowerKeeps();
  }

  lemma LowerKeeps()
    ensures Lower("all") == "all" && Lower("all_ether_type") == "all_ether_type"
    ensures Lower("all-ether-type") == "all-ether-type" && Lower("pppoe") == "pppoe" && Lower("ipoe") == "ipoe"
  {
  }
}
