/** The expressions of the running-configuration parser on the text of a line, and that reading words does the same. */
module ServicePortText {
  import opened Decimal
  import opened Money
  import opened ServicePort
  import opened Text

  // ---------------------------------------------------------------- the text of a line

  /** Where word `i` begins in the text of the words with single blanks between them. */
  function At(ws: seq<string>, i: nat): nat
    requires i <= |ws|
  {
    if i == 0 then 0 else At(ws, i - 1) + |ws[i - 1]| + 1
  }

  /** The text of words: each where it begins, a blank before each but the first. */
  ghost predicate TextOf(ws: seq<string>, t: string) {
    && ws != [] && |t| + 1 == At(ws, |ws|)
    && (forall i, k | 0 <= i < |ws| && 0 <= k < |ws[i]| :: InWord(ws, t, i, k))
    && (forall i | 0 < i < |ws| :: BlankBefore(ws, t, i))
  }

  predicate InWord(ws: seq<string>, t: string, i: nat, k: nat)
    requires i < |ws| && k < |ws[i]|
  {
    At(ws, i) + k < |t| && t[At(ws, i) + k] == ws[i][k]
  }

  predicate BlankBefore(ws: seq<string>, t: string, i: nat)
    requires i <= |ws|
  {
    0 < At(ws, i) <= |t| && t[At(ws, i) - 1] == ' '
  }

  predicate AreWords(ws: seq<string>) {
    forall i | 0 <= i < |ws| :: IsWordAt(ws, i)
  }

  predicate IsWordAt(ws: seq<string>, i: nat)
    requires i < |ws|
  {
    ws[i] != [] && forall k | 0 <= k < |ws[i]| :: ws[i][k] !in BLANKS
  }

  ghost predicate LineOf(ws: seq<string>, t: string) {
    TextOf(ws, t) && AreWords(ws)
  }

  lemma {:induction false} LaterAt(ws: seq<string>, i: nat, j: nat)
    requires i < j <= |ws|
    ensures At(ws, i) + |ws[i]| + 1 <= At(ws, j)
    decreases j
  {
    if i + 1 < j {
      LaterAt(ws, i, j - 1);
    }
  }

  /** Every position of the text is the blank before a word or lies in a word, whose characters are no blanks. */
  lemma {:induction false} PlaceOf(ws: seq<string>, t: string, p: nat, n: nat) returns (i: nat)
    requires LineOf(ws, t) && n <= |ws| && p < |t| && p + 1 < At(ws, n)
    ensures i < n
    ensures (t[p] == ' ' && i > 0 && p + 1 == At(ws, i)) || (t[p] != ' ' && At(ws, i) <= p < At(ws, i) + |ws[i]|)
    decreases n
  {
    i := n - 1;
    if p >= At(ws, i) {
      CharacterOf(ws, t, i, p - At(ws, i));
    } else if p + 1 == At(ws, i) {
      assert BlankBefore(ws, t, i);
    } else {
      i := PlaceOf(ws, t, p, i);
    }
  }

  lemma CharacterOf(ws: seq<string>, t: string, i: nat, k: nat)
    requires LineOf(ws, t) && i < |ws| && k < |ws[i]|
    ensures At(ws, i) + k < |t| && t[At(ws, i) + k] == ws[i][k] != ' '
  {
    assert InWord(ws, t, i, k) && IsWordAt(ws, i);
  }

  /** A stretch without blanks that ends with word `i` lies in it. */
  lemma StretchInWord(ws: seq<string>, t: string, i: nat, p: nat)
    requires TextOf(ws, t) && i < |ws| && p < At(ws, i) + |ws[i]| <= |t|
    requires forall k | p <= k < At(ws, i) + |ws[i]| :: t[k] != ' '
    ensures At(ws, i) <= p
  {
    assert i > 0 ==> BlankBefore(ws, t, i);
  }

  lemma WordWithin(ws: seq<string>, t: string, i: nat)
    requires LineOf(ws, t) && i < |ws|
    ensures At(ws, i) + |ws[i]| <= |t|
    ensures i + 1 == |ws| <==> At(ws, i) + |ws[i]| == |t|
    ensures i + 1 < |ws| ==> At(ws, i + 1) == At(ws, i) + |ws[i]| + 1 && t[At(ws, i + 1) - 1] == ' '
    ensures i > 0 ==> At(ws, i) > 0 && t[At(ws, i) - 1] == ' '
  {
    LaterAt(ws, i, |ws|);
    if i + 1 < |ws| {
      LaterAt(ws, i + 1, |ws|);
      assert BlankBefore(ws, t, i + 1);
    }
    if i > 0 {
      assert BlankBefore(ws, t, i);
    }
  }

  // ---------------------------------------------------------------- the expressions

  /** `\b` at `p`. */
  predicate Boundary(t: string, p: nat)
    requires p <= |t|
  {
    (p > 0 && WordChar(t[p - 1])) != (p < |t| && WordChar(t[p]))
  }

  /** `(?i)key` from `p` on. */
  predicate Reads(t: string, p: nat, key: string) {
    p + |key| <= |t| && SameButCase(t[p..p + |key|], key)
  }

  /** The alternatives of a field's expression. */
  function Keys(field: Field): seq<string> {
    match field
    case VPort => ["vport"]
    case UserVlan => ["user-vlan"]
    case UserSvlan => ["user-svlan"]
    case Vlan => ["vlan"]
    case Svlan => ["svlan"]
    case CTagCos => ["cos", "c-cos", "c-tag cos"]
    case STagCos => ["scos", "s-cos", "s-tag cos"]
  }

  /** How it starts: `(?:\s|^)` for the two plain vlans, `\b` for the others. */
  predicate Starts(t: string, p: nat, field: Field)
    requires p <= |t|
  {
    if field == Vlan || field == Svlan then p == 0 || t[p - 1] == ' ' else Boundary(t, p)
  }

  /** `\s+([0-9]+)\b` with the number in `t[a..b]`, the blank before it. */
  predicate NumberAt(t: string, a: nat, b: nat) {
    && 0 < a < b <= |t| && t[a - 1] == ' ' && (forall k | a <= k < b :: '0' <= t[k] <= '9') && Boundary(t, b)
  }

  /** The expression of the field matches from `p` to `b`, its number being `t[a..b]`. */
  predicate Matches(t: string, field: Field, p: nat, a: nat, b: nat) {
    exists key :: key in Keys(field) && p + |key| + 1 == a && p <= |t| && Starts(t, p, field) && Reads(t, p, key)
                  && NumberAt(t, a, b)
  }

  // ---------------------------------------------------------------- numbers

  lemma {:induction false} DigitsLengthIs(word: string, n: nat)
    requires n <= |word| && (forall k | 0 <= k < n :: IsDigit(word[k])) && (n < |word| ==> !IsDigit(word[n]))
    ensures DigitsLength(word) == n
  {
    if n == 0 {
    } else {
      DigitsLengthIs(word[1..], n - 1);
    }
  }

  /** The word `w` lies at `a`: its characters, then a blank or the end. */
  predicate Lies(t: string, a: nat, w: string) {
    && a + |w| <= |t| && (forall k | 0 <= k < |w| :: t[a + k] == w[k]) && (a + |w| < |t| ==> t[a + |w|] == ' ')
    && ' ' !in w && w != []
  }

  lemma WordLies(ws: seq<string>, t: string, i: nat)
    requires LineOf(ws, t) && i < |ws|
    ensures Lies(t, At(ws, i), ws[i])
    ensures i > 0 ==> At(ws, i) > 0 && t[At(ws, i) - 1] == ' '
    ensures i + 1 < |ws| ==> At(ws, i + 1) == At(ws, i) + |ws[i]| + 1
    ensures i + 1 == |ws| ==> At(ws, i) + |ws[i]| == |t|
  {
    WordWithin(ws, t, i);
    assert IsWordAt(ws, i);
    forall k | 0 <= k < |ws[i]|
      ensures t[At(ws, i) + k] == ws[i][k] != ' '
    {
      CharacterOf(ws, t, i, k);
    }
  }

  lemma NumberIsLike(t: string, a: nat, w: string, b: nat)
    requires Lies(t, a, w) && NumberAt(t, a, b)
    ensures NumberLike(w) && b == a + DigitsLength(w)
  {
    assert a + |w| < |t| ==> t[a + |w|] == ' ';
    assert b <= a + |w|;
    forall k | 0 <= k < b - a
      ensures IsDigit(w[k])
    {
      assert t[a + k] == w[k];
    }
    assert b - a < |w| ==> t[b] == w[b - a];
    assert t[b - 1] == w[b - 1 - a];
    DigitsLengthIs(w, b - a);
  }

  lemma LikeIsNumber(t: string, a: nat, w: string)
    requires Lies(t, a, w) && NumberLike(w) && a > 0 && t[a - 1] == ' '
    ensures NumberAt(t, a, a + DigitsLength(w))
  {
    var n := DigitsLength(w);
    forall k | a <= k < a + n
      ensures '0' <= t[k] <= '9'
    {
      assert t[a + (k - a)] == w[k - a] == w[..n][k - a];
    }
    assert n < |w| ==> t[a + n] == w[n];
    assert t[a + n - 1] == w[n - 1];
  }

  // ---------------------------------------------------------------- keys

  /** A key: lower-case letters and hyphens, beginning with a letter. */
  predicate IsKey(key: string) {
    key != [] && 'a' <= key[0] <= 'z' && forall k | 0 <= k < |key| :: 'a' <= key[k] <= 'z' || key[k] == '-'
  }

  lemma KeyIsLower(key: string)
    requires IsKey(key)
    ensures Lower(key) == key && ' ' !in key && WordChar(key[0])
  {
  }

  /** A key that ends where a word ends is the end of the word. */
  lemma SuffixReads(t: string, a: nat, w: string, key: string)
    requires Lies(t, a, w) && IsKey(key) && |key| <= |w|
    ensures Reads(t, a + |w| - |key|, key) <==> Lower(w[|w| - |key|..]) == key
  {
    var p := a + |w| - |key|;
    assert t[a..a + |w|] == w;
    assert t[p..p + |key|] == t[a..a + |w|][|w| - |key|..];
    KeyIsLower(key);
    LowerForgetsCase(t[p..p + |key|], key);
  }

  lemma KeyBoundary(t: string, a: nat, w: string, key: string)
    requires Lies(t, a, w) && (a > 0 ==> t[a - 1] == ' ') && IsKey(key) && |key| <= |w|
    requires Reads(t, a + |w| - |key|, key)
    ensures Boundary(t, a + |w| - |key|) <==> |key| == |w| || !WordChar(w[|w| - |key| - 1])
    ensures a + |w| - |key| == 0 || t[a + |w| - |key| - 1] == ' ' <==> |key| == |w|
  {
    var p := a + |w| - |key|;
    assert SameLetter(t[p..p + |key|][0], key[0]);
    assert WordChar(t[p]);
    if |key| < |w| {
      assert t[a + (|w| - |key| - 1)] == w[|w| - |key| - 1];
    }
  }

  lemma KeyEndsIn(t: string, a: nat, w: string, key: string, p: nat)
    requires Lies(t, a, w) && (a > 0 ==> t[a - 1] == ' ') && IsKey(key) && a <= p && p + |key| == a + |w|
    requires Reads(t, p, key)
    ensures |key| <= |w| && Lower(w[|w| - |key|..]) == key
    ensures Boundary(t, p) <==> EndsIn(w, key)
    ensures p == 0 || t[p - 1] == ' ' <==> Lower(w) == key
  {
    SuffixReads(t, a, w, key);
    KeyBoundary(t, a, w, key);
    WholeOrPart(w, key);
  }

  lemma WholeOrPart(w: string, key: string)
    requires |key| <= |w| && Lower(w[|w| - |key|..]) == key
    ensures Lower(w) == key <==> |key| == |w|
  {
    assert |key| == |w| ==> w[0..] == w;
  }

  lemma KeyHasNoBlank(t: string, p: nat, key: string)
    requires IsKey(key) && Reads(t, p, key)
    ensures forall k | p <= k < p + |key| :: t[k] != ' '
  {
    forall k | p <= k < p + |key|
      ensures t[k] != ' '
    {
      assert SameLetter(t[p..p + |key|][k - p], key[k - p]);
    }
  }

  lemma KeyInWord(ws: seq<string>, t: string, i: nat, key: string, p: nat)
    requires LineOf(ws, t) && i < |ws| && IsKey(key) && p + |key| == At(ws, i) + |ws[i]| && Reads(t, p, key)
    ensures At(ws, i) <= p && Lies(t, At(ws, i), ws[i]) && (At(ws, i) > 0 ==> t[At(ws, i) - 1] == ' ')
  {
    WordLies(ws, t, i);
    KeyHasNoBlank(t, p, key);
    StretchInWord(ws, t, i, p);
  }

  /** Where a key without blanks that ends with word `i` begins, the word ends in it. */
  lemma KeyEndsWord(ws: seq<string>, t: string, i: nat, key: string, p: nat)
    requires LineOf(ws, t) && i < |ws| && IsKey(key) && p + |key| == At(ws, i) + |ws[i]| && Reads(t, p, key)
    ensures At(ws, i) <= p && |key| <= |ws[i]| && Lower(ws[i][|ws[i]| - |key|..]) == key
    ensures Boundary(t, p) <==> EndsIn(ws[i], key)
    ensures p == 0 || t[p - 1] == ' ' <==> Lower(ws[i]) == key
  {
    KeyInWord(ws, t, i, key, p);
    KeyEndsIn(t, At(ws, i), ws[i], key, p);
  }

  lemma WordEndsInKey(ws: seq<string>, t: string, i: nat, key: string)
    requires LineOf(ws, t) && i < |ws| && IsKey(key) && |key| <= |ws[i]|
    requires Lower(ws[i][|ws[i]| - |key|..]) == key
    ensures Reads(t, At(ws, i) + |ws[i]| - |key|, key)
  {
    WordLies(ws, t, i);
    SuffixReads(t, At(ws, i), ws[i], key);
  }

  /** A key of two words. */
  lemma ReadsBoth(t: string, p: nat, first: string, second: string)
    ensures Reads(t, p, first + [' '] + second)
            <==> Reads(t, p, first) && p + |first| < |t| && t[p + |first|] == ' ' && Reads(t, p + |first| + 1, second)
  {
    var both := first + [' '] + second;
    if p + |both| <= |t| {
      var part := t[p..p + |both|];
      assert part[..|first|] == t[p..p + |first|];
      assert part[|first| + 1..] == t[p + |first| + 1..p + |first| + 1 + |second|];
      assert SameButCase(part, both) <==>
        SameButCase(part[..|first|], first) && SameLetter(part[|first|], ' ')
        && SameButCase(part[|first| + 1..], second) by {
        SameParts(part, first, second);
      }
    }
  }

  lemma SameParts(part: string, first: string, second: string)
    requires |part| == |first| + 1 + |second|
    ensures SameButCase(part, first + [' '] + second)
            <==> SameButCase(part[..|first|], first) && SameLetter(part[|first|], ' ')
                 && SameButCase(part[|first| + 1..], second)
  {
    var both := first + [' '] + second;
    if SameButCase(part, both) {
      assert forall i | 0 <= i < |first| :: SameLetter(part[i], both[i]);
      assert SameLetter(part[|first|], both[|first|]);
      forall i | 0 <= i < |second|
        ensures SameLetter(part[|first| + 1..][i], second[i])
      {
        assert SameLetter(part[|first| + 1 + i], both[|first| + 1 + i]);
      }
    }
    if SameButCase(part[..|first|], first) && SameLetter(part[|first|], ' ') && SameButCase(part[|first| + 1..],
        second) {
      forall i | 0 <= i < |both|
        ensures SameLetter(part[i], both[i])
      {
        assert i < |first| ==> part[i] == part[..|first|][i];
        assert i > |first| ==> part[i] == part[|first| + 1..][i - |first| - 1];
      }
    }
  }

  // ---------------------------------------------------------------- fields

  /** The key from `p` to the end of word `i` is an alternative of the field, and starts as it must. */
  ghost predicate Keyed(ws: seq<string>, t: string, i: nat, field: Field, key: string, p: nat)
    requires i < |ws|
  {
    && key in Keys(field) && p + |key| == At(ws, i) + |ws[i]| <= |t|
    && Starts(t, p, field) && Reads(t, p, key)
  }

  function WordBefore(ws: seq<string>, i: nat): string
    requires i < |ws|
  {
    if i == 0 then "" else ws[i - 1]
  }

  lemma PlainKey(ws: seq<string>, t: string, i: nat, field: Field, key: string, p: nat)
    requires LineOf(ws, t) && i < |ws| && Keyed(ws, t, i, field, key, p) && IsKey(key)
    ensures if field == Vlan || field == Svlan then Lower(ws[i]) == key else EndsIn(ws[i], key)
  {
    KeyEndsWord(ws, t, i, key, p);
  }

  /** Of a key of two words, the second is the whole word and the first ends the one before. */
  lemma DoubleKey(ws: seq<string>, t: string, i: nat, p: nat, first: string, second: string)
    requires LineOf(ws, t) && i < |ws| && IsKey(first) && IsKey(second)
    requires p + |first| + 1 + |second| == At(ws, i) + |ws[i]| && Reads(t, p, first + [' '] + second) && Boundary(t, p)
    ensures i > 0 && Lower(ws[i]) == second && EndsIn(ws[i - 1], first)
  {
    ReadsBoth(t, p, first, second);
    WordLies(ws, t, i);
    KeyEndsWord(ws, t, i, second, p + |first| + 1);
    assert At(ws, i) == p + |first| + 1;
    KeyEndsWord(ws, t, i - 1, first, p);
  }

  lemma DoubleKeyReads(ws: seq<string>, t: string, i: nat, first: string, second: string) returns (p: nat)
    requires LineOf(ws, t) && 0 < i < |ws| && IsKey(first) && IsKey(second)
    requires Lower(ws[i]) == second && EndsIn(ws[i - 1], first)
    ensures p + |first| + 1 + |second| == At(ws, i) + |ws[i]| <= |t| && Boundary(t, p)
    ensures Reads(t, p, first + [' '] + second)
  {
    WordLies(ws, t, i);
    WordLies(ws, t, i - 1);
    p := At(ws, i - 1) + |ws[i - 1]| - |first|;
    WordEndsInKey(ws, t, i - 1, first);
    KeyEndsWord(ws, t, i - 1, first, p);
    assert ws[i][0..] == ws[i];
    WordEndsInKey(ws, t, i, second);
    ReadsBoth(t, p, first, second);
  }

  lemma PlainKeyReads(ws: seq<string>, t: string, i: nat, key: string) returns (p: nat)
    requires LineOf(ws, t) && i < |ws| && IsKey(key) && EndsIn(ws[i], key)
    ensures p + |key| == At(ws, i) + |ws[i]| <= |t| && Boundary(t, p) && Reads(t, p, key)
    ensures Lower(ws[i]) == key ==> p == 0 || t[p - 1] == ' '
  {
    WordLies(ws, t, i);
    WordEndsInKey(ws, t, i, key);
    p := At(ws, i) + |ws[i]| - |key|;
    KeyEndsWord(ws, t, i, key, p);
  }

  lemma KeysAreKeys()
    ensures IsKey("vport") && IsKey("user-vlan") && IsKey("user-svlan") && IsKey("vlan") && IsKey("svlan")
    ensures IsKey("cos") && IsKey("c-cos") && IsKey("scos") && IsKey("s-cos") && IsKey("c-tag") && IsKey("s-tag")
  {
  }

  lemma ShorterEnd(word: string)
    requires EndsIn(word, "c-cos")
    ensures EndsIn(word, "cos")
  {
    var long := word[|word| - 5..];
    assert Lower(long)[1] == '-' && long[1] == word[|word| - 4];
    assert Lower(long)[2..] == "cos";
    assert Lower(word[|word| - 3..]) == "cos" by {
      assert word[|word| - 3..] == long[2..];
      assert forall k | 0 <= k < 3 :: Lower(long[2..])[k] == Lower(long)[k + 2];
    }
  }

  lemma WholeEnds(word: string, key: string)
    requires Lower(word) == key && key != []
    ensures EndsIn(word, key)
  {
    assert word[0..] == word;
  }

  /** Where an alternative of the field ends with a word, the word announces the field... */
  lemma KeyedAnnounces(ws: seq<string>, t: string, i: nat, field: Field, key: string, p: nat)
    requires LineOf(ws, t) && i < |ws| && Keyed(ws, t, i, field, key, p)
    ensures Announces(WordBefore(ws, i), ws[i], field)
  {
    KeysAreKeys();
    if key == "c-tag cos" {
      assert key == "c-tag" + [' '] + "cos";
      DoubleKey(ws, t, i, p, "c-tag", "cos");
      WholeEnds(ws[i], "cos");
    } else if key == "s-tag cos" {
      assert key == "s-tag" + [' '] + "cos";
      DoubleKey(ws, t, i, p, "s-tag", "cos");
    } else {
      PlainKey(ws, t, i, field, key, p);
      if key == "c-cos" {
        ShorterEnd(ws[i]);
      }
    }
  }

  /** ... and where a word announces it, one ends there. */
  lemma AnnouncedIsKeyed(ws: seq<string>, t: string, i: nat, field: Field) returns (key: string, p: nat)
    requires LineOf(ws, t) && i < |ws| && Announces(WordBefore(ws, i), ws[i], field)
    ensures Keyed(ws, t, i, field, key, p)
  {
    KeysAreKeys();
    if field.STagCos? && !EndsIn(ws[i], "scos") && !EndsIn(ws[i], "s-cos") {
      assert i > 0;
      p := DoubleKeyReads(ws, t, i, "s-tag", "cos");
      key := "s-tag cos";
      assert key == "s-tag" + [' '] + "cos";
    } else {
      key := match field
        case VPort => "vport"
        case UserVlan => "user-vlan"
        case UserSvlan => "user-svlan"
        case Vlan => "vlan"
        case Svlan => "svlan"
        case CTagCos => "cos"
        case STagCos => if EndsIn(ws[i], "scos") then "scos" else "s-cos";
      if field == Vlan || field == Svlan {
        WholeEnds(ws[i], key);
      }
      p := PlainKeyReads(ws, t, i, key);
    }
  }

  // ---------------------------------------------------------------- main results

  /** What `Find` looks for: a word that announces the field before one like a number. */
  predicate AnnouncedAt(ws: seq<string>, i: nat, field: Field) {
    i + 1 < |ws| && Announces(WordBefore(ws, i), ws[i], field) && NumberLike(ws[i + 1])
  }

  /** A number after a blank is the beginning of a word but the first. */
  lemma NumberPlace(ws: seq<string>, t: string, a: nat, b: nat) returns (i: nat)
    requires LineOf(ws, t) && NumberAt(t, a, b)
    ensures i + 1 < |ws| && a == At(ws, i + 1) == At(ws, i) + |ws[i]| + 1 && b == a + DigitsLength(ws[i + 1])
    ensures NumberLike(ws[i + 1]) && t[a..b] == ws[i + 1][..DigitsLength(ws[i + 1])]
  {
    var j := PlaceOf(ws, t, a - 1, |ws|);
    i := j - 1;
    WordLies(ws, t, i);
    WordLies(ws, t, j);
    NumberIsLike(t, a, ws[j], b);
    LiesSlice(t, a, ws[j], b - a);
  }

  /** The expression matches with the number at `a` exactly where a word announces the field before the one there. */
  lemma MatchIsAnnounced(ws: seq<string>, t: string, field: Field, p: nat, a: nat, b: nat) returns (i: nat)
    requires LineOf(ws, t) && Matches(t, field, p, a, b)
    ensures AnnouncedAt(ws, i, field) && a == At(ws, i + 1) && a <= b <= |t|
    ensures t[a..b] == ws[i + 1][..DigitsLength(ws[i + 1])]
  {
    var key :| key in Keys(field) && p + |key| + 1 == a && p <= |t| && Starts(t, p, field) && Reads(t, p, key)
               && NumberAt(t, a, b);
    i := NumberPlace(ws, t, a, b);
    KeyedAnnounces(ws, t, i, field, key, p);
  }

  lemma AnnouncedMatches(ws: seq<string>, t: string, i: nat, field: Field) returns (p: nat, a: nat, b: nat)
    requires LineOf(ws, t) && AnnouncedAt(ws, i, field)
    ensures Matches(t, field, p, a, b) && a == At(ws, i + 1)
  {
    var key;
    key, p := AnnouncedIsKeyed(ws, t, i, field);
    a, b := At(ws, i + 1), At(ws, i + 1) + DigitsLength(ws[i + 1]);
    NumberAfter(ws, t, i);
  }

  lemma NumberAfter(ws: seq<string>, t: string, i: nat)
    requires LineOf(ws, t) && i + 1 < |ws| && NumberLike(ws[i + 1])
    ensures NumberAt(t, At(ws, i + 1), At(ws, i + 1) + DigitsLength(ws[i + 1]))
    ensures At(ws, i + 1) == At(ws, i) + |ws[i]| + 1
  {
    WordLies(ws, t, i);
    WordLies(ws, t, i + 1);
    LikeIsNumber(t, At(ws, i + 1), ws[i + 1]);
  }

  /** A match that starts later has its number later. */
  lemma LaterMatch(t: string, field: Field, p: nat, a: nat, b: nat, p': nat, a': nat, b': nat)
    requires Matches(t, field, p, a, b) && Matches(t, field, p', a', b') && a < a'
    ensures p < p'
  {
    var key :| key in Keys(field) && p' + |key| + 1 == a' && p' <= |t| && Starts(t, p', field) && Reads(t, p', key)
               && NumberAt(t, a', b');
    NoDigitInKeys(field, key);
    assert '0' <= t[a] <= '9';
    if p' <= a < a' - 1 {
      assert SameLetter(t[p'..p' + |key|][a - p'], key[a - p']);
    }
  }

  lemma NoDigitInKeys(field: Field, key: string)
    requires key in Keys(field)
    ensures forall k | 0 <= k < |key| :: !('0' <= key[k] <= '9')
  {
  }

  lemma FindStep(ws: seq<string>, i: nat, field: Field)
    requires i < |ws|
    ensures Find(WordBefore(ws, i), ws[i..], field)
            == if i + 1 == |ws| then 0 else if AnnouncedAt(ws, i, field) then NumberOf(ws[i + 1])
               else Find(WordBefore(ws, i + 1), ws[i + 1..], field)
  {
    var cfg := ws[i..];
    assert cfg[0] == ws[i] && cfg[1..] == ws[i + 1..];
    assert i + 1 < |ws| ==> cfg[1] == ws[i + 1];
  }

  /** Word `j` is the first from `i` on that announces the field. */
  ghost predicate FirstAnnounced(ws: seq<string>, i: nat, j: nat, field: Field) {
    i <= j && AnnouncedAt(ws, j, field) && forall k | i <= k < j :: !AnnouncedAt(ws, k, field)
  }

  lemma {:induction false} FindFrom(ws: seq<string>, i: nat, j: nat, field: Field)
    requires i < |ws|
    ensures FirstAnnounced(ws, i, j, field) ==> Find(WordBefore(ws, i), ws[i..], field) == NumberOf(ws[j + 1])
    ensures (forall k | i <= k < |ws| :: !AnnouncedAt(ws, k, field)) ==> Find(WordBefore(ws, i), ws[i..], field) == 0
    decreases |ws| - i
  {
    FindStep(ws, i, field);
    if i + 1 < |ws| {
      FindFrom(ws, i + 1, j, field);
    }
  }

  lemma LiesSlice(t: string, a: nat, w: string, n: nat)
    requires Lies(t, a, w) && n <= |w|
    ensures t[a..a + n] == w[..n]
  {
    forall k | 0 <= k < n
      ensures t[a..a + n][k] == w[..n][k]
    {
      assert t[a + k] == w[k];
    }
  }

  /** The match the expression finds: the one that starts first. */
  ghost predicate FirstMatch(t: string, field: Field, p: nat, a: nat, b: nat) {
    Matches(t, field, p, a, b) && forall p': nat, a': nat, b': nat | Matches(t, field, p', a', b') :: p <= p'
  }

  lemma FirstMatchIsFirstAnnounced(ws: seq<string>, t: string, field: Field, p: nat, a: nat, b: nat) returns (i: nat)
    requires LineOf(ws, t) && FirstMatch(t, field, p, a, b)
    ensures FirstAnnounced(ws, 0, i, field) && a <= b <= |t| && t[a..b] == ws[i + 1][..DigitsLength(ws[i + 1])]
  {
    i := MatchIsAnnounced(ws, t, field, p, a, b);
    forall k | 0 <= k < i
      ensures !AnnouncedAt(ws, k, field)
    {
      NoneAnnouncedBefore(ws, t, field, p, a, b, i, k);
    }
  }

  lemma NoneAnnouncedBefore(ws: seq<string>, t: string, field: Field, p: nat, a: nat, b: nat, i: nat, k: nat)
    requires LineOf(ws, t) && FirstMatch(t, field, p, a, b) && k < i < |ws| && a == At(ws, i + 1)
    ensures !AnnouncedAt(ws, k, field)
  {
    LaterAt(ws, k + 1, i + 1);
    if AnnouncedAt(ws, k, field) {
      AnnouncedLater(ws, t, field, p, a, b, k);
    }
  }

  lemma AnnouncedLater(ws: seq<string>, t: string, field: Field, p: nat, a: nat, b: nat, k: nat)
    requires LineOf(ws, t) && FirstMatch(t, field, p, a, b) && AnnouncedAt(ws, k, field)
    ensures a <= At(ws, k + 1)
  {
    var p', a', b' := AnnouncedMatches(ws, t, k, field);
    FirstNumber(t, field, p, a, b, p', a', b');
  }

  /** The first match has the first number. */
  lemma FirstNumber(t: string, field: Field, p: nat, a: nat, b: nat, p': nat, a': nat, b': nat)
    requires FirstMatch(t, field, p, a, b) && Matches(t, field, p', a', b')
    ensures a <= a'
  {
    if a' < a {
      LaterMatch(t, field, p', a', b', p, a, b);
    }
  }

  /** Reading words finds the number of the first match of the field's expression in their text... */
  lemma FindIsTheExpression(ws: seq<string>, t: string, field: Field, p: nat, a: nat, b: nat)
    requires LineOf(ws, t) && FirstMatch(t, field, p, a, b)
    ensures a <= b <= |t| && Find("", ws, field) == Atoi(t[a..b])
  {
    var i := FirstMatchIsFirstAnnounced(ws, t, field, p, a, b);
    FirstFound(ws, field, i, t[a..b]);
  }

  lemma FirstFound(ws: seq<string>, field: Field, i: nat, digits: string)
    requires FirstAnnounced(ws, 0, i, field) && digits == ws[i + 1][..DigitsLength(ws[i + 1])]
    ensures Find("", ws, field) == Atoi(digits)
  {
    FindFrom(ws, 0, i, field);
    assert ws[0..] == ws;
  }

  /** ... and 0 if the expression does not match. */
  lemma NothingFoundIsNoMatch(ws: seq<string>, t: string, field: Field)
    requires LineOf(ws, t) && forall p: nat, a: nat, b: nat :: !Matches(t, field, p, a, b)
    ensures Find("", ws, field) == 0
  {
    FindFrom(ws, 0, 0, field);
    assert ws[0..] == ws;
    forall j | 0 <= j < |ws|
      ensures !AnnouncedAt(ws, j, field)
    {
      if AnnouncedAt(ws, j, field) {
        var p, a, b := AnnouncedMatches(ws, t, j, field);
      }
    }
  }

  // ---------------------------------------------------------------- the text a line has

  lemma {:induction false} WordsAreWords(line: string)
    ensures AreWords(Words(line))
    decreases |line|
  {
    if line == [] {
    } else if line[0] in BLANKS {
      WordsAreWords(line[1..]);
    } else {
      var (n, ws) := (WordEnd(line, 0), Words(line));
      WordsAreWords(line[n..]);
      forall i | 0 <= i < |ws|
        ensures IsWordAt(ws, i)
      {
        if i > 0 {
          assert IsWordAt(Words(line[n..]), i - 1);
        }
      }
    }
  }

  /** The words with single blanks between them are such a text. */
  lemma {:induction false} JoinIsText(ws: seq<string>)
    requires ws != [] && AreWords(ws)
    ensures LineOf(ws, Join(ws, ' '))
  {
    if |ws| == 1 {
      assert forall k | 0 <= k < |ws[0]| :: InWord(ws, ws[0], 0, k);
    } else {
      var rest := ws[1..];
      assert forall i | 0 <= i < |rest| :: IsWordAt(ws, i + 1) && rest[i] == ws[i + 1];
      assert forall i | 0 <= i < |rest| :: IsWordAt(rest, i);
      JoinIsText(rest);
      OneWordFirst(ws, Join(rest, ' '));
    }
  }

  lemma {:induction false} AtOfRest(ws: seq<string>, i: nat)
    requires ws != [] && i < |ws|
    ensures At(ws, i + 1) == |ws[0]| + 1 + At(ws[1..], i)
  {
    if i > 0 {
      AtOfRest(ws, i - 1);
      assert ws[1..][i - 1] == ws[i];
    }
  }

  lemma OneWordFirst(ws: seq<string>, text: string)
    requires |ws| > 1 && LineOf(ws[1..], text)
    ensures TextOf(ws, ws[0] + [' '] + text)
  {
    var (rest, t) := (ws[1..], ws[0] + [' '] + text);
    AtOfRest(ws, |ws| - 1);
    forall i, k | 0 <= i < |ws| && 0 <= k < |ws[i]|
      ensures InWord(ws, t, i, k)
    {
      if i > 0 {
        AtOfRest(ws, i - 1);
        assert rest[i - 1] == ws[i] && InWord(rest, text, i - 1, k);
      }
    }
    forall i | 0 < i < |ws|
      ensures BlankBefore(ws, t, i)
    {
      AtOfRest(ws, i - 1);
      if i > 1 {
        assert BlankBefore(rest, text, i - 1);
      }
    }
  }

  // ---------------------------------------------------------------- parts of the text

  /** `strings.Contains` of the lower-case text. */
  ghost predicate Contains(t: string, part: string) {
    exists q :: 0 <= q <= |t| && Reads(t, q, part)
  }

  lemma ReadsShift(t: string, q: nat, part: string)
    requires t != []
    ensures Reads(t, q + 1, part) <==> Reads(t[1..], q, part)
  {
    if q + 1 + |part| <= |t| {
      assert t[q + 1..q + 1 + |part|] == t[1..][q..q + |part|];
    }
  }

  lemma {:induction false} WithinMeaning(part: string, word: string)
    requires Lower(part) == part
    ensures Within(part, word) <==> Contains(word, part)
  {
    if |word| >= |part| {
      assert word[0..0 + |part|] == word[..|part|];
      LowerForgetsCase(word[..|part|], part);
      assert Reads(word, 0, part) <==> Lower(word[..|part|]) == part;
      if word != [] {
        WithinMeaning(part, word[1..]);
        ContainsLater(word, part);
      }
    }
  }

  lemma ContainsLater(t: string, part: string)
    requires t != []
    ensures Contains(t, part) <==> Reads(t, 0, part) || Contains(t[1..], part)
  {
    if Contains(t, part) && !Reads(t, 0, part) {
      var q :| 0 <= q <= |t| && Reads(t, q, part);
      ReadsShift(t, q - 1, part);
    }
    if Contains(t[1..], part) {
      var q :| 0 <= q <= |t[1..]| && Reads(t[1..], q, part);
      ReadsShift(t, q, part);
    }
  }

  /** A stretch of a word is read from the text where it lies. */
  lemma ReadsInWord(t: string, a: nat, w: string, k: nat, part: string)
    requires Lies(t, a, w) && k + |part| <= |w|
    ensures Reads(t, a + k, part) <==> Reads(w, k, part)
  {
    LiesSlice(t, a, w, |w|);
    assert t[a..a + |w|] == w[..|w|] == w;
    assert t[a + k..a + k + |part|] == t[a..a + |w|][k..k + |part|];
  }

  /** A protocol is named in a line exactly when the text contains it, in any case. */
  lemma MentionsIsContains(ws: seq<string>, t: string, part: string)
    requires LineOf(ws, t) && IsKey(part)
    ensures Mentions(ws, part) <==> Contains(t, part)
  {
    KeyIsLower(part);
    if Mentions(ws, part) {
      var i :| 0 <= i < |ws| && Within(part, ws[i]);
      WithinMeaning(part, ws[i]);
      var k :| 0 <= k <= |ws[i]| && Reads(ws[i], k, part);
      WordLies(ws, t, i);
      ReadsInWord(t, At(ws, i), ws[i], k, part);
      assert Reads(t, At(ws, i) + k, part);
    }
    if Contains(t, part) {
      var q :| 0 <= q <= |t| && Reads(t, q, part);
      var i := ReadInOneWord(ws, t, q, part);
      WithinMeaning(part, ws[i]);
    }
  }

  lemma ReadInOneWord(ws: seq<string>, t: string, q: nat, part: string) returns (i: nat)
    requires LineOf(ws, t) && IsKey(part) && Reads(t, q, part)
    ensures i < |ws| && Contains(ws[i], part)
  {
    KeyHasNoBlank(t, q, part);
    i := PlaceOf(ws, t, q + |part| - 1, |ws|);
    WordLies(ws, t, i);
    var a := At(ws, i);
    assert a > 0 ==> t[a - 1] == ' ';
    assert a <= q;
    ReadsInWord(t, a, ws[i], q - a, part);
    assert Reads(ws[i], q - a, part);
  }

  // ---------------------------------------------------------------- a class of service set to 0

  /** ` key 0` somewhere in the text. */
  ghost predicate SetTo0(t: string, key: string) {
    exists q :: SetTo0At(t, q, key)
  }

  predicate SetTo0At(t: string, q: nat, key: string) {
    q < |t| && t[q] == ' ' && Reads(t, q + 1, key) && q + 2 + |key| < |t| && t[q + 1 + |key|] == ' '
        && t[q + 2 + |key|] == '0'
  }

  predicate ZeroAt(ws: seq<string>, i: nat, key: string) {
    0 < i && i + 1 < |ws| && Lower(ws[i]) == key && ws[i + 1] != [] && ws[i + 1][0] == '0'
  }

  lemma ZeroIsSet(ws: seq<string>, t: string, key: string, i: nat)
    requires LineOf(ws, t) && IsKey(key) && ZeroAt(ws, i, key)
    ensures SetTo0At(t, At(ws, i) - 1, key)
  {
    WordLies(ws, t, i);
    WordLies(ws, t, i + 1);
    WholeEnds(ws[i], key);
    WordEndsInKey(ws, t, i, key);
    assert t[At(ws, i + 1) + 0] == ws[i + 1][0];
  }

  lemma SetIsZero(ws: seq<string>, t: string, key: string, q: nat) returns (i: nat)
    requires LineOf(ws, t) && IsKey(key) && SetTo0At(t, q, key)
    ensures ZeroAt(ws, i, key)
  {
    i := PlaceOf(ws, t, q, |ws|);
    var j := PlaceOf(ws, t, q + 1 + |key|, |ws|);
    WordLies(ws, t, i);
    WordLies(ws, t, j);
    KeyHasNoBlank(t, q + 1, key);
    if j < i {
      LaterAt(ws, j, i);
    } else if j > i + 1 {
      LaterAt(ws, i + 1, j);
    }
    assert j == i + 1;
    KeyEndsWord(ws, t, i, key, q + 1);
    assert t[At(ws, j) + 0] == ws[j][0];
  }

  /** A class of service is set back to 0 exactly when the text contains ` key 0`. */
  lemma SetsZeroIsContains(ws: seq<string>, t: string, key: string)
    requires LineOf(ws, t) && IsKey(key)
    ensures SetsZero(ws, key) <==> SetTo0(t, key)
  {
    if SetsZero(ws, key) {
      var i :| 0 < i < |ws| - 1 && Lower(ws[i]) == key && ws[i + 1] != [] && ws[i + 1][0] == '0';
      ZeroIsSet(ws, t, key, i);
    }
    if SetTo0(t, key) {
      var q :| SetTo0At(t, q, key);
      var i := SetIsZero(ws, t, key, q);
    }
  }
}
