/** The price an operator writes into the name of a PPPoE profile, and what it means for the sync. */
module ProfilePrice {
  import opened Decimal
  import opened Money
  import opened Plans
  import opened Pricing
  import opened Resync
  import opened Sync
  import opened Text

  // ---------------------------------------------------------------- the expression

  const GAPS := {' ', '\t', '\n', '\r', '\U{000C}'}

  function GapEnd(s: string, i: nat): (j: nat)
    requires i <= |s|
    ensures i <= j <= |s| && (forall k | i <= k < j :: s[k] in GAPS) && (j < |s| ==> s[j] !in GAPS)
    decreases |s| - i
  {
    if i < |s| && s[i] in GAPS then GapEnd(s, i + 1) else i
  }

  /** A `K` that ends a word. */
  predicate ThousandAt(s: string, i: nat) {
    i < |s| && UpperChar(s[i]) == 'K' && (i + 1 == |s| || !WordChar(s[i + 1]))
  }

  /** `(?i)(\d+)\s*K\b` matches from `i` on. */
  predicate MatchAt(s: string, i: nat) {
    i < |s| && IsDigit(s[i]) && ThousandAt(s, GapEnd(s, DigitEnd(s, i)))
  }

  function FirstMatch(s: string, i: nat): (m: Option<nat>)
    requires i <= |s|
    ensures m.Some? ==> i <= m.value < |s| && MatchAt(s, m.value) && forall k | i <= k < m.value :: !MatchAt(s, k)
    ensures m.None? ==> forall k | i <= k :: !MatchAt(s, k)
    decreases |s| - i
  {
    if i == |s| then None else if MatchAt(s, i) then Some(i) else FirstMatch(s, i + 1)
  }

  const MAX_THOUSANDS := 100_000
  const CENTS_PER_THOUSAND := 100_000

  function DigitsAt(s: string, i: nat): string
    requires i <= |s|
  {
    s[i..DigitEnd(s, i)]
  }

  /** The price the number written at `p` stands for, if any. */
  function PriceAt(s: string, p: nat): Option<int>
    requires p <= |s|
  {
    var value := Value(DigitsAt(s, p));
    if value <= 0 || value > MAX_THOUSANDS then None else Some(value * CENTS_PER_THOUSAND)
  }

  /** `ParseProfilePrice`, in cents: the first match decides, and says nothing if it is out of range. */
  function ParseProfilePrice(name: string): (amount: Option<int>)
    ensures amount.Some? ==> 0 < amount.value <= MAX_THOUSANDS * CENTS_PER_THOUSAND
  {
    match FirstMatch(name, 0)
    case None => None
    case Some(i) => PriceAt(name, i)
  }

  // ---------------------------------------------------------------- what a name is priced at

  /** `(?i)(\d+)\s*K\b` in the name: digits from `i` to `j`, blanks from `j` to `g`, and a `K` there that no letter,
      digit or underscore follows. */
  predicate PricedAt(s: string, i: nat, j: nat, g: nat) {
    && i < j <= g < |s| && (forall k | i <= k < j :: '0' <= s[k] <= '9')
    && (forall k | j <= k < g :: s[k] in {' ', '\t', '\n', '\r', '\U{000C}'}) && s[g] in {'k', 'K'}
    && (g + 1 < |s| ==> !('a' <= s[g + 1] <= 'z' || 'A' <= s[g + 1] <= 'Z' || '0' <= s[g + 1] <= '9'
                          || s[g + 1] == '_'))
  }

  /** It is the first match. */
  ghost predicate FirstPriced(s: string, i: nat, j: nat, g: nat) {
    PricedAt(s, i, j, g) && forall i': nat, j': nat, g': nat | PricedAt(s, i', j', g') :: i <= i'
  }

  lemma PricedIsMatch(s: string, i: nat, j: nat, g: nat)
    requires PricedAt(s, i, j, g)
    ensures MatchAt(s, i) && DigitEnd(s, i) == j
  {
    DigitEndIs(s, i, j);
    GapEndIs(s, j, g);
  }

  lemma MatchIsPriced(s: string, i: nat)
    requires MatchAt(s, i)
    ensures PricedAt(s, i, DigitEnd(s, i), GapEnd(s, DigitEnd(s, i)))
  {
  }

  /** A profile is priced by the first number its name gives in thousands, in cents, if that is from 1 to 100000... */
  lemma PriceOfName(name: string, i: nat, j: nat, g: nat)
    requires FirstPriced(name, i, j, g)
    ensures i < j <= |name| && AllDigits(name[i..j])
    ensures var n := Value(name[i..j]);
            ParseProfilePrice(name) == if 1 <= n <= 100_000 then Some(n * 1000 * 100) else None
  {
    PricedIsMatch(name, i, j, g);
    var m := FirstMatch(name, 0).value;
    MatchIsPriced(name, m);
  }

  /** ... and has no price if there is none. */
  lemma NoPriceInName(name: string)
    requires forall i: nat, j: nat, g: nat :: !PricedAt(name, i, j, g)
    ensures ParseProfilePrice(name) == None
  {
    if FirstMatch(name, 0).Some? {
      MatchIsPriced(name, FirstMatch(name, 0).value);
    }
  }

  // ---------------------------------------------------------------- the profiles of a router

  predicate Skipped(name: string) {
    name == "" || name == "default" || name == "default-encryption"
  }

  function Imported(names: seq<string>): seq<Profile> {
    if names == [] then []
    else
      var (before, name) := (Imported(names[..|names| - 1]), TrimSpace(names[|names| - 1]));
      if Skipped(name) then before else before + [Profile(name, ParseProfilePrice(name))]
  }

  /** The loop of `SyncPPPoE` over the profiles the router lists. */
  method ReadProfiles(names: seq<string>) returns (profiles: seq<Profile>)
    ensures profiles == Imported(names)
    ensures forall p :: p in profiles ==> p.amount == ParseProfilePrice(p.name)
  {
    profiles := [];
    for k := 0 to |names|
      invariant profiles == Imported(names[..k])
      invariant forall p :: p in profiles ==> p.amount == ParseProfilePrice(p.name)
    {
      assert names[..k + 1][..k] == names[..k];
      var name := TrimSpace(names[k]);
      if Skipped(name) {
        continue;
      }
      profiles := profiles + [Profile(name, ParseProfilePrice(name))];
    }
    assert names[..|names|] == names;
  }

  /** A listed name counts, without the blanks around it, unless it is empty or one of the router's defaults. */
  predicate Listed(name: string, l: nat, r: nat) {
    && l < r <= |name| && (forall i | 0 <= i < l :: name[i] in BLANKS)
    && (forall i | r <= i < |name| :: name[i] in BLANKS)
    && name[l] !in BLANKS && name[r - 1] !in BLANKS && name[l..r] !in {"default", "default-encryption"}
  }

  lemma ListedIsKept(name: string)
    ensures var t := TrimSpace(name);
            if Skipped(t) then forall l: nat, r: nat :: !Listed(name, l, r)
            else exists l: nat, r: nat :: Listed(name, l, r) && t == name[l..r]
  {
    var l, r := TrimSlice(name, BLANKS);
    assert !Skipped(TrimSpace(name)) ==> Listed(name, l, r);
    forall a: nat, b: nat | Listed(name, a, b)
      ensures a == l && b == r
    {
      assert l < r by {
        assert name[a] !in BLANKS;
      }
    }
  }

  /** The profile of a listed name. */
  ghost predicate ReadFrom(p: Profile, name: string) {
    && (exists l: nat, r: nat :: Listed(name, l, r) && p.name == name[l..r]) && p.amount == ParseProfilePrice(p.name)
  }

  /** Every listed name becomes one profile, in order; `at` says which. */
  ghost predicate ReadInOrder(names: seq<string>, profiles: seq<Profile>, at: seq<nat>) {
    && |at| == |profiles|
    && (forall i | 0 <= i < |at| :: at[i] < |names| && ReadFrom(profiles[i], names[at[i]]))
    && (forall i, j | 0 <= i < j < |at| :: at[i] < at[j])
    && (forall k, l: nat, r: nat | 0 <= k < |names| && Listed(names[k], l, r) :: k in at)
  }

  ghost predicate NeverListed(name: string) {
    forall l: nat, r: nat :: !Listed(name, l, r)
  }

  /** One name more. */
  lemma ImportedMore(init: seq<string>, last: string) returns (p: Option<Profile>)
    ensures p == None ==> Imported(init + [last]) == Imported(init) && NeverListed(last)
    ensures p.Some? ==> Imported(init + [last]) == Imported(init) + [p.value] && ReadFrom(p.value, last)
  {
    assert (init + [last])[..|init|] == init;
    ListedIsKept(last);
    if Skipped(TrimSpace(last)) {
      p := None;
    } else {
      p := Some(Profile(TrimSpace(last), ParseProfilePrice(TrimSpace(last))));
    }
  }

  lemma ImportedNext(init: seq<string>, last: string, at: seq<nat>) returns (next: seq<nat>)
    requires ReadInOrder(init, Imported(init), at)
    ensures ReadInOrder(init + [last], Imported(init + [last]), next)
  {
    var p := ImportedMore(init, last);
    if p.Some? {
      ReadName(init, last, Imported(init), at, p.value);
      next := at + [|init|];
    } else {
      SkippedName(init, last, Imported(init), at);
      next := at;
    }
  }

  lemma {:induction false} ImportedAreListed(names: seq<string>) returns (at: seq<nat>)
    ensures ReadInOrder(names, Imported(names), at)
    decreases |names|
  {
    if names == [] {
      at := [];
    } else {
      at := ImportedAreListed(names[..|names| - 1]);
      at := ImportedNext(names[..|names| - 1], names[|names| - 1], at);
      assert names == names[..|names| - 1] + [names[|names| - 1]];
    }
  }

  lemma SkippedName(init: seq<string>, last: string, profiles: seq<Profile>, at: seq<nat>)
    requires ReadInOrder(init, profiles, at) && NeverListed(last)
    ensures ReadInOrder(init + [last], profiles, at)
  {
    assert forall k | 0 <= k < |init| :: (init + [last])[k] == init[k];
  }

  lemma ReadName(init: seq<string>, last: string, profiles: seq<Profile>, at: seq<nat>, p: Profile)
    requires ReadInOrder(init, profiles, at) && ReadFrom(p, last)
    ensures ReadInOrder(init + [last], profiles + [p], at + [|init|])
  {
    var (names, n) := (init + [last], |init|);
    assert forall k | 0 <= k < n :: names[k] == init[k];
    assert (at + [n])[|at|] == n;
    forall k, l: nat, r: nat | 0 <= k < |names| && Listed(names[k], l, r)
      ensures k in at + [n]
    {
      if k < n {
        assert Listed(init[k], l, r);
      }
    }
  }

  /** Profiles as they come from a router: priced by their names. */
  predicate Priced(profiles: seq<Profile>) {
    forall p :: p in profiles ==> p.amount == ParseProfilePrice(p.name)
  }

  /** No profile of a router is refused by the tables. */
  lemma {:induction false} RouterProfilesAreAccepted(c: Catalog, profiles: seq<Profile>, today: Date)
    requires Priced(profiles)
    ensures SyncProfiles(c, profiles, today).Some?
  {
    if profiles == [] {
    } else {
      Members(profiles);
      RouterProfilesAreAccepted(c, profiles[..|profiles| - 1], today);
    }
  }

  // ---------------------------------------------------------------- names that share a code

  /** `text` is what `CodeLetters` makes of `s[l..r]`, and outside are no letters and no digits. */
  ghost predicate CodeLies(s: string, text: string, l: nat, r: nat) {
    && l <= r <= |s| && r - l == |text|
    && (forall k | l <= k < r :: text[k - l] == CodeChar(UpperChar(s[k])))
    && (forall k | 0 <= k < |s| && !(l <= k < r) :: !IsAlnum(UpperChar(s[k])))
  }

  lemma TrimmedPart(name: string) returns (a: nat, b: nat)
    ensures a <= b <= |name| && TrimSpace(name) == name[a..b]
    ensures forall k | 0 <= k < |name| && !(a <= k < b) :: !IsAlnum(UpperChar(name[k]))
  {
    a, b := TrimSlice(name, BLANKS);
    OutsideAreNoLetters(name, a, b);
  }

  lemma InnerLies(name: string) returns (c: nat, d: nat)
    ensures CodeLies(TrimSpace(name), CodeText(name), c, d)
  {
    CodeTextIs(name);
    c, d := LettersLie(TrimSpace(name), CodeText(name));
  }

  /** The part of a name its code is made of. */
  lemma CodePart(name: string) returns (l: nat, r: nat)
    ensures CodeLies(name, CodeText(name), l, r)
  {
    var a, b := TrimmedPart(name);
    var c, d := InnerLies(name);
    l, r := a + c, a + d;
    Shifted(name, TrimSpace(name), CodeText(name), a, b, c, d);
  }

  /** The letter of a code that a character of the name becomes. */
  predicate CodeLetter(c: char, d: char) {
    if 'a' <= c <= 'z' then c as int - d as int == 'a' as int - 'A' as int
    else if 'A' <= c <= 'Z' || '0' <= c <= '9' || c == '_' then d == c
    else d == '-'
  }

  predicate LetterOrDigit(c: char) {
    'a' <= c <= 'z' || 'A' <= c <= 'Z' || '0' <= c <= '9'
  }

  /** A package's code: from the first letter or digit of the profile's name to the last, in capitals, dashes for what
      no code may hold, cut at fifty; "PROFIL" if there is none. */
  lemma CodeMeaning(name: string) returns (l: nat, r: nat)
    ensures l <= r <= |name| && (forall k | 0 <= k < |name| && LetterOrDigit(name[k]) :: l <= k < r)
    ensures l < r ==> LetterOrDigit(name[l]) && LetterOrDigit(name[r - 1])
    ensures var code := PackageCode(name);
            && (l == r ==> code == "PROFIL")
            && (l < r ==> |code| == (if r - l < 50 then r - l else 50)
                          && forall k | 0 <= k < |code| :: CodeLetter(name[l + k], code[k]))
  {
    l, r := CodePart(name);
    TextEnds(name);
    TextMeaning(name, CodeText(name), l, r);
    if l == r {
      assert CodeText(name) == "";
    }
  }

  lemma TextMeaning(name: string, text: string, l: nat, r: nat)
    requires CodeLies(name, text, l, r) && (text != [] ==> IsAlnum(text[0]) && IsAlnum(text[|text| - 1]))
    ensures l <= r <= |name| && (forall k | 0 <= k < |name| && LetterOrDigit(name[k]) :: l <= k < r)
    ensures l < r ==> LetterOrDigit(name[l]) && LetterOrDigit(name[r - 1])
    ensures |text| == r - l && forall k | 0 <= k < r - l :: CodeLetter(name[l + k], text[k])
  {
    if l < r {
      assert text[0] == CodeChar(UpperChar(name[l])) && text[r - l - 1] == CodeChar(UpperChar(name[r - 1]));
    }
    forall k | 0 <= k < r - l
      ensures CodeLetter(name[l + k], text[k])
    {
      assert text[(l + k) - l] == CodeChar(UpperChar(name[l + k]));
    }
    forall k | 0 <= k < |name| && LetterOrDigit(name[k])
      ensures l <= k < r
    {
      assert IsAlnum(UpperChar(name[k]));
    }
  }

  lemma TextEnds(name: string)
    ensures var text := CodeText(name);
            text != [] ==> IsAlnum(text[0]) && IsAlnum(text[|text| - 1])
  {
    var text := CodeText(name);
    assert text != [] ==> text[|text| - 1] in text;
  }

  lemma CodeTextIs(name: string)
    ensures CodeText(name) == Trim(CodeLetters(TrimSpace(name)), {'-', '_'})
  {
  }

  lemma OutsideAreNoLetters(name: string, a: nat, b: nat)
    requires a <= b <= |name| && (forall i | 0 <= i < a :: name[i] in BLANKS)
             && forall i | b <= i < |name| :: name[i] in BLANKS
    ensures forall k | 0 <= k < |name| && !(a <= k < b) :: !IsAlnum(UpperChar(name[k]))
  {
  }

  lemma LettersLie(inner: string, text: string) returns (c: nat, d: nat)
    requires text == Trim(CodeLetters(inner), {'-', '_'})
    ensures CodeLies(inner, text, c, d)
  {
    c, d := TrimSlice(CodeLetters(inner), {'-', '_'});
    assert forall k | 0 <= k < |inner| :: CodeLetters(inner)[k] == CodeChar(UpperChar(inner[k]));
  }

  lemma Shifted(name: string, inner: string, text: string, a: nat, b: nat, c: nat, d: nat)
    requires a <= b <= |name| && inner == name[a..b] && CodeLies(inner, text, c, d)
    requires forall k | 0 <= k < |name| && !(a <= k < b) :: !IsAlnum(UpperChar(name[k]))
    ensures CodeLies(name, text, a + c, a + d)
  {
    assert forall k | a <= k < b :: name[k] == inner[k - a];
  }

  // ---------------------------------------------------------------- what a code says about the price

  function DashEnd(t: string, i: nat): (j: nat)
    requires i <= |t|
    ensures i <= j <= |t| && (forall k | i <= k < j :: t[k] == '-') && (j < |t| ==> t[j] != '-')
    decreases |t| - i
  {
    if i < |t| && t[i] == '-' then DashEnd(t, i + 1) else i
  }

  /** A number of the code that some name with this code may be priced by: a `K` follows, at once or after dashes,
      which may stand for blanks. */
  predicate Candidate(t: string, p: nat) {
    p < |t| && IsDigit(t[p]) && (p == 0 || !IsDigit(t[p - 1])) && ThousandAt(t, DashEnd(t, DigitEnd(t, p)))
  }

  /** A number every name with this code has as a match: the `K` follows at once and is not the end. */
  predicate Forced(t: string, p: nat) {
    Candidate(t, p) && DashEnd(t, DigitEnd(t, p)) == DigitEnd(t, p) < |t| - 1
  }

  predicate NoneForced(t: string, p: nat) {
    forall q | 0 <= q < p :: !Forced(t, q)
  }

  /** No forced number comes before. */
  predicate Possible(t: string, p: nat) {
    Candidate(t, p) && NoneForced(t, p)
  }

  predicate Offers(t: string, p: nat) {
    Possible(t, p) && PriceAt(t, p).Some?
  }

  /** What `CodeText` makes of some name. */
  predicate IsText(t: string) {
    && 0 < |t| && IsAlnum(t[0]) && IsAlnum(t[|t| - 1])
    && forall k | 0 <= k < |t| :: IsAlnum(t[k]) || t[k] == '-' || t[k] == '_'
  }

  /** What `PackageCode` makes of some name. */
  predicate IsCode(t: string) {
    && 0 < |t| <= MAX_CODE && IsAlnum(t[0]) && (|t| < MAX_CODE ==> IsAlnum(t[|t| - 1]))
    && forall k | 0 <= k < |t| :: IsAlnum(t[k]) || t[k] == '-' || t[k] == '_'
  }

  // ---------------------------------------------------------------- from a name to its code

  lemma {:induction false} DigitEndIs(s: string, i: nat, j: nat)
    requires i <= j <= |s| && (forall k | i <= k < j :: IsDigit(s[k])) && (j < |s| ==> !IsDigit(s[j]))
    ensures DigitEnd(s, i) == j
    decreases j - i
  {
    if i < j {
      DigitEndIs(s, i + 1, j);
    }
  }

  lemma {:induction false} DashEndIs(t: string, i: nat, j: nat)
    requires i <= j <= |t| && (forall k | i <= k < j :: t[k] == '-') && (j < |t| ==> t[j] != '-')
    ensures DashEnd(t, i) == j
    decreases j - i
  {
    if i < j {
      DashEndIs(t, i + 1, j);
    }
  }

  lemma {:induction false} GapEndIs(s: string, i: nat, j: nat)
    requires i <= j <= |s| && (forall k | i <= k < j :: s[k] in GAPS) && (j < |s| ==> s[j] !in GAPS)
    ensures GapEnd(s, i) == j
    decreases j - i
  {
    if i < j {
      GapEndIs(s, i + 1, j);
    }
  }

  /** What the letter of a code tells of the character of the name. */
  lemma LetterTells(c: char)
    ensures var d := CodeChar(UpperChar(c));
            && (IsDigit(d) <==> IsDigit(c)) && (IsDigit(c) ==> d == c)
            && (d == 'K' <==> UpperChar(c) == 'K')
            && (d == '-' <==> !WordChar(c))
            && (c in GAPS ==> d == '-')
            && (WordChar(d) <==> WordChar(c)) && UpperChar(d) == d
  {
  }

  lemma DigitsAlign(n: string, t: string, l: nat, r: nat, p: nat)
    requires CodeLies(n, t, l, r) && p <= |t|
    ensures DigitEnd(n, l + p) == l + DigitEnd(t, p) && DigitsAt(n, l + p) == DigitsAt(t, p)
  {
    var e := DigitEnd(t, p);
    forall k | 0 <= k < |n|
      ensures l <= k < r ==> (IsDigit(n[k]) <==> IsDigit(t[k - l])) && (IsDigit(n[k]) ==> n[k] == t[k - l])
      ensures !(l <= k < r) ==> !IsDigit(n[k])
    {
      LetterTells(n[k]);
    }
    DigitEndIs(n, l + p, l + e);
  }

  /** A match of the name is a candidate of its code, if no digit comes right before it. */
  lemma MatchIsCandidate(n: string, t: string, l: nat, r: nat, j: nat)
    requires CodeLies(n, t, l, r) && MatchAt(n, j) && (j == 0 || !IsDigit(n[j - 1]))
    ensures l <= j < r && Candidate(t, j - l)
    ensures DashEnd(t, DigitEnd(t, j - l)) == GapEnd(n, DigitEnd(n, j)) - l
  {
    LetterTells(n[j]);
    var p := j - l;
    DigitsAlign(n, t, l, r, p);
    var (e, g) := (DigitEnd(n, j), GapEnd(n, DigitEnd(n, j)));
    ThousandAligns(n, t, l, r, g);
    GapsAreDashes(n, t, l, r, e, g);
    if p > 0 {
      LetterTells(n[j - 1]);
    }
  }

  lemma ThousandAligns(n: string, t: string, l: nat, r: nat, g: nat)
    requires CodeLies(n, t, l, r) && ThousandAt(n, g)
    ensures l <= g < r && ThousandAt(t, g - l) && IsAlnum(t[g - l])
  {
    LetterTells(n[g]);
    if g + 1 < r {
      LetterTells(n[g + 1]);
    }
  }

  lemma GapsAreDashes(n: string, t: string, l: nat, r: nat, e: nat, g: nat)
    requires CodeLies(n, t, l, r) && l <= e <= g < r && IsAlnum(t[g - l]) && forall k | e <= k < g :: n[k] in GAPS
    ensures DashEnd(t, e - l) == g - l
  {
    forall k | e - l <= k < g - l
      ensures t[k] == '-'
    {
      assert n[l + k] in GAPS;
      LetterTells(n[l + k]);
      assert t[l + k - l] == CodeChar(UpperChar(n[l + k]));
    }
    DashEndIs(t, e - l, g - l);
  }

  /** A forced number of the code is a match of the name. */
  lemma ForcedMatches(n: string, t: string, l: nat, r: nat, q: nat)
    requires CodeLies(n, t, l, r) && Forced(t, q)
    ensures MatchAt(n, l + q)
  {
    DigitsAlign(n, t, l, r, q);
    var e := DigitEnd(t, q);
    LetterTells(n[l + q]);
    LetterTells(n[l + e]);
    LetterTells(n[l + e + 1]);
    assert t[e] == CodeChar(UpperChar(n[l + e]));
    GapEndIs(n, l + e, l + e);
  }

  /** A match in the middle of a number starts at its beginning too. */
  lemma MatchAtRunStart(n: string, j: nat)
    requires MatchAt(n, j) && j > 0 && IsDigit(n[j - 1])
    ensures MatchAt(n, j - 1)
  {
    DigitEndIs(n, j - 1, DigitEnd(n, j));
  }

  /** Whatever name has the code, it is priced by one of its possible numbers. */
  lemma FirstMatchIsPossible(n: string, t: string, l: nat, r: nat, j: nat)
    requires CodeLies(n, t, l, r) && FirstMatch(n, 0) == Some(j)
    ensures l <= j < r && Possible(t, j - l) && PriceAt(n, j) == PriceAt(t, j - l)
  {
    FirstMatchStartsRun(n, j);
    MatchIsPossible(n, t, l, r, j);
    SamePrice(n, t, l, r, j - l);
  }

  lemma MatchIsPossible(n: string, t: string, l: nat, r: nat, j: nat)
    requires CodeLies(n, t, l, r) && MatchAt(n, j) && (j == 0 || !IsDigit(n[j - 1])) && NoMatch(n, j)
    ensures l <= j < r && Possible(t, j - l)
  {
    MatchIsCandidate(n, t, l, r, j);
    NoneForcedBefore(n, t, l, r, j - l);
  }

  ghost predicate NoMatch(n: string, j: nat) {
    forall k | 0 <= k < j :: !MatchAt(n, k)
  }

  lemma SamePrice(n: string, t: string, l: nat, r: nat, p: nat)
    requires CodeLies(n, t, l, r) && p <= |t|
    ensures PriceAt(n, l + p) == PriceAt(t, p)
  {
    DigitsAlign(n, t, l, r, p);
  }

  lemma FirstMatchStartsRun(n: string, j: nat)
    requires FirstMatch(n, 0) == Some(j)
    ensures j < |n| && MatchAt(n, j) && NoMatch(n, j) && (j == 0 || !IsDigit(n[j - 1]))
  {
    if j > 0 && IsDigit(n[j - 1]) {
      MatchAtRunStart(n, j);
    }
  }

  lemma NoneForcedBefore(n: string, t: string, l: nat, r: nat, p: nat)
    requires CodeLies(n, t, l, r) && NoMatch(n, l + p)
    ensures NoneForced(t, p)
  {
    forall q | 0 <= q < p
      ensures !Forced(t, q)
    {
      if Forced(t, q) {
        ForcedMatches(n, t, l, r, q);
      }
    }
  }

  // ---------------------------------------------------------------- from a code to a name

  function Blanks(n: nat): (s: string)
    ensures |s| == n && forall k | 0 <= k < n :: s[k] == ' '
  {
    seq(n, _ => ' ')
  }

  /** The code itself, with blanks for the dashes before the `K` of one number. */
  function Spelling(t: string, p: nat): (n: string)
    requires p <= |t|
    ensures |n| == |t|
  {
    var (e, g) := (DigitEnd(t, p), DashEnd(t, DigitEnd(t, p)));
    t[..e] + Blanks(g - e) + t[g..]
  }

  lemma SpellingLies(t: string, p: nat)
    requires IsText(t) && Candidate(t, p)
    ensures CodeLies(Spelling(t, p), t, 0, |t|)
    ensures CodeText(Spelling(t, p)) == t && TrimSpace(Spelling(t, p)) == Spelling(t, p)
  {
    var (n, e, g) := (Spelling(t, p), DigitEnd(t, p), DashEnd(t, DigitEnd(t, p)));
    forall k | 0 <= k < |n|
      ensures CodeChar(UpperChar(n[k])) == t[k]
    {
      assert n[k] == if e <= k < g then ' ' else t[k];
      CodeLetterStays(t[k]);
    }
    assert n[0] == t[0] && n[|n| - 1] == t[|t| - 1];
    SpelledCode(n, t);
  }

  lemma CodeLetterStays(c: char)
    requires IsAlnum(c) || c == '-' || c == '_'
    ensures CodeChar(UpperChar(c)) == c
  {
  }

  lemma SpelledCode(n: string, t: string)
    requires IsText(t) && |n| == |t| && n[0] == t[0] && n[|n| - 1] == t[|t| - 1]
    requires forall k | 0 <= k < |n| :: CodeChar(UpperChar(n[k])) == t[k]
    ensures CodeLies(n, t, 0, |t|) && CodeText(n) == t && TrimSpace(n) == n
  {
    assert TrimSpace(n) == n;
    assert CodeLetters(n) == t;
    assert CodeText(n) == t;
  }

  lemma SpellingMatches(t: string, p: nat)
    requires IsText(t) && Candidate(t, p)
    ensures MatchAt(Spelling(t, p), p) && DigitEnd(Spelling(t, p), p) == DigitEnd(t, p)
  {
    var (n, e, g) := (Spelling(t, p), DigitEnd(t, p), DashEnd(t, DigitEnd(t, p)));
    assert forall k | 0 <= k < e || g <= k < |t| :: n[k] == t[k];
    assert forall k | e <= k < g :: n[k] == ' ';
    DigitEndIs(n, p, e);
    GapEndIs(n, e, g);
  }

  /** Each possible number prices some name with the code. */
  lemma PossiblePrices(t: string, p: nat)
    requires IsText(t) && Possible(t, p)
    ensures CodeText(Spelling(t, p)) == t && TrimSpace(Spelling(t, p)) == Spelling(t, p)
    ensures FirstMatch(Spelling(t, p), 0) == Some(p) && DigitsAt(Spelling(t, p), p) == DigitsAt(t, p)
  {
    var n := Spelling(t, p);
    SpellingLies(t, p);
    SpellingMatches(t, p);
    DigitsAlign(n, t, 0, |t|, p);
    assert FirstMatch(n, 0).Some? && FirstMatch(n, 0).value <= p;
    NothingBefore(t, p, FirstMatch(n, 0).value);
  }

  lemma NothingBefore(t: string, p: nat, j: nat)
    requires IsText(t) && Possible(t, p) && CodeLies(Spelling(t, p), t, 0, |t|)
    requires FirstMatch(Spelling(t, p), 0) == Some(j) && j <= p
    ensures j == p
  {
    FirstMatchIsPossible(Spelling(t, p), t, 0, |t|, j);
    if j < p {
      EarlierMatchIsForced(Spelling(t, p), t, p, j);
    }
  }

  lemma EarlierMatchIsForced(n: string, t: string, p: nat, j: nat)
    requires IsText(t) && Candidate(t, p) && Candidate(t, j) && j < p && n == Spelling(t, p)
    requires CodeLies(n, t, 0, |t|) && FirstMatch(n, 0) == Some(j)
    ensures Forced(t, j)
  {
    DigitsAlign(n, t, 0, |t|, j);
    CandidateGaps(n, t, j);
    EarlierIsForced(t, p, j);
  }

  lemma CandidateGaps(n: string, t: string, j: nat)
    requires CodeLies(n, t, 0, |t|) && FirstMatch(n, 0) == Some(j)
    ensures DashEnd(t, DigitEnd(t, j)) == GapEnd(n, DigitEnd(n, j))
  {
    FirstMatchStartsRun(n, j);
    MatchIsCandidate(n, t, 0, |t|, j);
  }

  /** A candidate before, with no blanks of its own in this spelling, is forced. */
  lemma EarlierIsForced(t: string, p: nat, j: nat)
    requires IsText(t) && Candidate(t, p) && Candidate(t, j) && j < p
    requires DashEnd(t, DigitEnd(t, j)) == GapEnd(Spelling(t, p), DigitEnd(Spelling(t, p), j))
    requires DigitEnd(Spelling(t, p), j) == DigitEnd(t, j)
    ensures Forced(t, j)
  {
    var (n, e, g) := (Spelling(t, p), DigitEnd(t, j), DashEnd(t, DigitEnd(t, j)));
    assert e <= p && g < p;
    assert n[e] == t[e];
  }

  // ---------------------------------------------------------------- main results

  /** Every two priced names with this code carry the same price. */
  ghost predicate CodeFixesPrice(t: string) {
    forall a, b :: PackageCode(a) == t && PackageCode(b) == t
                   && ParseProfilePrice(a).Some? && ParseProfilePrice(b).Some?
                   ==> ParseProfilePrice(a) == ParseProfilePrice(b)
  }

  predicate OneOffer(t: string) {
    forall p, q | 0 <= p < |t| && 0 <= q < |t| && Offers(t, p) && Offers(t, q) :: PriceAt(t, p) == PriceAt(t, q)
  }

  predicate HasForced(t: string) {
    exists f | 0 <= f < |t| :: Forced(t, f)
  }

  predicate FixesPrice(t: string) {
    OneOffer(t) && (|t| < MAX_CODE || HasForced(t))
  }

  lemma PricedText(n: string)
    requires ParseProfilePrice(n).Some?
    ensures CodeText(n) != ""
  {
    if CodeText(n) == "" {
      var l, r := CodePart(n);
      LetterTells(n[FirstMatch(n, 0).value]);
    }
  }

  /** The price a name carries is one its text offers. */
  lemma PricedByOffer(n: string) returns (p: nat)
    requires ParseProfilePrice(n).Some?
    ensures Offers(CodeText(n), p) && ParseProfilePrice(n) == PriceAt(CodeText(n), p)
  {
    var l, r := CodePart(n);
    p := PricedWithin(n, CodeText(n), l, r);
  }

  lemma PricedWithin(n: string, t: string, l: nat, r: nat) returns (p: nat)
    requires CodeLies(n, t, l, r) && ParseProfilePrice(n).Some?
    ensures Offers(t, p) && ParseProfilePrice(n) == PriceAt(t, p)
  {
    var j := FirstMatch(n, 0).value;
    FirstMatchIsPossible(n, t, l, r, j);
    p := j - l;
  }

  /** Each offer of a text prices some name with that text. */
  lemma OfferPrices(t: string, p: nat)
    requires IsText(t) && Offers(t, p)
    ensures CodeText(Spelling(t, p)) == t && TrimSpace(Spelling(t, p)) == Spelling(t, p)
    ensures ParseProfilePrice(Spelling(t, p)) == PriceAt(t, p)
  {
    PossiblePrices(t, p);
  }

  // ---------------------------------------------------------------- codes that are cut off

  /** What a forced number decides, it decides within the part it lies in. */
  lemma ForcedDecides(u: string, t: string, f: nat, p: nat)
    requires t <= u && Forced(t, f)
    ensures Offers(u, p) <==> Offers(t, p)
    ensures Offers(t, p) ==> PriceAt(u, p) == PriceAt(t, p)
  {
    WithinPart(u, t, f);
    if Candidate(u, p) && p < f {
      BeforeForced(u, f, p);
      WithinPart(u, t, p);
    }
    if Candidate(t, p) && p < f {
      BeforeForced(t, f, p);
      WithinPart(u, t, p);
    }
    forall q | 0 <= q < p <= f
      ensures Forced(u, q) <==> Forced(t, q)
    {
      if Forced(u, q) {
        BeforeForced(u, f, q);
        WithinPart(u, t, q);
      }
      if Forced(t, q) {
        WithinPart(u, t, q);
      }
    }
  }

  function NumberEnd(t: string, p: nat): (g: nat)
    requires p <= |t|
    ensures p <= g <= |t|
  {
    DashEnd(t, DigitEnd(t, p))
  }

  lemma BeforeForced(t: string, f: nat, p: nat)
    requires Candidate(t, p) && p < f && Candidate(t, f)
    ensures NumberEnd(t, p) < f
  {
  }

  /** A number whose end lies in the part ends there in the whole too, and the other way round. */
  lemma WithinPart(u: string, t: string, p: nat)
    requires t <= u && p < |t| && (NumberEnd(t, p) + 1 < |t| || NumberEnd(u, p) + 1 < |t|)
    ensures DigitEnd(u, p) == DigitEnd(t, p) && NumberEnd(u, p) == NumberEnd(t, p)
    ensures DigitsAt(u, p) == DigitsAt(t, p)
    ensures (Candidate(u, p) <==> Candidate(t, p)) && (Forced(u, p) <==> Forced(t, p))
  {
    if NumberEnd(t, p) + 1 < |t| {
      DigitEndIs(u, p, DigitEnd(t, p));
      DashEndIs(u, DigitEnd(t, p), NumberEnd(t, p));
    }
    if NumberEnd(u, p) + 1 < |t| {
      DigitEndIs(t, p, DigitEnd(u, p));
      DashEndIs(t, DigitEnd(u, p), NumberEnd(u, p));
    }
  }

  /** A code without a forced number, and one digit more. */
  function Extended(t: string, d: char): string {
    t + ['X', d, 'K']
  }

  lemma ExtendedText(t: string, d: char)
    requires |t| == MAX_CODE && IsCode(t) && IsDigit(d)
    ensures CodeLies(Extended(t, d), Extended(t, d), 0, |t| + 3)
    ensures PackageCode(Extended(t, d)) == t && TrimSpace(Extended(t, d)) == Extended(t, d)
  {
    var n := Extended(t, d);
    forall k | 0 <= k < |n|
      ensures CodeChar(UpperChar(n[k])) == n[k]
    {
      CodeLetterStays(n[k]);
    }
    SpelledCode(n, n);
    assert n[..MAX_CODE] == t;
  }

  lemma ExtendedPrice(t: string, d: char)
    requires |t| == MAX_CODE && IsCode(t) && !HasForced(t) && IsDigit(d) && d != '0'
    ensures PackageCode(Extended(t, d)) == t && TrimSpace(Extended(t, d)) == Extended(t, d)
    ensures ParseProfilePrice(Extended(t, d)) == Some((d - '0') as int * CENTS_PER_THOUSAND)
  {
    assert Extended(t, d)[|t| + 1] == d;
    ExtendedText(t, d);
    LastDigit(Extended(t, d), |t| + 1);
    LastIsFirst(t, d);
  }

  lemma LastIsFirst(t: string, d: char)
    requires IsCode(t) && !HasForced(t) && IsDigit(d) && CodeLies(Extended(t, d), Extended(t, d), 0, |t| + 3)
    requires MatchAt(Extended(t, d), |t| + 1)
    ensures FirstMatch(Extended(t, d), 0) == Some(|t| + 1)
  {
    var first := FirstMatch(Extended(t, d), 0);
    assert first.Some? && first.value <= |t| + 1;
    NoneInPart(Extended(t, d), t, d, first.value);
  }

  lemma NoneInPart(n: string, t: string, d: char, j: nat)
    requires IsCode(t) && !HasForced(t) && IsDigit(d) && n == Extended(t, d) && CodeLies(n, n, 0, |n|)
    requires FirstMatch(n, 0) == Some(j)
    ensures j > |t|
  {
    FirstMatchStartsRun(n, j);
    MatchIsCandidate(n, n, 0, |n|, j);
    if j <= |t| {
      EndlessForced(t, d, j);
    }
  }

  lemma LastDigit(n: string, i: nat)
    requires i + 2 == |n| && IsDigit(n[i]) && n[i + 1] == 'K'
    ensures MatchAt(n, i)
    ensures n[i] != '0' ==> PriceAt(n, i) == Some((n[i] - '0') as int * CENTS_PER_THOUSAND)
  {
    DigitEndIs(n, i, i + 1);
    GapEndIs(n, i + 1, i + 1);
    assert DigitsAt(n, i) == [n[i]];
    assert Value([n[i]]) == (n[i] - '0') as nat;
  }

  lemma CodeHasNoGaps(t: string)
    requires IsCode(t)
    ensures forall k | 0 <= k < |t| :: t[k] !in GAPS
  {
  }

  /** Before the appended number, only a forced one matches. */
  lemma EndlessForced(t: string, d: char, j: nat)
    requires j <= |t| && MatchAt(Extended(t, d), j) && Candidate(Extended(t, d), j) && IsCode(t)
    ensures HasForced(t)
  {
    var n := Extended(t, d);
    var e := DigitEnd(n, j);
    CodeHasNoGaps(t);
    assert n[|t|] == 'X';
    assert e <= |t|;
    GapEndIs(n, e, e);
    WithinPart(n, t, j);
    assert Forced(t, j);
  }

  // ---------------------------------------------------------------- main results

  lemma OneOfferFixes(t: string)
    requires OneOffer(t) && (|t| < MAX_CODE || HasForced(t))
    ensures CodeFixesPrice(t)
  {
    forall a, b | PackageCode(a) == t && PackageCode(b) == t && ParseProfilePrice(a).Some? && ParseProfilePrice(b).Some?
      ensures ParseProfilePrice(a) == ParseProfilePrice(b)
    {
      var p := OfferOfCode(a, t);
      var q := OfferOfCode(b, t);
    }
  }

  /** The price a name carries is one its code offers, if the code is not cut off or has a forced number. */
  lemma OfferOfCode(n: string, t: string) returns (p: nat)
    requires PackageCode(n) == t && (|t| < MAX_CODE || HasForced(t)) && ParseProfilePrice(n).Some?
    ensures Offers(t, p) && ParseProfilePrice(n) == PriceAt(t, p)
  {
    PricedText(n);
    p := PricedByOffer(n);
    if |t| == MAX_CODE {
      var f :| 0 <= f < |t| && Forced(t, f);
      ForcedDecides(CodeText(n), t, f, p);
    }
  }

  lemma NameAtPrice(t: string, p: nat) returns (n: string)
    requires IsCode(t) && (|t| < MAX_CODE || HasForced(t)) && Offers(t, p)
    ensures PackageCode(n) == t && TrimSpace(n) == n && ParseProfilePrice(n) == PriceAt(t, p)
  {
    if |t| < MAX_CODE {
      OfferPrices(t, p);
      n := Spelling(t, p);
    } else {
      var f :| 0 <= f < |t| && Forced(t, f);
      var u := t + "X";
      ForcedDecides(u, t, f, p);
      OfferPrices(u, p);
      n := Spelling(u, p);
      assert u[..MAX_CODE] == t;
    }
  }

  /** Two names a router may list, with this code and different prices. */
  lemma TwoPrices(t: string) returns (a: string, b: string)
    requires IsCode(t) && !FixesPrice(t)
    ensures TrimSpace(a) == a && TrimSpace(b) == b && PackageCode(a) == t && PackageCode(b) == t
    ensures ParseProfilePrice(a).Some? && ParseProfilePrice(b).Some? && ParseProfilePrice(a) != ParseProfilePrice(b)
  {
    if |t| == MAX_CODE && !HasForced(t) {
      ExtendedPrice(t, '1');
      ExtendedPrice(t, '2');
      a, b := Extended(t, '1'), Extended(t, '2');
    } else {
      var p, q :| 0 <= p < |t| && 0 <= q < |t| && Offers(t, p) && Offers(t, q) && PriceAt(t, p) != PriceAt(t, q);
      a := NameAtPrice(t, p);
      b := NameAtPrice(t, q);
    }
  }

  lemma CodesAreCodes(name: string)
    ensures IsCode(PackageCode(name))
  {
  }

  /** The priced names that share a code must agree exactly when the numbers it offers are one price: those after
      which a `K` follows, at once or after dashes, up to the first where it must. A code that is cut off says
      nothing of the rest of the name, so it must have such a number. */
  lemma WhenNamesAgree(name: string)
    ensures CodeFixesPrice(PackageCode(name)) <==> FixesPrice(PackageCode(name))
  {
    var t := PackageCode(name);
    CodesAreCodes(name);
    if FixesPrice(t) {
      OneOfferFixes(t);
    } else {
      var a, b := TwoPrices(t);
      assert PackageCode(a) == t && PackageCode(b) == t;
    }
  }

  // ---------------------------------------------------------------- the sync of the same router twice

  /** The price updates the second of two syncs reports, for the profile names a router lists. */
  function UpdatesOfRepeat(c: Catalog, names: seq<string>, today: Date): int
    requires ValidCatalog(c, today)
  {
    ImportedArePriced(names);
    RouterProfilesAreAccepted(c, Imported(names), today);
    var first := SyncProfiles(c, Imported(names), today).value.catalog;
    RouterProfilesAreAccepted(first, Imported(names), today);
    SyncProfiles(first, Imported(names), today).value.tally.updated
  }

  lemma {:induction false} ImportedArePriced(names: seq<string>)
    ensures Priced(Imported(names))
  {
    if names == [] {
    } else {
      ImportedArePriced(names[..|names| - 1]);
    }
  }

  /** Whatever else a router lists, names whose codes fix the price make the repeat report no update. */
  lemma FixedCodesStayQuiet(c: Catalog, names: seq<string>, today: Date)
    requires ValidCatalog(c, today)
    requires forall p :: p in Imported(names) && p.amount.Some? ==> FixesPrice(PackageCode(p.name))
    ensures UpdatesOfRepeat(c, names, today) == 0
  {
    var profiles := Imported(names);
    ImportedArePriced(names);
    RouterProfilesAreAccepted(c, profiles, today);
    SecondSyncReportsNoUpdate(c, profiles, today);
    forall p, q | p in profiles && q in profiles && p.amount.Some? && q.amount.Some?
                  && PackageCode(p.name) == PackageCode(q.name)
      ensures p.amount == q.amount
    {
      WhenNamesAgree(p.name);
    }
  }

  /** For every other code a router may list two names that make the repeat report an update. */
  lemma OpenCodesFlip(c: Catalog, name: string, today: Date) returns (a: string, b: string)
    requires ValidCatalog(c, today) && !FixesPrice(PackageCode(name))
    ensures PackageCode(a) == PackageCode(b) == PackageCode(name)
    ensures UpdatesOfRepeat(c, [a, b], today) > 0
  {
    CodesAreCodes(name);
    a, b := TwoPrices(PackageCode(name));
    TwoPricesFlip(c, a, b, today);
  }

  lemma TwoPricesFlip(c: Catalog, a: string, b: string, today: Date)
    requires ValidCatalog(c, today) && PackageCode(a) == PackageCode(b) && TrimSpace(a) == a && TrimSpace(b) == b
    requires ParseProfilePrice(a).Some? && ParseProfilePrice(b).Some? && ParseProfilePrice(a) != ParseProfilePrice(b)
    ensures UpdatesOfRepeat(c, [a, b], today) > 0
  {
    var (p, q) := (Profile(a, ParseProfilePrice(a)), Profile(b, ParseProfilePrice(b)));
    PricedIsImported([], a);
    PricedIsImported([a], b);
    assert [a] == [] + [a] && [a, b] == [a] + [b];
    ImportedArePriced([a, b]);
    assert p in Imported([a, b]) && q in Imported([a, b]);
    RouterProfilesAreAccepted(c, Imported([a, b]), today);
    SecondSyncReportsNoUpdate(c, Imported([a, b]), today);
  }

  lemma PricedIsImported(names: seq<string>, name: string)
    requires TrimSpace(name) == name && ParseProfilePrice(name).Some?
    ensures Imported(names + [name]) == Imported(names) + [Profile(name, ParseProfilePrice(name))]
  {
    if Skipped(name) {
      SkippedHasNoPrice(name);
    }
    assert (names + [name])[..|names|] == names;
  }

  lemma SkippedHasNoPrice(name: string)
    requires Skipped(name)
    ensures ParseProfilePrice(name).None?
  {
    assert forall i | 0 <= i < |name| :: !IsDigit(name[i]);
  }

  const SPACED := "A 10 K 150K"
  const DASHED := "A-10-K-150K"

  /** Two spellings of one code, priced 10 000 and 150 000. */
  lemma TwoSpellings() returns (a: string, b: string)
    ensures a == SPACED && b == DASHED && TrimSpace(a) == a && TrimSpace(b) == b
    ensures PackageCode(a) == PackageCode(b) == DASHED && !FixesPrice(PackageCode(a))
    ensures ParseProfilePrice(a) == Some(10 * CENTS_PER_THOUSAND)
    ensures ParseProfilePrice(b) == Some(150 * CENTS_PER_THOUSAND)
  {
    a, b := SPACED, DASHED;
    SpelledCode(a, b);
    SpelledCode(b, b);
    SpacedPrice(a);
    DashedPrice(b);
    WhenNamesAgree(a);
  }

  lemma SpacedPrice(s: string)
    requires s == SPACED
    ensures ParseProfilePrice(s) == Some(10 * CENTS_PER_THOUSAND)
  {
    DigitEndIs(s, 2, 4);
    GapEndIs(s, 4, 5);
    assert MatchAt(s, 2);
    assert !MatchAt(s, 0) && !MatchAt(s, 1);
    assert s[2..4] == "10";
    assert Value("10") == 10;
  }

  lemma DashedPrice(s: string)
    requires s == DASHED
    ensures ParseProfilePrice(s) == Some(150 * CENTS_PER_THOUSAND)
  {
    DigitEndIs(s, 7, 10);
    GapEndIs(s, 10, 10);
    assert MatchAt(s, 7);
    DashedBefore(s);
    assert s[7..10] == "150";
    assert "150"[..2] == "15" && "15"[..1] == "1" && Value("1") == 1;
    assert Value("15") == 15;
  }

  lemma DashedBefore(s: string)
    requires s == DASHED
    ensures NoMatch(s, 7)
  {
    DigitEndIs(s, 2, 4);
    DigitEndIs(s, 3, 4);
    GapEndIs(s, 4, 4);
    assert forall k | 0 <= k < 7 && k != 2 && k != 3 :: !IsDigit(s[k]);
  }

  /** A router that lists these two profiles has a price changed by every sync, in any state. */
  lemma SpellingsFlip(c: Catalog, today: Date) returns (a: string, b: string)
    requires ValidCatalog(c, today)
    ensures a == SPACED && b == DASHED && UpdatesOfRepeat(c, [a, b], today) > 0
  {
    a, b := TwoSpellings();
    TwoPricesFlip(c, a, b, today);
  }
}
