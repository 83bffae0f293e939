/** Finding a location label inside an interface name. */
module LocLabel {
  import opened Decimal
  import opened ZteIndex

  // ---------------------------------------------------------------- what a label is

  /** `s[lo..hi]` is a non-empty run of digits. */
  predicate Number(s: string, lo: int, hi: int) {
    0 <= lo < hi <= |s| && forall i | lo <= i < hi :: IsDigit(s[i])
  }

  /** digits/digits/digits, from `i` to `c`. */
  predicate Triple(s: string, i: int, a: int, b: int, c: int) {
    Number(s, i, a) && Number(s, a + 1, b) && Number(s, b + 1, c) && s[a] == '/' && s[b] == '/'
  }

  /** The place, and possibly an ONU number. */
  predicate Ends(s: string, c: int, k: int) {
    k == c || (0 <= c < |s| && s[c] == ':' && Number(s, c + 1, k))
  }

  ghost predicate Label(s: string, i: int, k: int) {
    exists a, b, c :: Triple(s, i, a, b, c) && Ends(s, c, k)
  }

  /** The first label of the text, taken as long as it goes. */
  ghost predicate LeftmostLongest(s: string, i: int, k: int) {
    Label(s, i, k) && forall i', k' :: Label(s, i', k') ==> i <= i' && (i == i' ==> k' <= k)
  }

  // ---------------------------------------------------------------- the scan

  /** Where `n` groups of digits, separated by slashes, end when read greedily from `i`; -1 if they are not there. */
  function GroupsEnd(s: string, i: nat, n: nat): (j: int)
    requires i <= |s|
    ensures -1 <= j <= |s|
  {
    if n == 0 then i
    else
      var before := GroupsEnd(s, i, n - 1);
      if before < 0 || (n > 1 && !(before < |s| && s[before] == '/')) then -1
      else
        var start := if n > 1 then before + 1 else before;
        if DigitEnd(s, start) == start then -1 else DigitEnd(s, start)
  }

  /** The optional number after the place. */
  function TailEnd(s: string, c: nat): (k: nat)
    requires c <= |s|
    ensures c <= k <= |s|
  {
    if c < |s| && s[c] == ':' && DigitEnd(s, c + 1) > c + 1 then DigitEnd(s, c + 1) else c
  }

  /** The greedy reading at `i` finds the longest label there is at `i`, and fails only if there is none. */
  lemma GreedyIsLongest(s: string, i: nat)
    requires i <= |s|
    ensures GroupsEnd(s, i, 3) >= 0 ==> Label(s, i, TailEnd(s, GroupsEnd(s, i, 3)))
    ensures forall k :: Label(s, i, k) ==> GroupsEnd(s, i, 3) >= 0 && k <= TailEnd(s, GroupsEnd(s, i, 3))
  {
    if GroupsEnd(s, i, 3) >= 0 {
      GreedyIsLabel(s, i);
    }
    forall k | Label(s, i, k)
      ensures GroupsEnd(s, i, 3) >= 0 && k <= TailEnd(s, GroupsEnd(s, i, 3))
    {
      var a', b', c' :| Triple(s, i, a', b', c') && Ends(s, c', k);
      GreedyCovers(s, i, a', b', c', k);
    }
  }

  lemma GreedyIsLabel(s: string, i: nat)
    requires i <= |s| && GroupsEnd(s, i, 3) >= 0
    ensures Label(s, i, TailEnd(s, GroupsEnd(s, i, 3)))
  {
    var (a, b, c) := (GroupsEnd(s, i, 1), GroupsEnd(s, i, 2), GroupsEnd(s, i, 3));
    assert b >= 0 && s[b] == '/' && c == DigitEnd(s, b + 1);
    assert a >= 0 && s[a] == '/' && b == DigitEnd(s, a + 1);
    assert GroupsEnd(s, i, 0) == i && a == DigitEnd(s, i);
    assert Triple(s, i, a, b, c) && Ends(s, c, TailEnd(s, c));
  }

  lemma GreedyCovers(s: string, i: nat, a: int, b: int, c: int, k: int)
    requires i <= |s| && Triple(s, i, a, b, c) && Ends(s, c, k)
    ensures GroupsEnd(s, i, 3) >= 0 && k <= TailEnd(s, GroupsEnd(s, i, 3))
  {
    GreedyGroups(s, i, a, b, c);
    RunCovers(s, b + 1, c);
    if k != c {
      RunEnds(s, b + 1, c);
      RunCovers(s, c + 1, k);
    }
  }

  lemma GreedyGroups(s: string, i: nat, a: int, b: int, c: int)
    requires i <= |s| && Triple(s, i, a, b, c)
    ensures GroupsEnd(s, i, 3) == DigitEnd(s, b + 1)
  {
    RunEnds(s, i, a);
    assert GroupsEnd(s, i, 0) == i;
    assert GroupsEnd(s, i, 1) == a;
    RunEnds(s, a + 1, b);
    assert GroupsEnd(s, i, 2) == b;
    RunCovers(s, b + 1, c);
  }

  lemma {:induction false} RunCovers(s: string, lo: int, hi: int)
    requires Number(s, lo, hi)
    ensures DigitEnd(s, lo) >= hi
    decreases hi - lo
  {
    if lo + 1 < hi {
      RunCovers(s, lo + 1, hi);
    }
  }

  lemma RunEnds(s: string, lo: int, hi: int)
    requires Number(s, lo, hi) && hi < |s| && !IsDigit(s[hi])
    ensures DigitEnd(s, lo) == hi
  {
    RunCovers(s, lo, hi);
  }

  /** No label starts before `i`. */
  ghost predicate NoneBefore(s: string, i: int) {
    forall i', k :: Label(s, i', k) ==> i <= i'
  }

  /** `extractLocLabel`: the first label, as long as it goes; nothing exactly when the text holds none. */
  method ExtractLocLabel(s: string) returns (out: string)
    ensures out == "" <==> forall i, k :: !Label(s, i, k)
    ensures out != "" ==> exists i, k :: LeftmostLongest(s, i, k) && 0 <= i <= k <= |s| && out == s[i..k]
  {
    LabelsAreInside(s);
    var i := 0;
    while i < |s|
      invariant 0 <= i <= |s| && NoneBefore(s, i)
    {
      if IsDigit(s[i]) {
        var j := MatchGroups(s, i);
        GreedyIsLongest(s, i);
        if j >= 0 {
          var k := MatchTail(s, j);
          assert LeftmostLongest(s, i, k);
          return s[i..k];
        }
      }
      i := i + 1;
    }
    return "";
  }

  lemma LabelsAreInside(s: string)
    ensures forall i, k :: Label(s, i, k) ==> 0 <= i < k <= |s| && IsDigit(s[i])
  {
  }

  /** The loop over the three groups. */
  method MatchGroups(s: string, i: nat) returns (j: int)
    requires i < |s|
    ensures j == GroupsEnd(s, i, 3)
  {
    j := i;
    for group := 0 to 3
      invariant j == GroupsEnd(s, i, group) && j >= 0
    {
      if group > 0 {
        if j >= |s| || s[j] != '/' {
          GroupsStayAbsent(s, i, group + 1, 3);
          return -1;
        }
        j := j + 1;
      }
      var start := j;
      while j < |s| && IsDigit(s[j])
        invariant start <= j <= |s| && DigitEnd(s, start) == DigitEnd(s, j)
      {
        j := j + 1;
      }
      if j == start {
        GroupsStayAbsent(s, i, group + 1, 3);
        return -1;
      }
    }
  }

  lemma {:induction false} GroupsStayAbsent(s: string, i: nat, n: nat, m: nat)
    requires i <= |s| && n <= m && GroupsEnd(s, i, n) == -1
    ensures GroupsEnd(s, i, m) == -1
  {
    if n < m {
      GroupsStayAbsent(s, i, n, m - 1);
    }
  }

  method MatchTail(s: string, c: nat) returns (k: nat)
    requires c <= |s|
    ensures k == TailEnd(s, c)
  {
    if c < |s| && s[c] == ':' {
      k := c + 1;
      while k < |s| && IsDigit(s[k])
        invariant c < k <= |s| && DigitEnd(s, c + 1) == DigitEnd(s, k)
      {
        k := k + 1;
      }
      if k > c + 1 {
        return;
      }
    }
    return c;
  }

  // ---------------------------------------------------------------- labels are found where they were put

  /** Between a digit-free beginning and a rest that does not go on with a digit, the label of any ONU is the
      leftmost longest label of the text. */
  lemma LabelIsFound(before: string, shelf: nat, slot: nat, port: nat, id: nat, after: string)
    requires forall i | 0 <= i < |before| :: !IsDigit(before[i])
    requires after == [] || !IsDigit(after[0])
    ensures var text := Pon(shelf, slot, port) + ":" + Itoa(id);
            LeftmostLongest(before + text + after, |before|, |before| + |text|)
  {
    PlacedNumbers(before, Itoa(shelf), Itoa(slot), Itoa(port), Itoa(id), after);
    Regroup(before, Itoa(shelf), Itoa(slot), Itoa(port), Itoa(id), after);
  }

  lemma Regroup(before: string, shelf: string, slot: string, port: string, id: string, after: string)
    ensures before + (shelf + "/" + slot + "/" + port + ":" + id) + after
            == Spelled(before, shelf, slot, port, id, after)
    ensures |shelf + "/" + slot + "/" + port + ":" + id| == |shelf| + |slot| + |port| + |id| + 3
  {
    assert before + (shelf + "/" + slot) == before + shelf + "/" + slot;
  }

  function Spelled(before: string, shelf: string, slot: string, port: string, id: string, after: string): string {
    before + shelf + "/" + slot + "/" + port + ":" + id + after
  }

  predicate Numeral(t: string) {
    t != [] && AllDigits(t)
  }

  lemma PlacedNumbers(before: string, shelf: string, slot: string, port: string, id: string, after: string)
    requires Numeral(shelf) && Numeral(slot) && Numeral(port) && Numeral(id)
    requires forall i | 0 <= i < |before| :: !IsDigit(before[i])
    requires after == [] || !IsDigit(after[0])
    ensures LeftmostLongest(Spelled(before, shelf, slot, port, id, after), |before|,
                            |before| + |shelf| + |slot| + |port| + |id| + 3)
  {
    var s := Spelled(before, shelf, slot, port, id, after);
    var i := |before|;
    var a := i + |shelf|;
    var b := a + 1 + |slot|;
    var c := b + 1 + |port|;
    var k := c + 1 + |id|;
    assert s[a] == '/' && s[b] == '/' && s[c] == ':';
    NumberHere(s, i, shelf);
    NumberHere(s, a + 1, slot);
    NumberHere(s, b + 1, port);
    NumberHere(s, c + 1, id);
    assert k < |s| ==> s[k] == after[0];
    assert forall i' | 0 <= i' < i :: s[i'] == before[i'];
    FirstLabel(s, i, a, b, c, k);
  }

  lemma FirstLabel(s: string, i: nat, a: nat, b: nat, c: nat, k: nat)
    requires Triple(s, i, a, b, c) && c < |s| && s[c] == ':' && Number(s, c + 1, k)
    requires (k < |s| ==> !IsDigit(s[k])) && forall i' | 0 <= i' < i :: !IsDigit(s[i'])
    ensures LeftmostLongest(s, i, k)
  {
    ReadExactly(s, i, a, b, c, k);
    GreedyIsLongest(s, i);
    LabelsAreInside(s);
  }

  lemma ReadExactly(s: string, i: nat, a: nat, b: nat, c: nat, k: nat)
    requires Triple(s, i, a, b, c) && c < |s| && s[c] == ':' && Number(s, c + 1, k) && (k < |s| ==> !IsDigit(s[k]))
    ensures GroupsEnd(s, i, 3) == c && TailEnd(s, c) == k
  {
    RunEnds(s, i, a);
    RunEnds(s, a + 1, b);
    RunEnds(s, b + 1, c);
    RunCovers(s, c + 1, k);
    assert GroupsEnd(s, i, 0) == i && GroupsEnd(s, i, 1) == a && GroupsEnd(s, i, 2) == b;
  }

  lemma NumberHere(s: string, lo: nat, t: string)
    requires Numeral(t) && lo + |t| <= |s| && s[lo..lo + |t|] == t
    ensures Number(s, lo, lo + |t|)
  {
    assert forall i | lo <= i < lo + |t| :: s[i] == t[i - lo];
  }

  /** A text has one leftmost longest label, so that is what is extracted. */
  lemma OneLabel(s: string, i: int, k: int, i': int, k': int)
    requires LeftmostLongest(s, i, k) && LeftmostLongest(s, i', k')
    ensures i == i' && k == k'
  {
  }
}
