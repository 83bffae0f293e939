/** The string helpers the services share, over ASCII text. */
module Text {

  function LowerChar(c: char): char {
    if 'A' <= c <= 'Z' then c - 'A' + 'a' else c
  }

  function UpperChar(c: char): char {
    if 'a' <= c <= 'z' then c - 'a' + 'A' else c
  }

  function Lower(s: string): (out: string)
    ensures |out| == |s|
  {
    seq(|s|, i requires 0 <= i < |s| => LowerChar(s[i]))
  }

  function Upper(s: string): (out: string)
    ensures |out| == |s|
  {
    seq(|s|, i requires 0 <= i < |s| => UpperChar(s[i]))
  }

  /** The same text but for the case of its letters. */
  predicate SameButCase(a: string, b: string) {
    |a| == |b| && forall i | 0 <= i < |a| :: SameLetter(a[i], b[i])
  }

  predicate SameLetter(c: char, d: char) {
    || c == d
    || ('a' <= c <= 'z' && c as int - d as int == 'a' as int - 'A' as int)
    || ('a' <= d <= 'z' && d as int - c as int == 'a' as int - 'A' as int)
  }

  lemma LowerForgetsCase(a: string, b: string)
    ensures Lower(a) == Lower(b) <==> SameButCase(a, b)
    ensures Upper(a) == Upper(b) <==> SameButCase(a, b)
  {
    if |a| == |b| {
      forall i | 0 <= i < |a|
        ensures Lower(a)[i] == Lower(b)[i] <==> SameLetter(a[i], b[i])
        ensures Upper(a)[i] == Upper(b)[i] <==> SameLetter(a[i], b[i])
      {
        CaseOfLetter(a[i], b[i]);
      }
      assert Lower(a) == Lower(b) <==> forall i | 0 <= i < |a| :: Lower(a)[i] == Lower(b)[i];
      assert Upper(a) == Upper(b) <==> forall i | 0 <= i < |a| :: Upper(a)[i] == Upper(b)[i];
    }
  }

  lemma CaseOfLetter(c: char, d: char)
    ensures LowerChar(c) == LowerChar(d) <==> SameLetter(c, d)
    ensures UpperChar(c) == UpperChar(d) <==> SameLetter(c, d)
  {
  }

  /** `strings.Trim` with a cutset. */
  function Trim(s: string, cut: set<char>): (out: string)
    ensures out != [] ==> out[0] !in cut && out[|out| - 1] !in cut
    ensures forall c :: c in out ==> c in s
    ensures |out| <= |s|
  {
    if s == [] then s
    else if s[0] in cut then Trim(s[1..], cut)
    else if s[|s| - 1] in cut then Trim(s[..|s| - 1], cut)
    else s
  }

  const BLANKS := {' ', '\t', '\n', '\r', '\U{000B}', '\U{000C}'}

  function TrimSpace(s: string): string {
    Trim(s, BLANKS)
  }

  /** Trimming cuts only from the ends. */
  lemma {:induction false} TrimSlice(s: string, cut: set<char>) returns (l: nat, r: nat)
    ensures l <= r <= |s| && Trim(s, cut) == s[l..r]
    ensures (forall i | 0 <= i < l :: s[i] in cut) && forall i | r <= i < |s| :: s[i] in cut
  {
    if s == [] {
      l, r := 0, 0;
    } else if s[0] in cut {
      l, r := TrimSlice(s[1..], cut);
      assert forall i | 0 < i <= l :: s[i] == s[1..][i - 1];
      assert forall i | r + 1 <= i < |s| :: s[i] == s[1..][i - 1];
      assert s[1..][l..r] == s[l + 1..r + 1];
      l, r := l + 1, r + 1;
    } else if s[|s| - 1] in cut {
      l, r := TrimSlice(s[..|s| - 1], cut);
      assert forall i | 0 <= i < |s| - 1 :: s[i] == s[..|s| - 1][i];
      assert s[..|s| - 1][l..r] == s[l..r];
    } else {
      l, r := 0, |s|;
    }
  }

  /** The word characters of the expressions. */
  predicate WordChar(c: char) {
    'a' <= c <= 'z' || 'A' <= c <= 'Z' || '0' <= c <= '9' || c == '_'
  }

  /** `strings.Split` on a one-character separator: always at least one part. */
  function Split(s: string, sep: char): (parts: seq<string>)
    ensures |parts| >= 1
    ensures forall i | 0 <= i < |parts| :: sep !in parts[i]
  {
    if s == [] then [[]]
    else if s[0] == sep then [[]] + Split(s[1..], sep)
    else
      var rest := Split(s[1..], sep);
      [[s[0]] + rest[0]] + rest[1..]
  }

  function Join(parts: seq<string>, sep: char): string
    requires |parts| >= 1
  {
    if |parts| == 1 then parts[0] else parts[0] + [sep] + Join(parts[1..], sep)
  }

  lemma {:induction false} JoinSplit(s: string, sep: char)
    ensures Join(Split(s, sep), sep) == s
  {
    if s == [] {
    } else {
      JoinSplit(s[1..], sep);
      var rest := Split(s[1..], sep);
      if s[0] == sep {
        assert ([[]] + rest)[1..] == rest;
      } else {
        assert ([[s[0]] + rest[0]] + rest[1..])[1..] == rest[1..];
      }
    }
  }

  /** Splitting undoes joining, for parts free of the separator. */
  lemma {:induction false} SplitJoin(parts: seq<string>, sep: char)
    requires |parts| >= 1 && forall i | 0 <= i < |parts| :: sep !in parts[i]
    ensures Split(Join(parts, sep), sep) == parts
  {
    if |parts| == 1 {
      SplitOne(parts[0], sep);
    } else {
      SplitJoin(parts[1..], sep);
      SplitFirst(parts[0], Join(parts[1..], sep), sep);
      assert parts[0] + [sep] + Join(parts[1..], sep) == parts[0] + ([sep] + Join(parts[1..], sep));
    }
  }

  lemma {:induction false} SplitOne(s: string, sep: char)
    requires sep !in s
    ensures Split(s, sep) == [s]
  {
    if s == [] {
    } else {
      SplitOne(s[1..], sep);
      assert [s[0]] + s[1..] == s;
    }
  }

  lemma SplitTwo(a: string, b: string, sep: char)
    requires sep !in a && sep !in b
    ensures Split(a + ([sep] + b), sep) == [a, b]
  {
    SplitFirst(a, b, sep);
    SplitOne(b, sep);
  }

  lemma {:induction false} SplitFirst(first: string, rest: string, sep: char)
    requires sep !in first
    ensures Split(first + ([sep] + rest), sep) == [first] + Split(rest, sep)
  {
    var s := first + ([sep] + rest);
    if first == [] {
      assert s[1..] == rest;
    } else {
      assert s[1..] == first[1..] + ([sep] + rest);
      SplitFirst(first[1..], rest, sep);
      assert [first[0]] + first[1..] == first;
      assert Split(s, sep)[1..] == Split(rest, sep);
    }
  }
}
