/** A connection to the router: the readers over a stream that delivers in pieces, and the command loop. */
module RouterSession {
  import opened RouterOS

  // ---------------------------------------------------------------- replies

  const RE: Word := "!re"
  const TRAP: Word := "!trap"
  const FATAL: Word := "!fatal"
  const DONE: Word := "!done"
  const MESSAGE: Word := "message"

  /** `strings.Cut` at the first equals sign; without one the value is empty. */
  function CutAtEquals(w: Word): (Word, Word) {
    if w == [] then ([], [])
    else if w[0] == '=' then ([], w[1..])
    else
      var (key, value) := CutAtEquals(w[1..]);
      ([w[0]] + key, value)
  }

  /** Words of the form `=key=value`; later ones win, anything else is skipped. */
  function Attributes(words: Sentence): map<Word, Word> {
    if words == [] then map[]
    else
      var (init, last) := (Attributes(words[..|words| - 1]), words[|words| - 1]);
      if last == [] || last[0] != '=' then init
      else
        var (key, value) := CutAtEquals(last[1..]);
        init[key := value]
  }

  function JoinWords(words: Sentence): Word {
    if words == [] then [] else if |words| == 1 then words[0] else words[0] + [' '] + JoinWords(words[1..])
  }

  /** The text of a trap: its message attribute if that is not empty, else all its words. */
  function TrapText(words: Sentence): Word {
    var attributes := Attributes(words);
    if MESSAGE in attributes && attributes[MESSAGE] != [] then attributes[MESSAGE] else JoinWords(words)
  }

  datatype Outcome =
    | Replies(rows: seq<map<Word, Word>>, rest: seq<Byte>)
    | Trapped(message: Word, rest: seq<Byte>)
    | Broken

  /** The command loop over the incoming bytes, from what it has gathered so far. */
  function Gather(s: seq<Byte>, rows: seq<map<Word, Word>>, trap: Word): Outcome
    decreases |s|
  {
    match DecodeSentence(s)
    case Eof => Broken
    case Got(words, rest) =>
      if words == [] then Gather(rest, rows, trap)
      else if words[0] == RE then Gather(rest, rows + [Attributes(words[1..])], trap)
      else if words[0] == TRAP || words[0] == FATAL then Gather(rest, rows, TrapText(words[1..]))
      else if words[0] == DONE then (if trap != [] then Trapped(trap, rest) else Replies(rows, rest))
      else Gather(rest, rows, trap)
  }

  // ---------------------------------------------------------------- meaning of a run

  function Rows(sentences: seq<Sentence>): seq<map<Word, Word>> {
    if sentences == [] then []
    else
      var first := sentences[0];
      (if first != [] && first[0] == RE then [Attributes(first[1..])] else []) + Rows(sentences[1..])
  }

  predicate IsTrap(s: Sentence) {
    s != [] && (s[0] == TRAP || s[0] == FATAL)
  }

  /** The text of the last trap among the replies, or `before` if there is none. */
  function LastTrap(sentences: seq<Sentence>, before: Word): Word {
    if sentences == [] then before
    else LastTrap(sentences[1..], if IsTrap(sentences[0]) then TrapText(sentences[0][1..]) else before)
  }

  predicate IsDone(s: Sentence) {
    s != [] && s[0] == DONE
  }

  /** What one reply adds. */
  lemma GatherStep(first: Sentence, after: seq<Byte>, rows: seq<map<Word, Word>>, trap: Word)
    requires Sendable(first) && !IsDone(first)
    ensures Gather(EncodeSentence(first) + after, rows, trap)
            == Gather(after,
                      if first != [] && first[0] == RE then rows + [Attributes(first[1..])] else rows,
                      if IsTrap(first) then TrapText(first[1..]) else trap)
  {
    SendableRoundTrip(first, after);
  }

  lemma {:induction false} GatherMeaning(replies: seq<Sentence>, done: Sentence, rest: seq<Byte>,
                                         rows: seq<map<Word, Word>>, trap: Word)
    requires forall k | 0 <= k < |replies| :: Sendable(replies[k]) && !IsDone(replies[k])
    requires Sendable(done) && IsDone(done)
    ensures Gather(EncodeAll(replies) + (EncodeSentence(done) + rest), rows, trap)
            == var text := LastTrap(replies, trap);
               if text != [] then Trapped(text, rest) else Replies(rows + Rows(replies), rest)
  {
    var tail := EncodeSentence(done) + rest;
    if replies == [] {
      assert EncodeAll(replies) + tail == tail;
      SendableRoundTrip(done, rest);
      assert rows + Rows(replies) == rows;
    } else {
      var first := replies[0];
      var after := EncodeAll(replies[1..]) + tail;
      assert EncodeAll(replies) + tail == EncodeSentence(first) + after by {
        Associate(EncodeSentence(first), EncodeAll(replies[1..]), tail);
      }
      GatherStep(first, after, rows, trap);
      var rows' := if first != [] && first[0] == RE then rows + [Attributes(first[1..])] else rows;
      var trap' := if IsTrap(first) then TrapText(first[1..]) else trap;
      GatherMeaning(replies[1..], done, rest, rows', trap');
      RowsGrow(rows, replies);
    }
  }

  lemma Associate(a: seq<Byte>, b: seq<Byte>, c: seq<Byte>)
    ensures a + b + c == a + (b + c)
  {
  }

  lemma RowsGrow(rows: seq<map<Word, Word>>, replies: seq<Sentence>)
    requires replies != []
    ensures var first := replies[0];
            (if first != [] && first[0] == RE then rows + [Attributes(first[1..])] else rows) + Rows(replies[1..])
            == rows + Rows(replies)
  {
    var (first, others) := (replies[0], Rows(replies[1..]));
    if first != [] && first[0] == RE {
      OneRowMore(rows, Attributes(first[1..]), others);
    }
  }

  lemma OneRowMore(rows: seq<map<Word, Word>>, row: map<Word, Word>, others: seq<map<Word, Word>>)
    ensures rows + [row] + others == rows + ([row] + others)
  {
  }

  /** For any replies up to the first `!done`: the attribute maps of the `!re` sentences in order, unless the
      last trap has a text; what follows `!done` stays in the stream. */
  lemma RunResult(replies: seq<Sentence>, done: Sentence, rest: seq<Byte>)
    requires forall k | 0 <= k < |replies| :: Sendable(replies[k]) && !IsDone(replies[k])
    requires Sendable(done) && IsDone(done)
    ensures var outcome := Gather(EncodeAll(replies) + (EncodeSentence(done) + rest), [], []);
            && (outcome.Trapped? <==> LastTrap(replies, []) != [])
            && (outcome.Trapped? ==> outcome == Trapped(LastTrap(replies, []), rest))
            && (!outcome.Trapped? ==> outcome == Replies(Rows(replies), rest))
  {
    GatherMeaning(replies, done, rest, [], []);
    assert [] + Rows(replies) == Rows(replies);
  }

  /** Not every trap is an error: one without words leaves no text, and as the last trap it also erases the
      text of an earlier one. Both command runs below succeed. */
  lemma BareTrapIsNoError(rest: seq<Byte>)
    ensures var bare := [TRAP];
            var told := [TRAP, "=message=no such item"];
            && Gather(EncodeAll([bare]) + (EncodeSentence([DONE]) + rest), [], []) == Replies([], rest)
            && Gather(EncodeAll([told, bare]) + (EncodeSentence([DONE]) + rest), [], []) == Replies([], rest)
  {
    var bare: Sentence := [TRAP];
    var told: Sentence := [TRAP, "=message=no such item"];
    RunResult([bare], [DONE], rest);
    RunResult([told, bare], [DONE], rest);
    assert bare[1..] == [];
    assert LastTrap([bare], []) == LastTrap([], TrapText([]));
    assert [told, bare][1..] == [bare];
    assert LastTrap([bare], TrapText(told[1..])) == LastTrap([], TrapText([]));
    assert Rows([bare]) == [] && Rows([told, bare]) == [] + Rows([bare]);
  }

  // ---------------------------------------------------------------- attribute round trip

  function Format(pairs: seq<(Word, Word)>): Sentence {
    if pairs == [] then []
        else Format(pairs[..|pairs| - 1]) + [['='] + pairs[|pairs| - 1].0 + ['='] + pairs[|pairs| - 1].1]
  }

  function MapOf(pairs: seq<(Word, Word)>): map<Word, Word> {
    if pairs == [] then map[] else MapOf(pairs[..|pairs| - 1])[pairs[|pairs| - 1].0 := pairs[|pairs| - 1].1]
  }

  lemma {:induction false} CutRoundTrip(key: Word, value: Word)
    requires '=' !in key
    ensures CutAtEquals(key + ['='] + value) == (key, value)
  {
    var w := key + ['='] + value;
    if key == [] {
      assert w[1..] == value;
    } else {
      assert w[1..] == key[1..] + ['='] + value;
      CutRoundTrip(key[1..], value);
      assert [key[0]] + key[1..] == key;
    }
  }

  /** Formatting pairs as `=key=value` words and parsing them gives the pairs as a map, for keys without an
      equals sign and any values. */
  lemma {:induction false} AttributesRoundTrip(pairs: seq<(Word, Word)>)
    requires forall k | 0 <= k < |pairs| :: '=' !in pairs[k].0
    ensures Attributes(Format(pairs)) == MapOf(pairs)
  {
    if pairs == [] {
    } else {
      var (init, last) := (pairs[..|pairs| - 1], pairs[|pairs| - 1]);
      AttributesRoundTrip(init);
      CutRoundTrip(last.0, last.1);
      var words := Format(pairs);
      assert words[..|words| - 1] == Format(init);
      assert words[|words| - 1][1..] == last.0 + ['='] + last.1;
    }
  }

  /** A word gives `key` a value: `=key=value`, or `=key` for the empty one. */
  predicate Gives(w: Word, key: Word, value: Word) {
    w == ['='] + key + ['='] + value || (w == ['='] + key && value == [])
  }

  lemma {:induction false} CutFinds(w: Word, key: Word, value: Word)
    requires '=' !in key
    ensures CutAtEquals(w) == (key, value) <==> w == key + ['='] + value || (w == key && value == [])
  {
    if w == [] {
    } else if w[0] == '=' {
      assert key == [] ==> key + ['='] + value == ['='] + value && (w == ['='] + value <==> w[1..] == value);
      assert key != [] ==> (key + ['='] + value)[0] == key[0];
    } else if key == [] || key[0] != w[0] {
      assert key != [] ==> (key + ['='] + value)[0] == key[0];
    } else {
      CutFinds(w[1..], key[1..], value);
      assert key == [key[0]] + key[1..] && w == [w[0]] + w[1..];
      assert (key + ['='] + value)[1..] == key[1..] + ['='] + value;
      assert key + ['='] + value == [key[0]] + (key[1..] + ['='] + value);
    }
  }

  lemma GivesIsCut(w: Word, key: Word, value: Word)
    requires '=' !in key
    ensures Gives(w, key, value) <==> w != [] && w[0] == '=' && CutAtEquals(w[1..]) == (key, value)
  {
    if w != [] && w[0] == '=' {
      CutFinds(w[1..], key, value);
      assert w == ['='] + w[1..];
      assert ['='] + key + ['='] + value == ['='] + (key + ['='] + value);
    }
  }

  /** Some word gives `key` a value, and the last that does gives it this one. */
  ghost predicate LastGives(words: Sentence, key: Word, value: Word) {
    exists i :: GivesLast(words, i, key, value)
  }

  ghost predicate GivesLast(words: Sentence, i: nat, key: Word, value: Word) {
    && i < |words| && Gives(words[i], key, value)
    && forall j, v | i < j < |words| :: !Gives(words[j], key, v)
  }

  /** The attributes of any words, for keys without an equals sign. */
  lemma {:induction false} AttributeMeaning(words: Sentence, key: Word, value: Word)
    requires '=' !in key
    ensures (key in Attributes(words) && Attributes(words)[key] == value) <==> LastGives(words, key, value)
  {
    if words == [] {
    } else {
      var (init, last) := (words[..|words| - 1], words[|words| - 1]);
      AttributeMeaning(init, key, value);
      forall v
        ensures Gives(last, key, v) <==> last != [] && last[0] == '=' && CutAtEquals(last[1..]) == (key, v)
      {
        GivesIsCut(last, key, v);
      }
      LastGivesMore(init, last, words, key, value);
    }
  }

  lemma LastGivesMore(init: Sentence, last: Word, words: Sentence, key: Word, value: Word)
    requires words == init + [last]
    ensures LastGives(words, key, value)
            <==> Gives(last, key, value) || ((forall v :: !Gives(last, key, v)) && LastGives(init, key, value))
  {
    if Gives(last, key, value) {
      assert GivesLast(words, |init|, key, value);
    }
    if (forall v :: !Gives(last, key, v)) && LastGives(init, key, value) {
      var i :| GivesLast(init, i, key, value);
      assert GivesLast(words, i, key, value);
    }
    if LastGives(words, key, value) && !Gives(last, key, value) {
      var i :| GivesLast(words, i, key, value);
      LastInFirst(init, last, words, i, key, value);
    }
  }

  lemma LastInFirst(init: Sentence, last: Word, words: Sentence, i: nat, key: Word, value: Word)
    requires words == init + [last] && GivesLast(words, i, key, value) && !Gives(last, key, value)
    ensures GivesLast(init, i, key, value) && forall v :: !Gives(last, key, v)
  {
    assert words[|init|] == last;
    assert i < |init|;
    forall j, v | i < j < |init|
      ensures !Gives(init[j], key, v)
    {
      assert words[j] == init[j];
    }
  }

  // ---------------------------------------------------------------- the text of a trap

  /** `text` is made of the words in order with one blank between neighbours: where each begins is in `at`. */
  predicate SpacedOut(words: Sentence, text: Word, at: seq<nat>) {
    && |at| == |words|
    && (forall k | 0 <= k < |words| :: at[k] + |words[k]| <= |text| && text[at[k]..at[k] + |words[k]|] == words[k])
    && (forall k | 0 < k < |words| :: at[k] == at[k - 1] + |words[k - 1]| + 1 && text[at[k] - 1] == ' ')
    && (words == [] ==> text == [])
    && (words != [] ==> at[0] == 0 && |text| == at[|words| - 1] + |words[|words| - 1]|)
  }

  lemma {:induction false} JoinIsSpacedOut(words: Sentence) returns (at: seq<nat>)
    ensures SpacedOut(words, JoinWords(words), at)
  {
    if |words| <= 1 {
      at := seq(|words|, _ => 0);
    } else {
      var (first, rest) := (words[0], words[1..]);
      var later := JoinIsSpacedOut(rest);
      at := [0] + seq(|rest|, k requires 0 <= k < |rest| => later[k] + |first| + 1);
      FirstAndRest(words, JoinWords(rest), at, later);
    }
  }

  lemma FirstAndRest(words: Sentence, text: Word, at: seq<nat>, later: seq<nat>)
    requires |words| > 1 && SpacedOut(words[1..], text, later)
    requires |at| == |words| && at[0] == 0 && forall k | 0 < k < |words| :: at[k] == later[k - 1] + |words[0]| + 1
    ensures SpacedOut(words, words[0] + [' '] + text, at)
  {
    var (first, all) := (words[0], words[0] + [' '] + text);
    forall k | 0 <= k < |words|
      ensures at[k] + |words[k]| <= |all| && all[at[k]..at[k] + |words[k]|] == words[k]
    {
      if k > 0 {
        assert words[1..][k - 1] == words[k];
        assert all[at[k]..at[k] + |words[k]|] == text[later[k - 1]..later[k - 1] + |words[k]|];
      }
    }
    forall k | 0 < k < |words|
      ensures at[k] == at[k - 1] + |words[k - 1]| + 1 && all[at[k] - 1] == ' '
    {
      if k > 1 {
        assert words[1..][k - 2] == words[k - 1];
        assert all[at[k] - 1] == text[later[k - 1] - 1];
      }
    }
    assert words[1..][|words| - 2] == words[|words| - 1];
  }

  /** The words give `message` no value, or an empty one last. */
  ghost predicate NoMessage(words: Sentence) {
    forall v | v != [] :: !LastGives(words, "message", v)
  }

  lemma TrapTextMeaning(words: Sentence) returns (at: seq<nat>)
    ensures forall v | v != [] && LastGives(words, "message", v) :: TrapText(words) == v
    ensures NoMessage(words) ==> SpacedOut(words, TrapText(words), at)
  {
    forall v
      ensures (MESSAGE in Attributes(words) && Attributes(words)[MESSAGE] == v) <==> LastGives(words, "message", v)
    {
      AttributeMeaning(words, MESSAGE, v);
    }
    at := JoinIsSpacedOut(words);
    if MESSAGE in Attributes(words) {
      AttributeMeaning(words, MESSAGE, Attributes(words)[MESSAGE]);
    }
  }

  /** The text of the error of a run: of its last `!trap` or `!fatal`, the last value its words give `message` if that
      is
      not empty, else those words with single blanks between them; no error if that is empty. */
  lemma ErrorText(before: seq<Sentence>, trap: Sentence, after: seq<Sentence>, done: Sentence, rest: seq<Byte>)
    returns (text: Word, at: seq<nat>)
    requires forall k | 0 <= k < |before| :: Sendable(before[k]) && !IsDone(before[k])
    requires Sendable(trap) && trap != [] && (trap[0] == "!trap" || trap[0] == "!fatal")
    requires forall k | 0 <= k < |after| :: Sendable(after[k]) && !IsDone(after[k]) && !IsTrap(after[k])
    requires Sendable(done) && done != [] && done[0] == "!done"
    ensures var outcome := Gather(EncodeAll(before + [trap] + after) + (EncodeSentence(done) + rest), [], []);
            if text != [] then outcome == Trapped(text, rest) else outcome.Replies? && outcome.rest == rest
    ensures forall v | v != [] && LastGives(trap[1..], "message", v) :: text == v
    ensures NoMessage(trap[1..]) ==> SpacedOut(trap[1..], text, at)
  {
    text := TrapText(trap[1..]);
    at := TrapTextMeaning(trap[1..]);
    LastTrapIs(before, trap, after, []);
    RunResult(before + [trap] + after, done, rest);
  }

  lemma {:induction false} LastTrapIs(before: seq<Sentence>, trap: Sentence, after: seq<Sentence>, text: Word)
    requires IsTrap(trap) && forall k | 0 <= k < |after| :: !IsTrap(after[k])
    ensures LastTrap(before + [trap] + after, text) == TrapText(trap[1..])
  {
    var all := before + [trap] + after;
    if before == [] {
      assert all[1..] == after;
      NoTrapKeeps(after, TrapText(trap[1..]));
    } else {
      assert all[1..] == before[1..] + [trap] + after;
      LastTrapIs(before[1..], trap, after, if IsTrap(before[0]) then TrapText(before[0][1..]) else text);
    }
  }

  lemma {:induction false} NoTrapKeeps(sentences: seq<Sentence>, text: Word)
    requires forall k | 0 <= k < |sentences| :: !IsTrap(sentences[k])
    ensures LastTrap(sentences, text) == text
  {
    if sentences == [] {
    } else {
      NoTrapKeeps(sentences[1..], text);
    }
  }

  // ---------------------------------------------------------------- the client

  datatype Result<+T> = Ok(value: T) | WriteFailed | ReadFailed | Trap(text: Word)

  class Client {
    var inbound: seq<Byte>   // sent by the router and not read yet
    var outbound: seq<Byte>  // written to the router
    var room: nat            // how many bytes more the connection takes before it breaks

    constructor (stream: seq<Byte>, room: nat)
      ensures inbound == stream && outbound == [] && this.room == room
    {
      inbound, outbound, this.room := stream, [], room;
    }

    /** One read of the buffered reader: at least one byte and at most the free part of the buffer, as many
        as it likes; an error at the end of the stream. */
    method ReadSome(buffer: array<Byte>, offset: nat) returns (n: nat, failed: bool)
      requires offset < buffer.Length
      modifies this`inbound, buffer
      ensures failed <==> old(inbound) == []
      ensures failed ==> inbound == [] && buffer[..] == old(buffer[..])
      ensures !failed ==> 1 <= n <= |old(inbound)| && offset + n <= buffer.Length && inbound == old(inbound)[n..]
                          && buffer[..offset + n] == old(buffer[..offset]) + old(inbound)[..n]
    {
      if inbound == [] {
        return 0, true;
      }
      failed := false;
      n :| 1 <= n <= |inbound| && offset + n <= buffer.Length;
      for i := 0 to n
        invariant inbound == old(inbound)
        invariant buffer[..offset + i] == old(buffer[..offset]) + inbound[..i]
      {
        buffer[offset + i] := inbound[i];
        assert buffer[..offset + i + 1] == buffer[..offset + i] + [inbound[i]];
      }
      inbound := inbound[n..];
    }

    /** Fill a buffer of `count` bytes however the reads are split. */
    method ReadBytes(count: nat) returns (r: Result<seq<Byte>>)
      modifies this`inbound
      ensures match Take(old(inbound), count)
              case Got(bytes, rest) => r == Ok(bytes) && inbound == rest
              case Eof => r == ReadFailed && inbound == []
    {
      var buffer := new Byte[count](_ => 'A');
      var offset := 0;
      while offset < count
        invariant 0 <= offset <= count && offset <= |old(inbound)|
        invariant inbound == old(inbound)[offset..] && buffer[..offset] == old(inbound)[..offset]
        decreases count - offset
      {
        var n, failed := ReadSome(buffer, offset);
        if failed {
          return ReadFailed;
        }
        assert old(inbound)[offset..][..n] == old(inbound)[offset..offset + n];
        offset := offset + n;
      }
      assert buffer[..] == buffer[..count];
      return Ok(buffer[..]);
    }

    method ReadLength() returns (r: Result<nat>)
      modifies this`inbound
      ensures match DecodeLength(old(inbound))
              case Got(n, rest) => r == Ok(n) && inbound == rest
              case Eof => r == ReadFailed && inbound == []
    {
      if inbound == [] {
        return ReadFailed;
      }
      var first := inbound[0];
      inbound := inbound[1..];
      var rest := ReadBytes(ExtraBytes(first));
      if rest.ReadFailed? {
        return ReadFailed;
      }
      return Ok(Compose(HighBits(first), rest.value));
    }

    method ReadSentence() returns (r: Result<Sentence>)
      modifies this`inbound
      ensures match DecodeSentence(old(inbound))
              case Got(words, rest) => r == Ok(words) && inbound == rest
              case Eof => r == ReadFailed && inbound == []
    {
      var sentence: Sentence := [];
      assert DecodeSentence(inbound).Got? ==> [] + DecodeSentence(inbound).value == DecodeSentence(inbound).value;
      while true
        invariant DecodeSentence(old(inbound)) == After(sentence, DecodeSentence(inbound))
        decreases |inbound|
      {
        var length := ReadLength();
        if !length.Ok? {
          return ReadFailed;
        }
        if length.value == 0 {
          assert sentence + [] == sentence;
          return Ok(sentence);
        }
        ghost var rest := inbound;
        var word := ReadBytes(length.value);
        if !word.Ok? {
          return ReadFailed;
        }
        AfterWord(sentence, word.value, DecodeSentence(inbound));
        sentence := sentence + [word.value];
      }
    }

    /** A write that does not fit leaves its first bytes written. */
    method Write(bytes: seq<Byte>) returns (ok: bool)
      modifies this`outbound, this`room
      ensures ok <==> |bytes| <= old(room)
      ensures ok ==> outbound == old(outbound) + bytes && room == old(room) - |bytes|
      ensures !ok ==> outbound == old(outbound) + bytes[..old(room)] && room == 0
    {
      ok := |bytes| <= room;
      var taken := if ok then |bytes| else room;
      outbound, room := outbound + bytes[..taken], room - taken;
    }

    method WriteWord(word: Word) returns (ok: bool)
      modifies this`outbound, this`room
      ensures ok <==> |EncodeWord(word)| <= old(room)
      ensures ok ==> outbound == old(outbound) + EncodeWord(word) && room == old(room) - |EncodeWord(word)|
      ensures !ok ==> outbound == old(outbound) + EncodeWord(word)[..old(room)]
    {
      ok := Write(EncodeLength(|word|));
      if ok {
        ok := Write(word);
      }
    }

    /** The words of a sentence, up to the first that cannot be written. */
    method WriteSentence(words: Sentence) returns (ok: bool)
      modifies this`outbound, this`room
      ensures ok <==> |EncodeSentence(words)| <= old(room)
      ensures ok ==> outbound == old(outbound) + EncodeSentence(words) && room == old(room) - |EncodeSentence(words)|
      ensures !ok ==> outbound == old(outbound) + EncodeSentence(words)[..old(room)]
    {
      ghost var (start, total, all) := (outbound, room, EncodeSentence(words));
      for k := 0 to |words|
        invariant |EncodeWords(words[..k])| <= |all| && |EncodeWords(words[..k])| <= total
        invariant room == total - |EncodeWords(words[..k])| && outbound == start + all[..|EncodeWords(words[..k])|]
      {
        ok := WriteNext(words, k, start, total);
        if !ok {
          WordLies(words, k);
          return false;
        }
      }
      assert words[..|words|] == words;
      ok := WriteWord([]);
      WrittenMore(start, all, |EncodeWords(words)|, EncodeWord([]), total - |EncodeWords(words)|);
    }

    /** Word `k` after the ones before it. */
    method WriteNext(words: Sentence, k: nat, ghost start: seq<Byte>, ghost total: nat) returns (ok: bool)
      requires k < |words| && |EncodeWords(words[..k])| <= |EncodeSentence(words)|
      requires |EncodeWords(words[..k])| <= total && room == total - |EncodeWords(words[..k])|
      requires outbound == start + EncodeSentence(words)[..|EncodeWords(words[..k])|]
      modifies this`outbound, this`room
      ensures ok <==> |EncodeWords(words[..k + 1])| <= total
      ensures ok ==>
                && |EncodeWords(words[..k + 1])| <= |EncodeSentence(words)|
                && room == total - |EncodeWords(words[..k + 1])|
                && outbound == start + EncodeSentence(words)[..|EncodeWords(words[..k + 1])|]
      ensures !ok ==> total <= |EncodeSentence(words)| && outbound == start + EncodeSentence(words)[..total]
    {
      ghost var n := |EncodeWords(words[..k])|;
      WordLies(words, k);
      WrittenMore(start, EncodeSentence(words), n, EncodeWord(words[k]), total - n);
      ok := WriteWord(words[k]);
    }

    /** Send one command sentence and gather the replies up to `!done`. */
    method Run(words: Sentence) returns (r: Result<seq<map<Word, Word>>>)
      modifies this
      ensures |EncodeSentence(words)| > old(room) ==>
                r == WriteFailed && outbound == old(outbound) + EncodeSentence(words)[..old(room)]
                    && inbound == old(inbound)
      ensures |EncodeSentence(words)| <= old(room) ==> outbound == old(outbound) + EncodeSentence(words)
      ensures |EncodeSentence(words)| <= old(room) ==>
                match Gather(old(inbound), [], [])
                case Replies(rows, rest) => r == Ok(rows) && inbound == rest
                case Trapped(message, rest) => r == Trap(message) && inbound == rest
                case Broken => r == ReadFailed && inbound == []
    {
      var sent := WriteSentence(words);
      if !sent {
        return WriteFailed;
      }
      var rows: seq<map<Word, Word>>, trap: Word := [], [];
      while true
        invariant outbound == old(outbound) + EncodeSentence(words)
        invariant Gather(old(inbound), [], []) == Gather(inbound, rows, trap)
        decreases |inbound|
      {
        var sentence := ReadSentence();
        if !sentence.Ok? {
          return ReadFailed;
        }
        var s := sentence.value;
        if s != [] {
          if s[0] == RE {
            rows := rows + [Attributes(s[1..])];
          } else if s[0] == TRAP || s[0] == FATAL {
            trap := TrapText(s[1..]);
          } else if s[0] == DONE {
            if trap != [] {
              return Trap(trap);
            }
            return Ok(rows);
          }
        }
      }
    }
  }

  /** A decoded sentence continued after some words already read. */
  function After(words: Sentence, r: Read<Sentence>): Read<Sentence> {
    match r
    case Eof => Eof
    case Got(more, rest) => Got(words + more, rest)
  }

  lemma AfterWord(words: Sentence, w: Word, r: Read<Sentence>)
    ensures After(words, After([w], r)) == After(words + [w], r)
  {
    if r.Got? {
      assert words + ([w] + r.value) == words + [w] + r.value;
    }
  }

  lemma {:induction false} WordsSplit(words: Sentence, k: nat)
    requires k < |words|
    ensures EncodeWords(words[..k + 1]) == EncodeWords(words[..k]) + EncodeWord(words[k])
  {
    if k == 0 {
      assert words[..1][1..] == [] && words[..0] == [];
    } else {
      var (first, rest) := (words[0], words[1..]);
      WordsSplit(rest, k - 1);
      FirstThenRest(words[..k + 1], first, rest[..k]);
      FirstThenRest(words[..k], first, rest[..k - 1]);
      Associate(EncodeWord(first), EncodeWords(rest[..k - 1]), EncodeWord(words[k]));
    }
  }

  lemma FirstThenRest(words: Sentence, first: Word, rest: Sentence)
    requires words == [first] + rest
    ensures EncodeWords(words) == EncodeWord(first) + EncodeWords(rest)
  {
    assert words[1..] == rest;
  }

  /** Where a word lies in its sentence. */
  lemma WordLies(words: Sentence, k: nat)
    requires k < |words|
    ensures var (all, n, word) := (EncodeSentence(words), |EncodeWords(words[..k])|, EncodeWord(words[k]));
            && n + |word| == |EncodeWords(words[..k + 1])| <= |all| && all[n..n + |word|] == word
  {
    WordsSplit(words, k);
    FirstWordsFirst(words, k + 1);
    EndOfPrefix(EncodeWords(words[..k]), EncodeWord(words[k]), EncodeSentence(words));
  }

  lemma EndOfPrefix(a: seq<Byte>, b: seq<Byte>, all: seq<Byte>)
    requires a + b <= all
    ensures all[|a|..|a| + |b|] == b
  {
    assert all[..|a| + |b|] == a + b;
  }

  /** A part written after what is written, whole or cut. */
  lemma WrittenMore(start: seq<Byte>, all: seq<Byte>, n: nat, word: seq<Byte>, room: nat)
    requires n + |word| <= |all| && all[n..n + |word|] == word
    ensures start + all[..n] + word == start + all[..n + |word|]
    ensures room < |word| ==> start + all[..n] + word[..room] == start + all[..n + room]
  {
    assert all[..n] + word == all[..n + |word|];
    Associate(start, all[..n], word);
    if room < |word| {
      assert all[..n] + word[..room] == all[..n + room];
      Associate(start, all[..n], word[..room]);
    }
  }

  lemma {:induction false} FirstWordsFirst(words: Sentence, k: nat)
    requires k <= |words|
    ensures EncodeWords(words[..k]) <= EncodeSentence(words)
    decreases |words| - k
  {
    if k == |words| {
      assert words[..k] == words;
    } else {
      FirstWordsFirst(words, k + 1);
      WordsSplit(words, k);
    }
  }
}
