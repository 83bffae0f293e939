/** The RouterOS API: words with a variable-length size prefix, sentences ended by an empty word, and the
    command loop over the replies. */
module RouterOS {
  import opened Bits

  type Byte = c: char | c as int < 256 witness 'A'
  type Word = seq<Byte>
  type Sentence = seq<Word>

  // ---------------------------------------------------------------- lengths

  const MAX_WORD := 0x1_0000_0000

  function ToByte(n: nat): Byte {
    (n % 256) as char
  }

  /** `byte(n) | mask`. */
  function Marked(n: nat, mask: nat): Byte {
    ToByte(Or(n % 256, mask))
  }

  function EncodeLength(n: nat): (out: seq<Byte>)
    ensures 1 <= |out| <= 5
  {
    if n < 0x80 then [ToByte(n)]
    else if n < 0x4000 then [Marked(n / 0x100, 0x80), ToByte(n)]
    else if n < 0x20_0000 then [Marked(n / 0x1_0000, 0xC0), ToByte(n / 0x100), ToByte(n)]
    else if n < 0x1000_0000 then [Marked(n / 0x100_0000, 0xE0), ToByte(n / 0x1_0000), ToByte(n / 0x100), ToByte(n)]
    else [0xF0 as char, ToByte(n / 0x100_0000), ToByte(n / 0x1_0000), ToByte(n / 0x100), ToByte(n)]
  }

  /** What a read yields, with the bytes that remain; `Eof` when the stream ends too early. */
  datatype Read<T> = Got(value: T, rest: seq<Byte>) | Eof

  function Take(s: seq<Byte>, count: nat): Read<seq<Byte>> {
    if count <= |s| then Got(s[..count], s[count..]) else Eof
  }

  /** The size from the bits of the first byte and the bytes after it, most significant first. */
  function Compose(high: nat, bytes: seq<Byte>): nat
    requires |bytes| <= 4
  {
    if |bytes| == 0 then high
    else if |bytes| == 1 then Or(high * 0x100, bytes[0] as nat)
    else if |bytes| == 2 then Or(Or(high * 0x1_0000, bytes[0] as nat * 0x100), bytes[1] as nat)
    else if |bytes| == 3 then
      Or(Or(Or(high * 0x100_0000, bytes[0] as nat * 0x1_0000), bytes[1] as nat * 0x100), bytes[2] as nat)
    else
      Or(Or(Or(bytes[0] as nat * 0x100_0000, bytes[1] as nat * 0x1_0000), bytes[2] as nat * 0x100), bytes[3] as nat)
  }

  function ExtraBytes(first: Byte): (n: nat)
    ensures n <= 4
  {
    var b := first as nat;
    if b < 0x80 then 0 else if b < 0xC0 then 1 else if b < 0xE0 then 2 else if b < 0xF0 then 3 else 4
  }

  function HighBits(first: Byte): nat {
    var b := first as nat;
    if b < 0x80 then b
    else if b < 0xC0 then AndNot(b, 0x80)
    else if b < 0xE0 then AndNot(b, 0xC0)
    else if b < 0xF0 then AndNot(b, 0xE0)
    else 0
  }

  function DecodeLength(s: seq<Byte>): (r: Read<nat>)
    ensures r.Got? ==> |r.rest| < |s|
  {
    if s == [] then Eof
    else
      match Take(s[1..], ExtraBytes(s[0]))
      case Eof => Eof
      case Got(bytes, rest) => Got(Compose(HighBits(s[0]), bytes), rest)
  }

  // ---------------------------------------------------------------- words and sentences

  function EncodeWord(w: Word): seq<Byte> {
    EncodeLength(|w|) + w
  }

  function EncodeWords(words: Sentence): seq<Byte> {
    if words == [] then [] else EncodeWord(words[0]) + EncodeWords(words[1..])
  }

  function EncodeSentence(words: Sentence): seq<Byte> {
    EncodeWords(words) + EncodeWord([])
  }

  function EncodeAll(sentences: seq<Sentence>): seq<Byte> {
    if sentences == [] then [] else EncodeSentence(sentences[0]) + EncodeAll(sentences[1..])
  }

  /** Words up to the first empty one. */
  function DecodeSentence(s: seq<Byte>): (r: Read<Sentence>)
    ensures r.Got? ==> |r.rest| < |s|
    decreases |s|
  {
    match DecodeLength(s)
    case Eof => Eof
    case Got(n, rest) =>
      if n == 0 then Got([], rest)
      else
        match Take(rest, n)
        case Eof => Eof
        case Got(word, after) =>
          match DecodeSentence(after)
          case Eof => Eof
          case Got(words, end) => Got([word] + words, end)
  }

  // ---------------------------------------------------------------- length round trip

  lemma Powers()
    ensures Pow2(5) == 0x20 && Pow2(6) == 0x40 && Pow2(7) == 0x80 && Pow2(8) == 0x100
    ensures Pow2(16) == 0x1_0000 && Pow2(24) == 0x100_0000
  {
    assert Pow2(12) == 0x1000;
    assert Pow2(16) == 0x1_0000;
    assert Pow2(20) == 0x10_0000;
  }

  lemma OrByte(high: nat, low: Byte)
    ensures Or(high * 0x100, low as nat) == high * 0x100 + low as nat
  {
    Powers();
    DisjointBits(high * 0x100, high, 8, 0x100, low as nat);
  }

  lemma OrTwoBytes(high: nat, a: Byte, b: Byte)
    ensures Or(Or(high * 0x1_0000, a as nat * 0x100), b as nat) == high * 0x1_0000 + a as nat * 0x100 + b as nat
  {
    Powers();
    DisjointBits(high * 0x1_0000, high, 16, 0x1_0000, a as nat * 0x100);
    OrByte(high * 0x100 + a as nat, b);
  }

  lemma OrThreeBytes(high: nat, a: Byte, b: Byte, c: Byte)
    ensures Or(Or(Or(high * 0x100_0000, a as nat * 0x1_0000), b as nat * 0x100), c as nat)
            == high * 0x100_0000 + a as nat * 0x1_0000 + b as nat * 0x100 + c as nat
  {
    Powers();
    DisjointBits(high * 0x100_0000, high, 24, 0x100_0000, a as nat * 0x1_0000);
    OrTwoBytes(high * 0x100 + a as nat, b, c);
  }

  lemma DecodeParts(first: Byte, bytes: seq<Byte>, rest: seq<Byte>)
    requires |bytes| == ExtraBytes(first)
    ensures DecodeLength([first] + bytes + rest) == Got(Compose(HighBits(first), bytes), rest)
  {
    var s := [first] + bytes + rest;
    assert s[1..] == bytes + rest;
    assert s[1..][..|bytes|] == bytes && s[1..][|bytes|..] == rest;
  }

  /** The digits of the size in base 256. */
  lemma Digits(n: nat)
    ensures n == n / 0x100 * 0x100 + n % 0x100
    ensures n / 0x100 == n / 0x1_0000 * 0x100 + n / 0x100 % 0x100
    ensures n / 0x1_0000 == n / 0x100_0000 * 0x100 + n / 0x1_0000 % 0x100
  {
    assert n / 0x1_0000 == n / 0x100 / 0x100;
    assert n / 0x100_0000 == n / 0x1_0000 / 0x100;
  }

  /** A marked first byte holds the mask and the bits. */
  lemma MarkedByte(high: nat, mask: nat, both: nat)
    requires Or(high, mask) == both < 256 && high < 256
    ensures Marked(high, mask) as nat == both
  {
    SmallByte(high);
    SmallByte(both);
  }

  lemma SmallByte(n: nat)
    requires n < 256
    ensures n % 256 == n && ToByte(n) as nat == n
  {
  }

  lemma TwoBytes(high: nat, low: Byte)
    requires high < 0x40
    ensures ExtraBytes(Marked(high, 0x80)) == 1
            && Compose(HighBits(Marked(high, 0x80)), [low]) == high * 0x100 + low as nat
  {
    Powers();
    DisjointBits(0x80, 1, 7, 0x80, high);
    MarkedByte(high, 0x80, 0x80 + high);
    OrByte(high, low);
  }

  lemma ThreeBytes(high: nat, a: Byte, b: Byte)
    requires high < 0x20
    ensures ExtraBytes(Marked(high, 0xC0)) == 2
    ensures Compose(HighBits(Marked(high, 0xC0)), [a, b]) == high * 0x1_0000 + a as nat * 0x100 + b as nat
  {
    Powers();
    DisjointBits(0xC0, 3, 6, 0x40, high);
    MarkedByte(high, 0xC0, 0xC0 + high);
    OrTwoBytes(high, a, b);
  }

  lemma FourBytes(high: nat, a: Byte, b: Byte, c: Byte)
    requires high < 0x10
    ensures ExtraBytes(Marked(high, 0xE0)) == 3
    ensures Compose(HighBits(Marked(high, 0xE0)), [a, b, c])
            == high * 0x100_0000 + a as nat * 0x1_0000 + b as nat * 0x100 + c as nat
  {
    Powers();
    DisjointBits(0xE0, 7, 5, 0x20, high);
    MarkedByte(high, 0xE0, 0xE0 + high);
    OrThreeBytes(high, a, b, c);
  }

  lemma OneByteLength(n: nat)
    requires n < 0x80
    ensures ExtraBytes(EncodeLength(n)[0]) == 0 && Compose(HighBits(EncodeLength(n)[0]), EncodeLength(n)[1..]) == n
  {
    SmallByte(n);
    assert EncodeLength(n) == [ToByte(n)];
  }

  lemma TwoByteLength(n: nat)
    requires 0x80 <= n < 0x4000
    ensures ExtraBytes(EncodeLength(n)[0]) == 1 && Compose(HighBits(EncodeLength(n)[0]), EncodeLength(n)[1..]) == n
  {
    TwoBytes(n / 0x100, ToByte(n));
  }

  lemma ThreeByteLength(n: nat)
    requires 0x4000 <= n < 0x20_0000
    ensures ExtraBytes(EncodeLength(n)[0]) == 2 && Compose(HighBits(EncodeLength(n)[0]), EncodeLength(n)[1..]) == n
  {
    Digits(n);
    ThreeBytes(n / 0x1_0000, ToByte(n / 0x100), ToByte(n));
  }

  lemma FourByteLength(n: nat)
    requires 0x20_0000 <= n < 0x1000_0000
    ensures ExtraBytes(EncodeLength(n)[0]) == 3 && Compose(HighBits(EncodeLength(n)[0]), EncodeLength(n)[1..]) == n
  {
    Digits(n);
    FourBytes(n / 0x100_0000, ToByte(n / 0x1_0000), ToByte(n / 0x100), ToByte(n));
  }

  lemma FiveByteLength(n: nat)
    requires 0x1000_0000 <= n
    ensures ExtraBytes(EncodeLength(n)[0]) == 4
            && Compose(HighBits(EncodeLength(n)[0]), EncodeLength(n)[1..]) == n % MAX_WORD
  {
    var (a, b, c, d) := (n / 0x100_0000 % 0x100, n / 0x1_0000 % 0x100, n / 0x100 % 0x100, n % 0x100);
    OrThreeBytes(a, ToByte(n / 0x1_0000), ToByte(n / 0x100), ToByte(n));
    LowDigits(n);
  }

  lemma LowDigits(n: nat)
    ensures n / 0x100_0000 % 0x100 * 0x100_0000 + n / 0x1_0000 % 0x100 * 0x1_0000 + n / 0x100 % 0x100 * 0x100
            + n % 0x100
            == n % MAX_WORD
  {
    Digits(n);
    var q := n / 0x100_0000;
    assert q == q / 0x100 * 0x100 + q % 0x100;
    Remainder(n, q / 0x100,
              q % 0x100 * 0x100_0000 + n / 0x1_0000 % 0x100 * 0x1_0000 + n / 0x100 % 0x100 * 0x100 + n % 0x100);
  }

  lemma Remainder(n: nat, k: nat, r: nat)
    requires n == k * MAX_WORD + r && r < MAX_WORD
    ensures n % MAX_WORD == r
  {
  }

  /** The first byte tells how many follow, and together they give the size modulo 2^32. */
  lemma CodeOfLength(n: nat)
    ensures var code := EncodeLength(n);
            ExtraBytes(code[0]) == |code| - 1 && Compose(HighBits(code[0]), code[1..]) == n % MAX_WORD
  {
    if n >= 0x1000_0000 {
      FiveByteLength(n);
    } else {
      Remainder(n, 0, n);
      if n >= 0x20_0000 {
        FourByteLength(n);
      } else if n >= 0x4000 {
        ThreeByteLength(n);
      } else if n >= 0x80 {
        TwoByteLength(n);
      } else {
        OneByteLength(n);
      }
    }
  }

  /** The reader recovers the size modulo 2^32: the writer's longest form carries four bytes. */
  lemma LengthRoundTrip(n: nat, rest: seq<Byte>)
    ensures DecodeLength(EncodeLength(n) + rest) == Got(n % MAX_WORD, rest)
  {
    CodeOfLength(n);
    HeadAndTail(EncodeLength(n), rest);
    DecodeParts(EncodeLength(n)[0], EncodeLength(n)[1..], rest);
  }

  lemma HeadAndTail(code: seq<Byte>, rest: seq<Byte>)
    requires code != []
    ensures code + rest == [code[0]] + code[1..] + rest
  {
  }

  // ---------------------------------------------------------------- sizes on the wire

  /** The number that bytes are, most significant first. */
  function BigEndian(bytes: seq<Byte>): nat {
    if bytes == [] then 0 else BigEndian(bytes[..|bytes| - 1]) * 0x100 + bytes[|bytes| - 1] as nat
  }

  lemma OneByte(a: Byte)
    ensures BigEndian([a]) == a as nat
  {
    assert [a][..0] == [];
  }

  lemma MoreBytes(bytes: seq<Byte>, last: Byte)
    ensures BigEndian(bytes + [last]) == BigEndian(bytes) * 0x100 + last as nat
  {
    assert (bytes + [last])[..|bytes|] == bytes;
  }

  lemma BigEndianOf(a: Byte, b: Byte, c: Byte, d: Byte)
    ensures BigEndian([a]) == a as nat
    ensures BigEndian([a, b]) == a as nat * 0x100 + b as nat
    ensures BigEndian([a, b, c]) == a as nat * 0x1_0000 + b as nat * 0x100 + c as nat
    ensures BigEndian([a, b, c, d]) == a as nat * 0x100_0000 + b as nat * 0x1_0000 + c as nat * 0x100 + d as nat
  {
    OneByte(a);
    MoreBytes([a], b);
    MoreBytes([a, b], c);
    MoreBytes([a, b, c], d);
    assert [a] + [b] == [a, b] && [a, b] + [c] == [a, b, c] && [a, b, c] + [d] == [a, b, c, d];
  }

  lemma BigEndianOfFive(first: Byte, a: Byte, b: Byte, c: Byte, d: Byte)
    ensures BigEndian([first, a, b, c, d])
            == first as nat * 0x1_0000_0000 + a as nat * 0x100_0000 + b as nat * 0x1_0000 + c as nat * 0x100 + d as nat
  {
    BigEndianOf(first, a, b, c);
    MoreBytes([first, a, b, c], d);
    assert [first, a, b, c] + [d] == [first, a, b, c, d];
  }

  lemma TwoOnTheWire(n: nat)
    requires 0x80 <= n < 0x4000
    ensures |EncodeLength(n)| == 2 && BigEndian(EncodeLength(n)) == 0x8000 + n
  {
    Powers();
    DisjointBits(0x80, 1, 7, 0x80, n / 0x100);
    MarkedByte(n / 0x100, 0x80, 0x80 + n / 0x100);
    BigEndianOf(Marked(n / 0x100, 0x80), ToByte(n), ToByte(0), ToByte(0));
  }

  lemma ThreeOnTheWire(n: nat)
    requires 0x4000 <= n < 0x20_0000
    ensures |EncodeLength(n)| == 3 && BigEndian(EncodeLength(n)) == 0xC0_0000 + n
  {
    Powers();
    Digits(n);
    DisjointBits(0xC0, 3, 6, 0x40, n / 0x1_0000);
    MarkedByte(n / 0x1_0000, 0xC0, 0xC0 + n / 0x1_0000);
    BigEndianOf(Marked(n / 0x1_0000, 0xC0), ToByte(n / 0x100), ToByte(n), ToByte(0));
  }

  lemma FourOnTheWire(n: nat)
    requires 0x20_0000 <= n < 0x1000_0000
    ensures |EncodeLength(n)| == 4 && BigEndian(EncodeLength(n)) == 0xE000_0000 + n
  {
    Powers();
    Digits(n);
    DisjointBits(0xE0, 7, 5, 0x20, n / 0x100_0000);
    MarkedByte(n / 0x100_0000, 0xE0, 0xE0 + n / 0x100_0000);
    BigEndianOf(Marked(n / 0x100_0000, 0xE0), ToByte(n / 0x1_0000), ToByte(n / 0x100), ToByte(n));
  }

  lemma FiveOnTheWire(n: nat)
    requires 0x1000_0000 <= n
    ensures |EncodeLength(n)| == 5 && BigEndian(EncodeLength(n)) == 0xF0_0000_0000 + n % 0x1_0000_0000
  {
    LowDigits(n);
    BigEndianOfFive(0xF0 as char, ToByte(n / 0x100_0000), ToByte(n / 0x1_0000), ToByte(n / 0x100), ToByte(n));
  }

  /** The shortest form that holds the size is sent: its bytes are the size with the mark of the form before it. */
  lemma LengthOnTheWire(n: nat)
    ensures n < 0x80 ==> EncodeLength(n) == [n as char]
    ensures 0x80 <= n < 0x4000 ==> |EncodeLength(n)| == 2 && BigEndian(EncodeLength(n)) == 0x8000 + n
    ensures 0x4000 <= n < 0x20_0000 ==> |EncodeLength(n)| == 3 && BigEndian(EncodeLength(n)) == 0xC0_0000 + n
    ensures 0x20_0000 <= n < 0x1000_0000 ==> |EncodeLength(n)| == 4 && BigEndian(EncodeLength(n)) == 0xE000_0000 + n
    ensures 0x1000_0000 <= n ==>
              |EncodeLength(n)| == 5 && BigEndian(EncodeLength(n)) == 0xF0_0000_0000 + n % 0x1_0000_0000
  {
    if n >= 0x1000_0000 {
      FiveOnTheWire(n);
    } else if n >= 0x20_0000 {
      FourOnTheWire(n);
    } else if n >= 0x4000 {
      ThreeOnTheWire(n);
    } else if n >= 0x80 {
      TwoOnTheWire(n);
    }
  }

  lemma HighOf(b: nat)
    requires 0x80 <= b < 0xF0
    ensures HighBits(b as char) == if b < 0xC0 then b - 0x80 else if b < 0xE0 then b - 0xC0 else b - 0xE0
  {
    Powers();
    if b < 0xC0 {
      DisjointBits(0x80, 1, 7, 0x80, b - 0x80);
    } else if b < 0xE0 {
      DisjointBits(0xC0, 3, 6, 0x40, b - 0xC0);
    } else {
      DisjointBits(0xE0, 7, 5, 0x20, b - 0xE0);
    }
  }

  lemma ShortOffTheWire(first: Byte, a: Byte, b: Byte, c: Byte, rest: seq<Byte>)
    ensures first as nat < 0x80 ==> DecodeLength([first] + rest) == Got(first as nat, rest)
    ensures 0x80 <= first as nat < 0xC0 ==> DecodeLength([first, a] + rest) == Got(BigEndian([first, a]) - 0x8000, rest)
    ensures 0xC0 <= first as nat < 0xE0 ==>
              DecodeLength([first, a, b] + rest) == Got(BigEndian([first, a, b]) - 0xC0_0000, rest)
    ensures 0xE0 <= first as nat < 0xF0 ==>
              DecodeLength([first, a, b, c] + rest) == Got(BigEndian([first, a, b, c]) - 0xE000_0000, rest)
  {
    BigEndianOf(first, a, b, c);
    if first as nat < 0x80 {
      ReadsAs(first, [], rest);
    } else if first as nat < 0xF0 {
      HighOf(first as nat);
      OrByte(HighBits(first), a);
      OrTwoBytes(HighBits(first), a, b);
      OrThreeBytes(HighBits(first), a, b, c);
      ReadsAs(first, if first as nat < 0xC0 then [a] else if first as nat < 0xE0 then [a, b] else [a, b, c], rest);
    }
  }

  lemma ReadsAs(first: Byte, bytes: seq<Byte>, rest: seq<Byte>)
    requires |bytes| == ExtraBytes(first)
    ensures DecodeLength([first] + bytes + rest) == Got(Compose(HighBits(first), bytes), rest)
    ensures |bytes| == 0 ==> [first] + bytes == [first]
    ensures |bytes| == 1 ==> [first] + bytes == [first, bytes[0]]
    ensures |bytes| == 2 ==> [first] + bytes == [first, bytes[0], bytes[1]]
    ensures |bytes| == 3 ==> [first] + bytes == [first, bytes[0], bytes[1], bytes[2]]
    ensures |bytes| == 4 ==> [first] + bytes == [first, bytes[0], bytes[1], bytes[2], bytes[3]]
  {
    DecodeParts(first, bytes, rest);
  }

  lemma LongOffTheWire(first: Byte, a: Byte, b: Byte, c: Byte, d: Byte, rest: seq<Byte>)
    requires first as nat >= 0xF0
    ensures DecodeLength([first, a, b, c, d] + rest) == Got(BigEndian([a, b, c, d]), rest)
  {
    BigEndianOf(a, b, c, d);
    OrThreeBytes(a as nat, b, c, d);
    ReadsAs(first, [a, b, c, d], rest);
  }

  /** How many bytes a size takes, by its first. */
  function SizeOfSize(first: Byte): nat {
    var b := first as nat;
    if b < 0x80 then 1 else if b < 0xC0 then 2 else if b < 0xE0 then 3 else if b < 0xF0 then 4 else 5
  }

  /** The size a code stands for: its bytes as a number, without the mark of its form. */
  predicate StandsFor(code: seq<Byte>, n: nat) {
    match |code|
    case 1 => n == BigEndian(code)
    case 2 => 0x8000 + n == BigEndian(code)
    case 3 => 0xC0_0000 + n == BigEndian(code)
    case 4 => 0xE000_0000 + n == BigEndian(code)
    case 5 => n == BigEndian(code[1..])
    case _ => false
  }

  /** Any size is read as the one its bytes stand for; a stream that is too short for it gives none. */
  lemma LengthOffTheWire(s: seq<Byte>)
    ensures DecodeLength(s).Got? <==> s != [] && SizeOfSize(s[0]) <= |s|
    ensures s != [] && SizeOfSize(s[0]) <= |s| ==>
              var (read, size) := (DecodeLength(s), SizeOfSize(s[0]));
              StandsFor(s[..size], read.value) && read.rest == s[size..]
  {
    if s != [] && SizeOfSize(s[0]) <= |s| {
      var size := SizeOfSize(s[0]);
      var (zero, rest) := (ToByte(0), s[size..]);
      ShortOffTheWire(s[0], if size > 1 then s[1] else zero, if size > 2 then s[2] else zero,
                      if size > 3 then s[3] else zero, rest);
      CodeAndRest(s, size);
      BigEndianOf(s[0], zero, zero, zero);
      if size == 5 {
        LongOffTheWire(s[0], s[1], s[2], s[3], s[4], rest);
      }
    }
  }

  lemma CodeAndRest(s: seq<Byte>, size: nat)
    requires 1 <= size <= 5 && size <= |s|
    ensures s[..size] + s[size..] == s
    ensures size == 1 ==> s[..1] == [s[0]]
    ensures size == 2 ==> s[..2] == [s[0], s[1]]
    ensures size == 3 ==> s[..3] == [s[0], s[1], s[2]]
    ensures size == 4 ==> s[..4] == [s[0], s[1], s[2], s[3]]
    ensures size == 5 ==> s[..5] == [s[0], s[1], s[2], s[3], s[4]] && s[..5][1..] == [s[1], s[2], s[3], s[4]]
  {
  }

  // ---------------------------------------------------------------- sentence round trip
  // ---------------------------------------------------------------- sentence round trip

  predicate Sendable(words: Sentence) {
    forall k | 0 <= k < |words| :: 1 <= |words[k]| < MAX_WORD
  }

  lemma {:induction false} AndNotShrinks(x: nat, y: nat)
    ensures AndNot(x, y) <= x
  {
    if x == 0 {
    } else {
      AndNotShrinks(x / 2, y / 2);
    }
  }

  /** No size on the wire reaches 2^32. */
  lemma DecodedLengthBound(s: seq<Byte>)
    ensures DecodeLength(s).Got? ==> DecodeLength(s).value < MAX_WORD
  {
    if DecodeLength(s).Got? {
      var (first, bytes) := (s[0], s[1..][..ExtraBytes(s[0])]);
      AndNotShrinks(first as nat, 0x80);
      AndNotShrinks(first as nat, 0xC0);
      AndNotShrinks(first as nat, 0xE0);
      if |bytes| == 1 {
        OrByte(HighBits(first), bytes[0]);
      } else if |bytes| == 2 {
        OrTwoBytes(HighBits(first), bytes[0], bytes[1]);
      } else if |bytes| == 3 {
        OrThreeBytes(HighBits(first), bytes[0], bytes[1], bytes[2]);
      } else if |bytes| == 4 {
        OrThreeBytes(bytes[0] as nat, bytes[1], bytes[2], bytes[3]);
      }
    }
  }

  lemma {:induction false} DecodedIsSendable(s: seq<Byte>)
    ensures DecodeSentence(s).Got? ==> Sendable(DecodeSentence(s).value)
    decreases |s|
  {
    if DecodeSentence(s).Got? {
      DecodedLengthBound(s);
      var (n, rest) := (DecodeLength(s).value, DecodeLength(s).rest);
      if n != 0 {
        var (word, after) := (rest[..n], rest[n..]);
        DecodedIsSendable(after);
        OneMoreSendable(word, DecodeSentence(after).value);
      }
    }
  }

  lemma OneMoreSendable(word: Word, words: Sentence)
    requires 1 <= |word| < MAX_WORD && Sendable(words)
    ensures Sendable([word] + words)
  {
  }

  lemma DecodeOneWord(s: seq<Byte>, w: Word, after: seq<Byte>, words: Sentence, rest: seq<Byte>)
    requires w != [] && DecodeLength(s) == Got(|w|, w + after) && DecodeSentence(after) == Got(words, rest)
    ensures DecodeSentence(s) == Got([w] + words, rest)
  {
    assert (w + after)[..|w|] == w && (w + after)[|w|..] == after;
  }

  lemma Regroup(length: seq<Byte>, w: Word, others: seq<Byte>, end: seq<Byte>, rest: seq<Byte>)
    ensures length + w + others + end + rest == length + (w + (others + end + rest))
  {
  }

  lemma EmptyRoundTrip(rest: seq<Byte>)
    ensures DecodeSentence(EncodeSentence([]) + rest) == Got([], rest)
  {
    LengthRoundTrip(0, rest);
    assert EncodeSentence([]) == EncodeLength(0);
  }

  /** The encoding of a sentence starts with the size and bytes of its first word. */
  lemma FirstWord(words: Sentence, rest: seq<Byte>)
    requires words != []
    ensures EncodeSentence(words) + rest == EncodeLength(|words[0]|) + (words[0] + (EncodeSentence(words[1..]) + rest))
  {
    Regroup(EncodeLength(|words[0]|), words[0], EncodeWords(words[1..]), EncodeWord([]), rest);
  }

  lemma LengthExact(n: nat, rest: seq<Byte>)
    requires n < MAX_WORD
    ensures DecodeLength(EncodeLength(n) + rest) == Got(n, rest)
  {
    LengthRoundTrip(n, rest);
    Remainder(n, 0, n);
  }

  lemma FirstLength(words: Sentence, rest: seq<Byte>)
    requires words != [] && |words[0]| < MAX_WORD
    ensures DecodeLength(EncodeSentence(words) + rest)
            == Got(|words[0]|, words[0] + (EncodeSentence(words[1..]) + rest))
  {
    FirstWord(words, rest);
    LengthExact(|words[0]|, words[0] + (EncodeSentence(words[1..]) + rest));
  }

  lemma {:induction false} SendableRoundTrip(words: Sentence, rest: seq<Byte>)
    requires Sendable(words)
    ensures DecodeSentence(EncodeSentence(words) + rest) == Got(words, rest)
  {
    if words == [] {
      EmptyRoundTrip(rest);
    } else {
      SendableRoundTrip(words[1..], rest);
      FirstLength(words, rest);
      DecodeOneWord(EncodeSentence(words) + rest, words[0], EncodeSentence(words[1..]) + rest, words[1..], rest);
      assert [words[0]] + words[1..] == words;
    }
  }

  /** A sentence survives the wire, with the rest of the stream untouched, exactly when none of its words is
      empty or 4 GiB and more. */
  lemma SentenceRoundTrip(words: Sentence, rest: seq<Byte>)
    ensures DecodeSentence(EncodeSentence(words) + rest) == Got(words, rest) <==> Sendable(words)
  {
    if Sendable(words) {
      SendableRoundTrip(words, rest);
    }
    DecodedIsSendable(EncodeSentence(words) + rest);
  }

  function DecodeAll(s: seq<Byte>, count: nat): Read<seq<Sentence>>
    decreases count
  {
    if count == 0 then Got([], s)
    else
      match DecodeSentence(s)
      case Eof => Eof
      case Got(first, after) =>
        match DecodeAll(after, count - 1)
        case Eof => Eof
        case Got(others, rest) => Got([first] + others, rest)
  }

  /** Sentences are self-delimiting: a stream of them reads back as the same list. */
  lemma {:induction false} StreamRoundTrip(sentences: seq<Sentence>, rest: seq<Byte>)
    requires forall k | 0 <= k < |sentences| :: Sendable(sentences[k])
    ensures DecodeAll(EncodeAll(sentences) + rest, |sentences|) == Got(sentences, rest)
  {
    if sentences == [] {
    } else {
      var after := EncodeAll(sentences[1..]) + rest;
      assert EncodeAll(sentences) + rest == EncodeSentence(sentences[0]) + after;
      SendableRoundTrip(sentences[0], after);
      StreamRoundTrip(sentences[1..], rest);
      assert [sentences[0]] + sentences[1..] == sentences;
    }
  }
}
