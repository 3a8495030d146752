/** `sha256Hex` and `parseHexWords`: the loops of the source against the specification. */
module Sha256 {
  import opened Numbers
  import opened Sha256Spec

  // ---------------------------------------------------------------- JavaScript numbers

  /** `x >>> 0` of a sum of words: sums stay exact, the conversion keeps 32 bits. */
  function ToUint32(n: nat): Word {
    n % MODULUS
  }

  lemma AddIsSum(x: Word, y: Word, s: nat)
    requires x == s % MODULUS
    ensures Add(x, y) == (s + y) % MODULUS
  {
  }

  lemma SumOfFour(a: Word, b: Word, c: Word, d: Word)
    ensures Add(Add(a, b), Add(c, d)) == ToUint32(d + c + b + a)
  {
  }

  lemma SumOfFive(a: Word, b: Word, c: Word, d: Word, e: Word)
    ensures Add(Add(Add(Add(a, b), c), d), e) == ToUint32(a + b + c + d + e)
  {
    hide Add;
    AddIsSum(a, b, a);
    AddIsSum(Add(a, b), c, a + b);
    AddIsSum(Add(Add(a, b), c), d, a + b + c);
    AddIsSum(Add(Add(Add(a, b), c), d), e, a + b + c + d);
  }

  /** Assembling a word by shifts is reading it big-endian. */
  function ShiftedWord(b0: bv8, b1: bv8, b2: bv8, b3: bv8): bv32 {
    ((b0 as bv32) << 24) | ((b1 as bv32) << 16) | ((b2 as bv32) << 8) | (b3 as bv32)
  }

  lemma ShiftedWordIsBigEndian(b0: bv8, b1: bv8, b2: bv8, b3: bv8)
    ensures ShiftedWord(b0, b1, b2, b3) == ((b0 as bv32 * 256 + b1 as bv32) * 256 + b2 as bv32) * 256 + b3 as bv32
  {
  }

  // ---------------------------------------------------------------- padding

  /** The bytes pushed for one half of the bit length: shifts and masks of a number. */
  function FourBytes(w: nat): seq<bv8> {
    [(w / 16777216 % 256) as bv8, (w / 65536 % 256) as bv8, (w / 256 % 256) as bv8, (w % 256) as bv8]
  }

  /** Dividing step by step by 256. */
  lemma DivideOn(m: nat)
    ensures m / 256 / 256 == m / 65536 && m / 256 / 256 / 256 == m / 16777216 && m / 256 / 256 / 256 / 256 == m / MODULUS
  {
  }

  lemma KeepsLow(m: nat, d: nat, rest: nat)
    requires d > 0 && d * (256 * rest) == MODULUS && rest > 0
    ensures m % MODULUS / d % 256 == m / d % 256
  {
    var q, lo := m / MODULUS, m % MODULUS;
    var a := lo / d;
    assert m == d * (256 * rest * q + a) + lo % d by { assert MODULUS * q == d * (256 * rest * q); }
    QuotientIs(m, d, 256 * rest * q + a, lo % d);
    assert (256 * (rest * q) + a) % 256 == a % 256;
    assert 256 * rest * q == 256 * (rest * q);
  }

  /** The four bytes of a number's low 32 bits. */
  lemma LowBytes(m: nat)
    ensures var lo := m % MODULUS;
      && lo / 16777216 % 256 == m / 256 / 256 / 256 % 256 && lo / 65536 % 256 == m / 256 / 256 % 256
      && lo / 256 % 256 == m / 256 % 256 && lo % 256 == m % 256
  {
    DivideOn(m);
    KeepsLow(m, 16777216, 1);
    KeepsLow(m, 65536, 256);
    KeepsLow(m, 256, 65536);
    KeepsLow(m, 1, 16777216);
  }

  lemma EightBytes(n: nat)
    ensures BigEndian(8, n) == FourBytes(n / 256 / 256 / 256 / 256 % MODULUS) + FourBytes(n % MODULUS)
  {
    hide BigEndian, FourBytes;
    var n1 := n / 256;
    var n2 := n1 / 256;
    var n3 := n2 / 256;
    var n4 := n3 / 256;
    var n5 := n4 / 256;
    var n6 := n5 / 256;
    var n7 := n6 / 256;
    FourMore(4, n, n1, n2, n3, n4);
    FourMore(0, n4, n5, n6, n7, n7 / 256);
    BytesStep(0, n7 / 256);
    FourOf(n);
    FourOf(n4);
    assert BigEndian(4, n4) == FourBytes(n4 % MODULUS);
  }

  lemma FourMore(k: nat, n: nat, n1: nat, n2: nat, n3: nat, n4: nat)
    requires n1 == n / 256 && n2 == n1 / 256 && n3 == n2 / 256 && n4 == n3 / 256
    ensures BigEndian(k + 4, n) == BigEndian(k, n4) + [(n3 % 256) as bv8, (n2 % 256) as bv8, (n1 % 256) as bv8, (n % 256) as bv8]
  {
    hide BigEndian;
    BytesStep(k + 3, n);
    BytesStep(k + 2, n1);
    BytesStep(k + 1, n2);
    BytesStep(k, n3);
  }

  lemma BytesStep(k: nat, n: nat)
    ensures BigEndian(k + 1, n) == BigEndian(k, n / 256) + [(n % 256) as bv8]
    ensures BigEndian(0, n) == []
  {
  }

  /** The high and low halves of the bit length are its 64-bit big-endian bytes, and
      together they are the length as long as it has 64 bits. */
  lemma LengthBytes(n: nat)
    ensures FourBytes(n / MODULUS % MODULUS) + FourBytes(n % MODULUS) == BigEndian(8, n)
    ensures n < MODULUS * MODULUS ==> (n / MODULUS % MODULUS) * MODULUS + n % MODULUS == n
  {
    hide BigEndian, FourBytes;
    FourDivisions(n);
    EightBytes(n);
    if n < MODULUS * MODULUS { HighIsSmall(n); }
  }

  lemma FourDivisions(n: nat)
    ensures n / MODULUS == n / 256 / 256 / 256 / 256
  {
  }

  lemma FourOf(m: nat)
    ensures FourBytes(m % MODULUS) ==
      [(m / 256 / 256 / 256 % 256) as bv8, (m / 256 / 256 % 256) as bv8, (m / 256 % 256) as bv8, (m % 256) as bv8]
  {
    LowBytes(m);
  }

  lemma HighIsSmall(n: nat)
    requires n < MODULUS * MODULUS
    ensures n / MODULUS % MODULUS == n / MODULUS
  {
    assert n / MODULUS < MODULUS;
  }

  lemma MoreZeros(k: nat)
    ensures Zeros(0) == [] && Zeros(k + 1) == Zeros(k) + [0]
  {
  }

  lemma ShortLength(length: nat)
    ensures ToUint32(length * 8 / MODULUS) == 8 * length / MODULUS % MODULUS && ToUint32(length * 8) == 8 * length % MODULUS
  {
  }

  /** The head of `sha256Hex`: the message padded to whole blocks. */
  method PadMessage(message: seq<bv8>) returns (bytes: seq<bv8>)
    ensures bytes == Pad(message)
  {
    hide BigEndian, FourBytes, Zeros, ToUint32;
    ShortLength(|message|);
    bytes := message;
    var bitLenHi := ToUint32(|bytes| * 8 / MODULUS);
    var bitLenLo := ToUint32(|bytes| * 8);
    bytes := bytes + [0x80];
    ghost var k: nat := 0;
    MoreZeros(0);
    while |bytes| % 64 != 56
      invariant k <= ZeroBytes(|message|) && bytes == message + [0x80] + Zeros(k)
      decreases ZeroBytes(|message|) - k
    {
      bytes := bytes + [0];
      k := k + 1;
      MoreZeros(k - 1);
    }
    ZeroBytesIsLeast(|message|, k);
    LengthBytes(8 * |message|);
    bytes := bytes + FourBytes(bitLenHi) + FourBytes(bitLenLo);
  }

  // ---------------------------------------------------------------- one block

  /** The two loops that fill `w`. */
  method FillSchedule(bytes: seq<bv8>, offset: nat, w: array<Word>)
    requires offset + 64 <= |bytes| && w.Length == 64
    modifies w
    ensures forall t :: 0 <= t < 64 ==> w[t] == Schedule(bytes, offset, t)
  {
    hide SmallSigma0, SmallSigma1, Add, ToUint32, Schedule, WordAt;
    for i := 0 to 16
      invariant forall t :: 0 <= t < i ==> w[t] == Schedule(bytes, offset, t)
    {
      var j := offset + i * 4;
      FirstWords(bytes, offset, i);
      w[i] := FromBits(ShiftedWord(bytes[j], bytes[j + 1], bytes[j + 2], bytes[j + 3]));
    }
    for i := 16 to 64
      invariant forall t :: 0 <= t < i ==> w[t] == Schedule(bytes, offset, t)
    {
      var s0 := SmallSigma0(w[i - 15]);
      var s1 := SmallSigma1(w[i - 2]);
      LaterWords(bytes, offset, i);
      w[i] := ToUint32(w[i - 16] as nat + s0 as nat + w[i - 7] as nat + s1 as nat);
    }
  }

  lemma FirstWords(bytes: seq<bv8>, offset: nat, i: nat)
    requires offset + 64 <= |bytes| && i < 16
    ensures var j := offset + i * 4;
      Schedule(bytes, offset, i) == FromBits(ShiftedWord(bytes[j], bytes[j + 1], bytes[j + 2], bytes[j + 3]))
  {
    hide ShiftedWord;
    var j := offset + i * 4;
    ShiftedWordIsBigEndian(bytes[j], bytes[j + 1], bytes[j + 2], bytes[j + 3]);
  }

  lemma LaterWords(bytes: seq<bv8>, offset: nat, i: nat)
    requires offset + 64 <= |bytes| && 16 <= i < 64
    ensures Schedule(bytes, offset, i) ==
      ToUint32(Schedule(bytes, offset, i - 16) + SmallSigma0(Schedule(bytes, offset, i - 15))
               + Schedule(bytes, offset, i - 7) + SmallSigma1(Schedule(bytes, offset, i - 2)))
  {
    hide SmallSigma0, SmallSigma1, Add, ToUint32, WordAt;
    ScheduleUnfold(bytes, offset, i);
    hide Schedule;
    SumOfFour(SmallSigma1(Schedule(bytes, offset, i - 2)), Schedule(bytes, offset, i - 7),
              SmallSigma0(Schedule(bytes, offset, i - 15)), Schedule(bytes, offset, i - 16));
    SumReordered(Schedule(bytes, offset, i - 16), SmallSigma0(Schedule(bytes, offset, i - 15)),
                 Schedule(bytes, offset, i - 7), SmallSigma1(Schedule(bytes, offset, i - 2)));
  }

  lemma SumReordered(a: Word, b: Word, c: Word, d: Word)
    ensures ToUint32(a + b + c + d) == ToUint32(d + c + b + a)
    ensures ToUint32(a + b + c + d) == Add(Add(d, c), Add(b, a))
  {
    SumOfFour(d, c, b, a);
  }

  lemma ScheduleUnfold(bytes: seq<bv8>, offset: nat, t: nat)
    requires offset + 64 <= |bytes| && 16 <= t < 64
    ensures Schedule(bytes, offset, t) ==
      Add(Add(SmallSigma1(Schedule(bytes, offset, t - 2)), Schedule(bytes, offset, t - 7)),
          Add(SmallSigma0(Schedule(bytes, offset, t - 15)), Schedule(bytes, offset, t - 16)))
  {
    hide SmallSigma0, SmallSigma1, Add, WordAt;
  }

  /** The 64 rounds of one block. */
  method RunRounds(bytes: seq<bv8>, offset: nat, w: array<Word>, v: Hash) returns (r: Hash)
    requires offset + 64 <= |bytes| && w.Length == 64
    requires forall t :: 0 <= t < 64 ==> w[t] == Schedule(bytes, offset, t)
    ensures r == Rounds(bytes, offset, v, 64)
  {
    hide *;
    var a, b, c, d, e, f, g, h := v.a, v.b, v.c, v.d, v.e, v.f, v.g, v.h;
    NoRounds(bytes, offset, v);
    ConstantsAre64();
    for i := 0 to 64
      invariant Hash(a, b, c, d, e, f, g, h) == Rounds(bytes, offset, v, i)
    {
      OneRound(bytes, offset, v, i);
      RoundIs(Hash(a, b, c, d, e, f, g, h), K[i], w[i]);
      var S1 := BigSigma1(e);
      var ch := Ch(e, f, g);
      var t1 := ToUint32(h as nat + S1 as nat + ch as nat + K[i] as nat + w[i] as nat);
      var S0 := BigSigma0(a);
      var maj := Maj(a, b, c);
      var t2 := ToUint32(S0 as nat + maj as nat);
      h := g;
      g := f;
      f := e;
      e := ToUint32(d as nat + t1 as nat);
      d := c;
      c := b;
      b := a;
      a := ToUint32(t1 as nat + t2 as nat);
    }
    r := Hash(a, b, c, d, e, f, g, h);
  }

  lemma ConstantsAre64()
    ensures |K| == 64
  {
  }

  lemma NoRounds(bytes: seq<bv8>, offset: nat, v: Hash)
    requires offset + 64 <= |bytes|
    ensures Rounds(bytes, offset, v, 0) == v && Hash(v.a, v.b, v.c, v.d, v.e, v.f, v.g, v.h) == v
  {
  }

  lemma OneRound(bytes: seq<bv8>, offset: nat, v: Hash, i: nat)
    requires offset + 64 <= |bytes| && i < 64
    ensures |K| == 64 && Rounds(bytes, offset, v, i + 1) == Round(Rounds(bytes, offset, v, i), K[i], Schedule(bytes, offset, i))
  {
    hide Round, Schedule, K;
    ConstantsAre64();
  }

  lemma RoundIs(v: Hash, k: Word, w: Word)
    ensures var t1 := ToUint32(v.h + BigSigma1(v.e) + Ch(v.e, v.f, v.g) + k + w);
      var t2 := ToUint32(BigSigma0(v.a) + Maj(v.a, v.b, v.c));
      Round(v, k, w) == Hash(ToUint32(t1 + t2), v.a, v.b, v.c, ToUint32(v.d + t1), v.e, v.f, v.g)
  {
    hide BigSigma0, BigSigma1, Ch, Maj;
    SumOfFive(v.h, BigSigma1(v.e), Ch(v.e, v.f, v.g), k, w);
  }

  /** `sha256Hex` up to the conversion to text. */
  method HashMessage(message: seq<bv8>) returns (r: Hash)
    ensures r == Sha256Spec.Sha256(message)
  {
    hide Rounds, Schedule, Pad;
    var bytes := PadMessage(message);
    PadIsBlocks(message);
    var v := INITIAL;
    var w := new Word[64](_ => 0);
    var offset := 0;
    while offset < |bytes|
      invariant offset % 64 == 0 && offset <= |bytes| && |bytes| % 64 == 0
      invariant v == Blocks(bytes, offset / 64)
      decreases |bytes| - offset
    {
      FillSchedule(bytes, offset, w);
      var u := RunRounds(bytes, offset, w, v);
      var n := offset / 64;
      assert 64 * n == offset;
      v := Hash(ToUint32(v.a + u.a), ToUint32(v.b + u.b), ToUint32(v.c + u.c), ToUint32(v.d + u.d),
                ToUint32(v.e + u.e), ToUint32(v.f + u.f), ToUint32(v.g + u.g), ToUint32(v.h + u.h));
      offset := offset + 64;
      assert offset / 64 == n + 1;
    }
    assert offset == |bytes|;
    r := v;
  }

  lemma PadIsBlocks(message: seq<bv8>)
    ensures |Pad(message)| % 64 == 0 && |Pad(message)| == |message| + 9 + ZeroBytes(|message|)
  {
  }

  // ---------------------------------------------------------------- hexadecimal text

  function HexDigit(n: nat): char
    requires n < 16
  {
    "0123456789abcdef"[n]
  }

  /** `Number.prototype.toString(16)` */
  function ToHex(n: nat): (s: string)
    ensures s != ""
  {
    if n < 16 then [HexDigit(n)] else ToHex(n / 16) + [HexDigit(n % 16)]
  }

  function PadLeft(s: string): (r: string)
    ensures |s| <= 8 ==> |r| == 8
    decreases 8 - |s|
  {
    if |s| < 8 then PadLeft("0" + s) else s
  }

  /** `toHex32` */
  method ToHex32(x: Word) returns (hex: string)
    ensures hex == PadLeft(ToHex(x))
  {
    hex := ToHex(x);
    while |hex| < 8
      invariant PadLeft(hex) == PadLeft(ToHex(x))
      decreases 8 - |hex|
    {
      hex := "0" + hex;
    }
  }

  function Hex8(x: Word): (r: string)
    ensures |r| == 8
  {
    ToHexIsShort(x, 8);
    PadLeft(ToHex(x))
  }

  function Pow16(k: nat): nat {
    if k == 0 then 1 else 16 * Pow16(k - 1)
  }

  lemma {:induction false} ToHexIsShort(n: nat, k: nat)
    requires k > 0 && n < Pow16(k)
    ensures |ToHex(n)| <= k
    decreases k
  {
    if n >= 16 {
      assert k > 1;
      ToHexIsShort(n / 16, k - 1);
    }
  }

  function WordsOf(v: Hash): seq<Word> {
    [v.a, v.b, v.c, v.d, v.e, v.f, v.g, v.h]
  }

  function HexOf(words: seq<Word>): string {
    if words == [] then "" else Hex8(words[0]) + HexOf(words[1..])
  }

  /** `sha256Hex` on the bytes of its input. */
  method Sha256Hex(message: seq<bv8>) returns (hex: string)
    ensures hex == HexOf(WordsOf(Sha256Spec.Sha256(message)))
  {
    hide Sha256Spec.Sha256, Hex8;
    var v := HashMessage(message);
    var words := WordsOf(v);
    hex := "";
    for i := 0 to 8
      invariant hex + HexOf(words[i..]) == HexOf(words)
    {
      var s := ToHex32(words[i]);
      Hex8Is(words[i]);
      assert words[i..][0] == words[i] && words[i..][1..] == words[i + 1..];
      assert hex + (s + HexOf(words[i + 1..])) == (hex + s) + HexOf(words[i + 1..]);
      hex := hex + s;
    }
  }

  lemma Hex8Is(x: Word)
    ensures Hex8(x) == PadLeft(ToHex(x))
  {
  }

  // ---------------------------------------------------------------- reading it back

  function DigitValue(c: char): int {
    if '0' <= c <= '9' then (c - '0') as int
    else if 'a' <= c <= 'f' then (c - 'a') as int + 10
    else if 'A' <= c <= 'F' then (c - 'A') as int + 10
    else -1
  }

  /** The value of the leading hexadecimal digits, 0 without any. */
  function LeadingHex(s: string, value: nat): nat {
    if s == "" || DigitValue(s[0]) < 0 then value else LeadingHex(s[1..], 16 * value + DigitValue(s[0]))
  }

  predicate IsBlank(c: char) {
    c == ' ' || c == '\t' || c == '\n' || c == '\r' || c == (11 as char) || c == (12 as char)
  }

  function SkipBlanks(s: string): string {
    if s != "" && IsBlank(s[0]) then SkipBlanks(s[1..]) else s
  }

  /** `parseInt(s, 16) >>> 0`; not a number becomes 0. */
  function ParseHex(s: string): Word {
    var t := SkipBlanks(s);
    var negative := t != "" && t[0] == '-';
    var u := if t != "" && (t[0] == '-' || t[0] == '+') then t[1..] else t;
    var v := if |u| >= 2 && u[0] == '0' && (u[1] == 'x' || u[1] == 'X') then u[2..] else u;
    var n: int := LeadingHex(v, 0);
    ToWord(if negative then -n else n)
  }

  function ToWord(n: int): Word {
    n % MODULUS
  }

  function ParseWords(hex: string): seq<Word> {
    if hex == "" then [] else [ParseHex(hex[..if |hex| < 8 then |hex| else 8])] + ParseWords(hex[if |hex| < 8 then |hex| else 8..])
  }

  /** `parseHexWords` */
  method ParseHexWords(hex: string) returns (words: seq<Word>)
    ensures words == ParseWords(hex)
  {
    hide ParseHex;
    words := [];
    var i := 0;
    while i < |hex|
      invariant 0 <= i
      invariant words + ParseWords(if i < |hex| then hex[i..] else "") == ParseWords(hex)
      decreases |hex| - i
    {
      var end := if i + 8 < |hex| then i + 8 else |hex|;
      var rest := hex[i..];
      assert rest[..if |rest| < 8 then |rest| else 8] == hex[i..end];
      assert rest[if |rest| < 8 then |rest| else 8..] == if i + 8 < |hex| then hex[i + 8..] else "";
      words := words + [ParseHex(hex[i..end])];
      i := i + 8;
    }
  }

  predicate AllHex(s: string) {
    forall i :: 0 <= i < |s| ==> DigitValue(s[i]) >= 0
  }

  lemma {:induction false} LeadingHexConcat(a: string, b: string, value: nat)
    requires AllHex(a)
    ensures LeadingHex(a + b, value) == LeadingHex(b, LeadingHex(a, value))
    decreases |a|
  {
    if a == "" {
      assert a + b == b;
    } else {
      assert (a + b)[1..] == a[1..] + b;
      LeadingHexConcat(a[1..], b, 16 * value + DigitValue(a[0]));
    }
  }

  lemma HexDigitValue(n: nat)
    requires n < 16
    ensures DigitValue(HexDigit(n)) == n
  {
  }

  lemma {:induction false} LeadingUndoesToHex(n: nat)
    ensures AllHex(ToHex(n)) && LeadingHex(ToHex(n), 0) == n
    decreases n
  {
    hide HexDigit, DigitValue, LeadingHex;
    HexDigitValue(n % 16);
    var d := [HexDigit(n % 16)];
    OneDigit(HexDigit(n % 16), n / 16);
    if n < 16 {
      OneDigit(HexDigit(n), 0);
    } else {
      LeadingUndoesToHex(n / 16);
      LeadingHexConcat(ToHex(n / 16), d, 0);
    }
  }

  lemma OneDigit(c: char, value: nat)
    requires DigitValue(c) >= 0
    ensures LeadingHex([c], value) == 16 * value + DigitValue(c)
  {
    assert [c][1..] == "";
  }

  lemma {:induction false} PadLeftKeepsValue(s: string)
    requires AllHex(s)
    ensures AllHex(PadLeft(s)) && LeadingHex(PadLeft(s), 0) == LeadingHex(s, 0)
    decreases 8 - |s|
  {
    if |s| < 8 {
      assert ("0" + s)[1..] == s;
      PadLeftKeepsValue("0" + s);
    }
  }

  /** Parsing the eight digits of a word gives the word. */
  lemma ParseUndoesHex(x: Word)
    ensures ParseHex(Hex8(x)) == x
  {
    LeadingUndoesToHex(x);
    PadLeftKeepsValue(ToHex(x));
    var s := Hex8(x);
    assert DigitValue(s[0]) >= 0 && DigitValue(s[1]) >= 0;
    assert SkipBlanks(s) == s;
  }

  /** `parseHexWords` undoes the hexadecimal text of any words. */
  lemma {:induction false} ParseWordsUndoesHexOf(words: seq<Word>)
    ensures ParseWords(HexOf(words)) == words
    decreases |words|
  {
    hide ParseHex, Hex8;
    if words != [] {
      var rest := HexOf(words[1..]);
      var s := Hex8(words[0]) + rest;
      assert s[..8] == Hex8(words[0]) && s[8..] == rest;
      ParseUndoesHex(words[0]);
      ParseWordsUndoesHexOf(words[1..]);
    }
  }

  /** The digest's text has 64 digits and reads back as the eight words of the hash. */
  lemma DigestReadsBack(message: seq<bv8>)
    ensures var v := Sha256Spec.Sha256(message);
      ParseWords(HexOf(WordsOf(v))) == [v.a, v.b, v.c, v.d, v.e, v.f, v.g, v.h]
    ensures |HexOf(WordsOf(Sha256Spec.Sha256(message)))| == 64
  {
    hide Sha256Spec.Sha256;
    ParseWordsUndoesHexOf(WordsOf(Sha256Spec.Sha256(message)));
    HexOfLength(WordsOf(Sha256Spec.Sha256(message)));
  }

  lemma {:induction false} HexOfLength(words: seq<Word>)
    ensures |HexOf(words)| == 8 * |words|
    decreases |words|
  {
    hide Hex8;
    if words != [] { HexOfLength(words[1..]); }
  }
}
