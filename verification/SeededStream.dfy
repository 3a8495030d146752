/** The seeded byte generator as values: the seed hash, one xorshift step, and the
    stream of bytes it draws. */
module SeededStream {
  import opened Numbers

  // ---------------------------------------------------------------- 32-bit words

  function ZeroBits(): seq<bool> {
    seq(32, i => false)
  }

  /** A 32-bit word as the bit operators see it, least significant bit first. */
  type Word = w: seq<bool> | |w| == 32 witness ZeroBits()

  function Xor(a: Word, b: Word): (r: Word)
    ensures forall i :: 0 <= i < 32 ==> r[i] == (a[i] != b[i])
  {
    seq(32, i requires 0 <= i < 32 => a[i] != b[i])
  }

  /** `a << k` */
  function Shl(a: Word, k: nat): (r: Word)
    ensures forall i :: 0 <= i < 32 ==> r[i] == (i >= k && a[i - k])
  {
    seq(32, i requires 0 <= i < 32 => i >= k && a[i - k])
  }

  /** `a >>> k` */
  function Shr(a: Word, k: nat): (r: Word)
    ensures forall i :: 0 <= i < 32 ==> r[i] == (i + k < 32 && a[i + k])
  {
    seq(32, i requires 0 <= i < 32 => i + k < 32 && a[i + k])
  }

  function ValueOf(bits: seq<bool>): nat {
    if bits == [] then 0 else (if bits[0] then 1 else 0) + 2 * ValueOf(bits[1..])
  }

  function BitsOf(n: nat, k: nat): (r: seq<bool>)
    ensures |r| == k
  {
    if k == 0 then [] else [n % 2 == 1] + BitsOf(n / 2, k - 1)
  }

  /** The number a word stands for, and `n >>> 0`. */
  function ToNumber(w: Word): nat {
    ValueOf(w)
  }

  function ToWord(n: nat): Word {
    BitsOf(n, 32)
  }

  lemma {:induction false} ValueUndoesBits(bits: seq<bool>)
    ensures BitsOf(ValueOf(bits), |bits|) == bits
    decreases |bits|
  {
    if bits != [] { ValueUndoesBits(bits[1..]); }
  }

  function Pow2(k: nat): (p: nat)
    ensures p > 0
  {
    if k == 0 then 1 else 2 * Pow2(k - 1)
  }

  lemma {:induction false} BitsUndoValue(n: nat, k: nat)
    ensures ValueOf(BitsOf(n, k)) == n % Pow2(k)
    decreases k
  {
    if k > 0 {
      BitsUndoValue(n / 2, k - 1);
      HalveModulo(n, Pow2(k - 1));
    }
  }

  lemma HalveModulo(n: nat, m: nat)
    requires m > 0
    ensures n % (2 * m) == n % 2 + 2 * (n / 2 % m)
  {
    var q, r := n / 2 / m, n / 2 % m;
    assert n == (2 * m) * q + (2 * r + n % 2);
    RemainderIs(n, 2 * m, q, 2 * r + n % 2);
  }

  /** Words and numbers below 2^32 correspond one to one. */
  lemma WordsAreNumbers(w: Word, n: nat)
    requires n < MODULUS
    ensures ToWord(ToNumber(w)) == w && ToNumber(ToWord(n)) == n
    ensures ToNumber(w) == 0 <==> w == ZeroBits()
  {
    ValueUndoesBits(w);
    BitsUndoValue(n, 32);
    PowerIsModulus();
    ValueUndoesBits(ZeroBits());
    ZeroHasNoValue(32);
  }

  lemma PowerIsModulus()
    ensures Pow2(32) == MODULUS
  {
    assert Pow2(8) == 256;
    assert Pow2(16) == 65536;
    assert Pow2(24) == 16777216;
  }

  lemma {:induction false} ZeroHasNoValue(k: nat)
    ensures ValueOf(seq(k, i => false)) == 0
    decreases k
  {
    if k > 0 {
      ZeroHasNoValue(k - 1);
      assert seq(k, i => false)[1..] == seq(k - 1, i => false);
    }
  }

  // ---------------------------------------------------------------- the step

  /** `x ^= x << k` */
  function XorLeft(x: Word, k: nat): Word {
    Xor(x, Shl(x, k))
  }

  /** `x ^= x >>> k` */
  function XorRight(x: Word, k: nat): Word {
    Xor(x, Shr(x, k))
  }

  /** The step of `nextSeededUint32` without its guard against zero. */
  function Shift(x: Word): Word {
    XorLeft(XorRight(XorLeft(x, 13), 17), 5)
  }

  /** Undoes the three assignments in reverse order. */
  function Unshift(y: Word): Word {
    XorLeft(XorLeft(XorRight(XorLeft(XorLeft(XorLeft(y, 5), 10), 20), 17), 13), 26)
  }

  /** Doing it twice with `k` is doing it once with `2k`; nothing happens once the shift
      exceeds the word. */
  lemma LeftTwice(x: Word, k: nat)
    ensures XorLeft(XorLeft(x, k), k) == XorLeft(x, 2 * k)
  {
    var y := XorLeft(x, k);
    forall i | 0 <= i < 32 ensures XorLeft(y, k)[i] == XorLeft(x, 2 * k)[i] {
      XorLeftAt(y, k, i);
      XorLeftAt(x, k, i);
      XorLeftAt(x, 2 * k, i);
      if i >= k { XorLeftAt(x, k, i - k); }
      hide XorLeft;
    }
  }

  lemma XorLeftAt(x: Word, k: nat, i: nat)
    requires i < 32
    ensures XorLeft(x, k)[i] == (x[i] != (i >= k && x[i - k]))
  {
  }

  lemma RightTwice(x: Word, k: nat)
    ensures XorRight(XorRight(x, k), k) == XorRight(x, 2 * k)
  {
    var y := XorRight(x, k);
    forall i | 0 <= i < 32 ensures XorRight(y, k)[i] == XorRight(x, 2 * k)[i] {}
  }

  lemma FarShift(x: Word, k: nat)
    requires k >= 32
    ensures XorLeft(x, k) == x && XorRight(x, k) == x
  {
  }

  lemma LeftsCommute(x: Word, j: nat, k: nat)
    ensures XorLeft(XorLeft(x, j), k) == XorLeft(XorLeft(x, k), j)
  {
    var y, z := XorLeft(x, j), XorLeft(x, k);
    forall i | 0 <= i < 32 ensures XorLeft(y, k)[i] == XorLeft(z, j)[i] {}
  }

  /** The step is a bijection on 32-bit words, with an explicit inverse. */
  lemma ShiftIsBijective(x: Word)
    ensures Unshift(Shift(x)) == x && Shift(Unshift(x)) == x
  {
    hide XorLeft, XorRight;
    Undo5(XorRight(XorLeft(x, 13), 17));
    Undo17(XorLeft(x, 13));
    Undo13(x);
    var r := XorLeft(XorLeft(XorLeft(x, 5), 10), 20);
    Undo13(XorRight(r, 17));
    Undo17(r);
    Undo5(x);
  }

  lemma Undo5(x: Word)
    ensures XorLeft(XorLeft(XorLeft(XorLeft(x, 5), 5), 10), 20) == x
    ensures XorLeft(XorLeft(XorLeft(XorLeft(x, 5), 10), 20), 5) == x
  {
    hide XorLeft;
    LeftTwice(x, 5);
    LeftTwice(x, 10);
    LeftTwice(x, 20);
    FarShift(x, 40);
    LeftsCommute(XorLeft(XorLeft(x, 5), 10), 20, 5);
    LeftsCommute(XorLeft(x, 5), 10, 5);
  }

  lemma Undo13(x: Word)
    ensures XorLeft(XorLeft(XorLeft(x, 13), 13), 26) == x
    ensures XorLeft(XorLeft(XorLeft(x, 13), 26), 13) == x
  {
    hide XorLeft;
    LeftTwice(x, 13);
    LeftTwice(x, 26);
    FarShift(x, 52);
    LeftsCommute(XorLeft(x, 13), 26, 13);
  }

  lemma Undo17(x: Word)
    ensures XorRight(XorRight(x, 17), 17) == x
  {
    hide XorRight;
    RightTwice(x, 17);
    FarShift(x, 34);
  }

  /** Only zero steps to zero. */
  lemma ShiftKeepsNonZero(x: Word)
    ensures Shift(x) == ZeroBits() <==> x == ZeroBits()
  {
    hide XorLeft, XorRight, Unshift, Shift;
    ShiftIsBijective(x);
    ShiftOfZero();
    ShiftIsBijective(ZeroBits());
  }

  lemma ShiftOfZero()
    ensures Shift(ZeroBits()) == ZeroBits()
  {
    hide XorLeft, XorRight;
    StaysZero(13);
    StaysZero(17);
    StaysZero(5);
  }

  lemma StaysZero(k: nat)
    ensures XorLeft(ZeroBits(), k) == ZeroBits() && XorRight(ZeroBits(), k) == ZeroBits()
  {
  }

  // ---------------------------------------------------------------- fixed points

  predicate On(b: Word, k: int) {
    0 <= k < 32 && b[k]
  }

  /** What a fixed point means for bit `i` of the word after the first two assignments. */
  predicate Balanced(b: Word, i: nat) {
    (((On(b, i) != On(b, i - 5)) != (On(b, i - 13) != On(b, i - 18))) !=
     (i + 17 < 32 && ((On(b, i + 17) != On(b, i + 12)) != (On(b, i + 4) != On(b, i - 1))))) == On(b, i)
  }

  /** The 32 equations have full rank. */
  lemma BalancedIsZero(b: Word)
    requires forall i :: 0 <= i < 32 ==> Balanced(b, i)
    ensures b == ZeroBits()
  {
    assert
      && Balanced(b, 0) && Balanced(b, 1) && Balanced(b, 2) && Balanced(b, 3) && Balanced(b, 4) && Balanced(b, 5) && Balanced(b, 6) && Balanced(b, 7)
      && Balanced(b, 8) && Balanced(b, 9) && Balanced(b, 10) && Balanced(b, 11) && Balanced(b, 12) && Balanced(b, 13) && Balanced(b, 14) && Balanced(b, 15)
      && Balanced(b, 16) && Balanced(b, 17) && Balanced(b, 18) && Balanced(b, 19) && Balanced(b, 20) && Balanced(b, 21) && Balanced(b, 22) && Balanced(b, 23)
      && Balanced(b, 24) && Balanced(b, 25) && Balanced(b, 26) && Balanced(b, 27) && Balanced(b, 28) && Balanced(b, 29) && Balanced(b, 30) && Balanced(b, 31);
    assert !b[0] && !b[1] && !b[2] && !b[3] && !b[4] && !b[5] && !b[6] && !b[7];
    assert !b[8] && !b[9] && !b[10] && !b[11] && !b[12] && !b[13] && !b[14] && !b[15];
    assert !b[16] && !b[17] && !b[18] && !b[19] && !b[20] && !b[21] && !b[22] && !b[23];
    assert !b[24] && !b[25] && !b[26] && !b[27] && !b[28] && !b[29] && !b[30] && !b[31];
  }

  lemma FixedIsBalanced(b: Word, i: nat)
    requires i < 32 && XorRight(XorLeft(XorLeft(b, 5), 13), 17) == b
    ensures Balanced(b, i)
  {
    var c := XorLeft(XorLeft(b, 5), 13);
    assert c[i] == ((On(b, i) != On(b, i - 5)) != (On(b, i - 13) != On(b, i - 18)));
    if i + 17 < 32 {
      assert c[i + 17] == ((On(b, i + 17) != On(b, i + 12)) != (On(b, i + 4) != On(b, i - 1)));
    }
    assert XorRight(c, 17)[i] == b[i];
  }

  /** Zero is the only word the step leaves alone. */
  lemma OnlyZeroIsFixed(x: Word)
    ensures Shift(x) == x <==> x == ZeroBits()
  {
    ShiftOfZero();
    if Shift(x) == x {
      var b := XorRight(XorLeft(x, 13), 17);
      assert XorLeft(b, 5) == x;
      forall i | 0 <= i < 32 ensures Balanced(b, i) { FixedIsBalanced(b, i); }
      BalancedIsZero(b);
      StaysZero(5);
    }
  }

  // ---------------------------------------------------------------- the seed and the stream

  /** The hash of `seedStringToUint32`, before its guard. */
  function HashFrom(h: Word, s: string): Word
    decreases |s|
  {
    if s == "" then h
    else HashFrom(ToWord(ToNumber(Xor(h, ToWord(s[0] as nat))) * 16777619), s[1..])
  }

  const OFFSET := 2166136261
  const FALLBACK := 0x9e3779b9
  const ZERO_GUARD := 0x6d2b79f5

  function SeedOf(key: string): Word {
    var h := HashFrom(ToWord(OFFSET), key);
    if h == ZeroBits() then ToWord(FALLBACK) else h
  }

  /** The seed is never zero. */
  lemma SeedIsNonZero(key: string)
    ensures SeedOf(key) != ZeroBits()
  {
    WordsAreNumbers(ZeroBits(), FALLBACK);
  }

  /** `nextSeededUint32` */
  function Next(x: Word): Word {
    Shift(if x == ZeroBits() then ToWord(ZERO_GUARD) else x)
  }

  lemma NextIsNonZero(x: Word)
    ensures Next(x) != ZeroBits()
    ensures x != ZeroBits() ==> Next(x) == Shift(x)
  {
    WordsAreNumbers(ZeroBits(), ZERO_GUARD);
    ShiftKeepsNonZero(x);
    ShiftKeepsNonZero(ToWord(ZERO_GUARD));
  }

  /** `x & 0xFF` */
  function LowByte(x: Word): (b: nat)
    ensures b < 256
  {
    BitsUndoValue(ValueOf(x[..8]), 8);
    ValueUndoesBits(x[..8]);
    assert Pow2(8) == 256;
    ValueOf(x[..8])
  }

  /** The state after `n` draws, and the bytes drawn. */
  function After(x: Word, n: nat): Word {
    if n == 0 then x else Next(After(x, n - 1))
  }

  function Stream(x: Word, n: nat): (bytes: seq<nat>)
    ensures |bytes| == n
  {
    if n == 0 then [] else Stream(x, n - 1) + [LowByte(After(x, n))]
  }

  lemma {:induction false} AfterAdds(x: Word, m: nat, n: nat)
    ensures After(After(x, m), n) == After(x, m + n)
    decreases n
  {
    hide Next;
    if n > 0 { AfterAdds(x, m, n - 1); }
  }

  /** Drawing `m` and then `n` bytes is drawing `m + n` bytes. */
  lemma {:induction false} StreamSplits(x: Word, m: nat, n: nat)
    ensures Stream(x, m + n) == Stream(x, m) + Stream(After(x, m), n)
    decreases n
  {
    hide After, LowByte, Next;
    if n > 0 {
      StreamSplits(x, m, n - 1);
      AfterAdds(x, m, n);
    }
  }

  lemma {:induction false} StreamStaysNonZero(x: Word, n: nat)
    requires x != ZeroBits()
    ensures After(x, n) != ZeroBits()
    decreases n
  {
    if n > 0 { NextIsNonZero(After(x, n - 1)); }
  }
}
