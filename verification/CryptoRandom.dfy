/** `Crypto`'s generator: module variables changed on every draw, and the two loops
    that draw bytes. */
module CryptoRandom {
  import opened Options
  import opened SeededStream
  import Sha256

  type Byte = b: nat | b < 256

  /** The generator's variables. */
  datatype Rng = Rng(taskId: Option<string>, seedKey: Option<string>, state: Word)

  /** What the environment says at the time of a call: the stable key of the task's
      seed, none without a seed, and the current task. */
  datatype Setting = Setting(seed: Option<string>, task: string)

  // ---------------------------------------------------------------- as values

  /** `ensureCryptoRngState` with a seed. */
  function Ensured(r: Rng, key: string, task: string): Rng {
    if r.taskId != Some(task) || r.seedKey != Some(key) || r.state == ZeroBits()
    then Rng(Some(task), Some(key), SeedOf(key))
    else r
  }

  /** Drawing `n` bytes under a seed. */
  function Draw(r: Rng, key: string, task: string, n: nat): (Rng, seq<nat>) {
    if n == 0 then (r, [])
    else
      var e := Ensured(r, key, task);
      (e.(state := After(e.state, n)), Stream(e.state, n))
  }

  lemma EnsuredIsReady(r: Rng, key: string, task: string, n: nat)
    ensures var e := Ensured(r, key, task);
      && e.taskId == Some(task) && e.seedKey == Some(key)
      && After(e.state, n) != ZeroBits()
      && Ensured(e.(state := After(e.state, n)), key, task) == e.(state := After(e.state, n))
  {
    hide After, SeedOf;
    SeedIsNonZero(key);
    StreamStaysNonZero(Ensured(r, key, task).state, n);
  }

  /** One draw after another is one draw: the generator never reseeds in between. */
  lemma DrawsJoin(r: Rng, key: string, task: string, m: nat, n: nat)
    ensures var (r1, a) := Draw(r, key, task, m);
      var (r2, b) := Draw(r1, key, task, n);
      Draw(r, key, task, m + n) == (r2, a + b)
  {
    hide After, Stream, SeedOf, Ensured;
    var e := Ensured(r, key, task);
    EnsuredIsReady(r, key, task, m);
    StreamSplits(e.state, m, n);
    AfterAdds(e.state, m, n);
    var a, b := Draw(r, key, task, m).1, Draw(Draw(r, key, task, m).0, key, task, n).1;
    if m == 0 { assert a + b == b; } else if n == 0 { assert a + b == a; }
  }

  function Total(sizes: seq<nat>): nat {
    if sizes == [] then 0 else sizes[0] + Total(sizes[1..])
  }

  function Draws(r: Rng, key: string, task: string, sizes: seq<nat>): (Rng, seq<nat>)
    decreases |sizes|
  {
    if sizes == [] then (r, [])
    else
      var (r1, a) := Draw(r, key, task, sizes[0]);
      var (r2, b) := Draws(r1, key, task, sizes[1..]);
      (r2, a + b)
  }

  /** However a number of bytes is split into calls, the same bytes are drawn and the
      same state is left. */
  lemma {:induction false} SplittingDoesNotMatter(r: Rng, key: string, task: string, sizes: seq<nat>)
    ensures Draws(r, key, task, sizes) == Draw(r, key, task, Total(sizes))
    decreases |sizes|
  {
    hide Draw;
    if sizes == [] {
      NothingDrawn(r, key, task);
    } else {
      SplittingDoesNotMatter(Draw(r, key, task, sizes[0]).0, key, task, sizes[1..]);
      DrawsJoin(r, key, task, sizes[0], Total(sizes[1..]));
    }
  }

  lemma NothingDrawn(r: Rng, key: string, task: string)
    ensures Draw(r, key, task, 0) == (r, [])
  {
  }

  /** Two digits per byte. */
  function HexByte(b: Byte): (r: string)
    ensures |r| == 2
  {
    ByteIsShort(b);
    var h := Sha256.ToHex(b);
    if |h| < 2 then "0" + h else h
  }

  lemma ByteIsShort(b: Byte)
    ensures 1 <= |Sha256.ToHex(b)| <= 2
  {
    assert Sha256.Pow16(2) == 256;
    Sha256.ToHexIsShort(b, 2);
  }

  function HexText(bytes: seq<nat>): string
    requires forall i :: 0 <= i < |bytes| ==> bytes[i] < 256
  {
    if bytes == [] then "" else HexText(bytes[..|bytes| - 1]) + HexByte(bytes[|bytes| - 1])
  }

  /** The digits determine the bytes. */
  lemma {:induction false} HexTextReadsBack(bytes: seq<nat>, i: nat)
    requires (forall k :: 0 <= k < |bytes| ==> bytes[k] < 256) && i < |bytes|
    ensures |HexText(bytes)| == 2 * |bytes| && Sha256.LeadingHex(HexText(bytes)[2 * i..2 * i + 2], 0) == bytes[i]
    decreases |bytes|
  {
    hide HexByte;
    var init, last := bytes[..|bytes| - 1], bytes[|bytes| - 1];
    HexLength(init);
    HexByteReadsBack(last);
    var s := HexText(bytes);
    if i == |bytes| - 1 {
      assert s[2 * i..2 * i + 2] == HexByte(last);
    } else {
      HexTextReadsBack(init, i);
      assert s[2 * i..2 * i + 2] == HexText(init)[2 * i..2 * i + 2];
    }
  }

  lemma {:induction false} HexLength(bytes: seq<nat>)
    requires forall k :: 0 <= k < |bytes| ==> bytes[k] < 256
    ensures |HexText(bytes)| == 2 * |bytes|
    decreases |bytes|
  {
    hide HexByte;
    if bytes != [] { HexLength(bytes[..|bytes| - 1]); }
  }

  lemma HexByteReadsBack(b: Byte)
    ensures Sha256.LeadingHex(HexByte(b), 0) == b
  {
    hide Sha256.ToHex;
    Sha256.LeadingUndoesToHex(b);
    var h := Sha256.ToHex(b);
    assert ("0" + h)[1..] == h;
  }

  // ---------------------------------------------------------------- as the source runs it

  class CryptoRandom {
    var taskId: Option<string>
    var seedKey: Option<string>
    var state: Word
    /** The bytes `Math.random` would give, and how many were taken. */
    const random: nat -> Byte
    var taken: nat

    constructor (random: nat -> Byte)
      ensures Value() == Rng(None, None, ZeroBits()) && taken == 0
    {
      taskId := None;
      seedKey := None;
      state := ZeroBits();
      this.random := random;
      taken := 0;
    }

    function Value(): Rng
      reads this
    {
      Rng(taskId, seedKey, state)
    }

    /** `nextSeededUint32` */
    method NextSeededUint32() returns (r: Word)
      modifies this`state
      ensures state == Next(old(state)) && r == state
    {
      var x := state;
      if x == ZeroBits() { x := ToWord(ZERO_GUARD); }
      x := Xor(x, Shl(x, 13));
      x := Xor(x, Shr(x, 17));
      x := Xor(x, Shl(x, 5));
      state := x;
      r := state;
    }

    /** `ensureCryptoRngState` */
    method EnsureCryptoRngState(s: Setting) returns (seeded: bool)
      modifies this`taskId, this`seedKey, this`state
      ensures seeded == s.seed.Some?
      ensures Value() == if s.seed.Some? then Ensured(old(Value()), s.seed.value, s.task) else Rng(None, None, ZeroBits())
    {
      hide SeedOf;
      if s.seed.None? {
        taskId := None;
        seedKey := None;
        state := ZeroBits();
        return false;
      }
      if taskId != Some(s.task) || seedKey != Some(s.seed.value) || state == ZeroBits() {
        taskId := Some(s.task);
        seedKey := Some(s.seed.value);
        state := SeedOf(s.seed.value);
      }
      return true;
    }

    /** `nextRandomByte` */
    method NextRandomByte(s: Setting) returns (b: Byte)
      modifies this
      ensures s.seed.Some? ==> (Value(), [b]) == Draw(old(Value()), s.seed.value, s.task, 1) && taken == old(taken)
      ensures s.seed.None? ==> Value() == Rng(None, None, ZeroBits()) && b == random(old(taken)) && taken == old(taken) + 1
    {
      hide Ensured, Next, Draw;
      ghost var r0 := Value();
      var seeded := EnsureCryptoRngState(s);
      if seeded {
        ghost var e := Value();
        var x := NextSeededUint32();
        OneDraw(r0, s.seed.value, s.task);
        return LowByte(x);
      }
      b := random(taken);
      taken := taken + 1;
    }

    lemma OneDraw(r: Rng, key: string, task: string)
      ensures var e := Ensured(r, key, task);
        Draw(r, key, task, 1) == (e.(state := Next(e.state)), [LowByte(Next(e.state))])
    {
      hide Ensured, Next, LowByte;
      var e := Ensured(r, key, task);
      assert After(e.state, 0) == e.state;
      assert Stream(e.state, 0) == [];
      assert After(e.state, 1) == Next(e.state);
      assert Stream(e.state, 1) == [LowByte(Next(e.state))];
      DrawIs(r, key, task, 1);
    }

    lemma DrawIs(r: Rng, key: string, task: string, n: nat)
      requires n > 0
      ensures var e := Ensured(r, key, task);
        Draw(r, key, task, n) == (e.(state := After(e.state, n)), Stream(e.state, n))
    {
      hide Ensured, After, Stream;
    }

    /** `fillRandomBytes` */
    method FillRandomBytes(byteView: array<Byte>, s: Setting)
      modifies this, byteView
      ensures s.seed.Some? ==> (Value(), byteView[..]) == Draw(old(Value()), s.seed.value, s.task, byteView.Length)
      ensures s.seed.None? ==> forall i :: 0 <= i < byteView.Length ==> byteView[i] == random(old(taken) + i)
    {
      hide Draw;
      ghost var r0 := Value();
      if s.seed.Some? { NothingDrawn(r0, s.seed.value, s.task); }
      assert byteView[..0] == [];
      for i := 0 to byteView.Length
        invariant s.seed.Some? ==> (Value(), byteView[..i]) == Draw(r0, s.seed.value, s.task, i)
        invariant s.seed.None? ==> taken == old(taken) + i
        invariant s.seed.None? ==> forall k :: 0 <= k < i ==> byteView[k] == random(old(taken) + k)
      {
        if s.seed.Some? { DrawsJoin(r0, s.seed.value, s.task, i, 1); }
        var b := NextRandomByte(s);
        byteView[i] := b;
        assert byteView[..i + 1] == byteView[..i] + [b];
      }
      assert byteView[..byteView.Length] == byteView[..];
    }

    /** `generateRandomHex` */
    method GenerateRandomHex(byteCount: nat, s: Setting) returns (hex: string, ghost bytes: seq<nat>)
      modifies this
      ensures |bytes| == byteCount && forall i :: 0 <= i < |bytes| ==> bytes[i] < 256
      ensures hex == HexText(bytes)
      ensures s.seed.Some? ==> (Value(), bytes) == Draw(old(Value()), s.seed.value, s.task, byteCount)
    {
      hide Draw, HexByte;
      ghost var r0 := Value();
      if s.seed.Some? { NothingDrawn(r0, s.seed.value, s.task); }
      hex := "";
      bytes := [];
      for i := 0 to byteCount
        invariant |bytes| == i && forall k :: 0 <= k < |bytes| ==> bytes[k] < 256
        invariant hex == HexText(bytes)
        invariant s.seed.Some? ==> (Value(), bytes) == Draw(r0, s.seed.value, s.task, i)
      {
        if s.seed.Some? { DrawsJoin(r0, s.seed.value, s.task, i, 1); }
        var b := NextRandomByte(s);
        var h := Sha256.ToHex(b);
        HexByteIs(b);
        if |h| < 2 { h := "0" + h; }
        hex := hex + h;
        assert (bytes + [b])[..i] == bytes;
        bytes := bytes + [b];
      }
    }

    lemma HexByteIs(b: Byte)
      ensures var h := Sha256.ToHex(b); HexByte(b) == if |h| < 2 then "0" + h else h
    {
    }
  }
}
