/**
 * The checksum engine of CRC.cpp / CRC.h: a bit-serial shift register seeded
 * with the first byte of a frame, into which every later byte of the frame is
 * shifted most-significant bit first; whenever the register exceeds one byte it
 * is XORed with the mask 0x125 (x^8 + x^5 + x^2 + 1).
 *
 * The register is the C `short reg`, modelled as a bv16. It is proved never to
 * exceed 0xFF after a step, so the 16-bit signed register neither overflows nor
 * turns negative.
 */
module Checksum {
  import opened Bytes

  /** `regMask` of CRC.h. */
  const RegMask: bv16 := 0x125

  /** Length of the private scratch copy `crcBuff[257]` of CRC.h. */
  const ScratchSize := 257

  // ---------------------------------------------------------------------
  // Conversions between byte values and the 16-bit register
  // ---------------------------------------------------------------------

  // Widen and Narrow stand for the conversions `b as bv16` and `x as int`.
  // They are written as recursions because the direct conversions exhaust
  // the solver's resource limit in the proofs that use them.

  /** The promotion of an `unsigned char` to the register's width. */
  function Widen(b: byte): (x: bv16)
    ensures x <= 0xFF
    decreases b, 0
  {
    if b == 0 then 0 else WidenValue(b - 1); Widen(b - 1) + 1
  }

  lemma {:induction false} WidenValue(b: byte)
    ensures Widen(b) as int == b
    decreases b, 1
  {
    if b > 0 {
      WidenValue(b - 1);
    }
  }

  /** Different bytes are different register values. */
  lemma WidenInjective(a: byte, b: byte)
    requires a != b
    ensures Widen(a) != Widen(b)
  {
    WidenValue(a);
    WidenValue(b);
  }

  /** Narrow undoes Widen. */
  lemma NarrowWiden(b: byte)
    ensures Narrow(Widen(b)) == b
  {
    if Narrow(Widen(b)) != b {
      WidenInjective(Narrow(Widen(b)), b);
    }
  }

  /** The value of a register that fits in one byte, as a number. */
  function Narrow(x: bv16): (b: byte)
    requires x <= 0xFF
    ensures Widen(b) == x
    decreases x
  {
    if x == 0 then 0 else
      var n := Narrow(x - 1);
      WidenValue(n);
      n + 1
  }

  // ---------------------------------------------------------------------
  // The shift register
  // ---------------------------------------------------------------------

  /**
   * One step of the inner loop of crcAdd: shift left, add the incoming bit
   * (0 or 1), and reduce by RegMask when the register exceeds 0xFF.
   */
  function Step(reg: bv16, bit: bv16): bv16
  {
    var s := (reg << 1) | bit;
    if s > 0xFF then s ^ RegMask else s
  }

  /** The bit that iteration `bt` of the inner loop tests: `(x << bt) & 0x80`. */
  function BitOf(x: bv16, bt: bv16): bv16
    requires bt < 8
  {
    if (x << bt) & 0x80 != 0 then 1 else 0
  }

  /** The register after the first `bt` bit steps of byte `x`. */
  function Shift(reg: bv16, x: bv16, bt: bv16): bv16
    requires bt <= 8
    decreases bt
  {
    if bt == 0 then reg else Step(Shift(reg, x, bt - 1), BitOf(x, bt - 1))
  }

  /** The register after all eight bit steps of byte `b`. */
  function ByteStep(reg: bv16, b: byte): (r: bv16)
    requires reg <= 0xFF
    ensures r <= 0xFF
  {
    ShiftBounded(reg, Widen(b), 8);
    Shift(reg, Widen(b), 8)
  }

  /** The register after seeding with `seed` and shifting in every byte of `data`. */
  function Register(seed: bv16, data: seq<byte>): (r: bv16)
    requires seed <= 0xFF
    ensures r <= 0xFF
  {
    if |data| == 0 then seed
    else ByteStep(Register(seed, data[..|data| - 1]), data[|data| - 1])
  }

  /**
   * The checksum of a frame `s`: the register seeded with `s[0]` after
   * shifting in `s[1..]`.
   */
  function CrcOf(s: seq<byte>): byte
    requires |s| >= 1
  {
    Narrow(Register(Widen(s[0]), s[1..]))
  }

  /**
   * What crcAdd(passBuff, lt) returns, given the caller's bytes `s` and the
   * stale first byte of the scratch copy: for `lt >= 0` the checksum of the
   * first max(lt, 1) bytes (byte `s[lt]` is copied but never shifted in); for a
   * negative `lt` nothing is copied and the stale byte is returned.
   */
  function CrcAddResult(s: seq<byte>, lt: int, stale: byte): byte
    requires lt < |s|
  {
    if lt < 0 then stale else CrcOf(s[..if lt == 0 then 1 else lt])
  }

  /** The scratch copy once crcAdd has copied slots 0..lt of `src` over `scratch`. */
  function Copied(src: seq<byte>, scratch: seq<byte>, lt: int): (r: seq<byte>)
    requires lt < |src| && lt < |scratch|
    ensures |r| == |scratch|
  {
    if lt < 0 then scratch else src[..lt + 1] + scratch[lt + 1..]
  }

  /** The scratch copy holds the bytes crcAdd's result is computed from. */
  lemma CopiedChecksum(src: seq<byte>, scratch: seq<byte>, lt: int, stale: byte)
    requires 0 <= lt < |src| && lt < |scratch|
    ensures var d := Copied(src, scratch, lt);
      CrcAddResult(src, lt, stale) == Narrow(Register(Widen(d[0]), d[1..if lt < 1 then 1 else lt]))
  {
    var d := Copied(src, scratch, lt);
    var s := src[..if lt == 0 then 1 else lt];
    assert s[0] == d[0];
    assert s[1..] == d[1..if lt < 1 then 1 else lt];
  }

  // ---------------------------------------------------------------------
  // Bounds: the register fits in one byte after every step
  // ---------------------------------------------------------------------

  lemma StepBounded(reg: bv16, bit: bv16)
    requires reg <= 0xFF && bit <= 1
    ensures (reg << 1) | bit <= 0x1FF
    ensures Step(reg, bit) <= 0xFF
  {
  }

  /**
   * Step as arithmetic: on a register that fits in one byte the shift is a
   * doubling and the `|` an addition, so a step is `reg := 2 * reg + bit`
   * followed by the reduction.
   */
  lemma StepArithmetic(reg: bv16, bit: bv16)
    requires reg <= 0xFF && bit <= 1
    ensures var t := 2 * reg + bit; Step(reg, bit) == if t > 0xFF then t ^ RegMask else t
  {
  }

  /** Step with the bit known, in the shape of the statements of crcAdd. */
  lemma StepCases(reg: bv16)
    requires reg <= 0xFF
    ensures var t := (reg << 1) + 1; Step(reg, 1) == if t > 0xFF then t ^ RegMask else t
    ensures var t := reg << 1; Step(reg, 0) == if t > 0xFF then t ^ RegMask else t
    ensures Step(reg, 0) <= 0xFF && Step(reg, 1) <= 0xFF
  {
  }

  lemma ShiftNext(reg: bv16, x: bv16, bt: bv16)
    requires bt < 8
    ensures Shift(reg, x, bt + 1) == Step(Shift(reg, x, bt), BitOf(x, bt))
  {
  }

  lemma {:induction false} ShiftBounded(reg: bv16, x: bv16, bt: bv16)
    requires reg <= 0xFF && bt <= 8
    ensures Shift(reg, x, bt) <= 0xFF
    decreases bt
  {
    if bt > 0 {
      ShiftBounded(reg, x, bt - 1);
      StepBounded(Shift(reg, x, bt - 1), BitOf(x, bt - 1));
    }
  }

  // ---------------------------------------------------------------------
  // Linearity: shifting in byte b is shifting in 0, then XOR b
  // ---------------------------------------------------------------------

  /** The top `n` bits of the byte `x`, as a number. */
  function Top(x: bv16, n: bv16): bv16
    requires n <= 8
  {
    x >> (8 - n)
  }

  lemma TopStep(x: bv16, n: bv16)
    requires x <= 0xFF && 0 < n <= 8
    ensures Top(x, n - 1) <= 0x7F && BitOf(x, n - 1) <= 1
    ensures Top(x, n) == (Top(x, n - 1) << 1) | BitOf(x, n - 1)
    ensures BitOf(0, n - 1) == 0
  {
  }

  lemma StepLinear(y: bv16, d: bv16, bit: bv16)
    requires y <= 0xFF && d <= 0x7F && bit <= 1
    ensures Step(y ^ d, bit) == Step(y, 0) ^ ((d << 1) | bit)
  {
  }

  lemma LinearStep(reg: bv16, x: bv16, bt: bv16, z: bv16, d: bv16, b: bv16, e: bv16)
    requires 0 < bt <= 8 && z <= 0xFF && d <= 0x7F && b <= 1
    requires Shift(reg, x, bt - 1) == z ^ d && Shift(reg, 0, bt - 1) == z
    requires BitOf(x, bt - 1) == b && BitOf(0, bt - 1) == 0
    requires e == (d << 1) | b
    ensures Shift(reg, x, bt) == Shift(reg, 0, bt) ^ e
  {
    StepLinear(z, d, b);
  }

  lemma LinearAt(reg: bv16, x: bv16, bt: bv16)
    requires reg <= 0xFF && x <= 0xFF && 0 < bt <= 8
    requires Shift(reg, x, bt - 1) == Shift(reg, 0, bt - 1) ^ Top(x, bt - 1)
    ensures Shift(reg, x, bt) == Shift(reg, 0, bt) ^ Top(x, bt)
  {
    ShiftBounded(reg, 0, bt - 1);
    TopStep(x, bt);
    TopStep(0, bt);
    LinearStep(reg, x, bt, Shift(reg, 0, bt - 1), Top(x, bt - 1), BitOf(x, bt - 1), Top(x, bt));
  }

  lemma {:induction false} ShiftLinear(reg: bv16, x: bv16, bt: bv16)
    requires reg <= 0xFF && x <= 0xFF && bt <= 8
    ensures Shift(reg, x, bt) == Shift(reg, 0, bt) ^ Top(x, bt)
    decreases bt
  {
    if bt > 0 {
      ShiftLinear(reg, x, bt - 1);
      LinearAt(reg, x, bt);
    }
  }

  /** For a register of at most one byte, shifting in b equals shifting in 0 and XORing b. */
  lemma ByteStepLinear(reg: bv16, b: byte)
    requires reg <= 0xFF
    ensures ByteStep(reg, b) == ByteStep(reg, 0) ^ Widen(b)
  {
    ShiftLinear(reg, Widen(b), 8);
    assert Widen(0) == 0;
  }

  // ---------------------------------------------------------------------
  // Injectivity: different registers stay different
  // ---------------------------------------------------------------------

  lemma StepInjective(r1: bv16, r2: bv16)
    requires r1 <= 0xFF && r2 <= 0xFF && r1 != r2
    ensures Step(r1, 0) != Step(r2, 0)
  {
  }

  lemma {:induction false} ShiftInjective(r1: bv16, r2: bv16, bt: bv16)
    requires r1 <= 0xFF && r2 <= 0xFF && r1 != r2 && bt <= 8
    ensures Shift(r1, 0, bt) != Shift(r2, 0, bt)
    decreases bt
  {
    if bt > 0 {
      ShiftInjective(r1, r2, bt - 1);
      ShiftBounded(r1, 0, bt - 1);
      ShiftBounded(r2, 0, bt - 1);
      TopStep(0, bt);
      StepInjective(Shift(r1, 0, bt - 1), Shift(r2, 0, bt - 1));
    }
  }

  /** Shifting the same byte into two different registers gives different registers. */
  lemma ByteStepInjective(r1: bv16, r2: bv16, b: byte)
    requires r1 <= 0xFF && r2 <= 0xFF && r1 != r2
    ensures ByteStep(r1, b) != ByteStep(r2, b)
  {
    ShiftInjective(r1, r2, 8);
    ByteStepLinear(r1, b);
    ByteStepLinear(r2, b);
    assert Widen(0) == 0;
  }

  /** Shifting two different bytes into the same register gives different registers. */
  lemma ByteStepSeparates(reg: bv16, b1: byte, b2: byte)
    requires reg <= 0xFF && b1 != b2
    ensures ByteStep(reg, b1) != ByteStep(reg, b2)
  {
    ByteStepLinear(reg, b1);
    ByteStepLinear(reg, b2);
    WidenInjective(b1, b2);
  }

  lemma RegisterSnoc(seed: bv16, data: seq<byte>, b: byte)
    requires seed <= 0xFF
    ensures Register(seed, data + [b]) == ByteStep(Register(seed, data), b)
  {
    assert (data + [b])[..|data|] == data;
  }

  /** One more iteration of crcAdd's byte loop over the slots 1..i of `data`. */
  lemma RegisterExtend(seed: bv16, data: seq<byte>, i: int)
    requires seed <= 0xFF && 1 <= i < |data|
    ensures Register(seed, data[1..i + 1]) == ByteStep(Register(seed, data[1..i]), data[i])
  {
    assert data[1..i + 1] == data[1..i] + [data[i]];
    RegisterSnoc(seed, data[1..i], data[i]);
  }

  lemma {:induction false} RegisterAppend(seed: bv16, a: seq<byte>, b: seq<byte>)
    requires seed <= 0xFF
    ensures Register(seed, a + b) == Register(Register(seed, a), b)
    decreases |b|
  {
    if |b| > 0 {
      var n := |b| - 1;
      assert (a + b)[..|a + b| - 1] == a + b[..n];
      assert (a + b)[|a + b| - 1] == b[n];
      RegisterAppend(seed, a, b[..n]);
    } else {
      assert a + b == a;
    }
  }

  /** Two different seeds lead to different registers after any common data. */
  lemma {:induction false} RegisterSeparates(s1: bv16, s2: bv16, data: seq<byte>)
    requires s1 <= 0xFF && s2 <= 0xFF && s1 != s2
    ensures Register(s1, data) != Register(s2, data)
    decreases |data|
  {
    if |data| > 0 {
      var n := |data| - 1;
      RegisterSeparates(s1, s2, data[..n]);
      ByteStepInjective(Register(s1, data[..n]), Register(s2, data[..n]), data[n]);
    }
  }

  // ---------------------------------------------------------------------
  // What the checksum detects
  // ---------------------------------------------------------------------

  /**
   * Any two frames of the same length that differ in exactly one byte have
   * different checksums: every single-byte corruption is detected.
   */
  lemma SingleByteChange(s: seq<byte>, t: seq<byte>, i: int)
    requires |s| == |t| && 0 <= i < |s|
    requires s[i] != t[i]
    requires forall j | 0 <= j < |s| && j != i :: s[j] == t[j]
    ensures CrcOf(s) != CrcOf(t)
  {
    if i == 0 {
      assert s[1..] == t[1..];
      WidenInjective(s[0], t[0]);
      RegisterSeparates(Widen(s[0]), Widen(t[0]), s[1..]);
    } else {
      var before := s[1..i];
      var after := s[i + 1..];
      assert s[1..] == before + [s[i]] + after;
      assert t[1..] == before + [t[i]] + after;
      var seed := Widen(s[0]);
      assert Widen(t[0]) == seed;
      var r := Register(seed, before);
      RegisterAppend(seed, before + [s[i]], after);
      RegisterAppend(seed, before + [t[i]], after);
      assert (before + [s[i]])[..|before|] == before;
      assert (before + [t[i]])[..|before|] == before;
      ByteStepSeparates(r, s[i], t[i]);
      RegisterSeparates(ByteStep(r, s[i]), ByteStep(r, t[i]), after);
    }
  }

  /**
   * Appending the checksum of `p + [0]` as the last byte of `p` produces a frame
   * whose checksum is 0, and no other last byte does: the check byte written by
   * processWrite is exactly the one that makes crcCheck succeed.
   */
  lemma CheckByte(p: seq<byte>, c: byte)
    requires |p| >= 1
    ensures CrcOf(p + [c]) == 0 <==> c == CrcOf(p + [0])
  {
    var seed := Widen(p[0]);
    var r := Register(seed, p[1..]);
    assert (p + [c])[0] == p[0] && (p + [0])[0] == p[0];
    assert (p + [c])[1..] == p[1..] + [c];
    assert (p + [0])[1..] == p[1..] + [0];
    RegisterSnoc(seed, p[1..], c);
    RegisterSnoc(seed, p[1..], 0);
    RegisterCancels(r, c);
    var c0 := CrcOf(p + [0]);
    assert Widen(c0) == ByteStep(r, 0);
    assert Widen(0) == 0;
    if c != c0 {
      WidenInjective(c, c0);
    }
  }

  /** For `lt` of 0 or 1 no byte is shifted in and crcAdd returns the first byte. */
  lemma CrcAddShort(s: seq<byte>, lt: int, stale: byte)
    requires 0 <= lt <= 1 && lt < |s|
    ensures CrcAddResult(s, lt, stale) == s[0]
  {
    NarrowWiden(s[0]);
  }

  /**
   * For `lt >= 1` crcAdd depends on the first `lt` bytes only: byte `lt`,
   * although copied, never reaches the register, nor does anything after it.
   */
  lemma CrcAddPrefix(s: seq<byte>, t: seq<byte>, lt: int, stale: byte)
    requires 1 <= lt && lt < |s| && lt < |t| && s[..lt] == t[..lt]
    ensures CrcAddResult(s, lt, stale) == CrcAddResult(t, lt, stale)
  {
  }

  /** The last byte shifted in zeroes the register exactly when it equals the register after a 0. */
  lemma RegisterCancels(r: bv16, c: byte)
    requires r <= 0xFF
    ensures ByteStep(r, c) == 0 <==> Widen(c) == ByteStep(r, 0)
  {
    ByteStepLinear(r, c);
  }

  /**
   * The inner loop of crcAdd: shift the eight bits of `x` into the register,
   * most significant first, reducing by RegMask whenever it exceeds 0xFF.
   */
  method ShiftByte(start: bv16, x: bv16) returns (reg: bv16)
    requires start <= 0xFF
    ensures reg == Shift(start, x, 8) && reg <= 0xFF
  {
    reg := start;
    var bt: bv16 := 0;
    while bt < 8
      invariant bt <= 8 && reg <= 0xFF && reg == Shift(start, x, bt)
      decreases 8 - bt
    {
      StepCases(reg);
      ShiftNext(start, x, bt);
      reg := reg << 1;
      if (x << bt) & 0x80 != 0 {
        reg := reg + 1;
      }
      if reg > 0xFF {
        reg := reg ^ RegMask;
      }
      bt := bt + 1;
    }
  }

  // ---------------------------------------------------------------------
  // The CRC object
  // ---------------------------------------------------------------------

  /** The `CRC` class: a scratch copy of the frame and the shift register. */
  class Crc {
    var crcBuff: array<byte>
    var reg: bv16

    ghost predicate Valid()
      reads this
    {
      crcBuff.Length == ScratchSize
    }

    constructor ()
      ensures Valid() && fresh(crcBuff)
    {
      crcBuff := new byte[ScratchSize];
    }

    /**
     * crcAdd: copy bytes 0..lt of passBuff into crcBuff, seed the register with
     * the first byte, shift in bytes 1..lt-1 bit by bit, and return the register.
     */
    method CrcAdd(passBuff: array<byte>, lt: int) returns (r: int)
      requires Valid() && passBuff != crcBuff
      requires lt < passBuff.Length && lt < ScratchSize
      modifies this`reg, crcBuff
      ensures Valid() && crcBuff == old(crcBuff)
      ensures r == CrcAddResult(passBuff[..], lt, old(crcBuff[0]))
      ensures crcBuff[..] == Copied(passBuff[..], old(crcBuff[..]), lt)
      ensures reg <= 0xFF
    {
      var i := 0;
      while i <= lt
        invariant 0 <= i <= if lt < 0 then 0 else lt + 1
        invariant crcBuff[..] == passBuff[..i] + old(crcBuff[..])[i..]
        modifies crcBuff
      {
        SpliceStep(passBuff[..], old(crcBuff[..]), i);
        crcBuff[i] := passBuff[i];
        i := i + 1;
      }
      assert crcBuff[..] == Copied(passBuff[..], old(crcBuff[..]), lt);
      ghost var data := crcBuff[..];
      reg := Widen(crcBuff[0]);
      i := 1;
      while i < lt
        invariant 1 <= i <= if lt < 1 then 1 else lt
        invariant crcBuff[..] == data
        invariant reg <= 0xFF && reg == Register(Widen(data[0]), data[1..i])
        modifies this`reg
      {
        reg := ShiftByte(reg, Widen(crcBuff[i]));
        RegisterExtend(Widen(data[0]), data, i);
        i := i + 1;
      }
      r := Narrow(reg);
      if lt >= 0 {
        CopiedChecksum(passBuff[..], old(crcBuff[..]), lt, old(crcBuff[0]));
      } else {
        NarrowWiden(data[0]);
      }
    }

    /** crcCheck: a frame of lt bytes passes when crcAdd over it returns 0. */
    method CrcCheck(passBuff: array<byte>, lt: int) returns (ok: bool)
      requires Valid() && passBuff != crcBuff
      requires lt < passBuff.Length && lt < ScratchSize
      modifies this`reg, crcBuff
      ensures Valid() && crcBuff == old(crcBuff)
      ensures ok <==> CrcAddResult(passBuff[..], lt, old(crcBuff[0])) == 0
      ensures crcBuff[..] == Copied(passBuff[..], old(crcBuff[..]), lt)
    {
      var r := CrcAdd(passBuff, lt);
      ok := r == 0;
    }
  }
}
