/**
 * CRC-16/CCITT-FALSE, the integrity code of the CRC data object (ID "63") of
 * the EMVCo Merchant-Presented Mode QR payload: polynomial 0x1021, register
 * initialised to 0xFFFF, bytes fed most significant bit first, no reflection
 * and no final XOR. This module is the reference definition on a 16-bit
 * register; the library's two loops are proved against it. The polynomial
 * 0x1021 appears as a literal in Shift and Unshift.
 */
module Crc16 {

  const Init: bv16 := 0xFFFF

  /** One bit step: shift left, folding the polynomial in when the top bit falls out. */
  function Shift(r: bv16): bv16
  {
    if r & 0x8000 != 0 then Fold(r) else r << 1
  }

  /** Shift left and fold in the polynomial 0x1021. */
  function Fold(r: bv16): bv16
  {
    (r << 1) ^ 0x1021
  }

  function Shifts(r: bv16, n: nat): bv16
  {
    if n == 0 then r else Shift(Shifts(r, n - 1))
  }

  /** XOR a byte into the high half of the register. */
  function Mix(r: bv16, b: bv8): bv16
  {
    r ^ ((b as bv16) << 8)
  }

  /** Feed one byte: mix it in, then eight bit steps. */
  function Update(r: bv16, b: bv8): bv16
  {
    Shifts(Mix(r, b), 8)
  }

  /** The register after feeding `data` to a register holding `r`. */
  function Register(r: bv16, data: seq<bv8>): bv16
  {
    if data == [] then r else Update(Register(r, data[..|data| - 1]), data[|data| - 1])
  }

  function Checksum(data: seq<bv8>): bv16
  {
    Register(Init, data)
  }

  /** Feeding two pieces one after the other is feeding their concatenation. */
  lemma {:induction false} RegisterConcat(r: bv16, s: seq<bv8>, t: seq<bv8>)
    ensures Register(r, s + t) == Register(Register(r, s), t)
  {
    if t == [] {
      assert s + t == s;
    } else {
      assert (s + t)[..|s + t| - 1] == s + t[..|t| - 1];
      RegisterConcat(r, s, t[..|t| - 1]);
    }
  }

  /** Undo one bit step: the lowest bit tells whether the polynomial was folded in. */
  function Unshift(s: bv16): bv16
  {
    if s & 1 != 0 then ((s ^ 0x1021) >> 1) | 0x8000 else s >> 1
  }

  /** A bit step loses no information: Unshift is its inverse. */
  lemma UnshiftShift(x: bv16)
    ensures Unshift(Shift(x)) == x
  {
    if x & 0x8000 != 0 {
      UnfoldedPoly(x);
    } else {
      UnfoldedPlain(x);
    }
  }

  lemma UnfoldedPoly(x: bv16)
    requires x & 0x8000 != 0
    ensures Fold(x) & 1 != 0
    ensures ((Fold(x) ^ 0x1021) >> 1) | 0x8000 == x
  {
  }

  lemma UnfoldedPlain(x: bv16)
    requires x & 0x8000 == 0
    ensures (x << 1) & 1 == 0 && (x << 1) >> 1 == x
  {
  }

  lemma ShiftInjective(x: bv16, y: bv16)
    ensures Shift(x) == Shift(y) ==> x == y
  {
    UnshiftShift(x);
    UnshiftShift(y);
  }

  lemma {:induction false} ShiftsInjective(x: bv16, y: bv16, n: nat)
    ensures Shifts(x, n) == Shifts(y, n) ==> x == y
  {
    if n > 0 {
      ShiftInjective(Shifts(x, n - 1), Shifts(y, n - 1));
      ShiftsInjective(x, y, n - 1);
    }
  }

  /** Mixing the same byte into two different registers keeps them different. */
  lemma MixInjective(x: bv16, y: bv16, b: bv8)
    ensures Mix(x, b) == Mix(y, b) ==> x == y
  {
  }

  /** Mixing two different bytes into one register gives different registers. */
  lemma MixSeparates(r: bv16, a: bv8, b: bv8)
    ensures Mix(r, a) == Mix(r, b) ==> a == b
  {
  }

  /** For a fixed byte, different registers stay different. */
  lemma UpdateInjective(x: bv16, y: bv16, b: bv8)
    ensures Update(x, b) == Update(y, b) ==> x == y
  {
    ShiftsInjective(Mix(x, b), Mix(y, b), 8);
    MixInjective(x, y, b);
  }

  /** For a fixed register, different bytes give different registers. */
  lemma UpdateSeparates(r: bv16, a: bv8, b: bv8)
    ensures Update(r, a) == Update(r, b) ==> a == b
  {
    ShiftsInjective(Mix(r, a), Mix(r, b), 8);
    MixSeparates(r, a, b);
  }

  /** Feeding the same bytes to two different registers keeps them different. */
  lemma {:induction false} RegisterInjective(x: bv16, y: bv16, data: seq<bv8>)
    ensures Register(x, data) == Register(y, data) ==> x == y
  {
    if data != [] {
      var init := data[..|data| - 1];
      UpdateInjective(Register(x, init), Register(y, init), data[|data| - 1]);
      RegisterInjective(x, y, init);
    }
  }

  /**
   * The checksum covers every byte: changing any single byte, wherever it
   * stands, changes the checksum.
   */
  lemma DetectsSingleByteChange(prefix: seq<bv8>, a: bv8, b: bv8, suffix: seq<bv8>)
    requires a != b
    ensures Checksum(prefix + [a] + suffix) != Checksum(prefix + [b] + suffix)
  {
    var r := Checksum(prefix);
    RegisterConcat(Init, prefix + [a], suffix);
    RegisterConcat(Init, prefix + [b], suffix);
    RegisterConcat(Init, prefix, [a]);
    RegisterConcat(Init, prefix, [b]);
    var ra, rb := Update(r, a), Update(r, b);
    assert Register(r, [a]) == ra && Register(r, [b]) == rb;
    UpdateSeparates(r, a, b);
    RegisterInjective(ra, rb, suffix);
  }

  /** Feeding one more byte is one update. */
  lemma RegisterSnoc(r: bv16, data: seq<bv8>, b: bv8)
    ensures Register(r, data + [b]) == Update(Register(r, data), b)
  {
    assert (data + [b])[..|data|] == data;
  }

  /** The standard check input "123456789" as bytes, and the register after each of its prefixes. */
  const CheckInput: seq<bv8> := [0x31, 0x32, 0x33, 0x34, 0x35, 0x36, 0x37, 0x38, 0x39]
  const CheckTrace: seq<bv16> := [0xFFFF, 0xC782, 0x3DBA, 0x5BCE, 0x5349, 0x4560, 0x2EF4, 0x7718, 0xA12B, 0x29B1]

  lemma CheckStep1(r: bv16, b: bv8)
    requires r == 0xFFFF && b == 0x31
    ensures Update(r, b) == 0xC782
  {
  }

  lemma CheckStep2(r: bv16, b: bv8)
    requires r == 0xC782 && b == 0x32
    ensures Update(r, b) == 0x3DBA
  {
  }

  lemma CheckStep3(r: bv16, b: bv8)
    requires r == 0x3DBA && b == 0x33
    ensures Update(r, b) == 0x5BCE
  {
  }

  lemma CheckStep4(r: bv16, b: bv8)
    requires r == 0x5BCE && b == 0x34
    ensures Update(r, b) == 0x5349
  {
  }

  lemma CheckStep5(r: bv16, b: bv8)
    requires r == 0x5349 && b == 0x35
    ensures Update(r, b) == 0x4560
  {
  }

  lemma CheckStep6(r: bv16, b: bv8)
    requires r == 0x4560 && b == 0x36
    ensures Update(r, b) == 0x2EF4
  {
  }

  lemma CheckStep7(r: bv16, b: bv8)
    requires r == 0x2EF4 && b == 0x37
    ensures Update(r, b) == 0x7718
  {
  }

  lemma CheckStep8(r: bv16, b: bv8)
    requires r == 0x7718 && b == 0x38
    ensures Update(r, b) == 0xA12B
  {
  }

  lemma CheckStep9(r: bv16, b: bv8)
    requires r == 0xA12B && b == 0x39
    ensures Update(r, b) == 0x29B1
  {
  }

  /** Each byte of the check input takes the register one entry further along the trace. */
  lemma CheckTraceStep(k: nat)
    requires k < 9
    ensures Update(CheckTrace[k], CheckInput[k]) == CheckTrace[k + 1]
  {
    if k == 0 {
      CheckStep1(CheckTrace[k], CheckInput[k]);
    } else if k == 1 {
      CheckStep2(CheckTrace[k], CheckInput[k]);
    } else if k == 2 {
      CheckStep3(CheckTrace[k], CheckInput[k]);
    } else if k == 3 {
      CheckStep4(CheckTrace[k], CheckInput[k]);
    } else if k == 4 {
      CheckStep5(CheckTrace[k], CheckInput[k]);
    } else if k == 5 {
      CheckStep6(CheckTrace[k], CheckInput[k]);
    } else if k == 6 {
      CheckStep7(CheckTrace[k], CheckInput[k]);
    } else if k == 7 {
      CheckStep8(CheckTrace[k], CheckInput[k]);
    } else {
      CheckStep9(CheckTrace[k], CheckInput[k]);
    }
  }

  lemma {:induction false} CheckPrefix(k: nat)
    requires k <= 9
    ensures Register(Init, CheckInput[..k]) == CheckTrace[k]
  {
    if k > 0 {
      CheckPrefix(k - 1);
      RegisterSnoc(Init, CheckInput[..k - 1], CheckInput[k - 1]);
      assert CheckInput[..k] == CheckInput[..k - 1] + [CheckInput[k - 1]];
      CheckTraceStep(k - 1);
    }
  }

  /** The standard check value of CRC-16/CCITT-FALSE: "123456789" gives 0x29B1. */
  lemma CheckValue()
    ensures Checksum(CheckInput) == 0x29B1
  {
    CheckPrefix(9);
    assert CheckInput[..9] == CheckInput;
  }

  // ---------------------------------------------------------------------------
  // The register as the library's loops hold it: a JavaScript number whose
  // bit operators act on 32 bits, masked back to 16 bits after each bit step.

  /** One pass of the inner loop: shift, fold in the polynomial when bit 15 was set, mask to 16 bits. */
  function WideStep(x: bv32): bv32
  {
    if x & 0x8000 != 0 then WideFold(x) else WidePlain(x)
  }

  function WideFold(x: bv32): bv32 { ((x << 1) ^ 0x1021) & 0xFFFF }

  function WidePlain(x: bv32): bv32 { (x << 1) & 0xFFFF }

  function WideShifts(x: bv32, n: nat): bv32
  {
    if n == 0 then x else WideStep(WideShifts(x, n - 1))
  }

  /** A 16-bit register held in a 32-bit word. */
  function Widen(r: bv16): bv32
  {
    r as bv32
  }

  /** The low 16 bits of a word, all the masked loop ever keeps. */
  function Low16(x: bv32): bv32
  {
    x & 0xFFFF
  }

  lemma NarrowPlain(r: bv16)
    ensures WidePlain(Widen(r)) == Widen(r << 1)
  {
  }

  /** NarrowFold with the widening written as a conversion. */
  lemma NarrowFoldBits(r: bv16)
    ensures WideFold(r as bv32) == Fold(r) as bv32
  {
  }

  lemma NarrowFold(r: bv16)
    ensures WideFold(Widen(r)) == Widen(Fold(r))
  {
    NarrowFoldBits(r);
  }

  lemma NarrowTop(r: bv16)
    ensures Widen(r) & 0x8000 != 0 <==> r & 0x8000 != 0
  {
  }

  lemma WideFoldAgrees(r: bv16)
    requires r & 0x8000 != 0
    ensures WideStep(Widen(r)) == Widen(Shift(r))
  {
    NarrowFold(r);
    NarrowTop(r);
  }

  lemma WidePlainAgrees(r: bv16)
    requires r & 0x8000 == 0
    ensures WideStep(Widen(r)) == Widen(Shift(r))
  {
    NarrowPlain(r);
    NarrowTop(r);
  }

  /** On a register that fits in 16 bits, a masked wide step is the reference step. */
  lemma WideStepAgrees(r: bv16)
    ensures WideStep(Widen(r)) == Widen(Shift(r))
  {
    if r & 0x8000 != 0 {
      WideFoldAgrees(r);
    } else {
      WidePlainAgrees(r);
    }
  }

  lemma {:induction false} WideShiftsAgree(r: bv16, n: nat)
    ensures WideShifts(Widen(r), n) == Widen(Shifts(r, n))
  {
    if n > 0 {
      WideShiftsAgree(r, n - 1);
      WideStepAgrees(Shifts(r, n - 1));
    }
  }

  lemma LowBitsTop(x: bv32, y: bv32)
    requires Low16(x) == Low16(y)
    ensures x & 0x8000 == y & 0x8000
  {
  }

  lemma LowBitsPlain(x: bv32, y: bv32)
    requires Low16(x) == Low16(y)
    ensures WidePlain(x) == WidePlain(y)
  {
  }

  lemma PlainFold(x: bv32, y: bv32)
    requires WidePlain(x) == WidePlain(y)
    ensures WideFold(x) == WideFold(y)
  {
  }

  /** A step looks only at the low 16 bits of the register. */
  lemma WideStepLowBits(x: bv32, y: bv32)
    requires Low16(x) == Low16(y)
    ensures WideStep(x) == WideStep(y)
  {
    LowBitsTop(x, y);
    LowBitsPlain(x, y);
    PlainFold(x, y);
  }

  lemma {:induction false} WideShiftsLowBits(x: bv32, y: bv32, n: nat)
    requires n >= 1 && Low16(x) == Low16(y)
    ensures WideShifts(x, n) == WideShifts(y, n)
  {
    if n == 1 {
      WideStepLowBits(x, y);
    } else {
      WideShiftsLowBits(x, y, n - 1);
    }
  }

  lemma SameLowBitsShifts(x: bv32, y: bv32, n: nat)
    ensures n >= 1 && Low16(x) == Low16(y) ==> WideShifts(x, n) == WideShifts(y, n)
  {
    if n >= 1 && Low16(x) == Low16(y) {
      WideShiftsLowBits(x, y, n);
    }
  }

  /** The low eight bits of a 32-bit word: what a `Uint8Array` keeps of a number. */
  function LowByte(w: bv32): bv8
  {
    (w & 0xFF) as bv8
  }

  /** XOR-ing a whole character code `w`, shifted to the top byte, into the wide register. */
  function WideMix(r: bv16, w: bv32): bv32
  {
    WideFeed(Widen(r), w)
  }

  /** XOR-ing a character code `w`, shifted to the top byte, into a 32-bit register `x`. */
  function WideFeed(x: bv32, w: bv32): bv32
  {
    x ^ (w << 8)
  }

  /** The wide mix agrees, on the low 16 bits, with mixing in only the low byte of `w`. */
  lemma WideMixLowBits(r: bv16, w: bv32)
    ensures Low16(WideMix(r, w)) == Low16(Widen(Mix(r, LowByte(w))))
  {
  }

  lemma WideFeedLowBits(r: bv16, w: bv32, n: nat)
    requires n >= 1
    ensures WideShifts(WideMix(r, w), n) == WideShifts(Widen(Mix(r, LowByte(w))), n)
  {
    WideMixLowBits(r, w);
    SameLowBitsShifts(WideMix(r, w), Widen(Mix(r, LowByte(w))), n);
  }

  /**
   * Feeding a character code `w` to the wide register: XOR `w << 8` in, then
   * `n` masked steps. Only the low byte of `w` matters, and the result is the
   * reference register after mixing in that byte and `n` steps.
   */
  lemma WideFeedAgrees(r: bv16, w: bv32, n: nat)
    requires n >= 1
    ensures WideShifts(WideMix(r, w), n) == Widen(Shifts(Mix(r, LowByte(w)), n))
  {
    WideFeedLowBits(r, w, n);
    WideShiftsAgree(Mix(r, LowByte(w)), n);
  }

  /** The same for a whole byte's eight steps: the reference update by the low byte of `w`. */
  lemma WideUpdateAgrees(r: bv16, w: bv32)
    ensures WideShifts(WideMix(r, w), 8) == Widen(Update(r, LowByte(w)))
  {
    WideFeedAgrees(r, w, 8);
  }

  lemma LowByteOfByte(b: bv8)
    ensures LowByte(b as bv32) == b
  {
  }

  /** Feeding a byte to the wide register is the reference update by that byte. */
  lemma ByteUpdateAgrees(r: bv16, b: bv8)
    ensures WideShifts(WideMix(r, b as bv32), 8) == Widen(Update(r, b))
  {
    WideUpdateAgrees(r, b as bv32);
    LowByteOfByte(b);
  }

  /** Widening keeps the number a register stands for. */
  lemma WidenValue(x: bv16)
    ensures Value(Widen(x)) == x as nat
  {
    WidenValueBits(x);
  }

  lemma WidenValueBits(x: bv16)
    ensures (x as bv32) as nat == x as nat
  {
  }

  /** The two branches of the loop body, each the wide step. */
  lemma WideStepWhenTop(x: bv32)
    requires x & 0x8000 != 0
    ensures WideStep(x) == ((x << 1) ^ 0x1021) & 0xFFFF
  {
  }

  lemma WideStepWhenClear(x: bv32)
    requires x & 0x8000 == 0
    ensures WideStep(x) == (x << 1) & 0xFFFF
  {
  }

  /** The number a 32-bit word stands for. */
  function Value(x: bv32): nat
  {
    x as nat
  }

  /**
   * One pass of the inner loop both library files run: shift left, fold in
   * 0x1021 when bit 15 was set, keep the low 16 bits.
   */
  method StepBit(x: bv32) returns (crc: bv32)
    ensures crc == WideStep(x)
  {
    if x & 0x8000 != 0 {
      crc := (x << 1) ^ 0x1021;
      WideStepWhenTop(x);
    } else {
      crc := x << 1;
      WideStepWhenClear(x);
    }
    crc := crc & 0xFFFF;
  }

  /** The inner loop of both library files: eight steps of the register per character. */
  method ShiftEight(x: bv32) returns (crc: bv32)
    ensures crc == WideShifts(x, 8)
  {
    crc := x;
    for i := 0 to 8
      invariant crc == WideShifts(x, i)
    {
      crc := StepBit(crc);
    }
  }
}
