/** PowerPC rotate-and-mask instructions (`rlwi_mask`, `handle_rlwinm` and `handle_rlwimi` of m2c/evaluate.py). */
module Rotates {
  import opened Bits
  import opened PowersOfTwo
  import opened Expressions
  import opened Words

  const ALL_ONES := 0xFFFF_FFFF

  // ----- masks -----

  function BitsUpto(m: nat): int
    requires m <= 32
  {
    Shl(1, 32 - m) - 1
  }

  function RlwiMask(maskBegin: nat, maskEnd: nat): int
    requires maskBegin < 32 && maskEnd < 32
  {
    if maskBegin <= maskEnd then BitsUpto(maskBegin) - BitsUpto(maskEnd + 1)
    else Xor(BitsUpto(maskEnd + 1) - BitsUpto(maskBegin), ALL_ONES)
  }

  /**
   * MASK(MB, ME) of PowerPC UISA Book I, section 3.3.12, for bits numbered from the left: ones from MB through
   * ME, wrapping around after bit 31.
   */
  predicate InMask(maskBegin: nat, maskEnd: nat, bit: nat) {
    if maskBegin <= maskEnd then maskBegin <= bit <= maskEnd else bit >= maskBegin || bit <= maskEnd
  }

  lemma AllOnesBits(i: nat)
    ensures Bit(ALL_ONES, i) == (i < 32)
  {
    WordIsPow2();
    BitOnes(32, i);
  }

  /** The mask has exactly the bits of MASK(MB, ME), and none beyond the word. */
  lemma MaskIsExact(maskBegin: nat, maskEnd: nat, i: nat)
    requires maskBegin < 32 && maskEnd < 32
    ensures Bit(RlwiMask(maskBegin, maskEnd), i) == (i < 32 && InMask(maskBegin, maskEnd, 31 - i))
  {
    if maskBegin <= maskEnd {
      BitsBetween(32 - maskBegin, 31 - maskEnd, i);
    } else {
      BitsBetween(31 - maskEnd, 32 - maskBegin, i);
      BitXor(BitsUpto(maskEnd + 1) - BitsUpto(maskBegin), ALL_ONES, i);
      AllOnesBits(i);
    }
  }

  lemma MaskIsWord(maskBegin: nat, maskEnd: nat)
    requires maskBegin < 32 && maskEnd < 32
    ensures 0 <= RlwiMask(maskBegin, maskEnd) < WORD
  {
    forall i: nat | i >= 32
      ensures !Bit(RlwiMask(maskBegin, maskEnd), i)
    {
      MaskIsExact(maskBegin, maskEnd, i);
    }
    WordOf(RlwiMask(maskBegin, maskEnd));
  }

  // ----- rotate and mask -----

  /** Bit `i` of a word rotated left. */
  predicate RotatedBit(x: int, shift: nat, i: nat)
    requires shift < 32 && i < 32
  {
    if i >= shift then Bit(x, i - shift) else Bit(x, i + 32 - shift)
  }

  /** ROTL(x, shift) & MASK(MB, ME), and nothing beyond the word. */
  ghost predicate IsRotateAndMask(y: int, x: int, shift: nat, maskBegin: nat, maskEnd: nat)
    requires shift < 32
  {
    forall i: nat :: Bit(y, i) == (i < 32 && RotatedBit(x, shift, i) && InMask(maskBegin, maskEnd, 31 - i))
  }

  function LeftMask(shift: nat, mask: int): int {
    And(Shl(ALL_ONES, shift), mask)
  }

  function RightMask(shift: nat, mask: int): int
    requires shift < 32
  {
    And(Shr(ALL_ONES, 32 - shift), mask)
  }

  /** `handle_rlwinm` with `simplify=False`. */
  function HandleRlwinm(source: Expr, shift: nat, maskBegin: nat, maskEnd: nat): Expr
    requires shift < 32 && maskBegin < 32 && maskEnd < 32
  {
    var mask := RlwiMask(maskBegin, maskEnd);
    var rightShift := 32 - shift;
    var leftMask, rightMask := LeftMask(shift, mask), RightMask(shift, mask);
    if source.Literal? then
      Literal(Or(And(Shl(source.value, shift), mask), And(Shr(source.value, rightShift), mask)))
    else
      var upper := UpperBits(source, shift, leftMask);
      var lower := LowerBits(source, rightShift, rightMask);
      if leftMask == 0 && rightMask == 0 then Literal(0)
      else if leftMask == 0 then lower
      else if rightMask == 0 then upper
      else Binary(upper, OrBits, lower)
  }

  function UpperBits(source: Expr, shift: nat, leftMask: int): Expr {
    var shifted := if shift != 0 then Binary(source, ShiftLeft, Literal(shift)) else source;
    if leftMask != And(Shl(ALL_ONES, shift), ALL_ONES) then Binary(shifted, AndBits, Literal(leftMask)) else shifted
  }

  function LowerBits(source: Expr, rightShift: nat, rightMask: int): Expr {
    var shifted := Binary(source, ShiftRight, Literal(rightShift));
    if rightMask != And(Shr(ALL_ONES, rightShift), ALL_ONES) then Binary(shifted, AndBits, Literal(rightMask)) else shifted
  }

  function HandleRlwimi(base: Expr, source: Expr, shift: nat, maskBegin: nat, maskEnd: nat): Expr
    requires shift < 32 && maskBegin < 32 && maskEnd < 32
  {
    var maskLiteral := Literal(RlwiMask(maskBegin, maskEnd));
    var maskedBase := Binary(base, AndBits, Unary(Invert, maskLiteral));
    if source == Literal(0) then maskedBase
    else
      var inserted := HandleRlwinm(source, shift, maskBegin, maskEnd);
      if inserted == maskLiteral then Binary(base, OrBits, inserted) else Binary(maskedBase, OrBits, inserted)
  }

  // ----- bits of values -----

  lemma ValueBits(e: Expr, env: Env, i: nat)
    requires i >= 32
    ensures !Bit(Value(e, env), i)
  {
    WordIsPow2();
    BitMod(Value(e, env), 32, i);
  }

  lemma LeftMaskBits(shift: nat, mask: int, i: nat)
    requires shift < 32
    ensures Bit(LeftMask(shift, mask), i) == (shift <= i < 32 + shift && Bit(mask, i))
  {
    BitAnd(Shl(ALL_ONES, shift), mask, i);
    BitShl(ALL_ONES, shift, i);
    if i >= shift {
      AllOnesBits(i - shift);
    }
  }

  lemma RightMaskBits(shift: nat, mask: int, i: nat)
    requires shift < 32
    ensures Bit(RightMask(shift, mask), i) == (i < shift && Bit(mask, i))
  {
    BitAnd(Shr(ALL_ONES, 32 - shift), mask, i);
    BitShr(ALL_ONES, 32 - shift, i);
    AllOnesBits(i + (32 - shift));
  }

  /** The upper bits: the source shifted left, where the mask has ones. */
  lemma UpperBitsValue(source: Expr, shift: nat, mask: int, env: Env, i: nat)
    requires shift < 32 && 0 <= mask < WORD
    ensures Bit(Value(UpperBits(source, shift, LeftMask(shift, mask)), env), i) ==
      (shift <= i < 32 && Bit(mask, i) && Bit(Value(source, env), i - shift))
  {
    var v, leftMask := Value(source, env), LeftMask(shift, mask);
    var shifted := if shift != 0 then Binary(source, ShiftLeft, Literal(shift)) else source;
    ShiftedLeftBits(source, shift, env, i);
    LeftMaskBits(shift, mask, i);
    if leftMask != And(Shl(ALL_ONES, shift), ALL_ONES) {
      MaskedValue(shifted, leftMask, env, i);
    } else {
      LeftMaskBits(shift, ALL_ONES, i);
      AllOnesBits(i);
    }
  }

  lemma ShiftedLeftBits(source: Expr, shift: nat, env: Env, i: nat)
    requires shift < 32
    ensures var shifted := if shift != 0 then Binary(source, ShiftLeft, Literal(shift)) else source;
      Bit(Value(shifted, env), i) == (shift <= i < 32 && Bit(Value(source, env), i - shift))
  {
    var v := Value(source, env);
    if shift == 0 {
      if i >= 32 {
        ValueBits(source, env, i);
      }
    } else {
      ModBits(Shl(v, shift), i);
      BitShl(v, shift, i);
    }
  }

  /** Masking with any literal keeps the bits below the 32nd that it has. */
  lemma MaskedValue(e: Expr, mask: int, env: Env, i: nat)
    ensures Bit(Value(Binary(e, AndBits, Literal(mask)), env), i) == (i < 32 && Bit(Value(e, env), i) && Bit(mask, i))
  {
    var v := Value(e, env);
    ModBits(And(v, mask % WORD), i);
    BitAnd(v, mask % WORD, i);
    ModBits(mask, i);
  }

  /** The lower bits: the source shifted right, where the mask has ones. */
  lemma LowerBitsValue(source: Expr, shift: nat, mask: int, env: Env, i: nat)
    requires shift < 32
    ensures Bit(Value(LowerBits(source, 32 - shift, RightMask(shift, mask)), env), i) ==
      (i < shift && Bit(mask, i) && Bit(Value(source, env), i + (32 - shift)))
  {
    var shifted := Binary(source, ShiftRight, Literal(32 - shift));
    ShiftedRightBits(source, 32 - shift, env, i);
    RightMaskBits(shift, mask, i);
    if i >= shift {
      ValueBits(source, env, i + (32 - shift));
    }
    if RightMask(shift, mask) != And(Shr(ALL_ONES, 32 - shift), ALL_ONES) {
      MaskedValue(shifted, RightMask(shift, mask), env, i);
    } else {
      RightMaskBits(shift, ALL_ONES, i);
      AllOnesBits(i);
    }
  }

  lemma ShiftedRightBits(source: Expr, n: nat, env: Env, i: nat)
    requires n <= 32
    ensures Bit(Value(Binary(source, ShiftRight, Literal(n)), env), i) == (i < 32 && Bit(Value(source, env), i + n))
  {
    var v := Value(source, env);
    ModBits(Shr(v, n), i);
    BitShr(v, n, i);
  }

  lemma OrValue(e: Expr, f: Expr, env: Env, i: nat)
    ensures Bit(Value(Binary(e, OrBits, f), env), i) == (Bit(Value(e, env), i) || Bit(Value(f, env), i))
  {
    ModBits(Or(Value(e, env), Value(f, env)), i);
    BitOr(Value(e, env), Value(f, env), i);
    if i >= 32 {
      ValueBits(e, env, i);
      ValueBits(f, env, i);
    }
  }

  // ----- the instructions -----

  predicate Word(e: Expr) {
    e.Literal? ==> 0 <= e.value < WORD
  }

  /** The source's two halves, bit by bit. */
  lemma HalvesAt(source: Expr, shift: nat, mask: int, env: Env, i: nat)
    requires shift < 32 && 0 <= mask < WORD
    ensures var u, l := Value(UpperBits(source, shift, LeftMask(shift, mask)), env),
                        Value(LowerBits(source, 32 - shift, RightMask(shift, mask)), env);
      (Bit(u, i) || Bit(l, i)) == (i < 32 && RotatedBit(Value(source, env), shift, i) && Bit(mask, i))
    ensures LeftMask(shift, mask) == 0 ==> !Bit(Value(UpperBits(source, shift, LeftMask(shift, mask)), env), i)
    ensures RightMask(shift, mask) == 0 ==> !Bit(Value(LowerBits(source, 32 - shift, RightMask(shift, mask)), env), i)
  {
    UpperBitsValue(source, shift, mask, env, i);
    LowerBitsValue(source, shift, mask, env, i);
    LeftMaskBits(shift, mask, i);
    RightMaskBits(shift, mask, i);
    BitZero(i);
  }

  /** The expression for a source that is not a literal. */
  lemma RotatedExpr(source: Expr, shift: nat, mask: int, env: Env, i: nat)
    requires shift < 32 && 0 <= mask < WORD
    ensures var u, l := UpperBits(source, shift, LeftMask(shift, mask)), LowerBits(source, 32 - shift, RightMask(shift, mask));
      var y := if LeftMask(shift, mask) == 0 && RightMask(shift, mask) == 0 then Literal(0)
               else if LeftMask(shift, mask) == 0 then l
               else if RightMask(shift, mask) == 0 then u
               else Binary(u, OrBits, l);
      Bit(Value(y, env), i) == (i < 32 && RotatedBit(Value(source, env), shift, i) && Bit(mask, i))
  {
    HalvesAt(source, shift, mask, env, i);
    BitZero(i);
    OrValue(UpperBits(source, shift, LeftMask(shift, mask)), LowerBits(source, 32 - shift, RightMask(shift, mask)), env, i);
  }

  lemma EitherMasked(a: int, b: int, mask: int, i: nat)
    ensures Bit(Or(And(a, mask), And(b, mask)), i) == ((Bit(a, i) || Bit(b, i)) && Bit(mask, i))
  {
    var l, r := And(a, mask), And(b, mask);
    BitOr(l, r, i);
    BitAnd(a, mask, i);
    BitAnd(b, mask, i);
  }

  /** A word shifted left and the same word shifted right have the bits of the rotated word, below the 32nd. */
  lemma EitherShifted(x: int, shift: nat, i: nat)
    requires 0 <= x < WORD && shift < 32 && i < 32
    ensures (Bit(Shl(x, shift), i) || Bit(Shr(x, 32 - shift), i)) == RotatedBit(x, shift, i)
  {
    BitShl(x, shift, i);
    BitShr(x, 32 - shift, i);
    assert x % WORD == x;
    ModBits(x, i + (32 - shift));
  }

  lemma LiteralRotated(x: int, shift: nat, mask: int, i: nat)
    requires 0 <= x < WORD && shift < 32
    ensures i < 32 ==>
      Bit(Or(And(Shl(x, shift), mask), And(Shr(x, 32 - shift), mask)), i) == (RotatedBit(x, shift, i) && Bit(mask, i))
  {
    var a, b := Shl(x, shift), Shr(x, 32 - shift);
    EitherMasked(a, b, mask, i);
    if i < 32 {
      EitherShifted(x, shift, i);
    }
  }

  /** The literal for a source that is one. */
  lemma RotatedLiteral(x: int, shift: nat, mask: int, env: Env, i: nat)
    requires 0 <= x < WORD && shift < 32
    ensures Bit(Value(Literal(Or(And(Shl(x, shift), mask), And(Shr(x, 32 - shift), mask))), env), i) ==
      (i < 32 && RotatedBit(Value(Literal(x), env), shift, i) && Bit(mask, i))
  {
    var y := Or(And(Shl(x, shift), mask), And(Shr(x, 32 - shift), mask));
    assert Value(Literal(y), env) == y % WORD && Value(Literal(x), env) == x;
    ModBits(y, i);
    LiteralRotated(x, shift, mask, i);
  }

  /** `rlwinm` is rotate-and-mask, for every word and mask. */
  lemma RlwinmIsExact(source: Expr, shift: nat, maskBegin: nat, maskEnd: nat, env: Env)
    requires shift < 32 && maskBegin < 32 && maskEnd < 32 && Word(source)
    ensures IsRotateAndMask(Value(HandleRlwinm(source, shift, maskBegin, maskEnd), env), Value(source, env),
                            shift, maskBegin, maskEnd)
  {
    var y, mask := HandleRlwinm(source, shift, maskBegin, maskEnd), RlwiMask(maskBegin, maskEnd);
    MaskIsWord(maskBegin, maskEnd);
    forall i: nat
      ensures Bit(Value(y, env), i) ==
        (i < 32 && RotatedBit(Value(source, env), shift, i) && InMask(maskBegin, maskEnd, 31 - i))
    {
      MaskIsExact(maskBegin, maskEnd, i);
      if source.Literal? {
        RotatedLiteral(source.value, shift, mask, env, i);
      } else {
        RotatedExpr(source, shift, mask, env, i);
      }
    }
  }

  /** The bits of `y` are those of the rotated source where the mask has ones, and those of the base elsewhere. */
  ghost predicate IsInsert(y: int, base: int, x: int, shift: nat, maskBegin: nat, maskEnd: nat)
    requires shift < 32
  {
    forall i: nat :: Bit(y, i) ==
      (i < 32 && if InMask(maskBegin, maskEnd, 31 - i) then RotatedBit(x, shift, i) else Bit(base, i))
  }

  lemma InvertedValue(mask: int, env: Env, i: nat)
    requires 0 <= mask < WORD
    ensures Bit(Value(Unary(Invert, Literal(mask)), env), i) == (i < 32 && !Bit(mask, i))
  {
    assert mask % WORD == mask;
    assert Value(Literal(mask), env) == mask;
    ModBits(Not(mask), i);
    BitNot(mask, i);
  }

  lemma AndValue(e: Expr, f: Expr, env: Env, i: nat)
    ensures Bit(Value(Binary(e, AndBits, f), env), i) == (Bit(Value(e, env), i) && Bit(Value(f, env), i))
  {
    var v, w := Value(e, env), Value(f, env);
    ModBits(And(v, w), i);
    BitAnd(v, w, i);
    if i >= 32 {
      ValueBits(e, env, i);
    }
  }

  lemma MaskedBaseAt(base: Expr, maskBegin: nat, maskEnd: nat, env: Env, i: nat)
    requires maskBegin < 32 && maskEnd < 32
    ensures var masked := Binary(base, AndBits, Unary(Invert, Literal(RlwiMask(maskBegin, maskEnd))));
      Bit(Value(masked, env), i) == (i < 32 && Bit(Value(base, env), i) && !InMask(maskBegin, maskEnd, 31 - i))
  {
    var mask := RlwiMask(maskBegin, maskEnd);
    MaskIsWord(maskBegin, maskEnd);
    MaskIsExact(maskBegin, maskEnd, i);
    InvertedValue(mask, env, i);
    AndValue(base, Unary(Invert, Literal(mask)), env, i);
  }

  lemma ZeroBits(shift: nat, i: nat)
    requires shift < 32
    ensures i < 32 ==> !RotatedBit(0, shift, i)
  {
    if i < 32 {
      BitZero(if i >= shift then i - shift else i + 32 - shift);
    }
  }

  /** Inserting bits by masking the base and taking the disjunction, or, when all are ones, without masking. */
  lemma InsertedAt(base: Expr, inserted: Expr, maskBegin: nat, maskEnd: nat, env: Env, i: nat, bit: bool)
    requires maskBegin < 32 && maskEnd < 32
    requires Bit(Value(inserted, env), i) == (i < 32 && bit && InMask(maskBegin, maskEnd, 31 - i))
    ensures var mask := Literal(RlwiMask(maskBegin, maskEnd));
      var masked := Binary(base, AndBits, Unary(Invert, mask));
      var wanted := i < 32 && if InMask(maskBegin, maskEnd, 31 - i) then bit else Bit(Value(base, env), i);
      && Bit(Value(Binary(masked, OrBits, inserted), env), i) == wanted
      && (inserted == mask ==> Bit(Value(Binary(base, OrBits, inserted), env), i) == wanted)
  {
    var mask := RlwiMask(maskBegin, maskEnd);
    var masked := Binary(base, AndBits, Unary(Invert, Literal(mask)));
    MaskedBaseAt(base, maskBegin, maskEnd, env, i);
    OrValue(masked, inserted, env, i);
    OrValue(base, inserted, env, i);
    if inserted == Literal(mask) {
      MaskedValueIs(maskBegin, maskEnd, env, i);
    }
    if i >= 32 {
      ValueBits(base, env, i);
    }
  }

  lemma MaskedValueIs(maskBegin: nat, maskEnd: nat, env: Env, i: nat)
    requires maskBegin < 32 && maskEnd < 32
    ensures Bit(Value(Literal(RlwiMask(maskBegin, maskEnd)), env), i) == (i < 32 && InMask(maskBegin, maskEnd, 31 - i))
  {
    var mask := RlwiMask(maskBegin, maskEnd);
    MaskIsWord(maskBegin, maskEnd);
    MaskIsExact(maskBegin, maskEnd, i);
    assert mask % WORD == mask;
  }

  lemma RlwimiAt(base: Expr, source: Expr, inserted: Expr, shift: nat, maskBegin: nat, maskEnd: nat, env: Env, i: nat)
    requires shift < 32 && maskBegin < 32 && maskEnd < 32
    requires inserted == HandleRlwinm(source, shift, maskBegin, maskEnd)
    requires Bit(Value(inserted, env), i) ==
      (i < 32 && RotatedBit(Value(source, env), shift, i) && InMask(maskBegin, maskEnd, 31 - i))
    ensures Bit(Value(HandleRlwimi(base, source, shift, maskBegin, maskEnd), env), i) == (i < 32 &&
      if InMask(maskBegin, maskEnd, 31 - i) then RotatedBit(Value(source, env), shift, i) else Bit(Value(base, env), i))
  {
    if source == Literal(0) {
      ZeroBits(shift, i);
      MaskedBaseAt(base, maskBegin, maskEnd, env, i);
    } else {
      InsertedAt(base, inserted, maskBegin, maskEnd, env, i, i < 32 && RotatedBit(Value(source, env), shift, i));
    }
  }

  /** `rlwimi` inserts the rotated source under the mask, for all words. */
  lemma RlwimiIsExact(base: Expr, source: Expr, shift: nat, maskBegin: nat, maskEnd: nat, env: Env)
    requires shift < 32 && maskBegin < 32 && maskEnd < 32 && Word(source)
    ensures IsInsert(Value(HandleRlwimi(base, source, shift, maskBegin, maskEnd), env), Value(base, env), Value(source, env),
                     shift, maskBegin, maskEnd)
  {
    var y, inserted := HandleRlwimi(base, source, shift, maskBegin, maskEnd), HandleRlwinm(source, shift, maskBegin, maskEnd);
    RlwinmIsExact(source, shift, maskBegin, maskEnd, env);
    forall i: nat
      ensures Bit(Value(y, env), i) == (i < 32 &&
        if InMask(maskBegin, maskEnd, 31 - i) then RotatedBit(Value(source, env), shift, i) else Bit(Value(base, env), i))
    {
      assert Bit(Value(inserted, env), i) ==
        (i < 32 && RotatedBit(Value(source, env), shift, i) && InMask(maskBegin, maskEnd, 31 - i));
      RlwimiAt(base, source, inserted, shift, maskBegin, maskEnd, env, i);
    }
  }
}
