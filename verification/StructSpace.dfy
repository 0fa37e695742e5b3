/**
 * How a laid out struct uses its space (`parse_struct_member` and `do_parse_struct` of m2c/c_types.py): which bits belong
 * to which element and member at every depth, and how much is left between them.
 */
module StructSpace {
  import opened Wrappers
  import opened Bits
  import opened PowersOfTwo
  import opened StructLayout
  import opened StructRecords

  // ----- the bits of a type -----

  /** The bits of all primitives, pointers, bitfields and unions in a value at an address, in order of declaration. */
  function Leaves(t: CType, address: nat, base: nat): seq<Range>
    decreases t, 0
  {
    match t.shape
    case Primitive(size) => [Bytes(address, size)]
    case Pointer => [Bytes(address, 4)]
    case ArrayOf(element, dim) => ElementLeaves(element, dim, address, base)
    case Record(decl) => StructLeaves(decl, address, base)
  }

  function Bytes(address: nat, size: nat): Range {
    Range(8 * address, 8 * (address + size))
  }

  /** The first `n` elements follow each other at distances of one element's size. */
  function ElementLeaves(element: CType, n: nat, address: nat, base: nat): seq<Range>
    decreases element, n
  {
    if n == 0 then []
    else ElementLeaves(element, n - 1, address, base) + Leaves(element, address + (n - 1) * SizeOf(element, base), base)
  }

  function SizeOf(t: CType, base: nat): nat {
    var m := MemberLayout(t, base);
    if m.Ok? then m.value.size else 0
  }

  /** The members of a union share its bits, which count as one leaf here. */
  function StructLeaves(d: StructDecl, address: nat, base: nat): seq<Range>
    decreases d, |d.decls| + 1
  {
    var r := StructOf(d, base);
    if r.Err? then []
    else if d.isUnion then [Bytes(address, r.value.size)]
    else DeclLeaves(d, |d.decls|, address, base)
  }

  /** The leaves of the first `k` declarations. */
  function DeclLeaves(d: StructDecl, k: nat, address: nat, base: nat): seq<Range>
    requires k <= |d.decls|
    decreases d, k
  {
    if k == 0 then [] else DeclLeaves(d, k - 1, address, base) + OwnLeaves(d, k - 1, address, base)
  }

  function OwnLeaves(d: StructDecl, k: nat, address: nat, base: nat): seq<Range>
    requires k < |d.decls|
    decreases d, k
  {
    var decl := d.decls[k];
    if Laid(d, k, base).Err? then []
    else if decl.Member? then Leaves(decl.typ, address + MemberOffset(d, k, base), base)
    else if decl.Anonymous? then StructLeaves(decl.decl, address + MemberOffset(d, k, base), base)
    else if decl.BitMember? && decl.width > 0 then
      var start := 8 * address + BitPlace(d, k, base);
      [Range(start, start + decl.width)]
    else []
  }

  /** Between two bits, in increasing order and without overlap. */
  ghost predicate Orderly(rs: seq<Range>, low: nat, high: nat) {
    && low <= high && Increasing(rs)
    && forall i :: 0 <= i < |rs| ==> low <= rs[i].start <= rs[i].end <= high
  }

  lemma OrderlyJoin(a: seq<Range>, b: seq<Range>, low: nat, middle: nat, middle': nat, high: nat)
    requires Orderly(a, low, middle) && Orderly(b, middle', high) && middle <= middle'
    ensures Orderly(a + b, low, high)
  {
  }

  lemma OrderlyWithin(rs: seq<Range>, low: nat, high: nat, high': nat)
    requires Orderly(rs, low, high) && high <= high'
    ensures Orderly(rs, low, high')
  {
  }

  /** All leaves of a value lie in its bytes, in order and without overlap. */
  lemma {:induction false} LeavesOrderly(t: CType, address: nat, base: nat)
    requires WfType(t) && IsPow2(base) && MemberLayout(t, base).Ok?
    ensures Orderly(Leaves(t, address, base), 8 * address, 8 * (address + SizeOf(t, base)))
    decreases t, 0
  {
    match t.shape
    case Primitive(_) =>
    case Pointer =>
    case ArrayOf(element, dim) =>
      ElementsOrderly(element, dim, address, base);
      assert SizeOf(element, base) * dim == dim * SizeOf(element, base);
    case Record(decl) => StructOrderly(decl, address, base);
  }

  lemma {:induction false} ElementsOrderly(element: CType, n: nat, address: nat, base: nat)
    requires WfType(element) && IsPow2(base) && MemberLayout(element, base).Ok?
    ensures Orderly(ElementLeaves(element, n, address, base), 8 * address, 8 * (address + n * SizeOf(element, base)))
    decreases element, n
  {
    if n > 0 {
      var size := SizeOf(element, base);
      var middle := address + (n - 1) * size;
      ElementsOrderly(element, n - 1, address, base);
      LeavesOrderly(element, middle, base);
      assert middle + size == address + n * size;
      OrderlyJoin(ElementLeaves(element, n - 1, address, base), Leaves(element, middle, base),
                  8 * address, 8 * middle, 8 * middle, 8 * (middle + size));
    }
  }

  lemma {:induction false} StructOrderly(d: StructDecl, address: nat, base: nat)
    requires WfStruct(d) && IsPow2(base) && StructOf(d, base).Ok?
    ensures Orderly(StructLeaves(d, address, base), 8 * address, 8 * (address + StructOf(d, base).value.size))
    decreases d, |d.decls| + 1
  {
    if !d.isUnion {
      LaidGood(d, |d.decls|, base);
      DeclsOrderly(d, |d.decls|, address, base);
      var s := Laid(d, |d.decls|, base).value;
      AlignUpIs(Flush(false, s).offset, s.align);
      OrderlyWithin(DeclLeaves(d, |d.decls|, address, base), 8 * address, 8 * address + Free(s),
                    8 * (address + StructOf(d, base).value.size));
    }
  }

  lemma {:induction false} DeclsOrderly(d: StructDecl, k: nat, address: nat, base: nat)
    requires WfStruct(d) && IsPow2(base) && !d.isUnion && k <= |d.decls| && Laid(d, k, base).Ok?
    ensures Orderly(DeclLeaves(d, k, address, base), 8 * address, 8 * address + Free(Laid(d, k, base).value))
    decreases d, k
  {
    if k > 0 {
      DeclsOrderly(d, k - 1, address, base);
      OwnOrderly(d, k - 1, address, base);
      OrderlyJoin(DeclLeaves(d, k - 1, address, base), OwnLeaves(d, k - 1, address, base), 8 * address,
                  8 * address + Free(Laid(d, k - 1, base).value), 8 * address + Free(Laid(d, k - 1, base).value),
                  8 * address + Free(Laid(d, k, base).value));
    }
  }

  /** Where a member goes, and what is free after it. */
  lemma MemberPlace(d: StructDecl, k: nat, base: nat)
    requires WfStruct(d) && IsPow2(base) && k < |d.decls| && Laid(d, k + 1, base).Ok? && d.decls[k].Member?
    ensures Laid(d, k, base).Ok? && MemberLayout(d.decls[k].typ, base).Ok?
    ensures var s, t, at := Laid(d, k, base).value, Laid(d, k + 1, base).value, MemberOffset(d, k, base);
      !d.isUnion ==> Free(s) <= 8 * at && Free(t) == 8 * (at + SizeOf(d.decls[k].typ, base))
  {
    LaidGood(d, k, base);
    assert WfDecl(d.decls[k]);
    var s, m := Laid(d, k, base).value, MemberLayout(d.decls[k].typ, base).value;
    MemberIsPow2(d.decls[k].typ, base);
    MemberGood(d, d.decls[k], s, m);
    OffsetIsAligned(d.isUnion, s, MemberAlign(d, d.decls[k], m));
  }

  lemma AnonymousPlace(d: StructDecl, k: nat, base: nat)
    requires WfStruct(d) && IsPow2(base) && k < |d.decls| && Laid(d, k + 1, base).Ok? && d.decls[k].Anonymous?
    ensures Laid(d, k, base).Ok? && StructOf(d.decls[k].decl, base).Ok?
    ensures var s, t, at := Laid(d, k, base).value, Laid(d, k + 1, base).value, MemberOffset(d, k, base);
      !d.isUnion ==> Free(s) <= 8 * at && Free(t) == 8 * (at + StructOf(d.decls[k].decl, base).value.size)
  {
    LaidGood(d, k, base);
    assert WfDecl(d.decls[k]);
    var s, sub := Laid(d, k, base).value, StructOf(d.decls[k].decl, base).value;
    StructIsSound(d.decls[k].decl, base);
    AnonymousGood(d, d.decls[k], s, sub);
    OffsetIsAligned(d.isUnion, s, AnonymousAlign(d, d.decls[k], sub));
  }

  lemma BitfieldPlace(d: StructDecl, k: nat, base: nat)
    requires WfStruct(d) && IsPow2(base) && k < |d.decls| && Laid(d, k + 1, base).Ok? && d.decls[k].BitMember?
    ensures Laid(d, k, base).Ok?
    ensures var s, t := Laid(d, k, base).value, Laid(d, k + 1, base).value;
      !d.isUnion ==>
        if d.decls[k].width == 0 then Free(t) == Free(s)
        else Free(s) <= BitPlace(d, k, base) && Free(t) == BitPlace(d, k, base) + d.decls[k].width
  {
    LaidGood(d, k, base);
    assert WfDecl(d.decls[k]);
    var decl, s, m := d.decls[k], Laid(d, k, base).value, MemberLayout(d.decls[k].typ, base).value;
    if decl.width > 0 {
      BitfieldLaid(d, k, base, m);
      var pack := PackOf(d, decl.packed, decl.alignOverride);
      BitStartLater(d.isUnion, s, m.size, decl.width, pack);
      var (offset, bit) := BitStart(s, m.size, decl.width, pack);
      LowBits(bit + decl.width);
    }
  }

  lemma {:induction false} OwnOrderly(d: StructDecl, k: nat, address: nat, base: nat)
    requires WfStruct(d) && IsPow2(base) && !d.isUnion && k < |d.decls| && Laid(d, k + 1, base).Ok?
    ensures Laid(d, k, base).Ok?
    ensures Orderly(OwnLeaves(d, k, address, base), 8 * address + Free(Laid(d, k, base).value),
                    8 * address + Free(Laid(d, k + 1, base).value))
    decreases d, k
  {
    var decl := d.decls[k];
    assert WfDecl(decl);
    if decl.Member? {
      MemberPlace(d, k, base);
      LeavesOrderly(decl.typ, address + MemberOffset(d, k, base), base);
    } else if decl.Anonymous? {
      AnonymousPlace(d, k, base);
      StructOrderly(decl.decl, address + MemberOffset(d, k, base), base);
    } else if decl.BitMember? {
      BitfieldPlace(d, k, base);
    }
  }

  // ----- no room is wasted -----

  /** Primitives and pointers fill their bytes, and an array ends where its last element does. */
  lemma SizesAreFull(t: CType, base: nat)
    requires MemberLayout(t, base).Ok?
    ensures t.shape.Primitive? ==> SizeOf(t, base) == t.shape.size > 0
    ensures t.shape.Pointer? ==> SizeOf(t, base) == 4
    ensures t.shape.ArrayOf? && t.shape.dim == 0 ==> SizeOf(t, base) == 0
    ensures t.shape.ArrayOf? && t.shape.dim > 0 ==>
      SizeOf(t, base) == (t.shape.dim - 1) * SizeOf(t.shape.element, base) + SizeOf(t.shape.element, base)
    ensures t.shape.Record? ==> StructOf(t.shape.decl, base).Ok? && SizeOf(t, base) == StructOf(t.shape.decl, base).value.size
  {
  }

  /** A type is aligned as its typedefs ask, or else as its size, its elements or its struct. */
  lemma TypeAlignIs(t: CType, base: nat, m: Layout)
    requires MemberLayout(t, base) == Ok(m)
    ensures t.alignOverride != 0 ==> m.align == t.alignOverride
    ensures t.alignOverride == 0 && t.shape.Primitive? ==> m.align == t.shape.size
    ensures t.alignOverride == 0 && t.shape.Pointer? ==> m.align == 4
    ensures t.alignOverride == 0 && t.shape.ArrayOf? ==>
      MemberLayout(t.shape.element, base).Ok? && m.align == MemberLayout(t.shape.element, base).value.align
    ensures t.alignOverride == 0 && t.shape.Record? ==>
      StructOf(t.shape.decl, base).Ok? && m.align == StructOf(t.shape.decl, base).value.align
  {
  }

  function End(rs: seq<Range>): nat {
    if rs == [] then 0 else rs[|rs| - 1].end
  }

  /** The free bits of a struct begin where its last range ends. */
  lemma {:induction false} NoGapAtEnd(d: StructDecl, k: nat, base: nat)
    requires WfStruct(d) && IsPow2(base) && !d.isUnion && k <= |d.decls| && Laid(d, k, base).Ok?
    ensures Free(Laid(d, k, base).value) == End(Laid(d, k, base).value.ranges)
    decreases k
  {
    if k > 0 {
      NoGapAtEnd(d, k - 1, base);
      if d.decls[k - 1].Member? {
        MemberPlace(d, k - 1, base);
      } else if d.decls[k - 1].Anonymous? {
        AnonymousPlace(d, k - 1, base);
      } else if d.decls[k - 1].BitMember? {
        BitfieldPlace(d, k - 1, base);
      }
    }
  }

  /** The first byte of which no bit is taken. */
  function FreeByte(s: State): nat {
    (Free(s) + 7) / 8
  }

  /** The first multiple of `align` from `x` on. */
  predicate FirstMultiple(at: nat, x: nat, align: nat) {
    align > 0 && at % align == 0 && x <= at < x + align
  }

  /** Nothing before it would do. */
  lemma FirstMultipleIsFirst(at: nat, x: nat, align: nat, y: nat)
    requires FirstMultiple(at, x, align) && x <= y && y % align == 0
    ensures at <= y
  {
    if y < at {
      MultipleBelow(y, at, align);
    }
  }

  /** A member starts at the first free byte that is aligned as wanted. */
  lemma MemberStarts(d: StructDecl, k: nat, base: nat)
    requires WfStruct(d) && IsPow2(base) && k < |d.decls| && Laid(d, k + 1, base).Ok? && d.decls[k].Member?
    ensures Laid(d, k, base).Ok? && MemberLayout(d.decls[k].typ, base).Ok?
    ensures FirstMultiple(MemberOffset(d, k, base), FreeByte(Laid(d, k, base).value),
                          MemberAlign(d, d.decls[k], MemberLayout(d.decls[k].typ, base).value))
  {
    LaidGood(d, k, base);
    assert WfDecl(d.decls[k]);
    var s, m := Laid(d, k, base).value, MemberLayout(d.decls[k].typ, base).value;
    MemberIsPow2(d.decls[k].typ, base);
    MemberGood(d, d.decls[k], s, m);
    AlignUpIs(Flush(d.isUnion, s).offset, MemberAlign(d, d.decls[k], m));
  }

  lemma AnonymousStarts(d: StructDecl, k: nat, base: nat)
    requires WfStruct(d) && IsPow2(base) && k < |d.decls| && Laid(d, k + 1, base).Ok? && d.decls[k].Anonymous?
    ensures Laid(d, k, base).Ok? && StructOf(d.decls[k].decl, base).Ok?
    ensures FirstMultiple(MemberOffset(d, k, base), FreeByte(Laid(d, k, base).value),
                          AnonymousAlign(d, d.decls[k], StructOf(d.decls[k].decl, base).value))
  {
    LaidGood(d, k, base);
    assert WfDecl(d.decls[k]);
    var s, sub := Laid(d, k, base).value, StructOf(d.decls[k].decl, base).value;
    StructIsSound(d.decls[k].decl, base);
    AnonymousGood(d, d.decls[k], s, sub);
    AlignUpIs(Flush(d.isUnion, s).offset, AnonymousAlign(d, d.decls[k], sub));
  }

  /** A struct ends at the first free byte that is aligned as the struct is. */
  lemma StructEnds(d: StructDecl, base: nat)
    requires WfStruct(d) && IsPow2(base) && !d.isUnion && StructOf(d, base).Ok?
    ensures Laid(d, |d.decls|, base).Ok?
    ensures FirstMultiple(StructOf(d, base).value.size, FreeByte(Laid(d, |d.decls|, base).value), StructOf(d, base).value.align)
  {
    LaidGood(d, |d.decls|, base);
    var s := Laid(d, |d.decls|, base).value;
    AlignUpIs(Flush(false, s).offset, s.align);
  }

  // ----- alignment and size as maxima -----

  /** The alignment and the size that a declaration asks of the struct, or 0. */
  function OwnAlign(d: StructDecl, k: nat, base: nat): nat
    requires k < |d.decls|
  {
    var decl := d.decls[k];
    if decl.Member? then
      var m := MemberLayout(decl.typ, base); if m.Ok? then MemberAlign(d, decl, m.value) else 0
    else if decl.Anonymous? then
      var t := StructOf(decl.decl, base); if t.Ok? then AnonymousAlign(d, decl, t.value) else 0
    else if decl.BitMember? then
      var m := MemberLayout(decl.typ, base); if m.Ok? then m.value.align else 0
    else 0
  }

  function OwnSize(d: StructDecl, k: nat, base: nat): nat
    requires k < |d.decls|
  {
    var decl := d.decls[k];
    if decl.Member? || (decl.BitMember? && decl.width > 0) then SizeOf(decl.typ, base)
    else if decl.Anonymous? then
      var t := StructOf(decl.decl, base); if t.Ok? then t.value.size else 0
    else 0
  }

  /** `value` is the largest of `first` and of what the first `k` declarations ask. */
  ghost predicate LargestOf(value: nat, first: nat, k: nat, own: nat -> nat) {
    && first <= value && (forall j: nat :: j < k ==> own(j) <= value)
    && (value == first || exists j: nat :: j < k && own(j) == value)
  }

  /** A running maximum. */
  lemma {:induction false} RunningMaximum(value: nat -> nat, k: nat, own: nat -> nat)
    requires forall j: nat :: j < k ==> value(j + 1) == Max(value(j), own(j))
    ensures LargestOf(value(k), value(0), k, own)
  {
    if k > 0 {
      RunningMaximum(value, k - 1, own);
      assert value(k - 1 + 1) == Max(value(k - 1), own(k - 1));
    }
  }

  ghost function OwnAligns(d: StructDecl, base: nat): nat -> nat {
    (k: nat) => if k < |d.decls| then OwnAlign(d, k, base) else 0
  }

  ghost function OwnSizes(d: StructDecl, base: nat): nat -> nat {
    (k: nat) => if k < |d.decls| then OwnSize(d, k, base) else 0
  }

  lemma StepMaxima(d: StructDecl, k: nat, base: nat)
    requires k < |d.decls| && Laid(d, k + 1, base).Ok?
    ensures Laid(d, k, base).Ok?
    ensures Laid(d, k + 1, base).value.align == Max(Laid(d, k, base).value.align, OwnAligns(d, base)(k))
    ensures d.isUnion ==> Laid(d, k + 1, base).value.unionSize == Max(Laid(d, k, base).value.unionSize, OwnSizes(d, base)(k))
  {
  }

  ghost function AlignAfter(d: StructDecl, base: nat): nat -> nat {
    (k: nat) => if k <= |d.decls| && Laid(d, k, base).Ok? then Laid(d, k, base).value.align else 0
  }

  ghost function UnionSizeAfter(d: StructDecl, base: nat): nat -> nat {
    (k: nat) => if k <= |d.decls| && Laid(d, k, base).Ok? then Laid(d, k, base).value.unionSize else 0
  }

  lemma MaximaAfter(d: StructDecl, j: nat, base: nat)
    requires Laid(d, |d.decls|, base).Ok? && j < |d.decls|
    ensures AlignAfter(d, base)(j + 1) == Max(AlignAfter(d, base)(j), OwnAligns(d, base)(j))
    ensures d.isUnion ==> UnionSizeAfter(d, base)(j + 1) == Max(UnionSizeAfter(d, base)(j), OwnSizes(d, base)(j))
  {
    LaidGrows(d, j + 1, |d.decls|, base);
    StepMaxima(d, j, base);
  }

  /** The alignment of a struct is the largest that it or a member asks for. */
  lemma LargestAlign(d: StructDecl, base: nat)
    requires Laid(d, |d.decls|, base).Ok?
    ensures LargestOf(Laid(d, |d.decls|, base).value.align, if d.alignOverride != 0 then d.alignOverride else base, |d.decls|,
                      OwnAligns(d, base))
  {
    var aligns := AlignAfter(d, base);
    forall j: nat | j < |d.decls|
      ensures aligns(j + 1) == Max(aligns(j), OwnAligns(d, base)(j))
    {
      MaximaAfter(d, j, base);
    }
    RunningMaximum(aligns, |d.decls|, OwnAligns(d, base));
  }

  /** The room of a union is that of its largest member. */
  lemma LargestMember(d: StructDecl, base: nat)
    requires d.isUnion && Laid(d, |d.decls|, base).Ok?
    ensures LargestOf(Laid(d, |d.decls|, base).value.unionSize, 0, |d.decls|, OwnSizes(d, base))
  {
    var sizes := UnionSizeAfter(d, base);
    forall j: nat | j < |d.decls|
      ensures sizes(j + 1) == Max(sizes(j), OwnSizes(d, base)(j))
    {
      MaximaAfter(d, j, base);
    }
    RunningMaximum(sizes, |d.decls|, OwnSizes(d, base));
  }

  lemma UnionEnds(d: StructDecl, base: nat, largest: nat)
    requires WfStruct(d) && IsPow2(base) && d.isUnion && StructOf(d, base).Ok? && Laid(d, |d.decls|, base).Ok?
    requires LargestOf(largest, 0, |d.decls|, OwnSizes(d, base))
    ensures FirstMultiple(StructOf(d, base).value.size, largest, StructOf(d, base).value.align)
  {
    LargestMember(d, base);
    LaidGood(d, |d.decls|, base);
    var s := Laid(d, |d.decls|, base).value;
    AlignUpIs(s.unionSize, s.align);
  }

  // ----- alignment that was asked for -----

  /** Without packing, a member is at the first free byte that suits its type and its own request. */
  lemma UnpackedStarts(d: StructDecl, k: nat, base: nat, m: Layout)
    requires WfStruct(d) && IsPow2(base) && k < |d.decls| && Laid(d, k + 1, base).Ok? && d.decls[k].Member?
    requires MemberLayout(d.decls[k].typ, base) == Ok(m) && !d.packed && !d.decls[k].packed && d.pragmaPack == 0
    ensures Laid(d, k, base).Ok? && m.align > 0
    ensures var at, free, request := MemberOffset(d, k, base), FreeByte(Laid(d, k, base).value), d.decls[k].alignOverride;
      && free <= at && at % m.align == 0 && (request > 0 ==> at % request == 0)
      && forall x: nat :: free <= x && x % m.align == 0 && (request > 0 ==> x % request == 0) ==> at <= x
  {
    assert WfDecl(d.decls[k]);
    MemberStarts(d, k, base);
    MemberIsPow2(d.decls[k].typ, base);
    var at, free, request := MemberOffset(d, k, base), FreeByte(Laid(d, k, base).value), d.decls[k].alignOverride;
    var align := Max(m.align, request);
    Divides(m.align, align);
    DividesThrough(at, align, m.align);
    if request > 0 {
      Divides(request, align);
      DividesThrough(at, align, request);
    }
    forall x: nat | free <= x && x % m.align == 0 && (request > 0 ==> x % request == 0)
      ensures at <= x
    {
      FirstMultipleIsFirst(at, free, align, x);
    }
  }

  /** With the attribute `packed` and no other request, there is no room before a member at all. */
  lemma PackedStarts(d: StructDecl, k: nat, base: nat)
    requires WfStruct(d) && IsPow2(base) && k < |d.decls| && Laid(d, k + 1, base).Ok? && d.decls[k].Member?
    requires (d.packed || d.decls[k].packed) && d.decls[k].alignOverride <= 1
    ensures Laid(d, k, base).Ok? && MemberOffset(d, k, base) == FreeByte(Laid(d, k, base).value)
  {
    MemberStarts(d, k, base);
  }

  /** An anonymous member is at the first free byte that suits its own request, or else its struct. */
  lemma UnpackedAnonymousStarts(d: StructDecl, k: nat, base: nat, sub: Struct)
    requires WfStruct(d) && IsPow2(base) && k < |d.decls| && Laid(d, k + 1, base).Ok? && d.decls[k].Anonymous?
    requires StructOf(d.decls[k].decl, base) == Ok(sub) && !d.packed && !d.decls[k].packed && d.pragmaPack == 0
    ensures Laid(d, k, base).Ok?
    ensures FirstMultiple(MemberOffset(d, k, base), FreeByte(Laid(d, k, base).value),
                          if d.decls[k].alignOverride > 0 then d.decls[k].alignOverride else sub.align)
  {
    AnonymousStarts(d, k, base);
  }

  lemma PackedAnonymousStarts(d: StructDecl, k: nat, base: nat)
    requires WfStruct(d) && IsPow2(base) && k < |d.decls| && Laid(d, k + 1, base).Ok? && d.decls[k].Anonymous?
    requires (d.packed || d.decls[k].packed) && d.decls[k].alignOverride <= 1
    ensures Laid(d, k, base).Ok? && MemberOffset(d, k, base) == FreeByte(Laid(d, k, base).value)
  {
    AnonymousStarts(d, k, base);
  }

  /** Under `#pragma pack(n)` and without the attribute, every member is at a multiple of `n`, whatever its type. */
  lemma PragmaStarts(d: StructDecl, k: nat, base: nat)
    requires WfStruct(d) && IsPow2(base) && k < |d.decls| && Laid(d, k + 1, base).Ok? && d.decls[k].Member?
    requires !d.packed && !d.decls[k].packed && d.pragmaPack > 0
    ensures Laid(d, k, base).Ok? && FirstMultiple(MemberOffset(d, k, base), FreeByte(Laid(d, k, base).value), d.pragmaPack)
  {
    MemberStarts(d, k, base);
  }

  /**
   * As a limit on alignment, as which compilers take it, `n` is obeyed if and only if the type does not need less, or the
   * first free byte that suits the type is a multiple of `n` anyway.
   */
  lemma PragmaIsLimit(d: StructDecl, k: nat, base: nat, m: Layout)
    requires WfStruct(d) && IsPow2(base) && k < |d.decls| && Laid(d, k + 1, base).Ok? && d.decls[k].Member?
    requires MemberLayout(d.decls[k].typ, base) == Ok(m) && !d.packed && !d.decls[k].packed && d.pragmaPack > 0
    ensures Laid(d, k, base).Ok?
    ensures var free, n := FreeByte(Laid(d, k, base).value), d.pragmaPack;
      FirstMultiple(MemberOffset(d, k, base), free, if n <= m.align then n else m.align) <==>
        n <= m.align || AlignUp(free, m.align) % n == 0
  {
    PragmaStarts(d, k, base);
    assert WfDecl(d.decls[k]);
    MemberIsPow2(d.decls[k].typ, base);
    var at, free, n := MemberOffset(d, k, base), FreeByte(Laid(d, k, base).value), d.pragmaPack;
    if n > m.align {
      AlignUpIs(free, m.align);
      Divides(m.align, n);
      DividesThrough(at, n, m.align);
      FirstMultipleIsFirst(AlignUp(free, m.align), free, m.align, at);
      if AlignUp(free, m.align) % n == 0 {
        FirstMultipleIsFirst(at, free, n, AlignUp(free, m.align));
      } else if FirstMultiple(at, free, m.align) {
        FirstMultipleIsFirst(at, free, m.align, AlignUp(free, m.align));
      }
    }
  }

  const CHAR := CType(Primitive(1), 0)

  lemma CharactersLaid(d: StructDecl, base: nat)
    requires d.decls == [Member(CHAR, "a", 0, false), Member(CHAR, "b", 0, false)]
    ensures Laid(d, 1, base).Ok? && Laid(d, 2, base).Ok?
  {
    assert Laid(d, 0, base) == Ok(Start(d, base));
    assert MemberLayout(CHAR, base) == Ok(Layout(1, 1, false));
    assert Laid(d, 1, base) == Step(d, 0, Start(d, base), base);
  }

  /** Under `#pragma pack(n)`, the second of two characters is at offset `n`. */
  lemma PragmaSpreads(d: StructDecl, base: nat)
    requires d.decls == [Member(CHAR, "a", 0, false), Member(CHAR, "b", 0, false)] && d.alignOverride == 0
    requires !d.isUnion && !d.packed && IsPow2(d.pragmaPack) && IsPow2(base)
    ensures Laid(d, 1, base).Ok? && d.pragmaPack > 0 && MemberOffset(d, 1, base) == d.pragmaPack
  {
    var n := d.pragmaPack;
    OneIsPow2();
    CharactersLaid(d, base);
    PragmaStarts(d, 0, base);
    MemberPlace(d, 0, base);
    NothingBelow(MemberOffset(d, 0, base), n);
    SizesAreFull(CHAR, base);
    PragmaStarts(d, 1, base);
    var at := MemberOffset(d, 1, base);
    assert FirstMultiple(at, 1, n);
    MultipleBelow(0, at, n);
    FirstMultipleIsFirst(at, 1, n, n);
  }
}
