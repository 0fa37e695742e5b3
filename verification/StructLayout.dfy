/**
 * Layout of C structs and unions (`do_parse_struct` and `parse_struct_member` of m2c/c_types.py), from
 * declarations whose dimensions, widths and alignment attributes are already evaluated.
 */
module StructLayout {
  import opened Wrappers
  import opened Bits
  import opened PowersOfTwo

  datatype Shape = Primitive(size: nat) | Pointer | ArrayOf(element: CType, dim: nat) | Record(decl: StructDecl)

  /** A type and the alignment its typedefs ask for, or 0. */
  datatype CType = CType(shape: Shape, alignOverride: nat)

  datatype StructDecl = StructDecl(isUnion: bool, decls: seq<Decl>, alignOverride: nat, packed: bool, pragmaPack: nat)

  /** `Ignored` are pragmas, enums, forward declarations and members without a name. */
  datatype Decl =
    | Ignored
    | Named(decl: StructDecl)
    | Anonymous(decl: StructDecl, alignOverride: nat, packed: bool)
    | BitMember(typ: CType, width: nat, bitName: Option<string>, alignOverride: nat, packed: bool)
    | Member(typ: CType, name: string, alignOverride: nat, packed: bool)

  datatype Field = Field(typ: CType, size: nat, name: string)

  datatype BitField = BitField(width: nat, name: string)

  type Dict<T> = map<nat, seq<T>>

  datatype Struct = Struct(fields: Dict<Field>, bitfields: Dict<BitField>, hasBitfields: bool, size: nat, align: nat)

  datatype Error = VoidMember | BitfieldNotPrimitive | AlignedBitfield | BitfieldTooWide

  // ----- rounding -----

  function Natural(x: int): nat {
    if x < 0 then 0 else x
  }

  /** Rounding up to a power of two, with the source's mask. */
  function AlignUp(x: nat, a: nat): nat {
    Natural(And(x + a - 1, Neg(a)))
  }

  /** The next multiple of a power of two, past `x`. */
  function NextUnit(x: nat, a: nat): nat {
    Natural(And(x + a, Neg(a)))
  }

  lemma AlignUpIs(x: nat, a: nat)
    requires IsPow2(a)
    ensures AlignUp(x, a) % a == 0 && x <= AlignUp(x, a) < x + a
  {
    var k: nat :| a == Pow2(k);
    AndNegPow2(x + a - 1, k);
    RoundsDown(x + a - 1, a);
  }

  lemma NextUnitIs(x: nat, a: nat)
    requires IsPow2(a)
    ensures NextUnit(x, a) % a == 0 && x < NextUnit(x, a) <= x + a
  {
    var k: nat :| a == Pow2(k);
    AndNegPow2(x + a, k);
    RoundsDown(x + a, a);
  }

  lemma RoundsDown(x: nat, a: nat)
    requires a > 0
    ensures x / a * a % a == 0 && x - a < x / a * a <= x
  {
    MultipleOf(x / a, a);
  }

  // ----- layout, as a function -----

  /** Where one declaration went: a range of bits. */
  datatype Range = Range(start: nat, end: nat)

  datatype State = State(offset: nat, bitOffset: nat, align: nat, unionSize: nat, hasBitfields: bool,
                         fields: Dict<Field>, bitfields: Dict<BitField>, ranges: seq<Range>)

  function Max(a: nat, b: nat): nat {
    if a >= b then a else b
  }

  /** The first of two numbers that is not 0. */
  function OrElse(a: nat, b: nat): nat {
    if a != 0 then a else b
  }

  function Append<T>(d: Dict<T>, key: nat, value: T): Dict<T> {
    d[key := (if key in d then d[key] else []) + [value]]
  }

  /** Fields of an anonymous member are fields of the struct around it. */
  function Flattened(d: Dict<Field>, sub: Dict<Field>, offset: nat): Dict<Field> {
    map k | k in d.Keys + (set o | o in sub :: offset + o) ::
      (if k in d then d[k] else []) + (if k >= offset && k - offset in sub then sub[k - offset] else [])
  }

  /** The alignment forced by packing, or 0. */
  function PackOf(d: StructDecl, packed: bool, alignOverride: nat): nat {
    var pack := if d.packed || packed then OrElse(alignOverride, 1) else 0;
    if d.pragmaPack != 0 && (pack == 0 || pack > d.pragmaPack) then d.pragmaPack else pack
  }

  function Flush(isUnion: bool, s: State): State {
    if !isUnion && s.bitOffset != 0 then s.(bitOffset := 0, offset := s.offset + 1) else s
  }

  /** Size, alignment, and whether it is an array or struct. */
  datatype Layout = Layout(size: nat, align: nat, composite: bool)

  function MemberLayout(t: CType, base: nat): Result<Layout, Error>
    decreases t
  {
    match t.shape
    case Pointer => Ok(Layout(4, OrElse(t.alignOverride, 4), false))
    case Primitive(size) => if size == 0 then Err(VoidMember) else Ok(Layout(size, OrElse(t.alignOverride, size), false))
    case ArrayOf(element, dim) =>
      var r := MemberLayout(element, base);
      if r.Err? then r else Ok(Layout(r.value.size * dim, OrElse(t.alignOverride, r.value.align), true))
    case Record(decl) =>
      var r := StructOf(decl, base);
      if r.Err? then Err(r.error) else Ok(Layout(r.value.size, OrElse(t.alignOverride, r.value.align), true))
  }

  function StructOf(d: StructDecl, base: nat): Result<Struct, Error>
    decreases d, 2 * |d.decls| + 1
  {
    var r := Laid(d, |d.decls|, base);
    if r.Err? then Err(r.error) else Ok(Finish(d.isUnion, r.value))
  }

  function Finish(isUnion: bool, s: State): Struct {
    var f := Flush(isUnion, s);
    var size := AlignUp(if isUnion then f.unionSize else f.offset, f.align);
    Struct(f.fields, f.bitfields, f.hasBitfields, size, f.align)
  }

  function Start(d: StructDecl, base: nat): State {
    State(0, 0, OrElse(d.alignOverride, base), 0, false, map[], map[], [])
  }

  /** The state after the first `k` declarations. */
  function Laid(d: StructDecl, k: nat, base: nat): Result<State, Error>
    requires k <= |d.decls|
    decreases d, 2 * k
  {
    if k == 0 then Ok(Start(d, base))
    else
      var r := Laid(d, k - 1, base);
      if r.Err? then r else Step(d, k - 1, r.value, base)
  }

  /** One declaration. */
  function Step(d: StructDecl, k: nat, s: State, base: nat): Result<State, Error>
    requires k < |d.decls|
    decreases d, 2 * k + 1
  {
    var decl := d.decls[k];
    match decl
    case Ignored => Ok(s)
    case Named(sub) =>
      var t := StructOf(sub, base);
      if t.Err? then Err(t.error) else Ok(s)
    case Anonymous(sub, alignOverride, packed) =>
      var t := StructOf(sub, base);
      if t.Err? then Err(t.error) else Ok(PlaceStruct(d.isUnion, s, t.value, AnonymousAlign(d, decl, t.value)))
    case BitMember(typ, width, bitName, alignOverride, packed) =>
      var m := MemberLayout(typ, base);
      if m.Err? then Err(m.error)
      else PlaceBits(d.isUnion, s, m.value, width, bitName, alignOverride, PackOf(d, packed, alignOverride))
    case Member(typ, name, alignOverride, packed) =>
      var m := MemberLayout(typ, base);
      if m.Err? then Err(m.error)
      else Ok(PlaceField(d.isUnion, s, Field(typ, m.value.size, name), MemberAlign(d, decl, m.value)))
  }

  function AnonymousAlign(d: StructDecl, decl: Decl, sub: Struct): nat
    requires decl.Anonymous?
  {
    OrElse(OrElse(PackOf(d, decl.packed, decl.alignOverride), decl.alignOverride), sub.align)
  }

  function MemberAlign(d: StructDecl, decl: Decl, m: Layout): nat
    requires decl.Member?
  {
    OrElse(PackOf(d, decl.packed, decl.alignOverride), Max(m.align, decl.alignOverride))
  }

  /** A member or anonymous struct of a size goes to the next aligned offset. */
  function Placed(isUnion: bool, s: State, size: nat, align: nat): State {
    PlacedAt(isUnion, Flush(isUnion, s), size, align, OffsetFor(isUnion, s, align))
  }

  function PlacedAt(isUnion: bool, s: State, size: nat, align: nat, offset: nat): State {
    s.(align := Max(s.align, align), offset := if isUnion then offset else offset + size,
       unionSize := if isUnion then Max(s.unionSize, size) else s.unionSize,
       ranges := s.ranges + [Range(8 * offset, 8 * (offset + size))])
  }

  function OffsetFor(isUnion: bool, s: State, align: nat): nat {
    AlignUp(Flush(isUnion, s).offset, align)
  }

  function PlaceStruct(isUnion: bool, s: State, sub: Struct, align: nat): State {
    Placed(isUnion, s, sub.size, align).(fields := Flattened(s.fields, sub.fields, OffsetFor(isUnion, s, align)))
  }

  function PlaceField(isUnion: bool, s: State, f: Field, align: nat): State {
    Placed(isUnion, s, f.size, align).(fields := Append(s.fields, OffsetFor(isUnion, s, align), f))
  }

  /** Whether the next bits reach over the end of a unit of the type. */
  predicate Straddles(s: State, size: nat, width: nat)
    requires size > 0 && width > 0
  {
    s.offset / size != (s.offset + (s.bitOffset + width - 1) / 8) / size
  }

  /** Where a bitfield starts: past its unit's boundary if it would straddle it. */
  function BitStart(s: State, size: nat, width: nat, pack: nat): (nat, nat)
    requires size > 0 && width > 0
  {
    if Straddles(s, size, width) && pack == 0
    then (NextUnit(s.offset, size), 0)
    else (s.offset, s.bitOffset)
  }

  function PlaceBits(isUnion: bool, s: State, m: Layout, width: nat, name: Option<string>, alignOverride: nat, pack: nat)
    : Result<State, Error>
  {
    if m.size != m.align || m.composite then Err(BitfieldNotPrimitive)
    else if alignOverride != 0 then Err(AlignedBitfield)
    else
      var t := s.(hasBitfields := true, align := Max(s.align, m.align));
      if width == 0 then Ok(t)
      else if width > 8 * m.size then Err(BitfieldTooWide)
      else
        var (offset, bit) := BitStart(s, m.size, width, pack);
        Ok(BitsAt(isUnion, t, m.size, width, name, offset, bit))
  }

  /** Bits allocated from a bit on. */
  function BitsAt(isUnion: bool, s: State, size: nat, width: nat, name: Option<string>, offset: nat, bit: nat): State {
    var start := 8 * offset + bit;
    s.(bitfields := if name.Some? then Append(s.bitfields, start, BitField(width, name.value)) else s.bitfields,
       unionSize := if isUnion then Max(s.unionSize, size) else s.unionSize,
       offset := if isUnion then offset else offset + (bit + width) / 8,
       bitOffset := if isUnion then bit else Natural(And(bit + width, 7)),
       ranges := s.ranges + [Range(start, start + width)])
  }

  // ----- power-of-two alignments -----

  /** Sizes of primitives are powers of two, and so are requested alignments. */
  ghost predicate WfType(t: CType)
    decreases t
  {
    && (t.alignOverride == 0 || IsPow2(t.alignOverride))
    && (t.shape.Primitive? ==> t.shape.size == 0 || IsPow2(t.shape.size))
    && (t.shape.ArrayOf? ==> WfType(t.shape.element))
    && (t.shape.Record? ==> WfStruct(t.shape.decl))
  }

  ghost predicate WfDecl(decl: Decl)
    decreases decl
  {
    && (decl.Named? || decl.Anonymous? ==> WfStruct(decl.decl))
    && (decl.BitMember? || decl.Member? ==> WfType(decl.typ))
    && (decl.Anonymous? || decl.BitMember? || decl.Member? ==> decl.alignOverride == 0 || IsPow2(decl.alignOverride))
  }

  ghost predicate WfStruct(d: StructDecl)
    decreases d
  {
    && (d.alignOverride == 0 || IsPow2(d.alignOverride)) && (d.pragmaPack == 0 || IsPow2(d.pragmaPack))
    && forall k :: 0 <= k < |d.decls| ==> WfDecl(d.decls[k])
  }

  lemma OneIsPow2()
    ensures IsPow2(1) && IsPow2(4)
  {
    assert Pow2(0) == 1 && Pow2(2) == 4;
  }

  /** What holds between declarations. */
  ghost predicate Good(isUnion: bool, s: State) {
    && IsPow2(s.align) && s.bitOffset <= 7
    && (isUnion ==> s.offset == 0 && s.bitOffset == 0)
    && (forall i :: 0 <= i < |s.ranges| ==> s.ranges[i].start <= s.ranges[i].end)
    && (isUnion ==> forall i :: 0 <= i < |s.ranges| ==> s.ranges[i].start == 0 && s.ranges[i].end <= 8 * s.unionSize)
    && (!isUnion ==> Increasing(s.ranges) && forall i :: 0 <= i < |s.ranges| ==> s.ranges[i].end <= 8 * s.offset + s.bitOffset)
  }

  /** No two declarations share a bit, and later ones come later. */
  predicate Increasing(ranges: seq<Range>) {
    forall i, j :: 0 <= i < j < |ranges| ==> ranges[i].end <= ranges[j].start
  }

  lemma MaxIsPow2(a: nat, b: nat)
    requires IsPow2(a) && IsPow2(b)
    ensures IsPow2(Max(a, b))
  {
  }

  lemma NothingBelow(x: nat, a: nat)
    requires a > 0 && x % a == 0 && x < a
    ensures x == 0
  {
    DivUnique(x, a, 0, x);
  }

  lemma OffsetIsAligned(isUnion: bool, s: State, align: nat)
    requires IsPow2(align) && (isUnion ==> s.offset == 0)
    ensures align > 0 && OffsetFor(isUnion, s, align) % align == 0 && Flush(isUnion, s).offset <= OffsetFor(isUnion, s, align)
    ensures isUnion ==> OffsetFor(isUnion, s, align) == 0
  {
    AlignUpIs(Flush(isUnion, s).offset, align);
    if isUnion {
      NothingBelow(OffsetFor(isUnion, s, align), align);
    }
  }

  lemma PlacedGood(isUnion: bool, s: State, size: nat, align: nat)
    requires Good(isUnion, s) && IsPow2(align)
    ensures Good(isUnion, Placed(isUnion, s, size, align))
  {
    OffsetIsAligned(isUnion, s, align);
    MaxIsPow2(s.align, align);
    var t, offset := Placed(isUnion, s, size, align), OffsetFor(isUnion, s, align);
    assert t.ranges == s.ranges + [Range(8 * offset, 8 * (offset + size))];
    assert !isUnion ==> 8 * s.offset + s.bitOffset <= 8 * offset;
  }

  lemma LowBits(x: nat)
    ensures Natural(And(x, 7)) == x % 8
  {
    assert Pow2(3) == 8;
    AndOnes(x, 3);
  }

  /** Bits allocated past the last ones, or at the start of a union. */
  lemma BitsAtGood(isUnion: bool, s: State, size: nat, width: nat, name: Option<string>, offset: nat, bit: nat)
    requires Good(isUnion, s) && 0 < width <= 8 * size && bit <= 7 && 8 * s.offset + s.bitOffset <= 8 * offset + bit
    requires isUnion ==> offset == 0 && bit == 0
    ensures Good(isUnion, BitsAt(isUnion, s, size, width, name, offset, bit))
  {
    LowBits(bit + width);
    var start := 8 * offset + bit;
    var t := BitsAt(isUnion, s, size, width, name, offset, bit);
    assert t.ranges == s.ranges + [Range(start, start + width)];
    assert !isUnion ==> 8 * t.offset + t.bitOffset == start + width;
  }

  lemma BitsGood(isUnion: bool, s: State, m: Layout, width: nat, name: Option<string>, alignOverride: nat, pack: nat)
    requires Good(isUnion, s) && IsPow2(m.align)
    ensures var r := PlaceBits(isUnion, s, m, width, name, alignOverride, pack); r.Ok? ==> Good(isUnion, r.value)
  {
    var r := PlaceBits(isUnion, s, m, width, name, alignOverride, pack);
    if r.Ok? && width > 0 {
      BitStartLater(isUnion, s, m.size, width, pack);
      var (offset, bit) := BitStart(s, m.size, width, pack);
      var t := s.(hasBitfields := true, align := Max(s.align, m.align));
      assert Good(isUnion, t);
      BitsAtGood(isUnion, t, m.size, width, name, offset, bit);
    }
  }

  /** A bitfield starts no earlier than the last one ended; in a union, at the start. */
  lemma BitStartLater(isUnion: bool, s: State, size: nat, width: nat, pack: nat)
    requires Good(isUnion, s) && IsPow2(size) && 0 < width <= 8 * size
    ensures var (offset, bit) := BitStart(s, size, width, pack);
      bit <= 7 && 8 * s.offset + s.bitOffset <= 8 * offset + bit && (isUnion ==> offset == 0 && bit == 0)
  {
    NextUnitIs(s.offset, size);
    if isUnion {
      assert (width - 1) / 8 < size;
      DivUnique(0, size, 0, 0);
      DivUnique((width - 1) / 8, size, 0, (width - 1) / 8);
    }
  }

  /** An unpacked bitfield lies in one aligned unit of its type. */
  lemma BitfieldInUnit(isUnion: bool, s: State, size: nat, width: nat)
    requires Good(isUnion, s) && IsPow2(size) && 0 < width <= 8 * size
    ensures var (offset, bit) := BitStart(s, size, width, 0);
      (8 * offset + bit) / (8 * size) == (8 * offset + bit + width - 1) / (8 * size)
  {
    var (offset, bit) := BitStart(s, size, width, 0);
    BitStartLater(isUnion, s, size, width, 0);
    if Straddles(s, size, width) {
      NextUnitIs(s.offset, size);
      FitsFromBoundary(offset, (width - 1) / 8, size);
    }
    InUnit(offset, bit, width, size);
  }

  lemma InUnit(offset: nat, bit: nat, width: nat, size: nat)
    requires size > 0 && bit <= 7 && width > 0
    ensures (8 * offset + bit) / (8 * size) == offset / size
    ensures (8 * offset + bit + width - 1) / (8 * size) == (offset + (bit + width - 1) / 8) / size
  {
    var start := 8 * offset + bit;
    Halves(start, size);
    Halves(start + width - 1, size);
    EighthOf(offset, bit);
    EighthOf(offset, bit + width - 1);
  }

  lemma EighthOf(offset: nat, bit: nat)
    ensures (8 * offset + bit) / 8 == offset + bit / 8
  {
  }

  lemma FitsFromBoundary(offset: nat, r: nat, size: nat)
    requires size > 0 && offset % size == 0 && r < size
    ensures (offset + r) / size == offset / size
  {
    DivUnique(offset + r, size, offset / size, r);
  }

  lemma Halves(x: nat, a: nat)
    requires a > 0
    ensures x / (8 * a) == x / 8 / a
  {
    HalfDivision(x, 4 * a);
    HalfDivision(x / 2, 2 * a);
    HalfDivision(x / 4, a);
    assert x / 2 / 2 == x / 4 && x / 4 / 2 == x / 8;
  }

  // ----- every layout is sound -----

  lemma PackIsPow2(d: StructDecl, packed: bool, alignOverride: nat)
    requires WfStruct(d) && (alignOverride == 0 || IsPow2(alignOverride))
    ensures PackOf(d, packed, alignOverride) == 0 || IsPow2(PackOf(d, packed, alignOverride))
  {
    OneIsPow2();
  }

  /** All alignments are powers of two, and sizes of structs multiples of them. */
  lemma {:induction false} MemberIsPow2(t: CType, base: nat)
    requires WfType(t) && IsPow2(base) && MemberLayout(t, base).Ok?
    ensures IsPow2(MemberLayout(t, base).value.align)
    ensures !MemberLayout(t, base).value.composite ==> MemberLayout(t, base).value.size > 0
    decreases t
  {
    OneIsPow2();
    match t.shape
    case Pointer =>
    case Primitive(_) =>
    case ArrayOf(element, _) => MemberIsPow2(element, base);
    case Record(decl) => StructIsSound(decl, base);
  }

  lemma {:induction false} StructIsSound(d: StructDecl, base: nat)
    requires WfStruct(d) && IsPow2(base) && StructOf(d, base).Ok?
    ensures var s := StructOf(d, base).value; IsPow2(s.align) && s.size % s.align == 0
    ensures Laid(d, |d.decls|, base).Ok? && Good(d.isUnion, Laid(d, |d.decls|, base).value)
    ensures var s, ranges := StructOf(d, base).value, Laid(d, |d.decls|, base).value.ranges;
      && (forall i :: 0 <= i < |ranges| ==> ranges[i].start <= ranges[i].end <= 8 * s.size)
      && (if d.isUnion then forall i :: 0 <= i < |ranges| ==> ranges[i].start == 0 else Increasing(ranges))
    decreases d, 2 * |d.decls| + 1
  {
    LaidGood(d, |d.decls|, base);
    var s := Laid(d, |d.decls|, base).value;
    var f := Flush(d.isUnion, s);
    AlignUpIs(if d.isUnion then f.unionSize else f.offset, f.align);
  }

  lemma {:induction false} LaidGood(d: StructDecl, k: nat, base: nat)
    requires k <= |d.decls| && WfStruct(d) && IsPow2(base) && Laid(d, k, base).Ok?
    ensures Good(d.isUnion, Laid(d, k, base).value)
    decreases d, 2 * k
  {
    if k > 0 {
      LaidGood(d, k - 1, base);
      StepGood(d, k - 1, Laid(d, k - 1, base).value, base);
    }
  }

  lemma {:induction false} StepGood(d: StructDecl, k: nat, s: State, base: nat)
    requires k < |d.decls| && WfStruct(d) && IsPow2(base) && Good(d.isUnion, s) && Step(d, k, s, base).Ok?
    ensures Good(d.isUnion, Step(d, k, s, base).value)
    decreases d, 2 * k + 1
  {
    var decl := d.decls[k];
    assert WfDecl(decl);
    if decl.Anonymous? {
      StructIsSound(decl.decl, base);
      AnonymousGood(d, decl, s, StructOf(decl.decl, base).value);
    } else if decl.BitMember? {
      MemberIsPow2(decl.typ, base);
      var m := MemberLayout(decl.typ, base).value;
      BitsGood(d.isUnion, s, m, decl.width, decl.bitName, decl.alignOverride, PackOf(d, decl.packed, decl.alignOverride));
    } else if decl.Member? {
      MemberIsPow2(decl.typ, base);
      MemberGood(d, decl, s, MemberLayout(decl.typ, base).value);
    }
  }

  lemma FieldsDoNotMatter(isUnion: bool, s: State, fields: Dict<Field>)
    requires Good(isUnion, s)
    ensures Good(isUnion, s.(fields := fields))
  {
  }

  lemma AnonymousGood(d: StructDecl, decl: Decl, s: State, sub: Struct)
    requires WfStruct(d) && decl.Anonymous? && WfDecl(decl) && Good(d.isUnion, s) && IsPow2(sub.align)
    ensures IsPow2(AnonymousAlign(d, decl, sub)) && Good(d.isUnion, PlaceStruct(d.isUnion, s, sub, AnonymousAlign(d, decl, sub)))
  {
    PackIsPow2(d, decl.packed, decl.alignOverride);
    var align := AnonymousAlign(d, decl, sub);
    PlacedGood(d.isUnion, s, sub.size, align);
    FieldsDoNotMatter(d.isUnion, Placed(d.isUnion, s, sub.size, align), Flattened(s.fields, sub.fields, OffsetFor(d.isUnion, s, align)));
  }

  lemma MemberGood(d: StructDecl, decl: Decl, s: State, m: Layout)
    requires WfStruct(d) && decl.Member? && WfDecl(decl) && Good(d.isUnion, s) && IsPow2(m.align)
    ensures IsPow2(MemberAlign(d, decl, m))
    ensures Good(d.isUnion, PlaceField(d.isUnion, s, Field(decl.typ, m.size, decl.name), MemberAlign(d, decl, m)))
  {
    PackIsPow2(d, decl.packed, decl.alignOverride);
    PlacedGood(d.isUnion, s, m.size, MemberAlign(d, decl, m));
  }

  // ----- what is recorded -----

  predicate Holds<T(==)>(d: Dict<T>, key: nat, value: T) {
    key in d && value in d[key]
  }

  /** Nothing recorded is lost. */
  ghost predicate Grows(a: State, b: State) {
    && a.ranges <= b.ranges && a.align <= b.align
    && (forall o: nat, f :: Holds(a.fields, o, f) ==> Holds(b.fields, o, f))
    && (forall o: nat, f :: Holds(a.bitfields, o, f) ==> Holds(b.bitfields, o, f))
  }

  lemma FlattenedHolds(d: Dict<Field>, sub: Dict<Field>, offset: nat, o: nat, f: Field)
    ensures Holds(d, o, f) ==> Holds(Flattened(d, sub, offset), o, f)
    ensures Holds(sub, o, f) ==> Holds(Flattened(d, sub, offset), offset + o, f)
  {
    var all := Flattened(d, sub, offset);
    if Holds(d, o, f) {
      assert o in all && f in all[o];
    }
    if Holds(sub, o, f) {
      assert offset + o in all && f in all[offset + o];
    }
  }

  lemma AppendHolds<T>(d: Dict<T>, key: nat, value: T)
    ensures Holds(Append(d, key, value), key, value)
    ensures forall o: nat, f :: Holds(d, o, f) ==> Holds(Append(d, key, value), o, f)
  {
    var e := Append(d, key, value);
    assert e[key][|e[key]| - 1] == value;
  }

  lemma StructGrows(isUnion: bool, s: State, sub: Struct, align: nat)
    ensures Grows(s, PlaceStruct(isUnion, s, sub, align))
  {
    forall o: nat, f | Holds(s.fields, o, f)
      ensures Holds(PlaceStruct(isUnion, s, sub, align).fields, o, f)
    {
      FlattenedHolds(s.fields, sub.fields, OffsetFor(isUnion, s, align), o, f);
    }
  }

  lemma FieldGrows(isUnion: bool, s: State, f: Field, align: nat)
    ensures Grows(s, PlaceField(isUnion, s, f, align))
  {
    AppendHolds(s.fields, OffsetFor(isUnion, s, align), f);
  }

  lemma BitsGrow(isUnion: bool, s: State, m: Layout, width: nat, name: Option<string>, alignOverride: nat, pack: nat)
    requires PlaceBits(isUnion, s, m, width, name, alignOverride, pack).Ok?
    ensures Grows(s, PlaceBits(isUnion, s, m, width, name, alignOverride, pack).value)
  {
    if width > 0 && name.Some? {
      var (offset, bit) := BitStart(s, m.size, width, pack);
      AppendHolds(s.bitfields, 8 * offset + bit, BitField(width, name.value));
    }
  }

  lemma StepGrows(d: StructDecl, k: nat, s: State, base: nat)
    requires k < |d.decls| && Step(d, k, s, base).Ok?
    ensures Grows(s, Step(d, k, s, base).value)
  {
    var decl := d.decls[k];
    if decl.Anonymous? {
      var t := StructOf(decl.decl, base).value;
      StructGrows(d.isUnion, s, t, AnonymousAlign(d, decl, t));
    } else if decl.Member? {
      var m := MemberLayout(decl.typ, base).value;
      FieldGrows(d.isUnion, s, Field(decl.typ, m.size, decl.name), MemberAlign(d, decl, m));
    } else if decl.BitMember? {
      var m := MemberLayout(decl.typ, base).value;
      BitsGrow(d.isUnion, s, m, decl.width, decl.bitName, decl.alignOverride, PackOf(d, decl.packed, decl.alignOverride));
    }
  }

  lemma {:induction false} LaidGrows(d: StructDecl, j: nat, k: nat, base: nat)
    requires j <= k <= |d.decls| && Laid(d, k, base).Ok?
    ensures Laid(d, j, base).Ok? && Grows(Laid(d, j, base).value, Laid(d, k, base).value)
    decreases k
  {
    if j < k {
      LaidGrows(d, j, k - 1, base);
      StepGrows(d, k - 1, Laid(d, k - 1, base).value, base);
    }
  }

  /** Where member `k` of a laid out struct is. */
  function MemberOffset(d: StructDecl, k: nat, base: nat): nat
    requires k < |d.decls| && Laid(d, k, base).Ok? && (d.decls[k].Member? || d.decls[k].Anonymous?)
  {
    var decl, s := d.decls[k], Laid(d, k, base).value;
    if decl.Member? then
      var m := MemberLayout(decl.typ, base);
      if m.Ok? then OffsetFor(d.isUnion, s, MemberAlign(d, decl, m.value)) else 0
    else
      var t := StructOf(decl.decl, base);
      if t.Ok? then OffsetFor(d.isUnion, s, AnonymousAlign(d, decl, t.value)) else 0
  }

  /** A member is recorded where it was placed, with a range of its size. */
  lemma MemberRecorded(d: StructDecl, k: nat, base: nat, done: Struct, all: State, m: Layout)
    requires k < |d.decls| && d.decls[k].Member? && MemberLayout(d.decls[k].typ, base) == Ok(m)
    requires StructOf(d, base) == Ok(done) && Laid(d, |d.decls|, base) == Ok(all) && Laid(d, k, base).Ok?
    ensures var o := MemberOffset(d, k, base);
      Holds(done.fields, o, Field(d.decls[k].typ, m.size, d.decls[k].name)) && Range(8 * o, 8 * (o + m.size)) in all.ranges
  {
    LaidGrows(d, k + 1, |d.decls|, base);
    var after := Laid(d, k + 1, base).value;
    var o := MemberOffset(d, k, base);
    assert after.fields[o][|after.fields[o]| - 1] == Field(d.decls[k].typ, m.size, d.decls[k].name);
    assert Holds(after.fields, o, Field(d.decls[k].typ, m.size, d.decls[k].name));
    assert after.ranges[|after.ranges| - 1] == Range(8 * o, 8 * (o + m.size));
  }

  lemma StaysRecorded(a: State, b: State, o: nat, f: Field, range: Range)
    requires Grows(a, b)
    ensures Holds(a.fields, o, f) ==> Holds(b.fields, o, f)
    ensures range in a.ranges ==> range in b.ranges
  {
  }

  lemma AnonymousStep(d: StructDecl, k: nat, base: nat, sub: Struct)
    requires k < |d.decls| && d.decls[k].Anonymous? && StructOf(d.decls[k].decl, base) == Ok(sub) && Laid(d, k + 1, base).Ok?
    ensures var align := AnonymousAlign(d, d.decls[k], sub);
      && Laid(d, k, base).Ok? && Laid(d, k + 1, base).value == PlaceStruct(d.isUnion, Laid(d, k, base).value, sub, align)
      && MemberOffset(d, k, base) == OffsetFor(d.isUnion, Laid(d, k, base).value, align)
  {
  }

  lemma StructIsLaid(d: StructDecl, base: nat)
    requires StructOf(d, base).Ok?
    ensures Laid(d, |d.decls|, base).Ok?
    ensures StructOf(d, base).value.fields == Laid(d, |d.decls|, base).value.fields
  {
  }

  lemma StructPlaced(isUnion: bool, s: State, sub: Struct, align: nat, o: nat, f: Field)
    ensures var t, at := PlaceStruct(isUnion, s, sub, align), OffsetFor(isUnion, s, align);
      && (Holds(sub.fields, o, f) ==> Holds(t.fields, at + o, f))
      && Range(8 * at, 8 * (at + sub.size)) in t.ranges
  {
    var t, at := PlaceStruct(isUnion, s, sub, align), OffsetFor(isUnion, s, align);
    assert t.fields == Flattened(s.fields, sub.fields, at);
    FlattenedHolds(s.fields, sub.fields, at, o, f);
    assert t.ranges[|t.ranges| - 1] == Range(8 * at, 8 * (at + sub.size));
  }

  /** The fields of an anonymous member are recorded at its offset. */
  lemma AnonymousRecorded(d: StructDecl, k: nat, base: nat, done: Struct, all: State, sub: Struct, o: nat, f: Field)
    requires k < |d.decls| && d.decls[k].Anonymous? && StructOf(d.decls[k].decl, base) == Ok(sub)
    requires StructOf(d, base) == Ok(done) && Laid(d, |d.decls|, base) == Ok(all) && Laid(d, k, base).Ok?
    ensures var at := MemberOffset(d, k, base);
      && (Holds(sub.fields, o, f) ==> Holds(done.fields, at + o, f))
      && Range(8 * at, 8 * (at + sub.size)) in all.ranges
  {
    LaidGrows(d, k + 1, |d.decls|, base);
    StructIsLaid(d, base);
    var at := MemberOffset(d, k, base);
    AnonymousAfter(d, k, base, sub, o, f, at);
    StaysRecorded(Laid(d, k + 1, base).value, all, at + o, f, Range(8 * at, 8 * (at + sub.size)));
  }

  lemma AnonymousAfter(d: StructDecl, k: nat, base: nat, sub: Struct, o: nat, f: Field, at: nat)
    requires k < |d.decls| && d.decls[k].Anonymous? && StructOf(d.decls[k].decl, base) == Ok(sub) && Laid(d, k + 1, base).Ok?
    requires Laid(d, k, base).Ok? && MemberOffset(d, k, base) == at
    ensures var after := Laid(d, k + 1, base).value;
      && (Holds(sub.fields, o, f) ==> Holds(after.fields, at + o, f)) && Range(8 * at, 8 * (at + sub.size)) in after.ranges
  {
    AnonymousStep(d, k, base, sub);
    StructPlaced(d.isUnion, Laid(d, k, base).value, sub, AnonymousAlign(d, d.decls[k], sub), o, f);
  }

  /** A named bitfield is recorded where it was placed. */
  lemma BitfieldRecorded(d: StructDecl, k: nat, base: nat, done: Struct, before: State, all: State, m: Layout)
    requires k < |d.decls| && d.decls[k].BitMember? && d.decls[k].width > 0 && d.decls[k].bitName.Some?
    requires MemberLayout(d.decls[k].typ, base) == Ok(m) && Laid(d, k, base) == Ok(before)
    requires StructOf(d, base) == Ok(done) && Laid(d, |d.decls|, base) == Ok(all)
    ensures m.size > 0 && done.hasBitfields
    ensures var decl := d.decls[k];
      var (offset, bit) := BitStart(before, m.size, decl.width, PackOf(d, decl.packed, decl.alignOverride));
      && Holds(done.bitfields, 8 * offset + bit, BitField(decl.width, decl.bitName.value))
      && Range(8 * offset + bit, 8 * offset + bit + decl.width) in all.ranges
  {
    LaidGrows(d, k + 1, |d.decls|, base);
    var decl, after := d.decls[k], Laid(d, k + 1, base).value;
    var (offset, bit) := BitStart(before, m.size, decl.width, PackOf(d, decl.packed, decl.alignOverride));
    var start: nat := 8 * offset + bit;
    assert after.bitfields[start][|after.bitfields[start]| - 1] == BitField(decl.width, decl.bitName.value);
    assert Holds(after.bitfields, start, BitField(decl.width, decl.bitName.value));
    assert after.ranges[|after.ranges| - 1] == Range(start, start + decl.width);
    BitfieldsStay(d, k + 1, |d.decls|, base);
  }

  lemma {:induction false} BitfieldsStay(d: StructDecl, j: nat, k: nat, base: nat)
    requires j <= k <= |d.decls| && Laid(d, k, base).Ok? && Laid(d, j, base).Ok? && Laid(d, j, base).value.hasBitfields
    ensures Laid(d, k, base).value.hasBitfields
    decreases k
  {
    if j < k {
      BitfieldsStay(d, j, k - 1, base);
    }
  }

  /** How many bytes are in use so far. */
  function Used(isUnion: bool, s: State): nat {
    if isUnion then s.unionSize else s.offset
  }

  ghost predicate FieldsWithin(fields: Dict<Field>, size: nat) {
    forall o: nat, f :: Holds(fields, o, f) ==> o + f.size <= size
  }

  ghost predicate BitfieldsWithin(bitfields: Dict<BitField>, bits: nat) {
    forall o: nat, f :: Holds(bitfields, o, f) ==> o + f.width <= bits
  }

  ghost predicate Inside(isUnion: bool, s: State) {
    && FieldsWithin(s.fields, Used(isUnion, s))
    && BitfieldsWithin(s.bitfields, 8 * Used(isUnion, s) + s.bitOffset)
  }

  /** Everything recorded lies inside the struct. */
  lemma {:induction false} EntriesInside(d: StructDecl, base: nat)
    requires WfStruct(d) && IsPow2(base) && StructOf(d, base).Ok?
    ensures FieldsWithin(StructOf(d, base).value.fields, StructOf(d, base).value.size)
    ensures BitfieldsWithin(StructOf(d, base).value.bitfields, 8 * StructOf(d, base).value.size)
    decreases d, 2 * |d.decls| + 1
  {
    LaidInside(d, |d.decls|, base);
    LaidGood(d, |d.decls|, base);
    var s := Laid(d, |d.decls|, base).value;
    var f := Flush(d.isUnion, s);
    AlignUpIs(if d.isUnion then f.unionSize else f.offset, f.align);
  }

  lemma {:induction false} LaidInside(d: StructDecl, k: nat, base: nat)
    requires k <= |d.decls| && WfStruct(d) && IsPow2(base) && Laid(d, k, base).Ok?
    ensures Inside(d.isUnion, Laid(d, k, base).value)
    decreases d, 2 * k
  {
    if k > 0 {
      LaidInside(d, k - 1, base);
      LaidGood(d, k - 1, base);
      StepInside(d, k - 1, Laid(d, k - 1, base).value, base);
    }
  }

  lemma {:induction false} StepInside(d: StructDecl, k: nat, s: State, base: nat)
    requires k < |d.decls| && WfStruct(d) && IsPow2(base) && Good(d.isUnion, s) && Inside(d.isUnion, s)
    requires Step(d, k, s, base).Ok?
    ensures Inside(d.isUnion, Step(d, k, s, base).value)
    decreases d, 2 * k + 1
  {
    var decl := d.decls[k];
    assert WfDecl(decl);
    if decl.Anonymous? {
      EntriesInside(decl.decl, base);
      StructIsSound(decl.decl, base);
      var t := StructOf(decl.decl, base).value;
      AnonymousGood(d, decl, s, t);
      StructInside(d.isUnion, s, t, AnonymousAlign(d, decl, t));
    } else if decl.Member? {
      MemberIsPow2(decl.typ, base);
      var m := MemberLayout(decl.typ, base).value;
      MemberGood(d, decl, s, m);
      FieldInside(d.isUnion, s, Field(decl.typ, m.size, decl.name), MemberAlign(d, decl, m));
    } else if decl.BitMember? {
      MemberIsPow2(decl.typ, base);
      var m := MemberLayout(decl.typ, base).value;
      BitsInside(d.isUnion, s, m, decl.width, decl.bitName, decl.alignOverride, PackOf(d, decl.packed, decl.alignOverride));
    }
  }

  lemma StructInside(isUnion: bool, s: State, sub: Struct, align: nat)
    requires Good(isUnion, s) && IsPow2(align) && Inside(isUnion, s) && FieldsWithin(sub.fields, sub.size)
    ensures Inside(isUnion, PlaceStruct(isUnion, s, sub, align))
  {
    OffsetIsAligned(isUnion, s, align);
    var t, offset := PlaceStruct(isUnion, s, sub, align), OffsetFor(isUnion, s, align);
    forall o: nat, f | Holds(t.fields, o, f)
      ensures o + f.size <= Used(isUnion, t)
    {
      if Holds(s.fields, o, f) {
      } else {
        assert Holds(sub.fields, o - offset, f);
      }
    }
  }

  lemma FieldInside(isUnion: bool, s: State, f: Field, align: nat)
    requires Good(isUnion, s) && IsPow2(align) && Inside(isUnion, s)
    ensures Inside(isUnion, PlaceField(isUnion, s, f, align))
  {
    OffsetIsAligned(isUnion, s, align);
    var t, offset := PlaceField(isUnion, s, f, align), OffsetFor(isUnion, s, align);
    forall o: nat, g | Holds(t.fields, o, g)
      ensures o + g.size <= Used(isUnion, t)
    {
      if Holds(s.fields, o, g) {
      } else {
        assert o == offset && g == f;
      }
    }
  }

  lemma BitsInside(isUnion: bool, s: State, m: Layout, width: nat, name: Option<string>, alignOverride: nat, pack: nat)
    requires Good(isUnion, s) && Inside(isUnion, s) && IsPow2(m.align)
    requires PlaceBits(isUnion, s, m, width, name, alignOverride, pack).Ok?
    ensures Inside(isUnion, PlaceBits(isUnion, s, m, width, name, alignOverride, pack).value)
  {
    if width > 0 {
      var t := PlaceBits(isUnion, s, m, width, name, alignOverride, pack).value;
      BitStartLater(isUnion, s, m.size, width, pack);
      var (offset, bit) := BitStart(s, m.size, width, pack);
      LowBits(bit + width);
      assert !isUnion ==> s.offset <= t.offset;
      NewBitsInside(s, t, 8 * offset + bit, width, name, 8 * Used(isUnion, s) + s.bitOffset, 8 * Used(isUnion, t) + t.bitOffset);
    }
  }

  lemma NewBitsInside(s: State, t: State, start: nat, width: nat, name: Option<string>, before: nat, after: nat)
    requires t.bitfields == if name.Some? then Append(s.bitfields, start, BitField(width, name.value)) else s.bitfields
    requires BitfieldsWithin(s.bitfields, before) && before <= after && start + width <= after
    ensures BitfieldsWithin(t.bitfields, after)
  {
    forall o: nat, f | Holds(t.bitfields, o, f)
      ensures o + f.width <= after
    {
      if Holds(s.bitfields, o, f) {
      } else {
        assert o == start && f.width == width;
      }
    }
  }

  // ----- alignment of every member -----

  /** The alignment a type needs of its own: that of the largest primitive or struct in it. */
  function NaturalAlign(t: CType, base: nat): nat {
    match t.shape
    case Pointer => 4
    case Primitive(size) => size
    case ArrayOf(element, _) => NaturalAlign(element, base)
    case Record(decl) => var r := StructOf(decl, base); if r.Ok? then r.value.align else 1
  }

  /** No packing, and no request for less alignment than needed. */
  predicate Unpacked(t: CType, base: nat)
    decreases t
  {
    match t.shape
    case Pointer => t.alignOverride == 0 || t.alignOverride >= 4
    case Primitive(size) => t.alignOverride == 0 || t.alignOverride >= size
    case ArrayOf(element, _) =>
      var r := MemberLayout(element, base);
      Unpacked(element, base) && (t.alignOverride == 0 || (r.Ok? && t.alignOverride >= r.value.align))
    case Record(decl) =>
      var r := StructOf(decl, base);
      UnpackedStruct(decl, base) && (t.alignOverride == 0 || (r.Ok? && t.alignOverride >= r.value.align))
  }

  predicate UnpackedStruct(d: StructDecl, base: nat)
    decreases d
  {
    !d.packed && d.pragmaPack == 0 && forall k :: 0 <= k < |d.decls| ==> UnpackedDecl(d.decls[k], base)
  }

  predicate UnpackedDecl(decl: Decl, base: nat)
    decreases decl
  {
    match decl
    case Ignored => true
    case Named(_) => true
    case BitMember(typ, _, _, _, packed) => !packed
    case Member(typ, _, _, packed) => !packed && Unpacked(typ, base)
    case Anonymous(sub, alignOverride, packed) =>
      var r := StructOf(sub, base);
      !packed && UnpackedStruct(sub, base) && (alignOverride == 0 || (r.Ok? && alignOverride >= r.value.align))
  }

  /** A value of the type at an address has all its parts aligned, in every array element and nested struct. */
  predicate AllAligned(t: CType, address: nat, base: nat)
    decreases t
  {
    match t.shape
    case Pointer => address % 4 == 0
    case Primitive(size) => size > 0 && address % size == 0
    case ArrayOf(element, dim) =>
      var r := MemberLayout(element, base);
      r.Ok? && forall i :: 0 <= i < dim ==> AllAligned(element, address + i * r.value.size, base)
    case Record(decl) => StructAligned(decl, address, base)
  }

  predicate StructAligned(d: StructDecl, address: nat, base: nat)
    decreases d
  {
    forall k :: 0 <= k < |d.decls| ==> DeclAligned(d, k, address, base)
  }

  predicate DeclAligned(d: StructDecl, k: nat, address: nat, base: nat)
    requires k < |d.decls|
    decreases d, k
  {
    var decl := d.decls[k];
    Laid(d, k, base).Ok? &&
    if decl.Member? then AllAligned(decl.typ, address + MemberOffset(d, k, base), base)
    else if decl.Anonymous? then StructAligned(decl.decl, address + MemberOffset(d, k, base), base)
    else true
  }

  /** Without packing, a type's alignment and size are multiples of what it needs. */
  lemma {:induction false} NaturalDivides(t: CType, base: nat)
    requires WfType(t) && IsPow2(base) && MemberLayout(t, base).Ok? && Unpacked(t, base)
    ensures var m, n := MemberLayout(t, base).value, NaturalAlign(t, base); n > 0 && m.align % n == 0 && m.size % n == 0
    decreases t
  {
    OneIsPow2();
    var m := MemberLayout(t, base).value;
    match t.shape
    case Pointer =>
      Divides(4, m.align);
    case Primitive(size) =>
      Divides(size, m.align);
      Divides(size, size);
    case ArrayOf(element, dim) =>
      NaturalDivides(element, base);
      MemberIsPow2(element, base);
      var e, n := MemberLayout(element, base).value, NaturalAlign(element, base);
      Divides(e.align, m.align);
      DividesThrough(m.align, e.align, n);
      DividesTimes(e.size, dim, n);
    case Record(decl) =>
      StructIsSound(decl, base);
      Divides(StructOf(decl, base).value.align, m.align);
  }

  /** Every part of a value at an aligned address is aligned. */
  lemma {:induction false} TypeAligned(t: CType, address: nat, base: nat)
    requires WfType(t) && IsPow2(base) && MemberLayout(t, base).Ok? && Unpacked(t, base)
    requires NaturalAlign(t, base) > 0 && address % NaturalAlign(t, base) == 0
    ensures AllAligned(t, address, base)
    decreases t
  {
    if t.shape.ArrayOf? {
      var element := t.shape.element;
      var size, n := MemberLayout(element, base).value.size, NaturalAlign(element, base);
      NaturalDivides(element, base);
      forall i: nat | i < t.shape.dim
        ensures AllAligned(element, address + i * size, base)
      {
        DividesTimes(size, i, n);
        DividesSum(address, i * size, n);
        TypeAligned(element, address + i * size, base);
      }
    } else if t.shape.Record? {
      StructIsAligned(t.shape.decl, address, base);
    }
  }

  lemma {:induction false} StructIsAligned(d: StructDecl, address: nat, base: nat)
    requires WfStruct(d) && IsPow2(base) && StructOf(d, base).Ok? && UnpackedStruct(d, base)
    requires StructOf(d, base).value.align > 0 && address % StructOf(d, base).value.align == 0
    ensures StructAligned(d, address, base)
    decreases d, 1
  {
    forall k: nat | k < |d.decls|
      ensures DeclAligned(d, k, address, base)
    {
      LaidGrows(d, k, |d.decls|, base);
      assert WfDecl(d.decls[k]) && UnpackedDecl(d.decls[k], base);
      if d.decls[k].Member? {
        MemberIsAligned(d, k, address, base);
      } else if d.decls[k].Anonymous? {
        AnonymousIsAligned(d, k, address, base);
      }
    }
  }

  /** Offsets are aligned, and so is the struct, to whatever divides a member's alignment. */
  lemma OffsetAligned(d: StructDecl, k: nat, address: nat, base: nat, align: nat, n: nat)
    requires WfStruct(d) && IsPow2(base) && StructOf(d, base).Ok? && k < |d.decls|
    requires StructOf(d, base).value.align > 0 && address % StructOf(d, base).value.align == 0
    requires Laid(d, k, base).Ok? && IsPow2(align) && n > 0 && align % n == 0 && align <= StructOf(d, base).value.align
    ensures (address + OffsetFor(d.isUnion, Laid(d, k, base).value, align)) % n == 0
  {
    LaidGood(d, k, base);
    OffsetIsAligned(d.isUnion, Laid(d, k, base).value, align);
    StructIsSound(d, base);
    Divides(align, StructOf(d, base).value.align);
    DividesThrough(address, StructOf(d, base).value.align, align);
    var o := OffsetFor(d.isUnion, Laid(d, k, base).value, align);
    DividesThrough(address, align, n);
    DividesThrough(o, align, n);
    DividesSum(address, o, n);
  }

  lemma {:induction false} MemberIsAligned(d: StructDecl, k: nat, address: nat, base: nat)
    requires WfStruct(d) && IsPow2(base) && StructOf(d, base).Ok? && UnpackedStruct(d, base)
    requires StructOf(d, base).value.align > 0 && address % StructOf(d, base).value.align == 0
    requires k < |d.decls| && d.decls[k].Member? && WfDecl(d.decls[k]) && UnpackedDecl(d.decls[k], base)
    ensures DeclAligned(d, k, address, base)
    decreases d, 0
  {
    var decl := d.decls[k];
    LaidGrows(d, k, |d.decls|, base);
    LaidGrows(d, k + 1, |d.decls|, base);
    var m, n := MemberLayout(decl.typ, base).value, NaturalAlign(decl.typ, base);
    var align := MemberAlign(d, decl, m);
    NaturalDivides(decl.typ, base);
    MemberIsPow2(decl.typ, base);
    MaxIsPow2(m.align, align);
    Divides(m.align, align);
    DividesThrough(align, m.align, n);
    OffsetAligned(d, k, address, base, align, n);
    TypeAligned(decl.typ, address + MemberOffset(d, k, base), base);
  }

  lemma {:induction false} AnonymousIsAligned(d: StructDecl, k: nat, address: nat, base: nat)
    requires WfStruct(d) && IsPow2(base) && StructOf(d, base).Ok? && UnpackedStruct(d, base)
    requires StructOf(d, base).value.align > 0 && address % StructOf(d, base).value.align == 0
    requires k < |d.decls| && d.decls[k].Anonymous? && WfDecl(d.decls[k]) && UnpackedDecl(d.decls[k], base)
    ensures DeclAligned(d, k, address, base)
    decreases d, 0
  {
    var decl := d.decls[k];
    LaidGrows(d, k, |d.decls|, base);
    LaidGrows(d, k + 1, |d.decls|, base);
    var sub := StructOf(decl.decl, base).value;
    var align := AnonymousAlign(d, decl, sub);
    StructIsSound(decl.decl, base);
    Divides(sub.align, align);
    OffsetAligned(d, k, address, base, align, sub.align);
    StructIsAligned(decl.decl, address + MemberOffset(d, k, base), base);
  }
}
