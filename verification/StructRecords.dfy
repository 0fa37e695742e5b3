/**
 * What a laid out struct records (`do_parse_struct` of m2c/c_types.py), in both directions, and two things that it does
 * not do: the bitfields of an anonymous member are lost, and a bitfield of width zero does not end the unit.
 */
module StructRecords {
  import opened Wrappers
  import opened Bits
  import opened PowersOfTwo
  import opened StructLayout

  // ----- fields -----

  /** Declaration `k` is, or is an anonymous member with, this field at this offset. */
  predicate GivesField(d: StructDecl, k: nat, base: nat, o: nat, f: Field)
    requires k < |d.decls|
  {
    var decl := d.decls[k];
    Laid(d, k, base).Ok? &&
    if decl.Member? then
      var m := MemberLayout(decl.typ, base);
      m.Ok? && o == MemberOffset(d, k, base) && f == Field(decl.typ, m.value.size, decl.name)
    else if decl.Anonymous? then
      var sub, at := StructOf(decl.decl, base), MemberOffset(d, k, base);
      sub.Ok? && at <= o && Holds(sub.value.fields, o - at, f)
    else false
  }

  lemma AppendHoldsOnly<T>(d: Dict<T>, key: nat, value: T, o: nat, x: T)
    ensures Holds(Append(d, key, value), o, x) <==> Holds(d, o, x) || (o == key && x == value)
  {
    AppendHolds(d, key, value);
  }

  lemma FlattenedHoldsOnly(d: Dict<Field>, sub: Dict<Field>, offset: nat, o: nat, f: Field)
    ensures Holds(Flattened(d, sub, offset), o, f) <==> Holds(d, o, f) || (offset <= o && Holds(sub, o - offset, f))
  {
    FlattenedHolds(d, sub, offset, o, f);
    if offset <= o {
      FlattenedHolds(d, sub, offset, o - offset, f);
    }
  }

  lemma StepFields(d: StructDecl, k: nat, base: nat, o: nat, f: Field)
    requires k < |d.decls| && Laid(d, k + 1, base).Ok?
    ensures Laid(d, k, base).Ok?
    ensures Holds(Laid(d, k + 1, base).value.fields, o, f) <==>
      Holds(Laid(d, k, base).value.fields, o, f) || GivesField(d, k, base, o, f)
  {
    var decl, s := d.decls[k], Laid(d, k, base).value;
    if decl.Member? {
      var m := MemberLayout(decl.typ, base).value;
      AppendHoldsOnly(s.fields, MemberOffset(d, k, base), Field(decl.typ, m.size, decl.name), o, f);
    } else if decl.Anonymous? {
      FlattenedHoldsOnly(s.fields, StructOf(decl.decl, base).value.fields, MemberOffset(d, k, base), o, f);
    }
  }

  lemma {:induction false} LaidFields(d: StructDecl, n: nat, base: nat, o: nat, f: Field)
    requires n <= |d.decls| && Laid(d, n, base).Ok?
    ensures Holds(Laid(d, n, base).value.fields, o, f) <==> exists k: nat :: k < n && GivesField(d, k, base, o, f)
  {
    if n > 0 {
      StepFields(d, n - 1, base, o, f);
      LaidFields(d, n - 1, base, o, f);
    }
  }

  /** The recorded fields are those of the members, and those of anonymous members shifted by the offset of these. */
  lemma FieldsExact(d: StructDecl, base: nat, done: Struct, o: nat, f: Field)
    requires StructOf(d, base) == Ok(done)
    ensures Holds(done.fields, o, f) <==> exists k: nat :: k < |d.decls| && GivesField(d, k, base, o, f)
  {
    StructIsLaid(d, base);
    LaidFields(d, |d.decls|, base, o, f);
  }

  // ----- bitfields -----

  /** Where bitfield `k` starts. */
  function BitPlace(d: StructDecl, k: nat, base: nat): nat
    requires k < |d.decls| && d.decls[k].BitMember? && d.decls[k].width > 0 && Laid(d, k, base).Ok?
  {
    var decl := d.decls[k];
    var m := MemberLayout(decl.typ, base);
    if m.Err? || m.value.size == 0 then 0
    else
      var (offset, bit) := BitStart(Laid(d, k, base).value, m.value.size, decl.width, PackOf(d, decl.packed, decl.alignOverride));
      8 * offset + bit
  }

  /** Declaration `k` itself is this bitfield at this bit. */
  predicate IsBitfield(d: StructDecl, k: nat, base: nat, o: nat, f: BitField)
    requires k < |d.decls|
  {
    var decl := d.decls[k];
    && Laid(d, k, base).Ok? && decl.BitMember? && decl.width > 0
    && decl.bitName == Some(f.name) && decl.width == f.width && BitPlace(d, k, base) == o
  }

  lemma StepBitfields(d: StructDecl, k: nat, base: nat, o: nat, f: BitField)
    requires k < |d.decls| && Laid(d, k + 1, base).Ok?
    ensures Laid(d, k, base).Ok?
    ensures Holds(Laid(d, k + 1, base).value.bitfields, o, f) <==>
      Holds(Laid(d, k, base).value.bitfields, o, f) || IsBitfield(d, k, base, o, f)
  {
    var decl, s := d.decls[k], Laid(d, k, base).value;
    if decl.BitMember? && decl.width > 0 && decl.bitName.Some? {
      AppendHoldsOnly(s.bitfields, BitPlace(d, k, base), BitField(decl.width, decl.bitName.value), o, f);
    }
  }

  lemma {:induction false} LaidBitfields(d: StructDecl, n: nat, base: nat, o: nat, f: BitField)
    requires n <= |d.decls| && Laid(d, n, base).Ok?
    ensures Holds(Laid(d, n, base).value.bitfields, o, f) <==> exists k: nat :: k < n && IsBitfield(d, k, base, o, f)
  {
    if n > 0 {
      StepBitfields(d, n - 1, base, o, f);
      LaidBitfields(d, n - 1, base, o, f);
    }
  }

  /** The recorded bitfields are the named ones of positive width that the struct itself declares. */
  lemma BitfieldsExact(d: StructDecl, base: nat, done: Struct, o: nat, f: BitField)
    requires StructOf(d, base) == Ok(done)
    ensures Holds(done.bitfields, o, f) <==> exists k: nat :: k < |d.decls| && IsBitfield(d, k, base, o, f)
  {
    LaidBitfields(d, |d.decls|, base, o, f);
  }

  /** A struct counts as having bitfields if it declares one itself, of whatever width and name. */
  lemma {:induction false} CountsBitfields(d: StructDecl, n: nat, base: nat)
    requires n <= |d.decls| && Laid(d, n, base).Ok?
    ensures Laid(d, n, base).value.hasBitfields <==> exists k :: 0 <= k < n && d.decls[k].BitMember?
  {
    if n > 0 {
      CountsOneMore(d, n - 1, base);
      CountsBitfields(d, n - 1, base);
    }
  }

  lemma CountsOneMore(d: StructDecl, k: nat, base: nat)
    requires k < |d.decls| && Laid(d, k + 1, base).Ok?
    ensures Laid(d, k, base).Ok?
    ensures Laid(d, k + 1, base).value.hasBitfields <==> Laid(d, k, base).value.hasBitfields || d.decls[k].BitMember?
  {
  }

  // ----- bitfields of anonymous members -----

  /** The struct itself declares a bitfield of this name and width. */
  predicate Declares(d: StructDecl, f: BitField) {
    exists k: nat :: k < |d.decls| && d.decls[k].BitMember? && d.decls[k].width == f.width > 0 && d.decls[k].bitName == Some(f.name)
  }

  /** The range of each declaration that takes room is the next one. */
  lemma BitfieldRange(d: StructDecl, k: nat, base: nat, o: nat, f: BitField, all: State)
    requires k < |d.decls| && IsBitfield(d, k, base, o, f) && Laid(d, |d.decls|, base) == Ok(all)
    ensures var at := |Laid(d, k, base).value.ranges|;
      && at < |all.ranges| && all.ranges[at] == Range(o, o + f.width)
      && Laid(d, k + 1, base).Ok? && |Laid(d, k + 1, base).value.ranges| == at + 1
  {
    LaidGrows(d, k + 1, |d.decls|, base);
    assert Laid(d, k + 1, base).value.ranges == Laid(d, k, base).value.ranges + [Range(o, o + f.width)];
  }

  lemma AnonymousRange(d: StructDecl, k: nat, base: nat, all: State, sub: Struct)
    requires k < |d.decls| && d.decls[k].Anonymous? && StructOf(d.decls[k].decl, base) == Ok(sub)
    requires Laid(d, |d.decls|, base) == Ok(all)
    ensures Laid(d, k, base).Ok? && Laid(d, k + 1, base).Ok?
    ensures var at, offset := |Laid(d, k, base).value.ranges|, MemberOffset(d, k, base);
      && at < |all.ranges| && all.ranges[at] == Range(8 * offset, 8 * (offset + sub.size))
      && |Laid(d, k + 1, base).value.ranges| == at + 1
  {
    LaidGrows(d, k + 1, |d.decls|, base);
    AnonymousStep(d, k, base, sub);
    var offset := MemberOffset(d, k, base);
    PlacedRange(d.isUnion, Laid(d, k, base).value, sub, AnonymousAlign(d, d.decls[k], sub));
    NextRange(Laid(d, k, base).value.ranges, Laid(d, k + 1, base).value.ranges, all.ranges, Range(8 * offset, 8 * (offset + sub.size)));
  }

  lemma PlacedRange(isUnion: bool, s: State, sub: Struct, align: nat)
    ensures var at := OffsetFor(isUnion, s, align);
      PlaceStruct(isUnion, s, sub, align).ranges == s.ranges + [Range(8 * at, 8 * (at + sub.size))]
  {
  }

  lemma NextRange(before: seq<Range>, after: seq<Range>, all: seq<Range>, range: Range)
    requires after == before + [range] && after <= all
    ensures |after| == |before| + 1 && |before| < |all| && all[|before|] == range
  {
    assert after[|before|] == range;
  }

  /** In a struct, no bitfield shares a bit with an anonymous member. */
  lemma ApartFromAnonymous(d: StructDecl, k: nat, j: nat, base: nat, all: State, sub: Struct, o: nat, f: BitField)
    requires WfStruct(d) && IsPow2(base) && !d.isUnion && Laid(d, |d.decls|, base) == Ok(all)
    requires k < |d.decls| && d.decls[k].Anonymous? && StructOf(d.decls[k].decl, base) == Ok(sub)
    requires j < |d.decls| && IsBitfield(d, j, base, o, f)
    ensures Laid(d, k, base).Ok?
    ensures o + f.width <= 8 * MemberOffset(d, k, base) || 8 * (MemberOffset(d, k, base) + sub.size) <= o
  {
    LaidGrows(d, k, |d.decls|, base);
    LaidGood(d, |d.decls|, base);
    BitfieldRange(d, j, base, o, f, all);
    AnonymousRange(d, k, base, all, sub);
    if j < k {
      RangesGrow(d, j + 1, k, base, all);
    } else {
      RangesGrow(d, k + 1, j, base, all);
    }
    InOrder(all.ranges, |Laid(d, j, base).value.ranges|, |Laid(d, k, base).value.ranges|);
  }

  lemma InOrder(ranges: seq<Range>, i: nat, j: nat)
    requires Increasing(ranges) && i < |ranges| && j < |ranges| && i != j
    ensures ranges[i].end <= ranges[j].start || ranges[j].end <= ranges[i].start
  {
  }

  lemma RangesGrow(d: StructDecl, j: nat, k: nat, base: nat, all: State)
    requires j <= k <= |d.decls| && Laid(d, |d.decls|, base) == Ok(all)
    ensures Laid(d, j, base).Ok? && Laid(d, k, base).Ok?
    ensures |Laid(d, j, base).value.ranges| <= |Laid(d, k, base).value.ranges|
  {
    LaidGrows(d, k, |d.decls|, base);
    LaidGrows(d, j, k, base);
  }

  /** In a union, everything starts at the first bit. */
  lemma UnionStarts(d: StructDecl, k: nat, base: nat)
    requires WfStruct(d) && IsPow2(base) && d.isUnion && k < |d.decls| && Laid(d, k + 1, base).Ok?
    ensures Laid(d, k, base).Ok?
    ensures d.decls[k].Anonymous? ==> MemberOffset(d, k, base) == 0
    ensures d.decls[k].BitMember? && d.decls[k].width > 0 ==> BitPlace(d, k, base) == 0
  {
    var decl, s := d.decls[k], Laid(d, k, base).value;
    LaidGood(d, k, base);
    assert WfDecl(decl);
    if decl.Anonymous? {
      var sub := StructOf(decl.decl, base).value;
      StructIsSound(decl.decl, base);
      AnonymousGood(d, decl, s, sub);
      OffsetIsAligned(true, s, AnonymousAlign(d, decl, sub));
    } else if decl.BitMember? && decl.width > 0 {
      MemberIsPow2(decl.typ, base);
      BitStartLater(true, s, MemberLayout(decl.typ, base).value.size, decl.width, PackOf(d, decl.packed, decl.alignOverride));
    }
  }

  lemma UnionBitfields(d: StructDecl, base: nat, o: nat, f: BitField)
    requires WfStruct(d) && IsPow2(base) && d.isUnion && Laid(d, |d.decls|, base).Ok? && f.width > 0
    ensures (exists j: nat :: j < |d.decls| && IsBitfield(d, j, base, o, f)) <==> o == 0 && Declares(d, f)
  {
    forall j: nat | j < |d.decls| && d.decls[j].BitMember? && d.decls[j].width > 0
      ensures Laid(d, j, base).Ok? && BitPlace(d, j, base) == 0
    {
      LaidGrows(d, j + 1, |d.decls|, base);
      UnionStarts(d, j, base);
    }
    if o == 0 && Declares(d, f) {
      var j: nat :| j < |d.decls| && d.decls[j].BitMember? && d.decls[j].width == f.width > 0 && d.decls[j].bitName == Some(f.name);
      assert IsBitfield(d, j, base, o, f);
    }
  }

  /**
   * A bitfield of an anonymous member is not recorded where it lies, unless by chance: the outer one is a union and
   * has a bitfield of its own with the same name and width, and both lie at the first bit.
   */
  lemma AnonymousBitfieldLost(d: StructDecl, k: nat, base: nat, done: Struct, sub: Struct, o: nat, f: BitField)
    requires WfStruct(d) && IsPow2(base) && StructOf(d, base) == Ok(done)
    requires k < |d.decls| && d.decls[k].Anonymous? && StructOf(d.decls[k].decl, base) == Ok(sub) && Holds(sub.bitfields, o, f)
    ensures Laid(d, k, base).Ok?
    ensures Holds(done.bitfields, 8 * MemberOffset(d, k, base) + o, f) <==> d.isUnion && o == 0 && Declares(d, f)
  {
    var all := Laid(d, |d.decls|, base).value;
    LaidGrows(d, k + 1, |d.decls|, base);
    var at := 8 * MemberOffset(d, k, base) + o;
    BitfieldsExact(d, base, done, at, f);
    BitfieldsExact(d.decls[k].decl, base, sub, o, f);
    if d.isUnion {
      UnionStarts(d, k, base);
      UnionBitfields(d, base, at, f);
    } else if Holds(done.bitfields, at, f) {
      var j: nat :| j < |d.decls| && IsBitfield(d, j, base, at, f);
      assert WfDecl(d.decls[k]);
      EntriesInside(d.decls[k].decl, base);
      ApartFromAnonymous(d, k, j, base, all, sub, at, f);
    }
  }

  /** The struct itself declares a bitfield that has a name and takes bits. */
  predicate HasBitfield(d: StructDecl) {
    exists k: nat :: k < |d.decls| && d.decls[k].BitMember? && d.decls[k].width > 0 && d.decls[k].bitName.Some?
  }

  lemma SomeBitfield(d: StructDecl, base: nat, done: Struct) returns (o: nat, f: BitField)
    requires HasBitfield(d) && StructOf(d, base) == Ok(done)
    ensures Holds(done.bitfields, o, f)
  {
    var k: nat :| k < |d.decls| && d.decls[k].BitMember? && d.decls[k].width > 0 && d.decls[k].bitName.Some?;
    LaidGrows(d, k, |d.decls|, base);
    o, f := BitPlace(d, k, base), BitField(d.decls[k].width, d.decls[k].bitName.value);
    assert IsBitfield(d, k, base, o, f);
    BitfieldsExact(d, base, done, o, f);
  }

  ghost predicate AllRecorded(sub: Dict<BitField>, outer: Dict<BitField>, at: nat) {
    forall o: nat, f :: Holds(sub, o, f) ==> Holds(outer, at + o, f)
  }

  /** The bitfields of an anonymous member of a struct are recorded in it if and only if there are none. */
  lemma AnonymousBitfieldsRecorded(d: StructDecl, k: nat, base: nat, done: Struct, sub: Struct)
    requires WfStruct(d) && IsPow2(base) && !d.isUnion && StructOf(d, base) == Ok(done)
    requires k < |d.decls| && d.decls[k].Anonymous? && StructOf(d.decls[k].decl, base) == Ok(sub)
    ensures Laid(d, k, base).Ok?
    ensures AllRecorded(sub.bitfields, done.bitfields, 8 * MemberOffset(d, k, base)) <==> !HasBitfield(d.decls[k].decl)
  {
    LaidGrows(d, k, |d.decls|, base);
    if HasBitfield(d.decls[k].decl) {
      var o, f := SomeBitfield(d.decls[k].decl, base, sub);
      AnonymousBitfieldLost(d, k, base, done, sub, o, f);
    } else {
      forall o: nat, f: BitField
        ensures !Holds(sub.bitfields, o, f)
      {
        BitfieldsExact(d.decls[k].decl, base, sub, o, f);
      }
    }
  }

  const INT := CType(Primitive(4), 0)

  const INNER := StructDecl(false, [BitMember(INT, 3, Some("a"), 0, false)], 0, false, 0)

  const OUTER := StructDecl(false, [Anonymous(INNER, 0, false)], 0, false, 0)

  /** `struct { struct { int a : 3; }; }` records no bitfield, and does not say that it has any. */
  lemma BitfieldMissing()
    ensures StructOf(INNER, 1).Ok? && Holds(StructOf(INNER, 1).value.bitfields, 0, BitField(3, "a"))
    ensures StructOf(OUTER, 1).Ok? && StructOf(OUTER, 1).value.bitfields == map[] && !StructOf(OUTER, 1).value.hasBitfields
  {
    assert Laid(INNER, 1, 1) == Step(INNER, 0, Start(INNER, 1), 1);
    assert StructOf(INNER, 1).Ok?;
    assert Laid(OUTER, 1, 1) == Step(OUTER, 0, Start(OUTER, 1), 1);
    assert IsBitfield(INNER, 0, 1, 0, BitField(3, "a"));
    BitfieldsExact(INNER, 1, StructOf(INNER, 1).value, 0, BitField(3, "a"));
  }

  // ----- bitfields of width zero -----

  /** The first bit that nothing has taken. */
  function Free(s: State): nat {
    8 * s.offset + s.bitOffset
  }

  /** No bit taken so far is in the unit of `bits` bits that holds the bit `start`. */
  predicate InNewUnit(s: State, start: nat, bits: nat)
    requires bits > 0
  {
    Free(s) <= start / bits * bits
  }

  /** Declarations that take no room. */
  predicate Roomless(decl: Decl) {
    decl.Ignored? || decl.Named? || (decl.BitMember? && decl.width == 0)
  }

  lemma {:induction false} RoomlessKeepsPlace(d: StructDecl, j: nat, k: nat, base: nat)
    requires j <= k <= |d.decls| && Laid(d, k, base).Ok? && forall i :: j <= i < k ==> Roomless(d.decls[i])
    ensures Laid(d, j, base).Ok?
    ensures var s, t := Laid(d, j, base).value, Laid(d, k, base).value; t.offset == s.offset && t.bitOffset == s.bitOffset
    decreases k
  {
    if j < k {
      RoomlessKeepsPlace(d, j, k - 1, base);
    }
  }

  /** Multiples differ by at least one. */
  lemma MultipleBelow(x: nat, y: nat, a: nat)
    requires a > 0 && x % a == 0 && y % a == 0 && x < y
    ensures x + a <= y
  {
    assert x == x / a * a && y == y / a * a;
    MulAtLeast(y / a - x / a, a);
  }

  /** The unit that begins at or before `n`, in bytes and in bits. */
  lemma UnitOf(n: nat, unit: nat, bits: nat) returns (u: nat)
    requires unit > 0 && bits == 8 * unit
    ensures u % unit == 0 && u <= n < u + unit && (n % unit == 0 <==> u == n)
    ensures 8 * u % bits == 0 && 8 * n / bits * bits == 8 * u
  {
    var q, r := n / unit, n % unit;
    u := n - r;
    assert u == q * unit;
    MultipleOf(q, unit);
    MultipleOf(q, bits);
    assert 8 * u == q * bits && 8 * n == q * bits + 8 * r;
    DivUnique(8 * n, bits, q, 8 * r);
  }

  /** Between the multiples of one power of two there is none of a larger one. */
  lemma NoUnitBetween(u: nat, offset: nat, n: nat, size: nat, unit: nat)
    requires IsPow2(size) && IsPow2(unit) && size > 0 && unit > 0 && n % size == 0 && n <= offset + size
    requires u % unit == 0 && u < n && n % unit != 0
    ensures u <= offset
  {
    if unit <= size {
      Divides(unit, size);
      DividesThrough(n, size, unit);
    } else {
      Divides(size, unit);
      DividesThrough(u, unit, size);
      MultipleBelow(u, n, size);
    }
  }

  /** The next multiple `n` of one power of two, past `offset`, and the units of another. */
  lemma MovedUnit(free: nat, offset: nat, n: nat, size: nat, unit: nat, u: nat, bits: nat)
    requires IsPow2(size) && IsPow2(unit) && size > 0 && unit > 0 && n % size == 0 && offset < n <= offset + size
    requires u % unit == 0 && u <= n < u + unit && (n % unit == 0 <==> u == n) && bits == 8 * unit && 8 * u % bits == 0
    requires 8 * offset <= free <= 8 * offset + 7
    ensures free <= 8 * u <==> free % bits == 0 || n % unit == 0
  {
    if free % bits == 0 {
      if 8 * u < free {
        MultipleBelow(8 * u, free, bits);
      }
    } else if u != n {
      NoUnitBetween(u, offset, n, size, unit);
    }
  }

  lemma StayedUnit(free: nat, bits: nat)
    requires bits > 0
    ensures free <= free / bits * bits <==> free % bits == 0
  {
    assert free == free / bits * bits + free % bits;
  }

  lemma StraddlesIs(s: State, size: nat, width: nat)
    requires s.bitOffset <= 7 && size > 0 && 0 < width <= 8 * size
    ensures Straddles(s, size, width) <==> Free(s) % (8 * size) + width > 8 * size
  {
    InUnit(s.offset, s.bitOffset, width, size);
    CrossesUnit(Free(s), width, 8 * size);
  }

  lemma CrossesUnit(x: nat, width: nat, a: nat)
    requires 0 < width <= a
    ensures x / a != (x + width - 1) / a <==> x % a + width > a
  {
    var q, r := x / a, x % a;
    assert x == q * a + r;
    if r + width <= a {
      DivUnique(x + width - 1, a, q, r + width - 1);
    } else {
      DivUnique(x + width - 1, a, q + 1, r + width - 1 - a);
    }
  }

  lemma StartInNewUnit(s: State, unit: nat, size: nat, width: nat, pack: nat, bits: nat)
    requires IsPow2(unit) && IsPow2(size) && unit > 0 && size > 0 && width > 0 && s.bitOffset <= 7 && bits == 8 * unit
    ensures var (offset, bit) := BitStart(s, size, width, pack);
      InNewUnit(s, 8 * offset + bit, bits) <==>
        Free(s) % bits == 0 || (Straddles(s, size, width) && pack == 0 && NextUnit(s.offset, size) % unit == 0)
  {
    if Straddles(s, size, width) && pack == 0 {
      var n: nat := NextUnit(s.offset, size);
      NextUnitIs(s.offset, size);
      var u := UnitOf(n, unit, bits);
      MovedUnit(Free(s), s.offset, n, size, unit, u, bits);
    } else {
      StayedUnit(Free(s), bits);
    }
  }

  lemma BitfieldLaid(d: StructDecl, k: nat, base: nat, m: Layout)
    requires WfStruct(d) && IsPow2(base) && k < |d.decls| && Laid(d, k + 1, base).Ok?
    requires d.decls[k].BitMember? && MemberLayout(d.decls[k].typ, base) == Ok(m)
    ensures Laid(d, k, base).Ok? && Laid(d, k, base).value.bitOffset <= 7
    ensures IsPow2(m.size) && m.size > 0 && d.decls[k].width <= 8 * m.size
  {
    LaidGood(d, k, base);
    assert WfDecl(d.decls[k]);
    MemberIsPow2(d.decls[k].typ, base);
  }

  /** Only the next free bit matters. */
  lemma BitPlaceIs(d: StructDecl, k: nat, base: nat, s: State, m: Layout)
    requires k < |d.decls| && d.decls[k].BitMember? && d.decls[k].width > 0 && MemberLayout(d.decls[k].typ, base) == Ok(m)
    requires m.size > 0 && Laid(d, k, base).Ok?
    requires Laid(d, k, base).value.offset == s.offset && Laid(d, k, base).value.bitOffset == s.bitOffset
    ensures var decl := d.decls[k];
      var (offset, bit) := BitStart(s, m.size, decl.width, PackOf(d, decl.packed, decl.alignOverride));
      BitPlace(d, k, base) == 8 * offset + bit
  {
  }

  /**
   * After a bitfield of width zero, section 6.7.2.1 of ISO/IEC 9899:1999 lets no more bitfields into the unit begun. The
   * next bitfield starts in a new unit of the type declared with width zero if and only if the next free bit already
   * is the first of one, or the bitfield moves to its own type's next unit anyway, and that is the first of one.
   */
  lemma AfterZeroWidth(d: StructDecl, k: nat, j: nat, base: nat, s: State, unit: Layout, m: Layout)
    requires WfStruct(d) && IsPow2(base) && k < j < |d.decls| && Laid(d, k, base) == Ok(s) && Laid(d, j + 1, base).Ok?
    requires d.decls[k].BitMember? && d.decls[k].width == 0 && MemberLayout(d.decls[k].typ, base) == Ok(unit)
    requires forall i :: k < i < j ==> Roomless(d.decls[i])
    requires d.decls[j].BitMember? && d.decls[j].width > 0 && MemberLayout(d.decls[j].typ, base) == Ok(m)
    ensures Laid(d, j, base).Ok? && unit.size > 0 && m.size > 0
    ensures var decl := d.decls[j];
      InNewUnit(s, BitPlace(d, j, base), 8 * unit.size) <==>
        || Free(s) % (8 * unit.size) == 0
        || (Straddles(s, m.size, decl.width) && PackOf(d, decl.packed, decl.alignOverride) == 0
            && NextUnit(s.offset, m.size) % unit.size == 0)
  {
    LaidGrows(d, k + 1, j + 1, base);
    BitfieldLaid(d, k, base, unit);
    BitfieldLaid(d, j, base, m);
    RoomlessKeepsPlace(d, k, j, base);
    BitPlaceIs(d, j, base, s, m);
    StartInNewUnit(s, unit.size, m.size, d.decls[j].width, PackOf(d, d.decls[j].packed, d.decls[j].alignOverride), 8 * unit.size);
  }

  /** Of the same type and without packing, it does so if the bits taken fill a unit or it does not fit into the rest. */
  lemma AfterZeroWidthOfSameType(d: StructDecl, k: nat, j: nat, base: nat, s: State, m: Layout)
    requires WfStruct(d) && IsPow2(base) && k < j < |d.decls| && Laid(d, k, base) == Ok(s) && Laid(d, j + 1, base).Ok?
    requires d.decls[k].BitMember? && d.decls[k].width == 0 && MemberLayout(d.decls[k].typ, base) == Ok(m)
    requires forall i :: k < i < j ==> Roomless(d.decls[i])
    requires d.decls[j].BitMember? && d.decls[j].width > 0 && MemberLayout(d.decls[j].typ, base) == Ok(m)
    requires PackOf(d, d.decls[j].packed, d.decls[j].alignOverride) == 0
    ensures Laid(d, j, base).Ok? && m.size > 0
    ensures InNewUnit(s, BitPlace(d, j, base), 8 * m.size) <==>
      Free(s) % (8 * m.size) == 0 || Free(s) % (8 * m.size) + d.decls[j].width > 8 * m.size
  {
    AfterZeroWidth(d, k, j, base, s, m, m);
    BitfieldLaid(d, j, base, m);
    LaidGrows(d, k + 1, j + 1, base);
    BitfieldLaid(d, k, base, m);
    StraddlesIs(s, m.size, d.decls[j].width);
    NextUnitIs(s.offset, m.size);
  }

  const SPLIT := StructDecl(false,
    [BitMember(INT, 3, Some("a"), 0, false), BitMember(INT, 0, None, 0, false), BitMember(INT, 3, Some("b"), 0, false)], 0, false, 0)

  /** `struct { int a : 3; int : 0; int b : 3; }` has `b` at bit 3, in the unit of `a`. */
  lemma ZeroWidthIgnored()
    ensures StructOf(SPLIT, 1).Ok? && Holds(StructOf(SPLIT, 1).value.bitfields, 3, BitField(3, "b"))
  {
    var s0 := Start(SPLIT, 1);
    LowBits(3);
    LowBits(6);
    assert MemberLayout(INT, 1) == Ok(Layout(4, 4, false));
    assert SPLIT.decls[0] == BitMember(INT, 3, Some("a"), 0, false);
    var s1 := Step(SPLIT, 0, s0, 1).value;
    assert Laid(SPLIT, 1, 1) == Ok(s1) && s1.offset == 0 && s1.bitOffset == 3;
    var s2 := Step(SPLIT, 1, s1, 1).value;
    assert Laid(SPLIT, 2, 1) == Ok(s2) && s2.offset == 0 && s2.bitOffset == 3;
    assert IsBitfield(SPLIT, 2, 1, 3, BitField(3, "b"));
    assert Laid(SPLIT, 3, 1).Ok?;
    BitfieldsExact(SPLIT, 1, StructOf(SPLIT, 1).value, 3, BitField(3, "b"));
  }
}
