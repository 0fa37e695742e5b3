/** `parse_struct_member` and `do_parse_struct` of m2c/c_types.py as they are: a loop over the declarations. */
module StructParser {
  import opened Wrappers
  import opened Bits
  import opened StructLayout

  /** Size, alignment, and whether the member is an array or struct. */
  method ParseStructMember(t: CType, base: nat) returns (r: Result<Layout, Error>)
    ensures r == MemberLayout(t, base)
    decreases t
  {
    match t.shape {
      case Pointer =>
        r := Ok(Layout(4, if t.alignOverride != 0 then t.alignOverride else 4, false));
      case ArrayOf(element, dim) =>
        r := ParseStructMember(element, base);
        if r.Ok? {
          var m := r.value;
          r := Ok(Layout(m.size * dim, if t.alignOverride != 0 then t.alignOverride else m.align, true));
        }
      case Record(decl) =>
        var substr := DoParseStruct(decl, base);
        if substr.Err? {
          return Err(substr.error);
        }
        r := Ok(Layout(substr.value.size, if t.alignOverride != 0 then t.alignOverride else substr.value.align, true));
      case Primitive(size) =>
        if size == 0 {
          return Err(VoidMember);
        }
        r := Ok(Layout(size, if t.alignOverride != 0 then t.alignOverride else size, false));
    }
  }

  /** The variables of the loop. */
  class Placer {
    const isUnion: bool
    var fields: Dict<Field>
    var bitfields: Dict<BitField>
    var unionSize: nat
    var offset: nat
    var bitOffset: nat
    var hasBitfields: bool
    var align: nat
    ghost var ranges: seq<Range>

    constructor (isUnion: bool, align: nat)
      ensures this.isUnion == isUnion && Current() == State(0, 0, align, 0, false, map[], map[], [])
    {
      this.isUnion, this.align := isUnion, align;
      fields, bitfields, unionSize, offset, bitOffset, hasBitfields := map[], map[], 0, 0, 0, false;
      ranges := [];
    }

    ghost function Current(): State
      reads this
    {
      State(offset, bitOffset, align, unionSize, hasBitfields, fields, bitfields, ranges)
    }

    method FlushBitfields()
      modifies this
      ensures Current() == Flush(isUnion, old(Current()))
    {
      if !isUnion && bitOffset != 0 {
        bitOffset := 0;
        offset := offset + 1;
      }
    }

    /** Finds room, and returns where. */
    method Reserve(size: nat, wanted: nat) returns (at: nat)
      modifies this
      ensures at == OffsetFor(isUnion, old(Current()), wanted)
      ensures Current() == Placed(isUnion, old(Current()), size, wanted)
    {
      FlushBitfields();
      at := AlignUp(offset, wanted);
      Take(size, wanted, at);
    }

    method Take(size: nat, wanted: nat, at: nat)
      modifies this
      ensures Current() == PlacedAt(isUnion, old(Current()), size, wanted, at)
    {
      align := if align >= wanted then align else wanted;
      ranges := ranges + [Range(8 * at, 8 * (at + size))];
      if isUnion {
        offset := at;
        unionSize := if unionSize >= size then unionSize else size;
      } else {
        offset := at + size;
      }
    }

    method AddStruct(sub: Struct, wanted: nat)
      modifies this
      ensures Current() == PlaceStruct(isUnion, old(Current()), sub, wanted)
    {
      var at := Reserve(sub.size, wanted);
      fields := Flattened(fields, sub.fields, at);
    }

    method AddField(f: Field, wanted: nat)
      modifies this
      ensures Current() == PlaceField(isUnion, old(Current()), f, wanted)
    {
      var at := Reserve(f.size, wanted);
      fields := Append(fields, at, f);
    }

    /** A bitfield is allocated from the next bits, or from its type's next unit. */
    method AddBits(m: Layout, width: nat, name: Option<string>, alignOverride: nat, pack: nat) returns (error: Option<Error>)
      modifies this
      ensures error.None? ==> PlaceBits(isUnion, old(Current()), m, width, name, alignOverride, pack) == Ok(Current())
      ensures error.Some? ==> PlaceBits(isUnion, old(Current()), m, width, name, alignOverride, pack) == Err(error.value)
    {
      hasBitfields := true;
      error := CheckBits(m, width, alignOverride);
      if error == Some(BitfieldNotPrimitive) || error == Some(AlignedBitfield) {
        return;
      }
      align := if align >= m.align then align else m.align;
      if width == 0 || error.Some? {
        return;
      }
      AllocateBits(m.size, width, name, pack);
    }

    method AllocateBits(size: nat, width: nat, name: Option<string>, pack: nat)
      requires size > 0 && width > 0
      modifies this
      ensures var (at, bit) := BitStart(old(Current()), size, width, pack);
        Current() == BitsAt(isUnion, old(Current()), size, width, name, at, bit)
    {
      MoveToUnit(size, width, pack);
      PutBits(size, width, name);
    }

    static method CheckBits(m: Layout, width: nat, alignOverride: nat) returns (error: Option<Error>)
      ensures error ==
        if m.size != m.align || m.composite then Some(BitfieldNotPrimitive)
        else if alignOverride != 0 then Some(AlignedBitfield)
        else if width > 8 * m.size then Some(BitfieldTooWide)
        else None
    {
      if m.size != m.align || m.composite {
        return Some(BitfieldNotPrimitive);
      }
      if alignOverride != 0 {
        return Some(AlignedBitfield);
      }
      if width > m.size * 8 {
        return Some(BitfieldTooWide);
      }
      return None;
    }

    /** Skips to the next unit if the bits would straddle this one's end. */
    method MoveToUnit(size: nat, width: nat, pack: nat)
      requires size > 0 && width > 0
      modifies `offset, `bitOffset
      ensures (offset, bitOffset) == BitStart(old(Current()), size, width, pack)
    {
      if offset / size != (offset + (bitOffset + width - 1) / 8) / size && pack == 0 {
        bitOffset := 0;
        offset := NextUnit(offset, size);
      }
    }

    method PutBits(size: nat, width: nat, name: Option<string>)
      modifies this
      ensures Current() == BitsAt(isUnion, old(Current()), size, width, name, old(offset), old(bitOffset))
    {
      ghost var start := 8 * offset + bitOffset;
      ranges := ranges + [Range(start, start + width)];
      if name.Some? {
        bitfields := Append(bitfields, offset * 8 + bitOffset, BitField(width, name.value));
      }
      if isUnion {
        unionSize := if unionSize >= size then unionSize else size;
      } else {
        bitOffset := bitOffset + width;
        offset := offset + bitOffset / 8;
        bitOffset := Natural(And(bitOffset, 7));
      }
    }
  }

  method DoParseStruct(d: StructDecl, base: nat) returns (r: Result<Struct, Error>)
    ensures r == StructOf(d, base)
    decreases d, 2 * |d.decls| + 1
  {
    var p := new Placer(d.isUnion, if d.alignOverride != 0 then d.alignOverride else base);
    for k := 0 to |d.decls|
      invariant fresh(p) && p.isUnion == d.isUnion
      invariant Laid(d, k, base) == Ok(p.Current())
    {
      LaidStep(d, k, base, p.Current());
      var error := ProcessDecl(d, k, base, p);
      if error.Some? {
        LaidStuck(d, k + 1, base);
        return Err(error.value);
      }
    }
    p.FlushBitfields();
    var size := if d.isUnion then p.unionSize else p.offset;
    r := Ok(Struct(p.fields, p.bitfields, p.hasBitfields, AlignUp(size, p.align), p.align));
  }

  lemma LaidStep(d: StructDecl, k: nat, base: nat, s: State)
    requires k < |d.decls| && Laid(d, k, base) == Ok(s)
    ensures Laid(d, k + 1, base) == Step(d, k, s, base)
  {
  }

  /** An error is final. */
  lemma {:induction false} LaidStuck(d: StructDecl, k: nat, base: nat)
    requires k <= |d.decls| && Laid(d, k, base).Err?
    ensures Laid(d, |d.decls|, base) == Laid(d, k, base)
    decreases |d.decls| - k
  {
    if k < |d.decls| {
      LaidStuck(d, k + 1, base);
    }
  }

  method ProcessDecl(d: StructDecl, k: nat, base: nat, p: Placer) returns (error: Option<Error>)
    requires k < |d.decls| && p.isUnion == d.isUnion
    modifies p
    ensures error.None? ==> Step(d, k, old(p.Current()), base) == Ok(p.Current())
    ensures error.Some? ==> Step(d, k, old(p.Current()), base) == Err(error.value)
    decreases d, 2 * k + 1
  {
    var decl := d.decls[k];
    error := None;
    match decl {
      case Ignored =>
      case Named(sub) =>
        var t := DoParseStruct(sub, base);
        if t.Err? {
          error := Some(t.error);
        }
      case Anonymous(sub, alignOverride, packed) =>
        var t := DoParseStruct(sub, base);
        if t.Err? {
          return Some(t.error);
        }
        p.AddStruct(t.value, AnonymousAlign(d, decl, t.value));
      case BitMember(typ, width, bitName, alignOverride, packed) =>
        var m := ParseStructMember(typ, base);
        if m.Err? {
          return Some(m.error);
        }
        error := p.AddBits(m.value, width, bitName, alignOverride, PackOf(d, packed, alignOverride));
      case Member(typ, name, alignOverride, packed) =>
        var m := ParseStructMember(typ, base);
        if m.Err? {
          return Some(m.error);
        }
        p.AddField(Field(typ, m.value.size, name), MemberAlign(d, decl, m.value));
    }
  }
}
