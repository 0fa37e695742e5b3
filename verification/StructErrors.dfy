/** For which declarations `do_parse_struct` of m2c/c_types.py gives up, seen from the declarations alone. */
module StructErrors {
  import opened Wrappers
  import opened StructLayout

  /** There is a `void` in it, or a struct that cannot be laid out. */
  predicate BadType(t: CType)
    decreases t
  {
    match t.shape
    case Primitive(size) => size == 0
    case Pointer => false
    case ArrayOf(element, _) => BadType(element)
    case Record(decl) => BadStruct(decl)
  }

  predicate BadStruct(d: StructDecl)
    decreases d
  {
    exists k :: 0 <= k < |d.decls| && BadDecl(d.decls[k])
  }

  /** Bitfields must be of a primitive type with its own alignment, not aligned otherwise, and fit into that type. */
  predicate BadDecl(decl: Decl)
    decreases decl
  {
    match decl
    case Ignored => false
    case Named(sub) => BadStruct(sub)
    case Anonymous(sub, _, _) => BadStruct(sub)
    case Member(typ, _, _, _) => BadType(typ)
    case BitMember(typ, width, _, alignOverride, _) =>
      || BadType(typ) || typ.shape.ArrayOf? || typ.shape.Record? || alignOverride != 0
      || (typ.alignOverride != 0 && typ.alignOverride != ScalarSize(typ)) || width > 8 * ScalarSize(typ)
  }

  function ScalarSize(t: CType): nat {
    if t.shape.Primitive? then t.shape.size else 4
  }

  /** Whether a struct can be laid out does not depend on offsets and alignments. */
  lemma {:induction false} TypeFails(t: CType, base: nat)
    ensures MemberLayout(t, base).Err? <==> BadType(t)
    decreases t
  {
    match t.shape
    case Primitive(_) =>
    case Pointer =>
    case ArrayOf(element, _) => TypeFails(element, base);
    case Record(decl) => StructFails(decl, base);
  }

  lemma {:induction false} StructFails(d: StructDecl, base: nat)
    ensures StructOf(d, base).Err? <==> BadStruct(d)
    decreases d, 2 * |d.decls| + 1
  {
    LaidFails(d, |d.decls|, base);
  }

  lemma {:induction false} LaidFails(d: StructDecl, k: nat, base: nat)
    requires k <= |d.decls|
    ensures Laid(d, k, base).Err? <==> exists j :: 0 <= j < k && BadDecl(d.decls[j])
    decreases d, 2 * k
  {
    if k > 0 {
      LaidFails(d, k - 1, base);
      if Laid(d, k - 1, base).Ok? {
        StepFails(d, k - 1, Laid(d, k - 1, base).value, base);
      }
    }
  }

  lemma {:induction false} StepFails(d: StructDecl, k: nat, s: State, base: nat)
    requires k < |d.decls|
    ensures Step(d, k, s, base).Err? <==> BadDecl(d.decls[k])
    decreases d, 2 * k + 1
  {
    var decl := d.decls[k];
    match decl
    case Ignored =>
    case Named(sub) => StructFails(sub, base);
    case Anonymous(sub, _, _) => StructFails(sub, base);
    case Member(typ, _, _, _) => TypeFails(typ, base);
    case BitMember(typ, _, _, _, _) => TypeFails(typ, base);
  }
}
