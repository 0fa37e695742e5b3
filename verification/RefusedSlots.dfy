/** For which programs `process_delay_slots` of m2c/flow_graph.py gives up, seen from the items alone. */
module RefusedSlots {
  import opened Wrappers
  import opened DelaySlots
  import opened GccLikely

  /**
   * Why the item is refused, if it is: a branch-likely or call whose slot has a label; a call whose slot overwrites its
   * source; a jump of another kind than a branch whose slot has a label and must not run twice.
   */
  function Refusal(body: seq<Item>, k: nat): Option<Failure>
    requires k < |body|
  {
    if body[k].Label? || k + 1 >= |body| then None
    else
      var i, next := body[k].instr, body[k + 1];
      if (i.kind.Likely? || i.kind.Call?) && next.Label? then Some(LabelInSlot)
      else if i.kind.Call? && next.Ins? && i.kind.source.Some?
           && (i.kind.source.value in next.instr.outputs || i.kind.source.value in next.instr.clobbers) then Some(ClobberedSource)
      else if (i.kind.Switch? || i.kind.Return?) && next.Label? && k + 2 < |body| && body[k + 2].Ins?
           && !Repeatable(body[k + 2].instr) then Some(NotStatic)
      else None
  }

  /** Item `k` is the first of those from `from` on to be refused, and for this reason. */
  predicate FirstRefused(body: seq<Item>, from: nat, k: nat, why: Failure) {
    from <= k < |body| && Refusal(body, k) == Some(why) && forall j :: from <= j < k ==> Refusal(body, j).None?
  }

  predicate NoneRefused(body: seq<Item>, from: nat) {
    forall j :: from <= j < |body| ==> Refusal(body, j).None?
  }

  lemma ItemRefused(body: seq<Item>, pc: nat, b: Built)
    requires Wf(body) && pc < |body|
    ensures match LowerItem(body, pc, b)
      case Err(why) => Refusal(body, pc) == Some(why)
      case Ok(next) => forall j :: pc <= j < next.1 ==> Refusal(body, j).None?
  {
    if body[pc].Ins? && HasSlot(body[pc].instr) {
      var j := SlotIndex(body, pc);
      assert body[j].Ins? && body[j].instr.kind.Plain?;
    }
  }

  /** Lowering fails exactly when an item is refused, with the reason of the first one. */
  lemma {:induction false} LoweringRefused(body: seq<Item>, pc: nat, b: Built)
    requires Wf(body) && pc <= |body|
    ensures LowerAll(body, pc, b).Ok? <==> NoneRefused(body, pc)
    ensures LowerAll(body, pc, b).Err? ==> exists k: nat :: FirstRefused(body, pc, k, LowerAll(body, pc, b).error)
    decreases |body| - pc
  {
    if pc < |body| {
      ItemRefused(body, pc, b);
      var r := LowerItem(body, pc, b);
      if r.Err? {
        assert FirstRefused(body, pc, pc, r.error);
      } else {
        LoweringRefused(body, r.value.1, r.value.0);
        assert LowerAll(body, pc, b) == LowerAll(body, r.value.1, r.value.0);
        if LowerAll(body, pc, b).Err? {
          var why := LowerAll(body, pc, b).error;
          var k: nat :| FirstRefused(body, r.value.1, k, why);
          assert FirstRefused(body, pc, k, why);
        }
      }
    }
  }

  lemma CrossingPlace(body: seq<Item>, k: nat)
    requires Wf(body) && k < |body| && CrossesOne(body, k)
    ensures var norm := Normalized(body, |body|);
      && Refusal(body, k).None? && Place(body, k) + 1 < |norm|
      && Refusal(norm, Place(body, k)).None? && Refusal(norm, Place(body, k) + 1).None?
  {
    PlaceOf(body, k);
  }

  lemma StayingPlace(body: seq<Item>, k: nat)
    requires Wf(body) && k < |body| && !CrossesOne(body, k)
    ensures var norm := Normalized(body, |body|);
      Place(body, k) < |norm| && Refusal(norm, Place(body, k)) == Refusal(body, k)
  {
    PlaceOf(body, k);
    if body[k].Ins? && HasSlot(body[k].instr) {
      var j := SlotIndex(body, k);
      assert body[j].Ins? && body[j].instr.kind.Plain?;
      PlaceOf(body, k + 1);
      if j == k + 2 {
        PlaceOf(body, k + 2);
      }
    }
  }

  /** Normalizing refuses nothing and saves nothing. */
  lemma RefusedAtPlace(body: seq<Item>, k: nat)
    requires Wf(body) && k < |body|
    ensures var norm := Normalized(body, |body|);
      && Place(body, k) < |norm| && Refusal(norm, Place(body, k)) == Refusal(body, k)
      && (CrossesOne(body, k) ==> Place(body, k) + 1 < |norm| && Refusal(norm, Place(body, k) + 1).None?)
  {
    if CrossesOne(body, k) {
      CrossingPlace(body, k);
    } else {
      StayingPlace(body, k);
    }
  }

  lemma NoneRefusedAtPlaces(body: seq<Item>)
    requires Wf(body)
    ensures NoneRefused(Normalized(body, |body|), 0) <==> NoneRefused(body, 0)
  {
    var norm := Normalized(body, |body|);
    if NoneRefused(body, 0) {
      forall q | 0 <= q < |norm|
        ensures Refusal(norm, q).None?
      {
        var k := Origin(body, |body|, q);
        RefusedAtPlace(body, k);
      }
    } else {
      var k :| 0 <= k < |body| && Refusal(body, k).Some?;
      RefusedAtPlace(body, k);
    }
  }

  lemma FirstRefusedAtPlace(body: seq<Item>, q: nat, why: Failure) returns (k: nat)
    requires Wf(body) && FirstRefused(Normalized(body, |body|), 0, q, why)
    ensures FirstRefused(body, 0, k, why)
  {
    k := Origin(body, |body|, q);
    RefusedAtPlace(body, k);
    forall j | 0 <= j < k
      ensures Refusal(body, j).None?
    {
      RefusedAtPlace(body, j);
      NormalizedGrows(body, j + 1, k);
      PlaceOf(body, j);
    }
  }

  /** From assembly to blocks, the program fails exactly if one of its items is refused, for the reason of the first one. */
  lemma ProgramRefused(body: seq<Item>)
    requires Wf(body) && Wf(Normalized(body, |body|))
    ensures var r := Lower(Normalized(body, |body|));
      && (r.Ok? <==> NoneRefused(body, 0))
      && (r.Err? ==> exists k: nat :: FirstRefused(body, 0, k, r.error))
  {
    var norm := Normalized(body, |body|);
    LoweringRefused(norm, 0, Built([], map[]));
    NoneRefusedAtPlaces(body);
    if Lower(norm).Err? {
      var q: nat :| FirstRefused(norm, 0, q, Lower(norm).error);
      var k := FirstRefusedAtPlace(body, q, Lower(norm).error);
    }
  }
}
