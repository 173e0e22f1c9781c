/** The parts of the list that do not behave as intended, modelled as written, each with an
    input that shows the discrepancy. The corrected behaviour is what the rest of the model
    uses: `ShrinkTarget` and `Shrunk` in Resizing, `FirstSlot` in Linearization and the walk
    from the first element in `CompactList.Check`. */
module Findings {
  import opened Slots
  import opened Resizing
  import opened Linearization
  import opened Integrity

  /** The shrink target of `try_shrink_list` as written: twice the room the elements need,
      lowered to the end of the element block when that is smaller. */
  function ShrinkTargetAsWritten(size: nat, begin: nat): (t: nat)
    ensures t <= (size + 2) * Growth && t <= begin + size + 1
    ensures t == (size + 2) * Growth || t == begin + size + 1
  {
    if begin + size + 1 < (size + 2) * Growth then begin + size + 1 else (size + 2) * Growth
  }

  /** Seven elements in slots 1..7 of a linear 64-slot list pass the shrink guard, and the target
      as written is 9 slots, below the default capacity, so `list_check` rejects the result
      whatever the slots hold. The corrected target is 18. */
  lemma ShrinkBelowDefaultAsWritten<T>(s: seq<Node<T>>, free: nat, start: nat)
    ensures ShrinkFires(true, 64, 7) && ShrinkTargetAsWritten(7, 1) == 9
    ensures !CheckPasses(s, free, 7, ShrinkTargetAsWritten(7, 1), start)
    ensures ShrinkTarget(7, 1) == 18 && ShrinkTarget(7, 1) >= DefaultCapacity
  {
  }

  /** A chain whose block ends at or beyond `t` does not fit in `t` slots. */
  lemma BlockPastEnd(order: seq<nat>, t: nat)
    requires Contiguous(order) && order != [] && t < order[0] + |order|
    ensures !InSlots(order, t)
  {
    assert order[|order| - 1] == order[0] + |order| - 1;
  }

  /** Forty elements linearized into a 64-slot list and then 26 `pop_front`s leave 14 elements
      in slots 27..40. The guard fires and the target as written is 32 slots, which cuts off
      slots 32..40: no chain with those elements fits. The corrected target is 42. */
  lemma ShrinkCutsElementsAsWritten(order: seq<nat>)
    requires Contiguous(order) && |order| == 14 && order[0] == 27
    ensures ShrinkFires(true, 64, 14) && ShrinkTargetAsWritten(14, 27) == 32
    ensures !InSlots(order, ShrinkTargetAsWritten(14, 27))
    ensures ShrinkTarget(14, 27) == 42 && InSlots(order, ShrinkTarget(14, 27))
  {
    BlockPastEnd(order, 32);
    forall k | 0 <= k < |order|
      ensures 0 < order[k] < 42
    {
      assert order[k] == 27 + k;
    }
  }

  /** In a consistent layout every free slot links inside the array. */
  lemma FreeLinkInside<T>(s: seq<Node<T>>, poison: T, free: nat, order: seq<nat>, fo: seq<nat>, j: nat)
    ensures Layout(s, poison, free, order, fo) && 0 < j < |s| && s[j].isFree ==> s[j].next < |s|
  {
    if Layout(s, poison, free, order, fo) && 0 < j < |s| && s[j].isFree {
      InUseIsActive(s, poison, free, order, fo, j);
      var k := IndexOf(fo, j);
      assert s[fo[k]].next == Ahead(fo, k + 1);
    }
  }

  /** A free slot whose link leaves the array rules out every consistent layout. */
  lemma LinkPastEnd<T>(s: seq<Node<T>>, poison: T, free: nat, order: seq<nat>, fo: seq<nat>, j: nat)
    requires 0 < j < |s| && s[j].isFree && s[j].next >= |s|
    ensures !Layout(s, poison, free, order, fo)
  {
    FreeLinkInside(s, poison, free, order, fo, j);
  }

  /** The slots `linearize` leaves for n elements of value `v` in `cap` slots. */
  function LinearSlots<T>(n: nat, cap: nat, v: T): (s: seq<Node<T>>)
    requires n + 2 <= cap
    ensures |s| == cap
  {
    var placed := seq(cap, j requires 0 <= j < cap => Node(v, 0, 0, 0 < j && n < j));
    Relinked(placed, n, FirstSlot(n))
  }

  /** The closing walk of `resize_list` as written: from `cur`, follow `next` while it is not 0
      and stop at the slot whose `next` the code then overwrites with 0. None when the walk
      reads a slot outside the array, or has not stopped after `steps` more steps. */
  function LastLink<T>(s: seq<Node<T>>, cur: nat, steps: nat): (r: Option<nat>)
    ensures r.Some? ==> r.value < |s| && s[r.value].next == 0
    ensures cur >= |s| ==> r == None
    decreases steps
  {
    if cur >= |s| then None
    else if s[cur].next == 0 then Some(cur)
    else if steps == 0 then None
    else LastLink(s, s[cur].next, steps - 1)
  }

  /** On a consistent layout the walk from the free head ends at the last free slot. */
  lemma {:induction false} FreeWalkEnds<T>(s: seq<Node<T>>, poison: T, order: seq<nat>, fo: seq<nat>, k: nat)
    requires Layout(s, poison, Ahead(fo, 0), order, fo) && k < |fo|
    ensures LastLink(s, fo[k], |fo| - k) == Some(fo[|fo| - 1])
    decreases |fo| - k
  {
    assert s[fo[k]] == Node(poison, Ahead(fo, k + 1), 0, true);
    if k + 1 < |fo| {
      FreeWalkEnds(s, poison, order, fo, k + 1);
    }
  }

  /** With the corrected shrink, the closing walk from the new free head stays inside the array
      and stops at the last retained free slot. */
  lemma ShrunkWalkEnds<T>(s: seq<Node<T>>, poison: T, free: nat, order: seq<nat>, fo: seq<nat>, t: nat)
    requires Layout(s, poison, free, order, fo) && Contiguous(order) && order != []
    requires order[0] + |order| <= t <= |s| && |order| + 2 <= t
    ensures FreeFrom(s, 1, t) != []
    ensures LastLink(Shrunk(s, t, poison), FreeFrom(s, 1, t)[0], |FreeFrom(s, 1, t)|)
            == Some(FreeFrom(s, 1, t)[|FreeFrom(s, 1, t)| - 1])
  {
    ShrunkCount(s, poison, free, order, fo, t);
    ShrunkLayout(s, poison, free, order, fo, t);
    FreeWalkEnds(Shrunk(s, t, poison), poison, order, FreeFrom(s, 1, t), 0);
  }

  /** `resize_list` as written keeps the first `t` slots and walks the free chain from its head:
      linearizing 14 elements into 64 slots and truncating to the 16 slots the target as written
      gives leaves free slot 15, the free head, linked to slot 16, past the end. The walk from
      the head reads outside the array and the result is not a list. The corrected shrink
      re-chains the free slots kept. */
  lemma TruncationAsWritten<T>(v: T, free: nat, order: seq<nat>, fo: seq<nat>)
    ensures ShrinkFires(true, 64, 14) && ShrinkTargetAsWritten(14, 1) == 16
    ensures LinearSlots(14, 64, v)[15] == Node(v, 16, 0, true)
    ensures LastLink(LinearSlots(14, 64, v)[..16], 15, 16) == None
    ensures !Layout(LinearSlots(14, 64, v)[..16], v, free, order, fo)
  {
    var s := LinearSlots(14, 64, v)[..16];
    assert s[15] == Node(v, 16, 0, true);
    LinkPastEnd(s, v, free, order, fo, 15);
  }

  /** The relinking of `linearize` as written always points the sentinel at slot 1. On an empty
      list that is not linear (one `push_back`, then one `pop_back`), slot 1 is free, so the
      sentinel's `next` names a free slot and no consistent layout results. The corrected
      relinking writes `FirstSlot(0)`, which is 0. */
  lemma RelinkEmptyAsWritten<T>(s: seq<Node<T>>, poison: T, free: nat, order: seq<nat>, fo: seq<nat>)
    requires Placed(s, [], poison) && 2 <= |s|
    ensures Relinked(s, 0, 1)[0].next == 1 && Relinked(s, 0, 1)[1].isFree
    ensures !Layout(Relinked(s, 0, 1), poison, free, order, fo)
    ensures Relinked(s, 0, FirstSlot(0))[0].next == 0
  {
    var s' := Relinked(s, 0, 1);
    assert s'[1].isFree;
  }
}
