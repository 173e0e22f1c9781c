/** The compact list itself: one array of slots holding a doubly-linked list of elements behind
    the sentinel slot 0 and a singly-linked chain of free slots, updated in place by every
    operation, with the capacity doubling when the last free slot is taken and shrinking after
    erase and linearize. */
module ListImpl {
  import opened Slots
  import opened Arena
  import opened Resizing
  import opened Linearization
  import opened Integrity

  /** The position at which `insert_after(it, v)` puts `v`: the front for the sentinel,
      otherwise just after `it`. */
  function AfterPos(order: seq<nat>, it: nat): (p: nat)
    requires it == 0 || it in order
    ensures p <= |order|
  {
    if it == 0 then 0 else IndexOf(order, it) + 1
  }

  /** The position at which `insert_before(it, v)` puts `v`: the back for the sentinel,
      otherwise at the position of `it`. */
  function BeforePos(order: seq<nat>, it: nat): (p: nat)
    requires it == 0 || it in order
    ensures p <= |order|
  {
    if it == 0 then |order| else IndexOf(order, it)
  }

  /** The slot after which `insert_after(it, ...)` links is `it`, and the one before which it
      links is `it`'s successor on the active chain. */
  lemma AfterNeighbours<T>(s: seq<Node<T>>, poison: T, free: nat, order: seq<nat>, fo: seq<nat>, it: nat)
    requires Layout(s, poison, free, order, fo) && (it == 0 || it in order)
    ensures it < |s| && s[it].next < |s| && free < |s|
    ensures Behind(order, AfterPos(order, it)) == it && Ahead(order, AfterPos(order, it)) == s[it].next
  {
    if it != 0 {
      var q := IndexOf(order, it);
      assert s[order[q]].next == Ahead(order, q + 1);
    }
    if fo != [] {
      assert fo[0] < |s|;
    }
  }

  /** The slot before which `insert_before(it, ...)` links is `it`, and the one after which it
      links is `it`'s predecessor on the active chain. */
  lemma BeforeNeighbours<T>(s: seq<Node<T>>, poison: T, free: nat, order: seq<nat>, fo: seq<nat>, it: nat)
    requires Layout(s, poison, free, order, fo) && (it == 0 || it in order)
    ensures it < |s| && s[it].prev < |s| && free < |s|
    ensures Behind(order, BeforePos(order, it)) == s[it].prev && Ahead(order, BeforePos(order, it)) == it
  {
    if it != 0 {
      var q := IndexOf(order, it);
      assert s[order[q]].prev == Behind(order, q);
    }
    if fo != [] {
      assert fo[0] < |s|;
    }
  }

  /** The last element of a non-empty list ends the active chain: its successor is the sentinel. */
  lemma TailSlot<T>(s: seq<Node<T>>, poison: T, free: nat, order: seq<nat>, fo: seq<nat>)
    requires Layout(s, poison, free, order, fo)
    ensures Behind(order, |order|) < |s| && s[Behind(order, |order|)].prev < |s|
    ensures order != [] ==>
      Behind(order, |order|) in order && IndexOf(order, Behind(order, |order|)) == |order| - 1 &&
      s[Behind(order, |order|)].next == 0
  {
    if order != [] {
      IndexOfUnique(order, |order| - 1);
      assert s[order[|order| - 1]].next == Ahead(order, |order|);
    }
    BeforeNeighbours(s, poison, free, order, fo, Behind(order, |order|));
  }

  /** The first element of a non-empty list starts the active chain: its predecessor is the
      sentinel. */
  lemma HeadSlot<T>(s: seq<Node<T>>, poison: T, free: nat, order: seq<nat>, fo: seq<nat>)
    requires Layout(s, poison, free, order, fo)
    ensures Ahead(order, 0) < |s| && s[Ahead(order, 0)].next < |s|
    ensures order != [] ==>
      Ahead(order, 0) in order && IndexOf(order, Ahead(order, 0)) == 0 && s[Ahead(order, 0)].prev == 0
  {
    if order != [] {
      IndexOfUnique(order, 0);
      assert s[order[0]].prev == Behind(order, 0);
    }
    AfterNeighbours(s, poison, free, order, fo, Ahead(order, 0));
  }

  /** In a linear layout, with elements in slots 1..n and the free chain n+1..|s|-1 in index
      order, rebuilding the free chain of the first t slots gives n+1..t-1. */
  lemma LinearFreeFrom<T>(s: seq<Node<T>>, poison: T, fo: seq<nat>, n: nat, t: nat)
    requires InSlots(fo, |s|) && FreeLinks(s, poison, fo) && fo == Iota(n + 1, |s|)
    requires n < t <= |s|
    requires forall j :: 1 <= j <= n ==> !s[j].isFree
    ensures FreeFrom(s, 1, t) == Iota(n + 1, t)
  {
    forall j | n < j < |s|
      ensures s[j].isFree
    {
      assert fo[j - n - 1] == j;
    }
    FreeFromIota(s, 1, n, t);
  }

  /** A slot that is neither the sentinel nor on the active chain holds the poison value. */
  lemma PoisonedUnlessActive<T>(s: seq<Node<T>>, poison: T, free: nat, order: seq<nat>, fo: seq<nat>, i: nat)
    requires Layout(s, poison, free, order, fo) && 0 < i < |s| && i !in order
    ensures s[i].isFree && s[i].value == poison
  {
    InUseIsActive(s, poison, free, order, fo, i);
    ChainsDisjoint(s, poison, free, order, fo, i);
  }

  /** The `compact_list` record: the slot array, the head of the free chain, the element count,
      the capacity and the linearity flag. `order` (the active slots in list order) and
      `freeOrder` (the free slots in chain order) are the abstraction they implement. */
  class CompactList<T> {
    var nodes: array<Node<T>>
    var free: nat
    var size: nat
    var capacity: nat
    var isLinear: bool
    const poison: T
    ghost var order: seq<nat>
    ghost var freeOrder: seq<nat>

    /** The representation invariant, which may lack the one spare slot `Valid` demands. */
    ghost predicate Consistent()
      reads this, nodes
    {
      Layout(nodes[..], poison, free, order, freeOrder) && size == |order| &&
      capacity == nodes.Length && capacity >= DefaultCapacity && (isLinear ==> Contiguous(order))
    }

    /** What `list_check` intends to accept: a consistent list with at least one free slot. */
    ghost predicate Valid()
      reads this, nodes
    {
      Consistent() && size + 2 <= capacity
    }

    /** The elements in list order. */
    ghost function Contents(): (c: seq<T>)
      reads this, nodes
      requires Consistent()
    {
      Values(nodes[..], order)
    }

    /** `list_ctor`: sixteen slots, the sentinel linked to itself and slots 1..15 chained free. */
    constructor (poison: T)
      ensures Valid() && fresh(nodes)
      ensures nodes[..] == [Node(poison, 0, 0, false)] + FreeRun(1, DefaultCapacity, poison)
      ensures capacity == DefaultCapacity && size == 0 && free == 1 && isLinear
      ensures order == [] && freeOrder == Iota(1, DefaultCapacity) && Contents() == []
    {
      var a := new Node<T>[DefaultCapacity](_ => Node(poison, 0, 0, false));
      for i := 1 to DefaultCapacity
        invariant a[0] == Node(poison, 0, 0, false)
        invariant forall j :: 1 <= j < i ==> a[j] == Node(poison, (j + 1) % DefaultCapacity, 0, true)
      {
        a[i] := Node(poison, (i + 1) % DefaultCapacity, 0, true);
      }
      assert a[..] == [Node(poison, 0, 0, false)] + FreeRun(1, DefaultCapacity, poison);
      GrownLayout([Node(poison, 0, 0, false)], poison, [], DefaultCapacity);
      this.poison := poison;
      nodes := a;
      free := 1;
      size := 0;
      capacity := DefaultCapacity;
      isLinear := true;
      order := [];
      freeOrder := Iota(1, DefaultCapacity);
    }

    /** `list_begin`: the first element, 0 when the list is empty. */
    function Begin(): (b: nat)
      reads this, nodes
      requires nodes.Length > 0
      ensures Consistent() ==> b == Ahead(order, 0) && (b == 0 <==> size == 0)
    {
      nodes[0].next
    }

    /** `list_end`: the last element, 0 when the list is empty. */
    function End(): (e: nat)
      reads this, nodes
      requires nodes.Length > 0
      ensures Consistent() ==> e == Behind(order, |order|) && (e == 0 <==> size == 0)
    {
      nodes[0].prev
    }

    /** `next_element`: the successor on the active chain, 0 after the last element; from the
        sentinel, the first element. */
    function Next(it: nat): (n: nat)
      reads this, nodes
      requires it < nodes.Length
      ensures Consistent() ==> forall k :: 0 <= k < |order| && order[k] == it ==> n == Ahead(order, k + 1)
      ensures Consistent() && it == 0 ==> n == Ahead(order, 0)
    {
      nodes[it].next
    }

    /** `prev_element`: the predecessor on the active chain, 0 before the first element; from the
        sentinel, the last element. */
    function Prev(it: nat): (n: nat)
      reads this, nodes
      requires it < nodes.Length
      ensures Consistent() ==> forall k :: 0 <= k < |order| && order[k] == it ==> n == Behind(order, k)
      ensures Consistent() && it == 0 ==> n == Behind(order, |order|)
    {
      nodes[it].prev
    }

    /** `get_element`: the value at slot `it`; the poison value for the sentinel and for a free slot. */
    function GetElement(it: nat): (v: T)
      reads this, nodes
      requires it < nodes.Length
      ensures it == 0 ==> v == poison
      ensures Consistent() ==> forall k :: 0 <= k < |order| && order[k] == it ==> v == Contents()[k]
      ensures Consistent() && it !in order ==> v == poison
    {
      if it == 0 then poison
      else
        assert Consistent() && it !in order ==> nodes[it].value == poison by {
          if Consistent() && it !in order {
            PoisonedUnlessActive(nodes[..], poison, free, order, freeOrder, it);
          }
        }
        nodes[it].value
    }

    /** `element_by_number`: on a linear list, the slot of the element at position `num`;
        otherwise, or past the end, 0. */
    function ElementByNumber(num: nat): (it: nat)
      reads this, nodes
      requires nodes.Length > 0
      ensures !isLinear || num >= size ==> it == 0
      ensures Consistent() && isLinear && num < size ==>
        it == order[num] && it < nodes.Length && GetElement(it) == Contents()[num]
    {
      if !isLinear then 0
      else if num >= size then 0
      else Begin() + num
    }

    /** The growing half of `resize_list`: a larger array keeping every slot at its index, the new
        slots chained free in index order ending at 0 and headed by the old capacity, then the
        walk to the end of the chain that started at the old (zero) free head. */
    method Grow(newSize: nat)
      requires Consistent() && free == 0 && capacity < newSize
      modifies this
      ensures fresh(nodes) && nodes[..] == old(nodes[..]) + FreeRun(old(capacity), newSize, poison)
      ensures capacity == newSize && free == old(capacity) && freeOrder == Iota(old(capacity), newSize)
      ensures order == old(order) && size == old(size) && isLinear == old(isLinear)
      ensures Valid() && Contents() == old(Contents())
    {
      ghost var s := nodes[..];
      var oldSize := capacity;
      var a := Extended(newSize);
      GrownLayout(s, poison, order, newSize);
      var lastFree := free;
      CloseChain(a, lastFree, oldSize, Iota(oldSize, newSize));
      Adopt(a, oldSize, size, isLinear, order, Iota(oldSize, newSize));
    }

    /** The reallocation and initialisation loop of `resize_list` when growing: a fresh array of
        `newSize` slots whose first part copies this one and whose rest is a run of free slots. */
    method Extended(newSize: nat) returns (a: array<Node<T>>)
      requires nodes.Length < newSize
      ensures fresh(a) && a[..] == nodes[..] + FreeRun(nodes.Length, newSize, poison)
    {
      a := new Node<T>[newSize](_ => Node(poison, 0, 0, true));
      for j := 0 to nodes.Length
        modifies a
        invariant forall m :: 0 <= m < j ==> a[m] == nodes[m]
      {
        a[j] := nodes[j];
      }
      for i := nodes.Length to newSize
        modifies a
        invariant forall m :: 0 <= m < nodes.Length ==> a[m] == nodes[m]
        invariant forall m :: nodes.Length <= m < i ==> a[m] == Node(poison, (m + 1) % newSize, 0, true)
      {
        a[i] := Node(poison, (i + 1) % newSize, 0, true);
      }
      assert a[..] == nodes[..] + FreeRun(nodes.Length, newSize, poison);
    }

    /** The closing walk of `resize_list` after a growth: from the old free head, which was 0, it
        follows `next` along the active chain to the last element and writes 0 into its `next`,
        which already holds 0. */
    method CloseChain(a: array<Node<T>>, lastFree: nat, ghost head: nat, ghost fo: seq<nat>)
      requires Layout(a[..], poison, head, order, fo) && lastFree == 0
      modifies a
      ensures a[..] == old(a[..])
    {
      var cur := lastFree;
      ghost var k := 0;
      while a[cur].next != 0
        invariant k <= |order| && cur == Behind(order, k)
        decreases |order| - k
      {
        cur := a[cur].next;
        k := k + 1;
      }
      a[cur] := a[cur].(next := 0);
    }

    /** The header writes that end every update: the list takes over the array `a`, the free head,
        the element count and the linearity flag, and with them the chains they stand for. */
    method Adopt(a: array<Node<T>>, head: nat, n: nat, lin: bool, ghost o: seq<nat>, ghost fo: seq<nat>)
      requires Layout(a[..], poison, head, o, fo) && n == |o|
      requires a.Length >= DefaultCapacity && (lin ==> Contiguous(o))
      modifies this
      ensures nodes == a && capacity == a.Length && free == head && size == n && isLinear == lin
      ensures order == o && freeOrder == fo
      ensures Consistent() && Contents() == Values(a[..], o)
    {
      nodes, capacity, free, size, isLinear := a, a.Length, head, n, lin;
      order, freeOrder := o, fo;
    }

    /** `try_grow_list`: double the capacity once the last free slot has been taken. */
    method TryGrow()
      requires Consistent()
      modifies this
      ensures Valid() && order == old(order) && size == old(size) && isLinear == old(isLinear)
      ensures Contents() == old(Contents()) && capacity >= old(capacity)
      ensures old(free) != 0 ==> nodes == old(nodes) && free == old(free) && capacity == old(capacity) && freeOrder == old(freeOrder)
      ensures old(free) == 0 ==>
        fresh(nodes) && nodes[..] == old(nodes[..]) + FreeRun(old(capacity), old(capacity) * Growth, poison) &&
        capacity == old(capacity) * Growth && free == old(capacity)
    {
      if free != 0 {
        return;
      }
      Grow(capacity * Growth);
    }

    /** The shrinking half of `resize_list`, as it should behave: keep the first `t` slots, which hold
        every element, and chain the free ones among them in index order. */
    method ShrinkTo(t: nat)
      requires Consistent() && isLinear && order != [] && order[0] + |order| <= t < capacity
      requires DefaultCapacity <= t && |order| + 2 <= t
      modifies this
      ensures fresh(nodes) && nodes[..] == Shrunk(old(nodes[..]), t, poison)
      ensures capacity == t && freeOrder == FreeFrom(old(nodes[..]), 1, t) && free == Ahead(freeOrder, 0)
      ensures order == old(order) && size == old(size) && isLinear
      ensures Valid() && Contents() == old(Contents())
    {
      ghost var s, f, fo := nodes[..], free, freeOrder;
      var a, head := Truncated(t);
      ShrunkLayout(s, poison, f, order, fo, t);
      Adopt(a, head, size, isLinear, order, FreeFrom(s, 1, t));
    }

    /** A fresh array of the first `t` slots, with the free ones among them re-chained in index
        order by a walk from the top down; `head` is the lowest free slot, or 0. */
    method Truncated(t: nat) returns (a: array<Node<T>>, head: nat)
      requires 0 < t <= nodes.Length
      ensures fresh(a) && a[..] == Shrunk(nodes[..], t, poison)
      ensures head == Ahead(FreeFrom(nodes[..], 1, t), 0)
    {
      ghost var s := nodes[..];
      a := Prefix(t);
      head := 0;
      var j := t;
      while j > 1
        modifies a
        invariant 1 <= j <= t && head == Ahead(FreeFrom(s, j, t), 0)
        invariant forall m :: 0 <= m < j ==> a[m] == s[m]
        invariant forall m :: j <= m < t ==> a[m] == Shrunk(s, t, poison)[m]
      {
        j := j - 1;
        head := Rechain(a, j, head, s, t);
      }
      assert a[..] == Shrunk(s, t, poison);
    }

    /** The reallocation of `resize_list` when shrinking: a fresh array of the first `t` slots. */
    method Prefix(t: nat) returns (a: array<Node<T>>)
      requires 0 < t <= nodes.Length
      ensures fresh(a) && a[..] == nodes[..t]
    {
      a := new Node<T>[t](_ => Node(poison, 0, 0, true));
      for j := 0 to t
        modifies a
        invariant forall m :: 0 <= m < j ==> a[m] == nodes[m]
      {
        a[j] := nodes[j];
      }
    }

    /** One step of the free-chain walk of `resize_list` when shrinking: a free slot `j`, still as
        in `s`, is linked to the current head and becomes the head. */
    method Rechain(a: array<Node<T>>, j: nat, head: nat, ghost s: seq<Node<T>>, t: nat) returns (head': nat)
      requires 0 < j < t == a.Length <= |s| && a[j] == s[j] && head == Ahead(FreeFrom(s, j + 1, t), 0)
      modifies a
      ensures a[..] == old(a[..])[j := Shrunk(s, t, poison)[j]]
      ensures head' == Ahead(FreeFrom(s, j, t), 0)
    {
      head' := head;
      if a[j].isFree {
        a[j] := Node(poison, head, 0, true);
        head' := j;
      }
    }

    /** `try_shrink_list`: when the guard fires, shrink to the target capacity (the larger of twice
        the room the elements need and the end of the element block). */
    method TryShrink()
      requires Valid()
      modifies this
      ensures Valid() && order == old(order) && size == old(size) && isLinear == old(isLinear)
      ensures Contents() == old(Contents()) && capacity <= old(capacity)
      ensures capacity != old(capacity) <==>
        ShrinkFires(old(isLinear), old(capacity), old(size)) && ShrinkTarget(old(size), old(nodes[0].next)) < old(capacity)
      ensures capacity == old(capacity) ==> nodes == old(nodes) && free == old(free) && freeOrder == old(freeOrder)
      ensures capacity != old(capacity) ==>
        capacity == ShrinkTarget(old(size), old(nodes[0].next)) &&
        fresh(nodes) && nodes[..] == Shrunk(old(nodes[..]), capacity, poison) &&
        freeOrder == FreeFrom(old(nodes[..]), 1, capacity) && free == Ahead(freeOrder, 0)
    {
      if !isLinear {
        return;
      }
      if capacity <= DefaultCapacity {
        return;
      }
      if (size + 2) * Growth <= DefaultCapacity {
        return;
      }
      if (size + 2) * Growth * Growth > capacity {
        return;
      }
      var newSize := ShrinkTarget(size, Begin());
      if newSize < capacity {
        ShrinkTo(newSize);
      }
    }

    /** The slot writes of `insert_after`: slot `added` takes `v` between `cur` and `nxt`, then
        `cur` points forward and `nxt` back at it. */
    method LinkAfter(added: nat, cur: nat, nxt: nat, v: T)
      requires added < nodes.Length && cur < nodes.Length && nxt < nodes.Length
      modifies nodes
      ensures nodes[..] == Link(old(nodes[..]), added, cur, nxt, v)
    {
      nodes[added] := Node(v, nxt, cur, false);
      nodes[cur] := nodes[cur].(next := added);
      nodes[nxt] := nodes[nxt].(prev := added);
    }

    /** The slot writes of `insert_before`: slot `added` takes `v` between `prv` and `cur`, then
        `cur` points back and `prv` forward at it. */
    method LinkBefore(added: nat, prv: nat, cur: nat, v: T)
      requires added < nodes.Length && prv < nodes.Length && cur < nodes.Length
      modifies nodes
      ensures nodes[..] == Link(old(nodes[..]), added, prv, cur, v)
    {
      nodes[added] := Node(v, cur, prv, false);
      nodes[cur] := nodes[cur].(prev := added);
      nodes[prv] := nodes[prv].(next := added);
    }

    /** `insert_after`: `v` goes into the head of the free chain, linked just after `it` (at the
        front for the sentinel). The list stays linear only when the new slot falls between its
        neighbours' indices; the capacity doubles when the last free slot is taken. */
    method InsertAfter(it: nat, v: T) returns (added: nat)
      requires Valid() && (it == 0 || it in order)
      modifies this, nodes
      ensures Valid() && size == old(size) + 1 && added == old(free)
      ensures order == InsertAt(old(order), AfterPos(old(order), it), added)
      ensures Contents() == InsertAt(old(Contents()), AfterPos(old(order), it), v)
      ensures isLinear == (old(isLinear) && it + 1 == added && added + 1 == old(nodes[it].next))
      ensures capacity == if old(size) + 2 == old(capacity) then old(capacity) * Growth else old(capacity)
      ensures free == if old(size) + 2 == old(capacity) then old(capacity) else old(nodes[free].next)
      ensures nodes[..] == Link(old(nodes[..]), added, it, old(nodes[it].next), v) + FreeRun(old(capacity), capacity, poison)
      ensures capacity == old(capacity) ==> nodes == old(nodes)
    {
      AfterNeighbours(nodes[..], poison, free, order, freeOrder, it);
      added := SpliceAfter(it, v);
      TryGrow();
    }

    /** `insert_after` up to its call of `try_grow_list`. */
    method SpliceAfter(it: nat, v: T) returns (added: nat)
      requires Valid() && it < nodes.Length && (it == 0 || it in order)
      modifies this, nodes
      ensures Consistent() && size == old(size) + 1 && added == old(free) && nodes == old(nodes)
      ensures capacity == old(capacity) && free == old(nodes[free].next) && (free == 0 <==> size + 2 > capacity)
      ensures order == InsertAt(old(order), AfterPos(old(order), it), added)
      ensures Contents() == InsertAt(old(Contents()), AfterPos(old(order), it), v)
      ensures isLinear == (old(isLinear) && it + 1 == added && added + 1 == old(nodes[it].next))
      ensures nodes[..] == Link(old(nodes[..]), added, it, old(nodes[it].next), v)
    {
      ghost var s, fo, p := nodes[..], freeOrder, AfterPos(order, it);
      AfterNeighbours(s, poison, free, order, fo, it);
      var n := size + 1;
      var cur := it;
      added := free;
      var nxt := Next(cur);
      var lin := isLinear;
      if !(cur + 1 == added && added + 1 == nxt) {
        lin := false;
      }
      var head := Next(free);
      LinkAfter(added, cur, nxt, v);
      SpliceInLayout(s, nodes[..], fo, p, v, lin, added, head);
      Adopt(nodes, head, n, lin, InsertAt(order, p, added), fo[1..]);
    }

    /** The chains after the slot writes of an insertion at position `p` into the free head
        `added`, whose successor `head` becomes the new free head. */
    lemma SpliceInLayout(s: seq<Node<T>>, s': seq<Node<T>>, fo: seq<nat>, p: nat, v: T, lin: bool, added: nat, head: nat)
      requires Layout(s, poison, added, order, fo) && fo != [] && p <= |order| && head == s[added].next
      requires isLinear ==> Contiguous(order)
      requires s' == Link(s, added, Behind(order, p), Ahead(order, p), v)
      requires lin ==> isLinear && Behind(order, p) + 1 == added && added + 1 == Ahead(order, p)
      ensures Layout(s', poison, head, InsertAt(order, p, added), fo[1..])
      ensures Values(s', InsertAt(order, p, added)) == InsertAt(Values(s, order), p, v)
      ensures lin ==> Contiguous(InsertAt(order, p, added))
      ensures head == 0 <==> |order| + 3 > |s|
    {
      assert s[fo[0]].next == Ahead(fo, 1);
      LinkLayout(s, poison, order, fo, p, v);
      LinkContents(s, poison, order, fo, p, v);
      if lin {
        LinearInsert(order, p, fo[0]);
      }
      if |fo| > 1 {
        assert fo[1] > 0;
      }
    }

    /** `insert_before`: `v` goes into the head of the free chain, linked just before `it` (at the
        back for the sentinel), under the same linearity and growth rules as `insert_after`. */
    method InsertBefore(it: nat, v: T) returns (added: nat)
      requires Valid() && (it == 0 || it in order)
      modifies this, nodes
      ensures Valid() && size == old(size) + 1 && added == old(free)
      ensures order == InsertAt(old(order), BeforePos(old(order), it), added)
      ensures Contents() == InsertAt(old(Contents()), BeforePos(old(order), it), v)
      ensures isLinear == (old(isLinear) && old(nodes[it].prev) + 1 == added && added + 1 == it)
      ensures capacity == if old(size) + 2 == old(capacity) then old(capacity) * Growth else old(capacity)
      ensures free == if old(size) + 2 == old(capacity) then old(capacity) else old(nodes[free].next)
      ensures nodes[..] == Link(old(nodes[..]), added, old(nodes[it].prev), it, v) + FreeRun(old(capacity), capacity, poison)
      ensures capacity == old(capacity) ==> nodes == old(nodes)
    {
      BeforeNeighbours(nodes[..], poison, free, order, freeOrder, it);
      added := SpliceBefore(it, v);
      TryGrow();
    }

    /** `insert_before` up to its call of `try_grow_list`. */
    method SpliceBefore(it: nat, v: T) returns (added: nat)
      requires Valid() && it < nodes.Length && (it == 0 || it in order)
      modifies this, nodes
      ensures Consistent() && size == old(size) + 1 && added == old(free) && nodes == old(nodes)
      ensures capacity == old(capacity) && free == old(nodes[free].next) && (free == 0 <==> size + 2 > capacity)
      ensures order == InsertAt(old(order), BeforePos(old(order), it), added)
      ensures Contents() == InsertAt(old(Contents()), BeforePos(old(order), it), v)
      ensures isLinear == (old(isLinear) && old(nodes[it].prev) + 1 == added && added + 1 == it)
      ensures nodes[..] == Link(old(nodes[..]), added, old(nodes[it].prev), it, v)
    {
      ghost var s, fo, p := nodes[..], freeOrder, BeforePos(order, it);
      BeforeNeighbours(s, poison, free, order, fo, it);
      var n := size + 1;
      var cur := it;
      added := free;
      var prv := Prev(cur);
      var lin := isLinear;
      if !(prv + 1 == added && added + 1 == cur) {
        lin := false;
      }
      var head := Next(free);
      LinkBefore(added, prv, cur, v);
      SpliceInLayout(s, nodes[..], fo, p, v, lin, added, head);
      Adopt(nodes, head, n, lin, InsertAt(order, p, added), fo[1..]);
    }

    /** `push_back`: insert after the last element. The new slot is never followed by the next
        index, so the list is no longer linear. */
    method PushBack(v: T) returns (added: nat)
      requires Valid()
      modifies this, nodes
      ensures Valid() && added == old(free) && order == old(order) + [added]
      ensures Contents() == old(Contents()) + [v] && !isLinear
      ensures capacity == if old(size) + 2 == old(capacity) then old(capacity) * Growth else old(capacity)
      ensures free == if old(size) + 2 == old(capacity) then old(capacity) else old(nodes[free].next)
      ensures old(End()) < old(nodes.Length) && added < old(nodes.Length)
      ensures nodes[..] == Link(old(nodes[..]), added, old(End()), 0, v) + FreeRun(old(capacity), capacity, poison)
      ensures capacity == old(capacity) ==> nodes == old(nodes)
    {
      ghost var o, c := order, Contents();
      AfterNeighbours(nodes[..], poison, free, order, freeOrder, End());
      if order != [] {
        IndexOfUnique(order, |order| - 1);
        assert nodes[order[|order| - 1]].next == Ahead(order, |order|);
      }
      added := InsertAfter(End(), v);
      InsertAtEnds(o, added);
      InsertAtEnds(c, v);
    }

    /** `push_front`: insert before the first element. The list stays linear only when the new
        slot is slot 1 and the old first element was slot 2. */
    method PushFront(v: T) returns (added: nat)
      requires Valid()
      modifies this, nodes
      ensures Valid() && added == old(free) && order == [added] + old(order)
      ensures Contents() == [v] + old(Contents())
      ensures isLinear == (old(isLinear) && added == 1 && old(Begin()) == 2)
      ensures capacity == if old(size) + 2 == old(capacity) then old(capacity) * Growth else old(capacity)
      ensures free == if old(size) + 2 == old(capacity) then old(capacity) else old(nodes[free].next)
      ensures old(Begin()) < old(nodes.Length) && added < old(nodes.Length)
      ensures nodes[..] == Link(old(nodes[..]), added, 0, old(Begin()), v) + FreeRun(old(capacity), capacity, poison)
      ensures capacity == old(capacity) ==> nodes == old(nodes)
    {
      ghost var o, c := order, Contents();
      BeforeNeighbours(nodes[..], poison, free, order, freeOrder, Begin());
      if order != [] {
        IndexOfUnique(order, 0);
        assert nodes[order[0]].prev == Behind(order, 0);
      }
      added := InsertBefore(Begin(), v);
      InsertAtEnds(o, added);
      InsertAtEnds(c, v);
    }

    /** The slot writes of `erase_element`: the neighbours are linked to each other, then slot `it`
        is poisoned and pushed on the free chain. */
    method UnlinkSlot(it: nat, prv: nat, nxt: nat)
      requires it < nodes.Length && prv < nodes.Length && nxt < nodes.Length
      modifies nodes
      ensures nodes[..] == Unlink(old(nodes[..]), it, prv, nxt, free, poison)
    {
      nodes[prv] := nodes[prv].(next := nxt);
      nodes[nxt] := nodes[nxt].(prev := prv);
      nodes[it] := Node(poison, free, 0, true);
    }

    /** `erase_element`: slot `it` leaves the active chain and heads the free chain. The list stays
        linear only when the first or the last element goes; then the array may shrink. The
        sentinel is refused and nothing changes. */
    method EraseElement(it: nat)
      requires Valid() && (it == 0 || it in order)
      modifies this, nodes
      ensures Valid()
      ensures it == 0 ==>
        nodes == old(nodes) && nodes[..] == old(nodes[..]) && free == old(free) && size == old(size) &&
        capacity == old(capacity) && isLinear == old(isLinear) && order == old(order)
      ensures it != 0 ==>
        size == old(size) - 1 && order == RemoveAt(old(order), IndexOf(old(order), it)) &&
        Contents() == RemoveAt(old(Contents()), IndexOf(old(order), it)) && capacity <= old(capacity) &&
        isLinear == (old(isLinear) && (old(nodes[it].next) == 0 || old(nodes[it].prev) == 0))
      ensures it != 0 ==>
        (capacity != old(capacity) <==> ShrinkFires(isLinear, old(capacity), size) && ShrinkTarget(size, Ahead(order, 0)) < old(capacity))
      ensures it != 0 && capacity == old(capacity) ==>
        nodes == old(nodes) && free == it && freeOrder == [it] + old(freeOrder) &&
        nodes[..] == Unlink(old(nodes[..]), it, old(nodes[it].prev), old(nodes[it].next), old(free), poison)
      ensures it != 0 && capacity != old(capacity) ==>
        ShrinkFires(isLinear, old(capacity), size) && capacity == ShrinkTarget(size, Ahead(order, 0)) && fresh(nodes) &&
        nodes[..] == Shrunk(Unlink(old(nodes[..]), it, old(nodes[it].prev), old(nodes[it].next), old(free), poison), capacity, poison) &&
        freeOrder == FreeFrom(Unlink(old(nodes[..]), it, old(nodes[it].prev), old(nodes[it].next), old(free), poison), 1, capacity) &&
        free == Ahead(freeOrder, 0)
    {
      if it == 0 {
        return;
      }
      SpliceOut(it);
      TryShrink();
    }

    /** `erase_element` up to its call of `try_shrink_list`. */
    method SpliceOut(it: nat)
      requires Valid() && it in order
      modifies nodes, this
      ensures Valid() && nodes == old(nodes) && capacity == old(capacity) && free == it && size == old(size) - 1
      ensures freeOrder == [it] + old(freeOrder)
      ensures order == RemoveAt(old(order), IndexOf(old(order), it))
      ensures Contents() == RemoveAt(old(Contents()), IndexOf(old(order), it))
      ensures isLinear == (old(isLinear) && (old(nodes[it].next) == 0 || old(nodes[it].prev) == 0))
      ensures nodes[..] == Unlink(old(nodes[..]), it, old(nodes[it].prev), old(nodes[it].next), old(free), poison)
    {
      ghost var s, fo, q := nodes[..], freeOrder, IndexOf(order, it);
      var n := size - 1;
      var nxt := Next(it);
      var prv := Prev(it);
      var lin := isLinear;
      if !(nxt == 0 || prv == 0) {
        lin := false;
      }
      UnlinkSlot(it, prv, nxt);
      SpliceOutLayout(s, nodes[..], fo, q, lin);
      Adopt(nodes, it, n, lin, RemoveAt(order, q), [it] + fo);
    }

    /** The chains after the slot writes of `erase_element` at position `q`. */
    lemma SpliceOutLayout(s: seq<Node<T>>, s': seq<Node<T>>, fo: seq<nat>, q: nat, lin: bool)
      requires Layout(s, poison, Ahead(fo, 0), order, fo) && q < |order| && (isLinear ==> Contiguous(order))
      requires s' == Unlink(s, order[q], s[order[q]].prev, s[order[q]].next, Ahead(fo, 0), poison)
      requires lin ==> isLinear && (s[order[q]].next == 0 || s[order[q]].prev == 0)
      ensures Layout(s', poison, order[q], RemoveAt(order, q), [order[q]] + fo)
      ensures Values(s', RemoveAt(order, q)) == RemoveAt(Values(s, order), q)
      ensures lin ==> Contiguous(RemoveAt(order, q))
    {
      assert s[order[q]].next == Ahead(order, q + 1) && s[order[q]].prev == Behind(order, q);
      UnlinkLayout(s, poison, order, fo, q);
      UnlinkContents(s, poison, order, fo, q);
      if lin {
        LinearErase(order, q);
      }
    }

    /** `pop_back`: erase the last element; nothing happens to an empty list. */
    method PopBack()
      requires Valid()
      modifies this, nodes
      ensures Valid()
      ensures old(size) == 0 ==> order == old(order) && nodes[..] == old(nodes[..])
      ensures old(size) == 0 ==> nodes == old(nodes) && free == old(free) && capacity == old(capacity) && isLinear == old(isLinear)
      ensures old(size) > 0 ==> Contents() == old(Contents())[..old(size) - 1] && order == old(order)[..old(size) - 1]
      ensures old(size) > 0 ==> isLinear == old(isLinear) && capacity <= old(capacity)
      ensures old(size) > 0 ==>
        (capacity != old(capacity) <==> ShrinkFires(isLinear, old(capacity), size) && ShrinkTarget(size, Ahead(order, 0)) < old(capacity))
      ensures old(size) > 0 && capacity == old(capacity) ==>
        nodes == old(nodes) && free == old(End()) && freeOrder == [old(End())] + old(freeOrder)
      ensures old(End()) < old(nodes.Length) && old(nodes[End()].prev) < old(nodes.Length)
      ensures old(size) > 0 && capacity == old(capacity) ==>
        nodes[..] == Unlink(old(nodes[..]), old(End()), old(nodes[End()].prev), 0, old(free), poison)
      ensures old(size) > 0 && capacity != old(capacity) ==>
        capacity == ShrinkTarget(size, Ahead(order, 0)) && fresh(nodes) &&
        nodes[..] == Shrunk(Unlink(old(nodes[..]), old(End()), old(nodes[End()].prev), 0, old(free), poison), capacity, poison) &&
        freeOrder == FreeFrom(Unlink(old(nodes[..]), old(End()), old(nodes[End()].prev), 0, old(free), poison), 1, capacity) &&
        free == Ahead(freeOrder, 0)
    {
      TailSlot(nodes[..], poison, free, order, freeOrder);
      ghost var o, c := order, Contents();
      EraseElement(End());
      if o != [] {
        RemoveAtEnds(o);
        RemoveAtEnds(c);
      }
    }

    /** `pop_front`: erase the first element; nothing happens to an empty list. */
    method PopFront()
      requires Valid()
      modifies this, nodes
      ensures Valid()
      ensures old(size) == 0 ==> order == old(order) && nodes[..] == old(nodes[..])
      ensures old(size) == 0 ==> nodes == old(nodes) && free == old(free) && capacity == old(capacity) && isLinear == old(isLinear)
      ensures old(size) > 0 ==> Contents() == old(Contents())[1..] && order == old(order)[1..]
      ensures old(size) > 0 ==> isLinear == old(isLinear) && capacity <= old(capacity)
      ensures old(size) > 0 ==>
        (capacity != old(capacity) <==> ShrinkFires(isLinear, old(capacity), size) && ShrinkTarget(size, Ahead(order, 0)) < old(capacity))
      ensures old(size) > 0 && capacity == old(capacity) ==>
        nodes == old(nodes) && free == old(Begin()) && freeOrder == [old(Begin())] + old(freeOrder)
      ensures old(Begin()) < old(nodes.Length) && old(nodes[Begin()].next) < old(nodes.Length)
      ensures old(size) > 0 && capacity == old(capacity) ==>
        nodes[..] == Unlink(old(nodes[..]), old(Begin()), 0, old(nodes[Begin()].next), old(free), poison)
      ensures old(size) > 0 && capacity != old(capacity) ==>
        capacity == ShrinkTarget(size, Ahead(order, 0)) && fresh(nodes) &&
        nodes[..] == Shrunk(Unlink(old(nodes[..]), old(Begin()), 0, old(nodes[Begin()].next), old(free), poison), capacity, poison) &&
        freeOrder == FreeFrom(Unlink(old(nodes[..]), old(Begin()), 0, old(nodes[Begin()].next), old(free), poison), 1, capacity) &&
        free == Ahead(freeOrder, 0)
    {
      HeadSlot(nodes[..], poison, free, order, freeOrder);
      ghost var o, c := order, Contents();
      EraseElement(Begin());
      if o != [] {
        RemoveAtEnds(o);
        RemoveAtEnds(c);
      }
    }

    /** `memswap` on two distinct slots: they exchange their whole contents. */
    method SwapSlots(i: nat, j: nat)
      requires i < nodes.Length && j < nodes.Length && i != j
      modifies nodes
      ensures nodes[..] == Swapped(old(nodes[..]), i, j)
    {
      var tmp := nodes[i];
      nodes[i] := nodes[j];
      nodes[j] := tmp;
    }

    /** The first loop of `linearize`: walking the active chain, the k-th element (from 0) gets
        rank k + 1 in its `prev`; nothing else changes. */
    method StampRanks()
      requires nodes.Length > 0 && InSlots(order, nodes.Length) && Distinct(order)
      requires ActiveLinks(nodes[..], order) && nodes[0].next == Ahead(order, 0)
      modifies nodes
      ensures nodes[..] == Stamped(old(nodes[..]), order, |order|)
    {
      ghost var s := nodes[..];
      var cur := Begin();
      var cnt := 1;
      ghost var k := 0;
      while cur != 0
        invariant k <= |order| && cur == Ahead(order, k) && cnt == k + 1
        invariant nodes[..] == Stamped(s, order, k)
        decreases |order| - k
      {
        StampedKeeps(s, order, k, cur);
        assert s[order[k]].next == Ahead(order, k + 1);
        nodes[cur] := nodes[cur].(prev := cnt);
        cur := nodes[cur].next;
        cnt := cnt + 1;
        k := k + 1;
      }
    }

    /** The second loop of `linearize`: for each slot in index order, swap the element there with
        the slot of its rank until the slot is free or holds its own rank. Afterwards slot r holds
        the element of rank r and every later slot is free. */
    method PlaceByRank(ghost vals: seq<T>, ghost pos0: seq<nat>)
      requires Ranked(nodes[..], vals, pos0, poison) && Settled(nodes[..], 1)
      modifies nodes
      ensures Placed(nodes[..], vals, poison) && nodes[0] == old(nodes[0])
    {
      ghost var pos := pos0;
      for i := 1 to nodes.Length
        invariant Ranked(nodes[..], vals, pos, poison) && Settled(nodes[..], i) && nodes[0] == old(nodes[0])
      {
        while !nodes[i].isFree && nodes[i].prev != i
          invariant Ranked(nodes[..], vals, pos, poison) && Settled(nodes[..], i) && nodes[0] == old(nodes[0])
          decreases Unsettled(pos)
        {
          pos := SwapToRank(i, vals, pos);
        }
        SettledNext(nodes[..], i);
      }
      RankedPlaced(nodes[..], vals, pos, poison);
    }

    /** One swap of the second loop of `linearize`: the element at slot `i` goes to the slot of its
        rank, and the element there comes to `i`. */
    method SwapToRank(i: nat, ghost vals: seq<T>, ghost pos: seq<nat>) returns (ghost pos': seq<nat>)
      requires Ranked(nodes[..], vals, pos, poison) && Settled(nodes[..], i)
      requires 0 < i < nodes.Length && !nodes[i].isFree && nodes[i].prev != i
      modifies nodes
      ensures Ranked(nodes[..], vals, pos', poison) && Settled(nodes[..], i) && nodes[0] == old(nodes[0])
      ensures Unsettled(pos') < Unsettled(pos)
    {
      var prv := nodes[i].prev;
      SwapStep(nodes[..], vals, pos, poison, i);
      pos' := Reranked(nodes[..], pos, i);
      SwapSlots(i, prv);
    }

    /** The third loop of `linearize`: the sentinel points at the first and the last element, slots
        in use are chained in index order and free slots are chained in index order. */
    method Relink()
      requires capacity == nodes.Length > 0
      modifies nodes
      ensures nodes[..] == Relinked(old(nodes[..]), size, FirstSlot(size))
    {
      ghost var s := nodes[..];
      nodes[0] := nodes[0].(next := FirstSlot(size), prev := size);
      for i := 1 to capacity
        invariant nodes[0] == Relinked(s, size, FirstSlot(size))[0]
        invariant forall j :: 1 <= j < i ==> nodes[j] == Relinked(s, size, FirstSlot(size))[j]
        invariant forall j :: i <= j < nodes.Length ==> nodes[j] == s[j]
      {
        RelinkAt(i, s);
      }
      assert nodes[..] == Relinked(s, size, FirstSlot(size));
    }

    /** One step of the third loop of `linearize`: slot `i`, still as in `s`, is relinked. */
    method RelinkAt(i: nat, ghost s: seq<Node<T>>)
      requires 0 < i < nodes.Length == capacity == |s| && nodes[i] == s[i]
      modifies nodes
      ensures nodes[..] == old(nodes[..])[i := Relinked(s, size, FirstSlot(size))[i]]
    {
      if nodes[i].isFree {
        nodes[i] := nodes[i].(next := (i + 1) % capacity, prev := 0);
      } else {
        nodes[i] := nodes[i].(next := (i + 1) % (size + 1), prev := i - 1);
      }
    }

    /** The three loops of `linearize`: the elements end up in slots 1..size in list order, chained
        in index order, and the free slots after them in index order. */
    method Rearrange()
      requires Valid()
      modifies nodes
      ensures Layout(nodes[..], poison, size + 1, Iota(1, size + 1), Iota(size + 1, nodes.Length))
      ensures Values(nodes[..], Iota(1, size + 1)) == old(Contents())
      ensures nodes[size + 1].isFree && forall j :: 1 <= j <= size ==> !nodes[j].isFree
    {
      ghost var vals := Contents();
      Gather();
      ghost var placed := nodes[..];
      Relink();
      RearrangedLayout(placed, nodes[..], vals, size);
    }

    /** The chains after the relinking loop, stated for the array `s'` it leaves. */
    lemma RearrangedLayout(s: seq<Node<T>>, s': seq<Node<T>>, vals: seq<T>, n: nat)
      requires Placed(s, vals, poison) && |vals| + 2 <= |s| && s[0].value == poison && !s[0].isFree
      requires n == |vals| && s' == Relinked(s, n, FirstSlot(n))
      ensures Layout(s', poison, n + 1, Iota(1, n + 1), Iota(n + 1, |s'|))
      ensures Values(s', Iota(1, n + 1)) == vals
      ensures s'[n + 1].isFree && forall j :: 1 <= j <= n ==> !s'[j].isFree
    {
      RelinkedLayout(s, vals, poison);
      RelinkedInUse(s, vals, poison);
    }

    /** The first two loops of `linearize`: slot r ends up holding the element of rank r, and
        every slot after the last element is free and poisoned. */
    method Gather()
      requires Valid()
      modifies nodes
      ensures Placed(nodes[..], old(Contents()), poison) && |old(Contents())| + 2 <= nodes.Length
      ensures nodes[0].value == poison && !nodes[0].isFree
    {
      ghost var s0, vals := nodes[..], Contents();
      StampRanks();
      StampedAll(s0, order);
      StampedRanked(s0, nodes[..], poison, free, order, freeOrder);
      PlaceByRank(vals, order);
    }

    /** The rearrangement of `linearize` followed by its header writes: the list is linear, its
        elements in slots 1..size and its free chain in index order after them. */
    method Straighten()
      requires Valid() && !isLinear
      modifies this, nodes
      ensures Valid() && isLinear && size == old(size) && Contents() == old(Contents())
      ensures nodes == old(nodes) && capacity == old(capacity)
      ensures order == Iota(1, size + 1) && free == size + 1 && freeOrder == Iota(size + 1, capacity)
      ensures nodes[size + 1].isFree && forall j :: 1 <= j <= size ==> !nodes[j].isFree
    {
      Rearrange();
      Adopt(nodes, size + 1, size, true, Iota(1, size + 1), Iota(size + 1, capacity));
    }

    /** `linearize`: a list that is not linear is rearranged so that its elements occupy slots
        1..size in order with the free chain after them, becomes linear, and may then shrink. */
    method Linearize()
      requires Valid()
      modifies this, nodes
      ensures Valid() && isLinear && size == old(size) && Contents() == old(Contents())
      ensures old(isLinear) ==>
        nodes == old(nodes) && nodes[..] == old(nodes[..]) && order == old(order) && free == old(free) && capacity == old(capacity)
      ensures !old(isLinear) ==> order == Iota(1, size + 1) && free == size + 1 && capacity <= old(capacity)
      ensures !old(isLinear) ==> freeOrder == Iota(size + 1, capacity)
      ensures !old(isLinear) ==>
        (capacity != old(capacity) <==> ShrinkFires(true, old(capacity), size) && ShrinkTarget(size, 1) < old(capacity))
      ensures !old(isLinear) && capacity != old(capacity) ==> capacity == ShrinkTarget(size, 1)
    {
      if isLinear {
        return;
      }
      Straighten();
      ShrinkLinear();
    }

    /** The `try_shrink_list` that ends `linearize`: the elements stay in slots 1..size and the
        free chain still starts right after them, whether or not the array shrinks. */
    method ShrinkLinear()
      requires Valid() && isLinear && order == Iota(1, size + 1) && free == size + 1
      requires freeOrder == Iota(size + 1, capacity)
      requires nodes[size + 1].isFree && forall j :: 1 <= j <= size ==> !nodes[j].isFree
      modifies this
      ensures Valid() && isLinear && size == old(size) && Contents() == old(Contents())
      ensures order == old(order) && free == size + 1 && capacity <= old(capacity)
      ensures capacity == old(capacity) ==> freeOrder == old(freeOrder)
      ensures freeOrder == Iota(size + 1, capacity)
      ensures capacity != old(capacity) <==> ShrinkFires(true, old(capacity), size) && ShrinkTarget(size, 1) < old(capacity)
      ensures capacity != old(capacity) ==> capacity == ShrinkTarget(size, 1)
    {
      if ShrinkTarget(size, 1) <= capacity {
        FreeFromHead(nodes[..], 1, size + 1, ShrinkTarget(size, 1));
        LinearFreeFrom(nodes[..], poison, freeOrder, size, ShrinkTarget(size, 1));
      }
      TryShrink();
    }

    /** The walks of `list_check`: the header bounds, `size` steps along the active chain from
        `start`, each slot in use and pointing back at the one before, ending at 0, then
        `capacity - size - 1` steps along the free chain, each slot free with `prev` 0, ending
        at 0. An index outside the array fails the walk. */
    method CheckFrom(start: nat) returns (ok: bool)
      ensures ok == CheckPasses(nodes[..], free, size, capacity, start)
    {
      ghost var s := nodes[..];
      if free == 0 || size + 2 > capacity || capacity < DefaultCapacity {
        return false;
      }
      var last: nat, cur: nat := 0, start;
      for i := 0 to size
        invariant ActiveWalkOk(s, start, 0, size) == ActiveWalkOk(s, cur, last, size - i)
      {
        if cur >= nodes.Length || nodes[cur].prev != last || nodes[cur].isFree {
          return false;
        }
        last, cur := cur, nodes[cur].next;
      }
      if cur != 0 {
        return false;
      }
      cur := free;
      for i := size + 1 to capacity
        invariant FreeWalkOk(s, free, capacity - size - 1) == FreeWalkOk(s, cur, capacity - i)
      {
        if cur >= nodes.Length || nodes[cur].prev != 0 || !nodes[cur].isFree {
          return false;
        }
        cur := nodes[cur].next;
      }
      return cur == 0;
    }

    /** `list_check` as intended, walking from the first element: every valid list passes. */
    method Check() returns (ok: bool)
      requires nodes.Length > 0
      ensures ok == CheckPasses(nodes[..], free, size, capacity, nodes[0].next)
      ensures Valid() ==> ok
    {
      ok := CheckFrom(Begin());
      if Valid() {
        LayoutPassesCheck(nodes[..], poison, free, order, freeOrder);
      }
    }

    /** `list_check` as written, walking from `list_begin(0)`, which is 0: every valid non-empty
        list fails. */
    method CheckAsWritten() returns (ok: bool)
      ensures ok == CheckPasses(nodes[..], free, size, capacity, 0)
      ensures Valid() && size > 0 ==> !ok
    {
      ok := CheckFrom(0);
      if Valid() && size > 0 {
        WalkFromSentinelFails(nodes[..], poison, free, order, freeOrder);
      }
    }
  }

  /** Three `push_back`s on a new list take slots 1, 2 and 3, and walking the list gives the
      three values in order. The list is a fresh object, still at the default capacity. */
  method PushBackThree<T>(poison: T, x: T, y: T, z: T) returns (l: CompactList<T>, a: nat, b: nat, c: nat)
    ensures a == 1 && b == 2 && c == 3
    ensures l.Valid() && l.order == [1, 2, 3] && l.Contents() == [x, y, z]
    ensures fresh(l) && fresh(l.nodes) && l.capacity == DefaultCapacity
  {
    l := new CompactList(poison);
    assert l.nodes[2].next == 3 && l.nodes[3].next == 4;
    a := l.PushBack(x);
    assert l.nodes[2].next == 3;
    b := l.PushBack(y);
    c := l.PushBack(z);
  }
}
