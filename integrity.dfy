/** What `list_check` accepts: the header bounds, then a walk along the active chain and a
    walk along the free chain, each of a fixed number of steps ending at 0. */
module Integrity {
  import opened Slots

  /** `steps` steps along `next` from `cur`, each slot in use and pointing back at the slot
      before it (`last`), and then the sentinel. An index outside the array fails the walk. */
  function ActiveWalkOk<T>(s: seq<Node<T>>, cur: nat, last: nat, steps: nat): (ok: bool)
    decreases steps
  {
    if steps == 0 then cur == 0
    else cur < |s| && s[cur].prev == last && !s[cur].isFree && ActiveWalkOk(s, s[cur].next, cur, steps - 1)
  }

  /** `steps` steps along `next` from `cur`, each slot free with `prev` 0, and then 0. */
  function FreeWalkOk<T>(s: seq<Node<T>>, cur: nat, steps: nat): (ok: bool)
    decreases steps
  {
    if steps == 0 then cur == 0
    else cur < |s| && s[cur].prev == 0 && s[cur].isFree && FreeWalkOk(s, s[cur].next, steps - 1)
  }

  /** The verdict of `list_check` when its active walk starts at `start`. */
  function CheckPasses<T>(s: seq<Node<T>>, free: nat, size: nat, capacity: nat, start: nat): (ok: bool)
  {
    free != 0 && size + 2 <= capacity && capacity >= DefaultCapacity &&
    ActiveWalkOk(s, start, 0, size) && FreeWalkOk(s, free, capacity - size - 1)
  }

  /** From position k on, the active chain of a consistent layout passes the active walk. */
  lemma {:induction false} ActiveChainWalks<T>(s: seq<Node<T>>, poison: T, free: nat, order: seq<nat>, fo: seq<nat>, k: nat)
    requires Layout(s, poison, free, order, fo) && k <= |order|
    ensures ActiveWalkOk(s, Ahead(order, k), Behind(order, k), |order| - k)
    decreases |order| - k
  {
    if k < |order| {
      ActiveChainWalks(s, poison, free, order, fo, k + 1);
      assert s[order[k]].next == Ahead(order, k + 1) && s[order[k]].prev == Behind(order, k);
      assert Behind(order, k + 1) == order[k];
    }
  }

  /** From position k on, the free chain of a consistent layout passes the free walk. */
  lemma {:induction false} FreeChainWalks<T>(s: seq<Node<T>>, poison: T, free: nat, order: seq<nat>, fo: seq<nat>, k: nat)
    requires Layout(s, poison, free, order, fo) && k <= |fo|
    ensures FreeWalkOk(s, Ahead(fo, k), |fo| - k)
    decreases |fo| - k
  {
    if k < |fo| {
      FreeChainWalks(s, poison, free, order, fo, k + 1);
      assert s[fo[k]] == Node(poison, Ahead(fo, k + 1), 0, true);
    }
  }

  /** A consistent list within the capacity bounds passes the check when the walk starts at
      the first element, as `list_check` intends. */
  lemma LayoutPassesCheck<T>(s: seq<Node<T>>, poison: T, free: nat, order: seq<nat>, fo: seq<nat>)
    requires Layout(s, poison, free, order, fo) && |order| + 2 <= |s| && |s| >= DefaultCapacity
    ensures CheckPasses(s, free, |order|, |s|, s[0].next)
  {
    ActiveChainWalks(s, poison, free, order, fo, 0);
    FreeChainWalks(s, poison, free, order, fo, 0);
    assert fo[0] != 0;
  }

  /** Sixteen slots that pass the check without forming a list: the sentinel and slot 1 point at
      each other, so a walk of three steps visits slot 1 twice, and slots 2 and 3 are on neither
      chain; slots 4..15 form the free chain. */
  function Tangled<T>(poison: T): (s: seq<Node<T>>)
    ensures |s| == DefaultCapacity && s[0] == Node(poison, 1, 1, false) && s[1] == Node(poison, 0, 0, false)
    ensures forall j :: 2 <= j < |s| ==> s[j].isFree && s[j].prev == 0
  {
    seq(DefaultCapacity, j =>
      if j == 0 then Node(poison, 1, 1, false)
      else if j == 1 then Node(poison, 0, 0, false)
      else Node(poison, (j + 1) % DefaultCapacity, 0, true))
  }

  /** The walks of `list_check` only ever look at `size` active and `capacity - size - 1` free
      steps, so they accept slots that no consistent layout of three elements describes. */
  lemma CheckAcceptsTangled<T>(poison: T, free: nat, order: seq<nat>, fo: seq<nat>)
    ensures CheckPasses(Tangled(poison), 4, 3, DefaultCapacity, Tangled(poison)[0].next)
    ensures |order| == 3 ==> !Layout(Tangled(poison), poison, free, order, fo)
  {
    var s := Tangled(poison);
    assert ActiveWalkOk(s, 1, 0, 1);
    assert ActiveWalkOk(s, 0, 1, 2);
    assert ActiveWalkOk(s, 1, 0, 3);
    TangledFree(poison, 4);
  }

  /** The free walk of the tangled slots from slot `c` on runs up to slot 15 and then to 0. */
  lemma {:induction false} TangledFree<T>(poison: T, c: nat)
    requires 4 <= c < DefaultCapacity
    ensures FreeWalkOk(Tangled(poison), c, DefaultCapacity - c)
    decreases DefaultCapacity - c
  {
    ModWrap(c + 1, DefaultCapacity);
    assert Tangled(poison)[c] == Node(poison, (c + 1) % DefaultCapacity, 0, true);
    if c + 1 < DefaultCapacity {
      TangledFree(poison, c + 1);
    }
  }

  /** Starting the active walk at 0 (what `list_begin(0)` returns) fails on every consistent
      non-empty list: the sentinel's `prev` is the last element, not 0. */
  lemma WalkFromSentinelFails<T>(s: seq<Node<T>>, poison: T, free: nat, order: seq<nat>, fo: seq<nat>)
    requires Layout(s, poison, free, order, fo) && order != []
    ensures !CheckPasses(s, free, |order|, |s|, 0)
  {
    assert s[0].prev == order[|order| - 1] != 0;
  }
}
