/**
 * The visibility-prioritised task queue: at most `max` tasks run at once;
 * a queued task whose element is on screen is started before the others,
 * and otherwise the queue is first in, first out.
 *
 * A task is an `Item`; starting it (calling its `fn`) appends it to the
 * `started` log. Whether an item's element overlaps the scrolling
 * container is the item's `visible` flag, and whether the container itself
 * is mounted is the `container` argument.
 */
module ScrollQueue {
  import opened Wrappers

  datatype Item = Item(id: nat, visible: bool)

  /** The first visible item. */
  function FirstVisible(items: seq<Item>): (r: Option<nat>)
    ensures r.Some? ==> r.value < |items| && items[r.value].visible
    ensures r.Some? ==> forall j :: 0 <= j < r.value ==> !items[j].visible
    ensures r.None? ==> forall j :: 0 <= j < |items| ==> !items[j].visible
    decreases |items|
  {
    if items == [] then None
    else if items[0].visible then Some(0)
    else match FirstVisible(items[1..])
      case None => None
      case Some(k) => Some(k + 1)
  }

  /**
   * Which queued item `pop_next_item` takes: with a container and more than
   * one item, the first visible one; failing that, the head.
   */
  function PopIndex(items: seq<Item>, container: bool): (r: Option<nat>)
    ensures r.None? <==> items == []
    ensures r.Some? ==> r.value < |items|
  {
    if container && |items| > 1 && FirstVisible(items).Some? then FirstVisible(items)
    else if items == [] then None
    else Some(0)
  }

  function Without(items: seq<Item>, k: nat): (r: seq<Item>)
    requires k < |items|
    ensures |r| == |items| - 1
  {
    items[..k] + items[k + 1..]
  }

  /** Removing one item loses exactly that item. */
  lemma WithoutConserves(items: seq<Item>, k: nat)
    requires k < |items|
    ensures multiset(Without(items, k)) + multiset{items[k]} == multiset(items)
  {
    assert items == items[..k] + [items[k]] + items[k + 1..];
  }

  /** One pop: the item taken and the queue left behind, in order. */
  function Popped(items: seq<Item>, container: bool): (Option<Item>, seq<Item>) {
    match PopIndex(items, container)
    case None => (None, items)
    case Some(k) => (Some(items[k]), Without(items, k))
  }

  /** A visible item is preferred over every earlier invisible one. */
  lemma PopPrefersVisible(items: seq<Item>, container: bool, k: nat)
    requires container && |items| > 1
    requires k < |items| && items[k].visible && forall j :: 0 <= j < k ==> !items[j].visible
    ensures Popped(items, container) == (Some(items[k]), items[..k] + items[k + 1..])
  {
    var f := FirstVisible(items);
    assert f == Some(k) by {
      assert f.Some?;
      assert !(f.value < k) && !(k < f.value);
    }
  }

  /** Without a container, with a single item, or with nothing visible, the head is taken. */
  lemma PopFallsBackToHead(items: seq<Item>, container: bool)
    requires items != []
    requires !container || |items| == 1 || forall j :: 0 <= j < |items| ==> !items[j].visible
    ensures Popped(items, container) == (Some(items[0]), items[1..])
  {
    assert items[..0] + items[1..] == items[1..];
  }

  /** Each pop removes exactly one item; the rest keep their order. */
  lemma PopRemovesOne(items: seq<Item>, container: bool)
    requires items != []
    ensures var (taken, rest) := Popped(items, container);
            taken.Some? && |rest| == |items| - 1 &&
            exists k :: 0 <= k < |items| && items[k] == taken.value && rest == items[..k] + items[k + 1..]
  {
    var k := PopIndex(items, container).value;
    assert items[k] == Popped(items, container).0.value;
  }

  /**
   * The loop of `item_done` after the decrement: while a slot is free and
   * the queue is not empty, pop and start. Yields the queue left, the new
   * in-flight count and the items started, in order.
   */
  function Drained(items: seq<Item>, inFlight: int, max: int, container: bool): (out: (seq<Item>, int, seq<Item>))
    ensures out.0 == [] || out.1 >= max
    ensures out.1 == inFlight + |out.2|
    ensures inFlight < max ==> out.1 <= max
    decreases |items|
  {
    if inFlight >= max then (items, inFlight, [])
    else match PopIndex(items, container)
      case None => (items, inFlight, [])
      case Some(k) =>
        var (rest, n, more) := Drained(Without(items, k), inFlight + 1, max, container);
        (rest, n, [items[k]] + more)
  }

  /** One round of the drain loop: pop, and start the popped item if there was one. */
  lemma DrainedStep(items: seq<Item>, inFlight: int, max: int, container: bool)
    requires inFlight < max
    ensures Popped(items, container).0.None? ==> Drained(items, inFlight, max, container) == (items, inFlight, [])
    ensures Popped(items, container).0.Some? ==>
              var d := Drained(Popped(items, container).1, inFlight + 1, max, container);
              Drained(items, inFlight, max, container) == (d.0, d.1, [Popped(items, container).0.value] + d.2)
  {
  }

  /** Starting the popped item moves it from the pending part of the drain to the log. */
  lemma DrainedAfterStart(items: seq<Item>, inFlight: int, max: int, container: bool, log: seq<Item>, item: Item, rest: seq<Item>)
    requires inFlight < max && Popped(items, container) == (Some(item), rest)
    ensures var d, d2 := Drained(items, inFlight, max, container), Drained(rest, inFlight + 1, max, container);
            d == (d2.0, d2.1, [item] + d2.2) && log + d.2 == (log + [item]) + d2.2
  {
    DrainedStep(items, inFlight, max, container);
  }

  /** Draining loses no task and invents none: every queued task is either still queued or started. */
  lemma {:induction false} DrainedConserves(items: seq<Item>, inFlight: int, max: int, container: bool)
    ensures var out := Drained(items, inFlight, max, container);
            multiset(out.0) + multiset(out.2) == multiset(items)
    decreases |items|
  {
    if inFlight < max && items != [] {
      var k := PopIndex(items, container).value;
      WithoutConserves(items, k);
      DrainedConserves(Without(items, k), inFlight + 1, max, container);
    }
  }

  class Queue {
    var items: seq<Item>
    var inFlight: int
    var max: int
    var started: seq<Item>

    /** The counter never exceeds the bound (a non-positive bound starts nothing). */
    predicate Valid()
      reads this
    {
      0 <= inFlight && (inFlight == 0 || inFlight <= max)
    }

    constructor (maxConcurrent: int)
      ensures items == [] && inFlight == 0 && max == maxConcurrent && started == []
      ensures Valid()
    {
      items := [];
      inFlight := 0;
      max := maxConcurrent;
      started := [];
    }

    /** `add`: start at once when a slot is free, else queue at the back. */
    method Add(item: Item) returns (now: bool)
      requires Valid()
      modifies this
      ensures Valid()
      ensures now <==> old(inFlight) < old(max)
      ensures now ==> inFlight == old(inFlight) + 1 && items == old(items) && started == old(started) + [item]
      ensures !now ==> inFlight == old(inFlight) && items == old(items) + [item] && started == old(started)
      ensures max == old(max)
    {
      if inFlight < max {
        started := started + [item];
        inFlight := inFlight + 1;
        now := true;
      } else {
        items := items + [item];
        now := false;
      }
    }

    /** `pop_next_item`: scan for the first visible item, else shift the head. */
    method PopNextItem(container: bool) returns (item: Option<Item>)
      modifies this
      ensures (item, items) == Popped(old(items), container)
      ensures inFlight == old(inFlight) && max == old(max) && started == old(started)
    {
      var queue := items;
      if container && |queue| > 1 {
        var i := 0;
        while i < |queue|
          invariant 0 <= i <= |queue|
          invariant forall j :: 0 <= j < i ==> !queue[j].visible
        {
          if queue[i].visible {
            PopPrefersVisible(queue, container, i);
            item := Some(queue[i]);
            items := queue[..i] + queue[i + 1..];
            return;
          }
          i := i + 1;
        }
      }
      if queue == [] {
        return None;
      }
      PopFallsBackToHead(queue, container);
      item := Some(queue[0]);
      items := queue[1..];
    }

    /** `item_done`: one task finished; start queued tasks until the bound is reached or the queue is empty. */
    method ItemDone(container: bool)
      requires Valid() && inFlight > 0
      modifies this
      ensures Valid()
      ensures var (rest, n, more) := Drained(old(items), old(inFlight) - 1, old(max), container);
              items == rest && inFlight == n && started == old(started) + more
      ensures items == [] || inFlight == max
      ensures max == old(max)
    {
      inFlight := inFlight - 1;
      ghost var goal := Drained(items, inFlight, max, container);
      ghost var before, pending := started, goal.2;
      while inFlight < max
        invariant max == old(max) && 0 <= inFlight <= max
        invariant Drained(items, inFlight, max, container) == (goal.0, goal.1, pending)
        invariant before + goal.2 == started + pending
        decreases max - inFlight
      {
        ghost var queue, log := items, started;
        var item := PopNextItem(container);
        if item.None? {
          DrainedStep(queue, inFlight, max, container);
          break;
        }
        DrainedAfterStart(queue, inFlight, max, container, log, item.value, items);
        inFlight := inFlight + 1;
        started := started + [item.value];
        pending := Drained(items, inFlight, max, container).2;
      }
      assert pending == [] && started + [] == started;
    }
  }
}
