/** The scrolling arithmetic of `Window::run`: the height of a subtree as
    the editor draws it (`calc_item_length`) and the first top-level node to
    draw so that the selected one sits in the lower half of the screen. */
module Viewport {
  import opened Wrappers
  import opened Todo

  // ---- subtree heights ----

  /** The lines a node and its descendants take: one per node. */
  function ItemLength(item: TodoItem): nat
    decreases item, 1
  {
    1 + ForestLength(item.contents)
  }

  /** The lines a sequence of sibling subtrees takes. */
  function ForestLength(items: seq<TodoItem>): nat
    decreases items, 0
  {
    if |items| == 0 then 0 else ForestLength(items[..|items| - 1]) + ItemLength(items[|items| - 1])
  }

  /** The nodes of a subtree in preorder, the order the editor draws them. */
  function Nodes(item: TodoItem): seq<TodoItem>
    decreases item, 1
  {
    [item] + ForestNodes(item.contents)
  }

  function ForestNodes(items: seq<TodoItem>): seq<TodoItem>
    decreases items, 0
  {
    if |items| == 0 then [] else Nodes(items[0]) + ForestNodes(items[1..])
  }

  /** `calc_item_length(n)` is the number of nodes of the subtree rooted at
      `n`, so at least 1. */
  lemma {:induction false} ItemLengthCountsNodes(item: TodoItem)
    ensures ItemLength(item) == |Nodes(item)| && ItemLength(item) >= 1
    decreases item, 1
  {
    ForestLengthCountsNodes(item.contents);
  }

  lemma {:induction false} ForestLengthCountsNodes(items: seq<TodoItem>)
    ensures ForestLength(items) == |ForestNodes(items)|
    decreases items, 0
  {
    if |items| > 0 {
      ItemLengthCountsNodes(items[0]);
      ForestLengthCountsNodes(items[1..]);
      ForestLengthCons(items);
    }
  }

  /** Splitting off the first sibling. */
  lemma {:induction false} ForestLengthCons(items: seq<TodoItem>)
    requires |items| > 0
    ensures ForestLength(items) == ItemLength(items[0]) + ForestLength(items[1..])
    decreases |items|
  {
    if |items| > 1 {
      var n := |items|;
      assert items[..n - 1][1..] == items[1..][..n - 2];
      assert items[..n - 1][0] == items[0];
      assert items[1..][n - 2] == items[n - 1];
      ForestLengthCons(items[..n - 1]);
    } else {
      assert items[1..] == [];
      assert items[..0] == [];
    }
  }

  /** `calc_item_length`: one for the node and the height of every child. */
  method CalcItemLength(parent: TodoItem) returns (sum: nat)
    ensures sum == ItemLength(parent)
    decreases parent
  {
    sum := 1;
    for i := 0 to |parent.contents|
      invariant sum == 1 + ForestLength(parent.contents[..i])
    {
      var h := CalcItemLength(parent.contents[i]);
      assert parent.contents[..i + 1][..i] == parent.contents[..i];
      sum := sum + h;
    }
    assert parent.contents[..|parent.contents|] == parent.contents;
  }

  // ---- the scroll offset ----

  /** The heights of the `k` top-level nodes ending at `index`, walking
      upwards: `list[index]`, `list[index - 1]`, ... */
  function RunHeight(list: seq<TodoItem>, index: nat, k: nat): nat
    requires k <= index + 1 && (k == 0 || index < |list|)
  {
    if k == 0 then 0 else RunHeight(list, index, k - 1) + ItemLength(list[index - (k - 1)])
  }

  /** The loop of the offset block from `relative` nodes consumed with
      `full` lines counted: it consumes the next node while it is no taller
      than the screen and, with it, the lines counted stay below half the
      screen less two. `amount / 2 - sum - 2` is unsigned, so it is an
      `Underflow` when `sum + 2` exceeds half the screen. */
  function Consumed(list: seq<TodoItem>, index: nat, amount: nat, relative: nat, full: nat): Result<nat, Error>
    requires relative <= index && (index == 0 || index < |list|)
    decreases index - relative
  {
    if index <= relative then Success(relative)
    else
      var sum := ItemLength(list[index - relative]);
      if amount < sum then Success(relative)
      else if amount / 2 < sum + 2 then Failure(Underflow)
      else if full < amount / 2 - sum - 2 then Consumed(list, index, amount, relative + 1, full + sum)
      else Success(relative)
  }

  /** The offset `run` computes for the top-level list `list`, the first
      cursor entry `index` and `amount` lines: `index` less the nodes
      consumed. */
  function ScrollOffset(list: seq<TodoItem>, index: nat, amount: nat): Result<nat, Error>
    requires index == 0 || index < |list|
  {
    match Consumed(list, index, amount, 0, 0)
    case Success(k) => ConsumedBounds(list, index, amount, 0, 0); Success(index - k)
    case Failure(e) => Failure(e)
  }

  lemma {:induction false} ConsumedBounds(list: seq<TodoItem>, index: nat, amount: nat, relative: nat, full: nat)
    requires relative <= index && (index == 0 || index < |list|)
    ensures Consumed(list, index, amount, relative, full).Success? ==>
      relative <= Consumed(list, index, amount, relative, full).value <= index
    decreases index - relative
  {
    if index > relative {
      var sum := ItemLength(list[index - relative]);
      if amount >= sum && amount / 2 >= sum + 2 && full < amount / 2 - sum - 2 {
        ConsumedBounds(list, index, amount, relative + 1, full + sum);
      }
    }
  }

  /** The consumed nodes fit: together they take fewer than `amount / 2 - 2`
      lines. */
  predicate Fits(list: seq<TodoItem>, index: nat, amount: nat, k: nat)
    requires k <= index + 1 && (k == 0 || index < |list|)
  {
    k == 0 || RunHeight(list, index, k) + 2 < amount / 2
  }

  /** The node after the `k` consumed ones does not: it is taller than the
      screen, or with it the lines counted would reach `amount / 2 - 2`. */
  predicate Stops(list: seq<TodoItem>, index: nat, amount: nat, k: nat)
    requires k < index && index < |list|
  {
    var sum := ItemLength(list[index - k]);
    amount < sum || (sum + 2 <= amount / 2 && RunHeight(list, index, k) + sum + 2 >= amount / 2)
  }

  /** What the loop does from a point where `full` is the height of the
      `relative` nodes consumed and they fit: it stops at the first node
      that does not fit, and fails only where that node makes the unsigned
      subtraction go below zero. */
  lemma {:induction false} ConsumedMeaning(list: seq<TodoItem>, index: nat, amount: nat, relative: nat, full: nat)
    requires relative <= index && (index == 0 || index < |list|)
    requires full == RunHeight(list, index, relative) && Fits(list, index, amount, relative)
    ensures var c := Consumed(list, index, amount, relative, full);
      (c.Failure? ==> c.error == Underflow) &&
      (c.Success? ==>
        (relative <= c.value <= index && Fits(list, index, amount, c.value) &&
         (c.value < index ==> Stops(list, index, amount, c.value))))
    decreases index - relative
  {
    if index > relative {
      var sum := ItemLength(list[index - relative]);
      if amount >= sum && amount / 2 >= sum + 2 && full < amount / 2 - sum - 2 {
        assert RunHeight(list, index, relative + 1) == full + sum;
        ConsumedMeaning(list, index, amount, relative + 1, full + sum);
      }
    }
  }

  /** The offset never passes the selected node, is 0 for the first node,
      and leaves above the selected node exactly the run of nodes that fits
      in the upper half of the screen. */
  lemma ScrollOffsetMeaning(list: seq<TodoItem>, index: nat, amount: nat)
    requires index == 0 || index < |list|
    ensures ScrollOffset(list, index, amount).Failure? ==> ScrollOffset(list, index, amount).error == Underflow
    ensures ScrollOffset(list, index, amount).Success? ==>
      var o := ScrollOffset(list, index, amount).value;
      o <= index && Fits(list, index, amount, index - o) && (o > 0 ==> Stops(list, index, amount, index - o))
    ensures index == 0 ==> ScrollOffset(list, index, amount) == Success(0)
  {
    ConsumedMeaning(list, index, amount, 0, 0);
  }

  /** The offset block of `run` (lines 68-93 of `window/mod.rs`). */
  method ComputeOffset(list: seq<TodoItem>, index: nat, amount: nat) returns (r: Result<nat, Error>)
    requires index == 0 || index < |list|
    ensures r == ScrollOffset(list, index, amount)
  {
    var offset: nat := 0;
    var fullOffset: nat := 0;
    var relative: nat := 0;
    while index > relative
      invariant relative <= index && offset == relative
      invariant Consumed(list, index, amount, relative, fullOffset) == Consumed(list, index, amount, 0, 0)
      decreases index - relative
    {
      var sum := CalcItemLength(list[index - relative]);
      if amount >= sum {
        if amount / 2 < sum + 2 {
          return Failure(Underflow);
        }
        if fullOffset < amount / 2 - sum - 2 {
          fullOffset := fullOffset + sum;
        } else {
          break;
        }
      } else {
        break;
      }
      relative := relative + 1;
      offset := offset + 1;
    }
    ConsumedBounds(list, index, amount, 0, 0);
    if index <= relative {
      offset := 0;
    } else if index > offset {
      offset := index - offset;
    }
    return Success(offset);
  }
}
