/** The layout of `WindowView::print_out_list`: a header line, then the
    nodes of the active document from `offset` on, in preorder, one line
    each, until the line budget runs out. Escape codes and centring are not
    modelled; a line records what it shows. */
module View {
  import opened Wrappers
  import opened Todo
  import opened State
  import opened Tree
  import opened Viewport

  datatype Color = Red | Yellow | Green

  /** `get_color`: the colour of a completion percentage. */
  function GetColor(val: nat): (c: Color)
    ensures c == Red <==> val <= 33
    ensures c == Yellow <==> 34 <= val <= 66
    ensures c == Green <==> val >= 67
  {
    if val <= 33 then Red else if val <= 66 then Yellow else Green
  }

  function ColorRank(c: Color): nat {
    match c
    case Red => 0
    case Yellow => 1
    case Green => 2
  }

  /** A higher percentage never gets a colour further from green. */
  lemma ColorMonotone(a: nat, b: nat)
    requires a <= b
    ensures ColorRank(GetColor(a)) <= ColorRank(GetColor(b))
  {
  }

  /** `iter().filter(|x| x.ticked_off).count()`. */
  function CountTicked(items: seq<TodoItem>): (n: nat)
    ensures n <= |items|
    ensures n == |items| <==> forall k :: 0 <= k < |items| ==> items[k].tickedOff
    ensures n == 0 <==> forall k :: 0 <= k < |items| ==> !items[k].tickedOff
  {
    if |items| == 0 then 0
    else (if items[0].tickedOff then 1 else 0) + CountTicked(items[1..])
  }

  /** The completion percentage of the header, rounded down; 0 for an
      empty document. */
  function Percentage(items: seq<TodoItem>): nat {
    if |items| > 0 then Quotient(100 * CountTicked(items), |items|) else 0
  }

  /** Unsigned integer division `a / b`, by repeated subtraction. */
  function Quotient(a: nat, b: nat): nat
    requires b > 0
    decreases a
  {
    if a < b then 0 else 1 + Quotient(a - b, b)
  }

  /** `Quotient` is the division of `usize`, which rounds down. */
  lemma {:induction false} QuotientIsDivision(a: nat, b: nat)
    requires b > 0
    ensures Quotient(a, b) == a / b
    decreases a
  {
    if a < b {
      DivUnique(a, b, 0, a);
    } else {
      QuotientIsDivision(a - b, b);
      var q := (a - b) / b;
      assert a - b == b * q + (a - b) % b;
      assert a == b * (q + 1) + (a - b) % b;
      DivUnique(a, b, q + 1, (a - b) % b);
    }
  }

  /** The quotient and remainder of a Euclidean division are unique. */
  lemma DivUnique(a: nat, b: nat, q: nat, r: nat)
    requires b > 0 && r < b && a == b * q + r
    ensures a / b == q
  {
    var d := a / b;
    assert a == b * d + a % b;
    if d > q {
      assert b * (q + 1) == b * q + b;
      MulRight(b, q + 1, d);
    } else if d < q {
      assert b * (d + 1) == b * d + b;
      MulRight(b, d + 1, q);
    }
  }

  /** The percentage is at most 100, is 100 exactly when every node is
      ticked and 0 when none is. */
  lemma PercentageBounds(items: seq<TodoItem>)
    ensures Percentage(items) <= 100
    ensures |items| > 0 ==> (Percentage(items) == 100 <==> CountTicked(items) == |items|)
    ensures CountTicked(items) == 0 ==> Percentage(items) == 0
  {
    if |items| > 0 {
      QuotientIsDivision(100 * CountTicked(items), |items|);
      PercentOf(CountTicked(items), |items|);
    }
  }

  /** `100 * t / n` for `t` of `n` ticked. */
  lemma PercentOf(t: nat, n: nat)
    requires 0 < n && t <= n
    ensures (100 * t) / n <= 100
    ensures (100 * t) / n == 100 <==> t == n
    ensures t == 0 ==> (100 * t) / n == 0
  {
    DivBelow(100 * t, n, 100);
    if t < n {
      DivStrictlyBelow(100 * t, n, 100);
    } else {
      DivAtLeast(100 * t, n, 100);
    }
  }

  lemma DivBelow(a: nat, n: nat, q: nat)
    requires n > 0 && a <= q * n
    ensures a / n <= q
  {
    var d := a / n;
    assert a == n * d + a % n;
    if d > q {
      assert n * (q + 1) == n * q + n;
      MulRight(n, q + 1, d);
    }
  }

  lemma DivStrictlyBelow(a: nat, n: nat, q: nat)
    requires n > 0 && a < q * n
    ensures a / n < q
  {
    var d := a / n;
    assert a == n * d + a % n;
    if d >= q {
      MulRight(n, q, d);
    }
  }

  lemma DivAtLeast(a: nat, n: nat, q: nat)
    requires n > 0 && q > 0 && a >= q * n
    ensures a / n >= q
  {
    var d := a / n;
    assert a == n * d + a % n;
    if d < q {
      assert n * (q - 1) + n == n * q;
      MulRight(n, d, q - 1);
    }
  }

  lemma MulRight(n: nat, a: nat, b: nat)
    requires a <= b
    ensures n * a <= n * b
  {
    assert n * b == n * a + n * (b - a);
  }

  /** What a line shows: the header with the document name, the two dirty
      flags (`*` and `!`), the ticked and total counts and the coloured
      percentage; or an entry indented by `depth`, with the selection arrow
      when `marked` and a tick when `tick`. */
  datatype Line =
    | Header(name: string, changes: bool, destructive: bool, ticked: nat, total: nat, percentage: nat, color: Color)
    | Entry(depth: nat, marked: bool, tick: bool, title: string)

  /** Lines written and the budget left. */
  datatype Layout = Layout(lines: seq<Line>, budget: nat)

  /** `print_item`: the node's own line, marked when it may be selected and
      the cursor ends at its depth, then its children while the budget lasts.
      A child may be selected when its parent may, the cursor goes deeper,
      and the cursor entry at the child's depth is the child's index. */
  function PrintItem(cur: seq<nat>, item: TodoItem, depth: nat, sel: bool, budget: nat): (r: Layout)
    requires budget >= 1 && (sel ==> |cur| >= depth + 1)
    ensures |r.lines| + r.budget == budget
    decreases item, 1
  {
    var line := Entry(depth, sel && |cur| == depth + 1, item.tickedOff, item.title);
    var rest := PrintChildren(cur, item.contents, 0, depth, sel, budget - 1);
    Layout([line] + rest.lines, rest.budget)
  }

  /** The loop of `print_item` over the children from index `i`. */
  function PrintChildren(cur: seq<nat>, items: seq<TodoItem>, i: nat, depth: nat, parentSel: bool, budget: nat): (r: Layout)
    requires i <= |items| && (parentSel ==> |cur| >= depth + 1)
    ensures |r.lines| + r.budget == budget
    decreases items, 0, |items| - i
  {
    if i == |items| || budget == 0 then Layout([], budget)
    else
      var sel := |cur| != depth + 1 && parentSel && cur[depth + 1] == i;
      var first := PrintItem(cur, items[i], depth + 1, sel, budget);
      var rest := PrintChildren(cur, items, i + 1, depth, parentSel, first.budget);
      Layout(first.lines + rest.lines, rest.budget)
  }

  /** The loop of `print_out_list` over the top-level nodes from position
      `j`; the node at position `j` may be selected when `cur[0] == j`. */
  function PrintTop(cur: seq<nat>, items: seq<TodoItem>, j: nat, budget: nat): (r: Layout)
    requires |cur| >= 1 && j <= |items|
    ensures |r.lines| + r.budget == budget
    decreases |items| - j
  {
    if j == |items| || budget == 0 then Layout([], budget)
    else
      var first := PrintItem(cur, items[j], 0, cur[0] == j, budget);
      var rest := PrintTop(cur, items, j + 1, first.budget);
      Layout(first.lines + rest.lines, rest.budget)
  }

  /** `print_out_list(win, offset, amount)`: nothing for no lines, else the
      header and the nodes from `offset` in the remaining `amount - 1`. */
  function PrintOutList(s: Snapshot, offset: nat, amount: nat): (lines: seq<Line>)
    requires s.WellFormed()
    ensures |lines| <= amount
    ensures amount == 0 <==> lines == []
    ensures amount > 0 ==> lines[0] == HeaderLine(s)
  {
    if amount == 0 then []
    else [HeaderLine(s)] + PrintTop(s.cur, s.Contents(), Start(s, offset), amount - 1).lines
  }

  /** The header: the document name, its `*` and `!` flags, the
      ticked and total counts and the coloured completion percentage. */
  function HeaderLine(s: Snapshot): (h: Line)
    requires s.WellFormed()
    ensures h.Header? && h.name == s.Current().name && h.total == |s.Contents()|
    ensures h.changes == s.changes && h.destructive == s.destructiveChanges
    ensures h.ticked == CountTicked(s.Contents()) && h.percentage <= 100 && h.color == GetColor(h.percentage)
  {
    PercentageBounds(s.Contents());
    var list := s.Current();
    var p := Percentage(list.contents);
    Header(list.name, s.changes, s.destructiveChanges, CountTicked(list.contents), |list.contents|, p, GetColor(p))
  }

  /** `skip(offset)`: past the end nothing is left. */
  function Start(s: Snapshot, offset: nat): nat
    requires s.WellFormed()
  {
    if offset <= |s.Contents()| then offset else |s.Contents()|
  }

  // ---- what the layout shows ----

  /** What the entry lines show, in order: the indentation depth, the title
      and the tick of each. */
  function Shown(lines: seq<Line>): seq<(nat, string, bool)> {
    if |lines| == 0 then []
    else (if lines[0].Entry? then [(lines[0].depth, lines[0].title, lines[0].tick)] else []) + Shown(lines[1..])
  }

  /** A subtree as an outline: every node in preorder with its depth below
      the top level, its title and whether it is ticked off. */
  function Outline(item: TodoItem, depth: nat): seq<(nat, string, bool)>
    decreases item, 1
  {
    [(depth, item.title, item.tickedOff)] + ForestOutline(item.contents, depth + 1)
  }

  function ForestOutline(items: seq<TodoItem>, depth: nat): seq<(nat, string, bool)>
    decreases items, 0
  {
    if |items| == 0 then [] else Outline(items[0], depth) + ForestOutline(items[1..], depth)
  }

  lemma {:induction false} ShownAppend(a: seq<Line>, b: seq<Line>)
    ensures Shown(a + b) == Shown(a) + Shown(b)
    decreases |a|
  {
    if |a| > 0 {
      assert (a + b)[1..] == a[1..] + b;
      ShownAppend(a[1..], b);
    } else {
      assert a + b == b;
    }
  }

  function Min(a: nat, b: nat): nat {
    if a <= b then a else b
  }

  /** The first `n` elements of two sequences put together. */
  lemma TakeAppend<T>(a: seq<T>, b: seq<T>, n: nat)
    requires n <= |a| + |b|
    ensures (a + b)[..n] == if n <= |a| then a[..n] else a + b[..n - |a|]
  {
    if n > |a| {
      assert (a + b)[..n] == a + b[..n - |a|];
    }
  }

  /** An outline has one row per node: its length is the subtree height. */
  lemma {:induction false} OutlineLength(item: TodoItem, depth: nat)
    ensures |Outline(item, depth)| == ItemLength(item)
    decreases item, 1
  {
    ForestOutlineLength(item.contents, depth + 1);
  }

  lemma {:induction false} ForestOutlineLength(items: seq<TodoItem>, depth: nat)
    ensures |ForestOutline(items, depth)| == ForestLength(items)
    decreases items, 0
  {
    if |items| > 0 {
      OutlineLength(items[0], depth);
      ForestOutlineLength(items[1..], depth);
      ForestLengthCons(items);
    }
  }

  /** The siblings from `i` are the one at `i` and those after it, in the
      outline and in the lines they take. */
  lemma ForestStep(items: seq<TodoItem>, i: nat, depth: nat)
    requires i < |items|
    ensures ForestOutline(items[i..], depth) == Outline(items[i], depth) + ForestOutline(items[i + 1..], depth)
    ensures ForestLength(items[i..]) == ItemLength(items[i]) + ForestLength(items[i + 1..])
  {
    ForestLengthCons(items[i..]);
    assert items[i..][0] == items[i];
    assert items[i..][1..] == items[i + 1..];
  }

  /** Whatever the budget, `print_item` writes the start of the subtree's
      outline in preorder, one line per node at the node's depth with its
      title and tick, as many as the budget allows, and takes exactly those
      lines from the budget. */
  lemma {:induction false} PrintItemShows(cur: seq<nat>, item: TodoItem, depth: nat, sel: bool, budget: nat)
    requires budget >= 1 && (sel ==> |cur| >= depth + 1)
    ensures |Outline(item, depth)| == ItemLength(item)
    ensures var m := Min(budget, ItemLength(item));
      PrintItem(cur, item, depth, sel, budget).budget == budget - m &&
      Shown(PrintItem(cur, item, depth, sel, budget).lines) == Outline(item, depth)[..m]
    decreases item, 1
  {
    var line := Entry(depth, sel && |cur| == depth + 1, item.tickedOff, item.title);
    var rest := PrintChildren(cur, item.contents, 0, depth, sel, budget - 1);
    assert PrintItem(cur, item, depth, sel, budget) == Layout([line] + rest.lines, rest.budget);
    assert item.contents[0..] == item.contents;
    PrintChildrenShows(cur, item.contents, 0, depth, sel, budget - 1);
    assert [line][1..] == [];
    ForestOutlineLength(item.contents, depth + 1);
    LoopStep(PrintItem(cur, item, depth, sel, budget), Layout([line], budget - 1), rest, budget,
      [(depth, item.title, item.tickedOff)], ForestOutline(item.contents, depth + 1),
      Outline(item, depth), ItemLength(item));
  }

  /** One step of a drawing loop: when a layout is a first part that shows
      the start of `o` followed by a rest that shows the start of `fo` with
      what is left of the budget, it shows the start of `o + fo`. */
  lemma LoopStep(l: Layout, first: Layout, rest: Layout, budget: nat, o: seq<(nat, string, bool)>, fo: seq<(nat, string, bool)>,
                 whole: seq<(nat, string, bool)>, len: nat)
    requires l == Layout(first.lines + rest.lines, rest.budget)
    requires whole == o + fo && len == |o| + |fo|
    requires Shown(first.lines) == o[..Min(budget, |o|)] && first.budget == budget - Min(budget, |o|)
    requires Shown(rest.lines) == fo[..Min(first.budget, |fo|)] && rest.budget == first.budget - Min(first.budget, |fo|)
    ensures l.budget == budget - Min(budget, len) && Shown(l.lines) == whole[..Min(budget, len)]
  {
    ShownAppend(first.lines, rest.lines);
    TakeAppend(o, fo, Min(budget, |o| + |fo|));
    if budget >= |o| {
      assert o[..|o|] == o;
    }
  }

  /** The loop over the children from `i`, whatever the budget. */
  lemma {:induction false} PrintChildrenShows(cur: seq<nat>, items: seq<TodoItem>, i: nat, depth: nat, parentSel: bool, budget: nat)
    requires i <= |items| && (parentSel ==> |cur| >= depth + 1)
    ensures |ForestOutline(items[i..], depth + 1)| == ForestLength(items[i..])
    ensures var m := Min(budget, ForestLength(items[i..]));
      PrintChildren(cur, items, i, depth, parentSel, budget).budget == budget - m &&
      Shown(PrintChildren(cur, items, i, depth, parentSel, budget).lines) == ForestOutline(items[i..], depth + 1)[..m]
    decreases items, 0, |items| - i
  {
    ForestOutlineLength(items[i..], depth + 1);
    if i == |items| {
      assert items[i..] == [];
    } else if budget > 0 {
      var sel := |cur| != depth + 1 && parentSel && cur[depth + 1] == i;
      var first := PrintItem(cur, items[i], depth + 1, sel, budget);
      var rest := PrintChildren(cur, items, i + 1, depth, parentSel, first.budget);
      ForestStep(items, i, depth + 1);
      PrintItemShows(cur, items[i], depth + 1, sel, budget);
      PrintChildrenShows(cur, items, i + 1, depth, parentSel, first.budget);
      LoopStep(PrintChildren(cur, items, i, depth, parentSel, budget), first, rest, budget,
        Outline(items[i], depth + 1), ForestOutline(items[i + 1..], depth + 1),
        ForestOutline(items[i..], depth + 1), ForestLength(items[i..]));
    }
  }

  /** The top-level loop from position `j`, whatever the budget. */
  lemma {:induction false} PrintTopShows(cur: seq<nat>, items: seq<TodoItem>, j: nat, budget: nat)
    requires |cur| >= 1 && j <= |items|
    ensures |ForestOutline(items[j..], 0)| == ForestLength(items[j..])
    ensures var m := Min(budget, ForestLength(items[j..]));
      PrintTop(cur, items, j, budget).budget == budget - m &&
      Shown(PrintTop(cur, items, j, budget).lines) == ForestOutline(items[j..], 0)[..m]
    decreases |items| - j
  {
    ForestOutlineLength(items[j..], 0);
    if j == |items| {
      assert items[j..] == [];
    } else if budget > 0 {
      var first := PrintItem(cur, items[j], 0, cur[0] == j, budget);
      var rest := PrintTop(cur, items, j + 1, first.budget);
      ForestStep(items, j, 0);
      PrintItemShows(cur, items[j], 0, cur[0] == j, budget);
      PrintTopShows(cur, items, j + 1, first.budget);
      LoopStep(PrintTop(cur, items, j, budget), first, rest, budget,
        Outline(items[j], 0), ForestOutline(items[j + 1..], 0),
        ForestOutline(items[j..], 0), ForestLength(items[j..]));
    }
  }

  /** With budget for the whole subtree, `print_item` writes one line per
      node, in preorder, at the node's depth and with its title and tick, and
      leaves the rest of the budget; the lines taken are the height
      `calc_item_length` computes. */
  lemma PrintItemWhole(cur: seq<nat>, item: TodoItem, depth: nat, sel: bool, budget: nat)
    requires budget >= ItemLength(item) && (sel ==> |cur| >= depth + 1)
    ensures PrintItem(cur, item, depth, sel, budget).budget == budget - ItemLength(item)
    ensures Shown(PrintItem(cur, item, depth, sel, budget).lines) == Outline(item, depth)
  {
    ItemLengthCountsNodes(item);
    PrintItemShows(cur, item, depth, sel, budget);
    OutlineLength(item, depth);
    assert Outline(item, depth)[..ItemLength(item)] == Outline(item, depth);
  }

  lemma PrintChildrenWhole(cur: seq<nat>, items: seq<TodoItem>, i: nat, depth: nat, parentSel: bool, budget: nat)
    requires i <= |items| && (parentSel ==> |cur| >= depth + 1)
    requires budget >= ForestLength(items[i..])
    ensures PrintChildren(cur, items, i, depth, parentSel, budget).budget == budget - ForestLength(items[i..])
    ensures Shown(PrintChildren(cur, items, i, depth, parentSel, budget).lines) == ForestOutline(items[i..], depth + 1)
  {
    PrintChildrenShows(cur, items, i, depth, parentSel, budget);
    ForestOutlineLength(items[i..], depth + 1);
    assert ForestOutline(items[i..], depth + 1)[..ForestLength(items[i..])] == ForestOutline(items[i..], depth + 1);
  }

  /** The top-level loop with budget for every remaining node. */
  lemma PrintTopWhole(cur: seq<nat>, items: seq<TodoItem>, j: nat, budget: nat)
    requires |cur| >= 1 && j <= |items| && budget >= ForestLength(items[j..])
    ensures PrintTop(cur, items, j, budget).budget == budget - ForestLength(items[j..])
    ensures Shown(PrintTop(cur, items, j, budget).lines) == ForestOutline(items[j..], 0)
  {
    PrintTopShows(cur, items, j, budget);
    ForestOutlineLength(items[j..], 0);
    assert ForestOutline(items[j..], 0)[..ForestLength(items[j..])] == ForestOutline(items[j..], 0);
  }

  /** With lines to draw, the screen is the header line and below it the
      top-level loop from the clamped offset with one line less. */
  lemma ScreenBody(s: Snapshot, offset: nat, amount: nat)
    requires s.WellFormed() && amount > 0
    ensures var body := PrintTop(s.cur, s.Contents(), Start(s, offset), amount - 1).lines;
      Shown(PrintOutList(s, offset, amount)) == Shown(body) &&
      Marked(PrintOutList(s, offset, amount)) == Marked(body)
  {
    var h := HeaderLine(s);
    var body := PrintTop(s.cur, s.Contents(), Start(s, offset), amount - 1).lines;
    assert PrintOutList(s, offset, amount) == [h] + body;
    assert h.Header?;
    assert [h][1..] == [];
    ShownAppend([h], body);
    MarkedAppend([h], body);
  }

  /** Below the header, the screen shows the start of the outline of the
      nodes from the offset: all of it when it fits in `amount - 1` lines,
      and otherwise as many rows as fit, so the screen is full. */
  lemma ScreenShows(s: Snapshot, offset: nat, amount: nat)
    requires s.WellFormed() && amount > 0
    ensures |ForestOutline(s.Contents()[Start(s, offset)..], 0)| == ForestLength(s.Contents()[Start(s, offset)..])
    ensures var items := s.Contents()[Start(s, offset)..];
      Shown(PrintOutList(s, offset, amount)) == ForestOutline(items, 0)[..Min(amount - 1, ForestLength(items))]
  {
    var j := Start(s, offset);
    var items := s.Contents()[j..];
    var body := PrintTop(s.cur, s.Contents(), j, amount - 1).lines;
    ScreenBody(s, offset, amount);
    PrintTopShows(s.cur, s.Contents(), j, amount - 1);
    assert Shown(PrintOutList(s, offset, amount)) == Shown(body);
    assert Shown(body) == ForestOutline(items, 0)[..Min(amount - 1, ForestLength(items))];
  }

  /** When the nodes from `offset` on fit below the header, the screen shows
      exactly them, in preorder, each indented by its depth and ticked when
      it is ticked off. */
  lemma ScreenShowsNodes(s: Snapshot, offset: nat, amount: nat)
    requires s.WellFormed() && offset <= |s.Contents()|
    requires amount > ForestLength(s.Contents()[offset..])
    ensures Shown(PrintOutList(s, offset, amount)) == ForestOutline(s.Contents()[offset..], 0)
  {
    ScreenShows(s, offset, amount);
    ForestOutlineLength(s.Contents()[offset..], 0);
    var o := ForestOutline(s.Contents()[offset..], 0);
    assert o[..|o|] == o;
  }

  // ---- the selection marker ----

  /** The lines that carry the selection arrow, in order. */
  function Marked(lines: seq<Line>): seq<Line> {
    if |lines| == 0 then []
    else (if lines[0].Entry? && lines[0].marked then [lines[0]] else []) + Marked(lines[1..])
  }

  function CountMarked(lines: seq<Line>): nat {
    |Marked(lines)|
  }

  lemma {:induction false} MarkedAppend(a: seq<Line>, b: seq<Line>)
    ensures Marked(a + b) == Marked(a) + Marked(b)
    decreases |a|
  {
    if |a| > 0 {
      assert (a + b)[1..] == a[1..] + b;
      MarkedAppend(a[1..], b);
    } else {
      assert a + b == b;
    }
  }

  /** The node the cursor designates below `item`, which sits at `depth`. */
  function Designated(cur: seq<nat>, item: TodoItem, depth: nat): Option<TodoItem>
    requires |cur| >= depth + 1
    decreases |cur| - depth
  {
    if |cur| == depth + 1 then Some(item)
    else if cur[depth + 1] < |item.contents| then Designated(cur, item.contents[cur[depth + 1]], depth + 1)
    else None
  }

  /** The arrow line a subtree at `depth` should carry: none when it may not
      be selected or the cursor designates no node in it, otherwise the
      designated node's line, at the cursor's depth, with its tick and title. */
  function Arrow(cur: seq<nat>, item: TodoItem, depth: nat, sel: bool): seq<Line>
    requires sel ==> |cur| >= depth + 1
  {
    if sel && Designated(cur, item, depth).Some? then
      var d := Designated(cur, item, depth).value;
      [Entry(|cur| - 1, true, d.tickedOff, d.title)]
    else []
  }

  /** The arrow of a selectable subtree is on its root when the cursor ends
      there, and otherwise is that of the child the next cursor entry names. */
  lemma ArrowStep(cur: seq<nat>, item: TodoItem, depth: nat)
    requires |cur| >= depth + 1
    ensures Arrow(cur, item, depth, true) ==
      if |cur| == depth + 1 then [Entry(depth, true, item.tickedOff, item.title)]
      else if cur[depth + 1] < |item.contents| then Arrow(cur, item.contents[cur[depth + 1]], depth + 1, true)
      else []
  {
  }

  /** A subtree that may not be selected has no marked line; one that may has
      at most one, and it is the line of the node the cursor designates; it
      has exactly that one when it is drawn whole. */
  lemma {:induction false} PrintItemMarks(cur: seq<nat>, item: TodoItem, depth: nat, sel: bool, budget: nat)
    requires budget >= 1 && (sel ==> |cur| >= depth + 1)
    ensures Marked(PrintItem(cur, item, depth, sel, budget).lines) <= Arrow(cur, item, depth, sel)
    ensures budget >= ItemLength(item) ==> Marked(PrintItem(cur, item, depth, sel, budget).lines) == Arrow(cur, item, depth, sel)
    ensures !sel ==> CountMarked(PrintItem(cur, item, depth, sel, budget).lines) == 0
    ensures CountMarked(PrintItem(cur, item, depth, sel, budget).lines) <= 1
    ensures (sel && budget >= ItemLength(item) && Designated(cur, item, depth).Some?) ==>
      CountMarked(PrintItem(cur, item, depth, sel, budget).lines) == 1
    decreases item, 1
  {
    var line := Entry(depth, sel && |cur| == depth + 1, item.tickedOff, item.title);
    var rest := PrintChildren(cur, item.contents, 0, depth, sel, budget - 1);
    assert PrintItem(cur, item, depth, sel, budget).lines == [line] + rest.lines;
    MarkedAppend([line], rest.lines);
    assert [line][1..] == [];
    assert Marked([line]) == if line.marked then [line] else [];
    assert item.contents[0..] == item.contents;
    PrintChildrenMarks(cur, item.contents, 0, depth, sel, budget - 1);
    if sel {
      ArrowStep(cur, item, depth);
    }
  }

  /** The arrow the children from `i` of a node at `depth` should carry:
      that of the child the next cursor entry names, when it is among them. */
  function ChildrenArrow(cur: seq<nat>, items: seq<TodoItem>, i: nat, depth: nat, parentSel: bool): seq<Line>
    requires parentSel ==> |cur| >= depth + 1
  {
    if parentSel && |cur| > depth + 1 && i <= cur[depth + 1] < |items| then Arrow(cur, items[cur[depth + 1]], depth + 1, true) else []
  }

  /** The arrow the top-level nodes from `j` should carry: that of the node
      at `cur[0]`, when it is among them. */
  function TopArrow(cur: seq<nat>, items: seq<TodoItem>, j: nat): seq<Line>
    requires |cur| >= 1
  {
    if j <= cur[0] < |items| then Arrow(cur, items[cur[0]], 0, true) else []
  }

  /** One step of a drawing loop for the arrow: when a layout is a first
      part and a rest whose arrows are within `a` and `w2`, of which one is
      empty, its arrows are within `a + w2`, and are all of it when both
      parts are drawn whole. */
  lemma MarkStep(l: Layout, first: Layout, rest: Layout, a: seq<Line>, w2: seq<Line>, w: seq<Line>, whole: bool)
    requires l.lines == first.lines + rest.lines
    requires w == a + w2 && (a == [] || w2 == [])
    requires Marked(first.lines) <= a && Marked(rest.lines) <= w2
    requires whole ==> Marked(first.lines) == a && Marked(rest.lines) == w2
    ensures Marked(l.lines) <= w && (whole ==> Marked(l.lines) == w)
  {
    MarkedAppend(first.lines, rest.lines);
    if a == [] {
      assert Marked(first.lines) == [];
      assert Marked(l.lines) == Marked(rest.lines);
    } else {
      assert Marked(rest.lines) == [];
      assert Marked(l.lines) == Marked(first.lines);
    }
  }

  /** The children's arrow is that of the child at `i` followed by that of
      the children after it, and at most one of the two is not empty. */
  lemma ChildrenArrowStep(cur: seq<nat>, items: seq<TodoItem>, i: nat, depth: nat, parentSel: bool)
    requires i < |items| && (parentSel ==> |cur| >= depth + 1)
    ensures var sel := |cur| != depth + 1 && parentSel && cur[depth + 1] == i;
      var a := Arrow(cur, items[i], depth + 1, sel);
      var w2 := ChildrenArrow(cur, items, i + 1, depth, parentSel);
      ChildrenArrow(cur, items, i, depth, parentSel) == a + w2 && (a == [] || w2 == [])
  {
  }

  /** The same for the top-level nodes. */
  lemma TopArrowStep(cur: seq<nat>, items: seq<TodoItem>, j: nat)
    requires |cur| >= 1 && j < |items|
    ensures var a := Arrow(cur, items[j], 0, cur[0] == j);
      var w2 := TopArrow(cur, items, j + 1);
      TopArrow(cur, items, j) == a + w2 && (a == [] || w2 == [])
  {
  }

  /** Among the children from `i` only the one whose index is the cursor
      entry at their depth may hold the arrow, on the line of the node the
      cursor designates; it does when the children are drawn whole. */
  lemma {:induction false} PrintChildrenMarks(cur: seq<nat>, items: seq<TodoItem>, i: nat, depth: nat, parentSel: bool, budget: nat)
    requires i <= |items| && (parentSel ==> |cur| >= depth + 1)
    ensures Marked(PrintChildren(cur, items, i, depth, parentSel, budget).lines) <= ChildrenArrow(cur, items, i, depth, parentSel)
    ensures budget >= ForestLength(items[i..]) ==>
      Marked(PrintChildren(cur, items, i, depth, parentSel, budget).lines) == ChildrenArrow(cur, items, i, depth, parentSel)
    decreases items, 0, |items| - i
  {
    if i < |items| {
      ForestStep(items, i, depth + 1);
      if budget > 0 {
        var sel := |cur| != depth + 1 && parentSel && cur[depth + 1] == i;
        var first := PrintItem(cur, items[i], depth + 1, sel, budget);
        var rest := PrintChildren(cur, items, i + 1, depth, parentSel, first.budget);
        var whole := budget >= ForestLength(items[i..]);
        PrintItemMarks(cur, items[i], depth + 1, sel, budget);
        PrintChildrenMarks(cur, items, i + 1, depth, parentSel, first.budget);
        if whole {
          PrintItemWhole(cur, items[i], depth + 1, sel, budget);
        }
        ChildrenArrowStep(cur, items, i, depth, parentSel);
        MarkStep(PrintChildren(cur, items, i, depth, parentSel, budget), first, rest,
          Arrow(cur, items[i], depth + 1, sel), ChildrenArrow(cur, items, i + 1, depth, parentSel),
          ChildrenArrow(cur, items, i, depth, parentSel), whole);
      }
    }
  }

  /** The cursor designates a node below `item` exactly when the rest of
      its walk resolves from `item`'s children. */
  lemma {:induction false} DesignatedWalks(cur: seq<nat>, item: TodoItem, depth: nat)
    requires |cur| >= depth + 1
    ensures Designated(cur, item, depth).Some? <==> ListAt(item.contents, cur[depth + 1..]).Some?
    decreases |cur| - depth
  {
    if |cur| > depth + 1 {
      assert cur[depth + 1..][0] == cur[depth + 1];
      assert cur[depth + 1..][1..] == cur[depth + 2..];
      if cur[depth + 1] < |item.contents| {
        DesignatedWalks(cur, item.contents[cur[depth + 1]], depth + 1);
      }
    }
  }

  /** The node designated below `item` is the one the last cursor entry
      selects in the list the entries before it reach. */
  lemma {:induction false} DesignatedSelects(cur: seq<nat>, item: TodoItem, depth: nat)
    requires |cur| > depth + 1
    ensures Designated(cur, item, depth) ==
      match ListAt(item.contents, cur[depth + 1..|cur| - 1])
      case Some(l) => if cur[|cur| - 1] < |l| then Some(l[cur[|cur| - 1]]) else None
      case None => None
    decreases |cur| - depth
  {
    var p := cur[depth + 1..|cur| - 1];
    if |cur| == depth + 2 {
      assert p == [];
    } else {
      assert p[0] == cur[depth + 1];
      assert p[1..] == cur[depth + 2..|cur| - 1];
      if cur[depth + 1] < |item.contents| {
        DesignatedSelects(cur, item.contents[cur[depth + 1]], depth + 1);
      }
    }
  }

  /** Only the top-level node at `cur[0]` may hold the arrow, on the line of
      the node the cursor designates; it does when the nodes are drawn whole. */
  lemma {:induction false} PrintTopMarks(cur: seq<nat>, items: seq<TodoItem>, j: nat, budget: nat)
    requires |cur| >= 1 && j <= |items|
    ensures Marked(PrintTop(cur, items, j, budget).lines) <= TopArrow(cur, items, j)
    ensures budget >= ForestLength(items[j..]) ==> Marked(PrintTop(cur, items, j, budget).lines) == TopArrow(cur, items, j)
    decreases |items| - j
  {
    if j < |items| {
      ForestStep(items, j, 0);
      if budget > 0 {
        var first := PrintItem(cur, items[j], 0, cur[0] == j, budget);
        var rest := PrintTop(cur, items, j + 1, first.budget);
        var whole := budget >= ForestLength(items[j..]);
        PrintItemMarks(cur, items[j], 0, cur[0] == j, budget);
        PrintTopMarks(cur, items, j + 1, first.budget);
        if whole {
          PrintItemWhole(cur, items[j], 0, cur[0] == j, budget);
        }
        TopArrowStep(cur, items, j);
        MarkStep(PrintTop(cur, items, j, budget), first, rest,
          Arrow(cur, items[j], 0, cur[0] == j), TopArrow(cur, items, j + 1), TopArrow(cur, items, j), whole);
      }
    }
  }

  /** On every screen at most one line carries the selection arrow, and it
      is the line of the node the cursor designates; none does when the
      selected top-level node is scrolled off above. */
  lemma AtMostOneMarked(s: Snapshot, offset: nat, amount: nat)
    requires s.WellFormed()
    ensures Marked(PrintOutList(s, offset, amount)) <=
      (if Start(s, offset) <= s.cur[0] < |s.Contents()| then Arrow(s.cur, s.Contents()[s.cur[0]], 0, true) else [])
    ensures CountMarked(PrintOutList(s, offset, amount)) <= 1
    ensures offset > s.cur[0] ==> CountMarked(PrintOutList(s, offset, amount)) == 0
  {
    var w := TopArrow(s.cur, s.Contents(), Start(s, offset));
    if amount > 0 {
      ScreenBody(s, offset, amount);
      PrintTopMarks(s.cur, s.Contents(), Start(s, offset), amount - 1);
    } else {
      assert PrintOutList(s, offset, amount) == [];
    }
    assert Marked(PrintOutList(s, offset, amount)) <= w && |w| <= 1;
    assert offset > s.cur[0] ==> w == [];
  }

  /** When they fit, a valid cursor on a node not scrolled off puts the
      arrow on exactly one line: that of the selected node, at the cursor's
      depth, with the node's tick and title. */
  lemma ScreenShowsCursor(s: Snapshot, offset: nat, amount: nat)
    requires s.Valid() && |s.ParentList()| > 0 && offset <= s.cur[0]
    requires amount > ForestLength(s.Contents()[offset..])
    ensures s.Last() < |s.ParentList()|
    ensures var n := s.ParentList()[s.Last()];
      Marked(PrintOutList(s, offset, amount)) == [Entry(|s.cur| - 1, true, n.tickedOff, n.title)]
    ensures CountMarked(PrintOutList(s, offset, amount)) == 1
  {
    CursorOnNode(s);
    ScreenMarksDesignated(s, offset, amount);
  }

  /** The same for any cursor that designates a node below its top-level
      entry. */
  lemma ScreenMarksDesignated(s: Snapshot, offset: nat, amount: nat)
    requires s.WellFormed() && offset <= s.cur[0] < |s.Contents()|
    requires Designated(s.cur, s.Contents()[s.cur[0]], 0).Some?
    requires amount > ForestLength(s.Contents()[offset..])
    ensures var d := Designated(s.cur, s.Contents()[s.cur[0]], 0).value;
      Marked(PrintOutList(s, offset, amount)) == [Entry(|s.cur| - 1, true, d.tickedOff, d.title)]
    ensures CountMarked(PrintOutList(s, offset, amount)) == 1
  {
    assert Start(s, offset) == offset;
    ScreenBody(s, offset, amount);
    PrintTopMarks(s.cur, s.Contents(), offset, amount - 1);
    var d := Designated(s.cur, s.Contents()[s.cur[0]], 0).value;
    assert Arrow(s.cur, s.Contents()[s.cur[0]], 0, true) == [Entry(|s.cur| - 1, true, d.tickedOff, d.title)];
  }

  /** A valid cursor whose list is not empty designates a node, and that
      node is the one it selects in the current list. */
  lemma CursorOnNode(s: Snapshot)
    requires s.Valid() && |s.ParentList()| > 0
    ensures s.cur[0] < |s.Contents()| && Designated(s.cur, s.Contents()[s.cur[0]], 0).Some?
    ensures s.Last() < |s.ParentList()| && Designated(s.cur, s.Contents()[s.cur[0]], 0) == Some(s.ParentList()[s.Last()])
  {
    var items := s.Contents();
    var cur := s.cur;
    var n := |cur|;
    assert ListAt(items, cur).Some? by {
      ListAtSnoc(items, cur[..n - 1], cur[n - 1]);
      assert cur[..n - 1] + [cur[n - 1]] == cur;
    }
    assert ListAt(items, cur) == ListAt(items[cur[0]].contents, cur[1..]);
    DesignatedWalks(cur, items[cur[0]], 0);
    if n > 1 {
      assert cur[..n - 1][0] == cur[0] && cur[..n - 1][1..] == cur[1..n - 1];
      DesignatedSelects(cur, items[cur[0]], 0);
    } else {
      assert cur[..n - 1] == [];
    }
  }
}
