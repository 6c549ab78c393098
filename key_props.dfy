/** What the key commands promise: the cursor invariant is kept, each edit
    does what its help line says, and the reversible pairs undo each other. */
module KeyProps {
  import opened Wrappers
  import opened Decimal
  import opened Todo
  import opened Tree
  import opened State
  import opened Keys

  // ---- navigation ----

  /** `j` selects the next sibling, wrapping from the last to the first. */
  lemma {:induction false} CursorDownWraps(s: Snapshot)
    requires s.Valid()
    ensures CursorDown(s).state.Valid() && CursorDown(s).dirty
    ensures CursorDown(s).state.Contents() == s.Contents()
    ensures CursorDown(s).state.ParentPath() == s.ParentPath()
    ensures 0 < |s.ParentList()| <= USIZE_MAX ==>
      CursorDown(s).state.Last() == (s.Last() + 1) % |s.ParentList()|
  {
    var list := s.ParentList();
    if |list| > 0 {
      LastInRange(s);
      WithLastValid(s, MoveDownIndex(|list|, s.Last(), 1));
      if |list| <= USIZE_MAX {
        MoveDownOneWraps(|list|, s.Last());
      }
    }
  }

  /** `k` selects the previous sibling, wrapping from the first to the last. */
  lemma {:induction false} CursorUpWraps(s: Snapshot)
    requires s.Valid()
    ensures CursorUp(s).state.Valid() && CursorUp(s).dirty
    ensures CursorUp(s).state.Contents() == s.Contents()
    ensures CursorUp(s).state.ParentPath() == s.ParentPath()
    ensures 0 < |s.ParentList()| ==>
      CursorUp(s).state.Last() == (s.Last() + |s.ParentList()| - 1) % |s.ParentList()|
  {
    var list := s.ParentList();
    if |list| > 0 {
      LastInRange(s);
      WithLastValid(s, MoveUpIndex(|list|, s.Last(), 1));
      MoveUpOneWraps(|list|, s.Last());
    }
  }

  /** `j` then `k` comes back to the same state. */
  lemma {:induction false} DownThenUp(s: Snapshot)
    requires s.Valid() && |s.ParentList()| <= USIZE_MAX
    ensures CursorDown(s).state.Valid()
    ensures CursorUp(CursorDown(s).state).state == s
  {
    CursorDownWraps(s);
    var list := s.ParentList();
    if |list| > 0 {
      LastInRange(s);
      var s1 := CursorDown(s).state;
      MoveDownThenUp(|list|, s.Last(), 1);
      WithLastTwice(s, MoveDownIndex(|list|, s.Last(), 1), s.Last());
      WithLastSame(s);
    }
  }

  /** `k` then `j` comes back to the same state. */
  lemma {:induction false} UpThenDown(s: Snapshot)
    requires s.Valid() && |s.ParentList()| <= USIZE_MAX
    ensures CursorUp(s).state.Valid()
    ensures CursorDown(CursorUp(s).state).state == s
  {
    CursorUpWraps(s);
    var list := s.ParentList();
    if |list| > 0 {
      LastInRange(s);
      MoveUpThenDown(|list|, s.Last());
      WithLastTwice(s, MoveUpIndex(|list|, s.Last(), 1), s.Last());
      WithLastSame(s);
    }
  }

  /** `h` below the top selects the node whose children were listed. */
  lemma LeaveSelectsParent(s: Snapshot)
    requires s.Valid()
    ensures Leave(s).state.Valid() && Leave(s).state.Contents() == s.Contents()
    ensures |s.cur| > 1 ==>
      (Leave(s).dirty && Leave(s).state.cur == s.ParentPath() &&
       Leave(s).state.Last() < |Leave(s).state.ParentList()| &&
       Leave(s).state.ParentList()[Leave(s).state.Last()].contents == s.ParentList())
    ensures |s.cur| == 1 ==> Leave(s).state == s && !Leave(s).dirty
  {
    if |s.cur| > 1 {
      PopValid(s);
      var q := s.cur[..|s.cur| - 2];
      var p := s.cur[|s.cur| - 2];
      assert s.ParentPath() == q + [p];
      ListAtSnoc(s.Contents(), q, p);
      assert s.ParentPath()[..|s.ParentPath()| - 1] == q;
    }
  }

  /** `l` on a node with children selects its first child; `h` then returns. */
  lemma EnterThenLeave(s: Snapshot)
    requires s.Valid() && |s.ParentList()| > 0 && |s.ParentList()[s.Last()].contents| > 0
    ensures Enter(s).state.Valid() && Enter(s).dirty
    ensures Enter(s).state.ParentList() == s.ParentList()[s.Last()].contents && Enter(s).state.Last() == 0
    ensures Leave(Enter(s).state).state == s
  {
    PushValid(s, 0);
    assert (s.cur + [0])[..|s.cur|] == s.cur;
  }

  /** `l` on a childless node does nothing; on an empty list it is not a command. */
  lemma EnterLeaf(s: Snapshot)
    requires s.Valid()
    ensures |s.ParentList()| == 0 ==> Enter(s) == Unrecognised(s)
    ensures |s.ParentList()| > 0 && |s.ParentList()[s.Last()].contents| == 0 ==>
      Enter(s).state == s && !Enter(s).dirty
  {
    if |s.ParentList()| > 0 {
      LastInRange(s);
    }
  }

  /** PageDown selects the last sibling. */
  lemma JumpLastSelects(s: Snapshot)
    requires s.Valid()
    ensures var r := JumpLast(s).state;
      r.Valid() && r.ParentList() == s.ParentList() &&
      (|s.ParentList()| > 0 ==> r.Last() == |s.ParentList()| - 1)
  {
    if |s.ParentList()| > 0 {
      WithLastValid(s, |s.ParentList()| - 1);
    }
  }

  /** PageUp selects the first sibling. */
  lemma JumpFirstSelects(s: Snapshot)
    requires s.Valid()
    ensures var r := JumpFirst(s).state;
      r.Valid() && r.ParentList() == s.ParentList() && r.Last() == 0
  {
    if |s.ParentList()| > 0 {
      WithLastValid(s, 0);
    }
  }

  // ---- goto ----

  /** "-n" holds its dash first, and without it is the digits of n. */
  lemma DashPrinted(n: nat)
    ensures FirstIndexOf("-" + NatToString(n), '-') == Some(0)
    ensures Remove("-" + NatToString(n), 0) == NatToString(n)
  {
    assert ("-" + NatToString(n))[1..] == NatToString(n);
  }

  /** The digits of n hold no dash. */
  lemma NoDashPrinted(n: nat)
    ensures FirstIndexOf(NatToString(n), '-') == None
  {
  }

  /** `g` selects the node the text names and changes nothing else; it
      fails only on an empty list, and then changes nothing. */
  lemma GotoSelects(s: Snapshot, text: string)
    requires s.Valid()
    ensures var r := Goto(s, Some(text));
      r.state.Valid() && r.state.Contents() == s.Contents() && r.state.ParentPath() == s.ParentPath() &&
      match GotoIndex(text, |s.ParentList()|)
      case None => r == Done(s, true)
      case Some(Success(k)) => r.dirty && r.result == Success(false) && r.state.Last() == k
      case Some(Failure(e)) => r.result == Failure(Underflow) && r.state == s
  {
    match GotoIndex(text, |s.ParentList()|)
    case Some(Success(k)) =>
      if |s.ParentList()| > 0 {
        WithLastValid(s, k);
      }
    case _ =>
  }

  /** A dash and a positive number n name the n-th node from the end, the
      first when there are fewer than n. */
  lemma GotoFromEnd(text: string, k: nat, n: nat, len: nat)
    requires n > 0 && FirstIndexOf(text, '-') == Some(k) && ParseUsize(Remove(text, k)) == Some(n)
    ensures GotoIndex(text, len) == Some(Success(if n <= len then len - n else 0))
  {
  }

  /** A positive number n without a dash names the n-th node, the last when
      there are fewer than n, and underflows on an empty list. */
  lemma GotoFromStart(text: string, n: nat, len: nat)
    requires n > 0 && FirstIndexOf(text, '-') == None && ParseUsize(text) == Some(n)
    ensures len > 0 ==> GotoIndex(text, len) == Some(Success(if n <= len then n - 1 else len - 1))
    ensures len == 0 ==> GotoIndex(text, len) == Some(Failure(Underflow))
  {
  }

  /** "-n" and "n" for every n a `usize` holds. */
  lemma {:induction false} GotoPrinted(n: nat, len: nat)
    requires 0 < n <= USIZE_MAX
    ensures GotoIndex("-" + NatToString(n), len) == Some(Success(if n <= len then len - n else 0))
    ensures len > 0 ==> GotoIndex(NatToString(n), len) == Some(Success(if n <= len then n - 1 else len - 1))
  {
    DashPrinted(n);
    NoDashPrinted(n);
    ParsePrinted(n);
    GotoFromEnd("-" + NatToString(n), 0, n, len);
    GotoFromStart(NatToString(n), n, len);
  }

  /** "-1" on five nodes names the fifth. */
  lemma GotoMinusOneOfFive()
    ensures GotoIndex("-1", 5) == Some(Success(4))
  {
    DashOne();
    GotoFromEnd("-1", 0, 1, 5);
  }

  /** The text "-1" is a dash followed by the digits of 1. */
  lemma DashOne()
    ensures FirstIndexOf("-1", '-') == Some(0) && ParseUsize(Remove("-1", 0)) == Some(1)
  {
    assert Remove("-1", 0) == "1";
    assert DigitsValue("1") == 1;
  }

  /** Zero names no node, counted from either end. */
  lemma GotoZero(len: nat)
    ensures GotoIndex("0", len) == None && GotoIndex("-0", len) == None
  {
    assert DigitsValue("0") == 0;
    assert FirstIndexOf("0", '-') == None;
    assert FirstIndexOf("-0", '-') == Some(0);
    assert Remove("-0", 0) == "0";
  }

  /** Text without a digit names no node, with or without a dash. */
  lemma GotoNonNumber(text: string, len: nat)
    requires forall k :: 0 <= k < |text| ==> !IsDigit(text[k])
    ensures GotoIndex(text, len) == None
  {
    match FirstIndexOf(text, '-')
    case Some(k) =>
      var rest := Remove(text, k);
      forall m | 0 <= m < |rest| ensures !IsDigit(rest[m]) {
        if m < k { assert rest[m] == rest[..k][m]; }
        else { assert rest[m] == rest[k..][m - k] == text[m + 1]; }
      }
      ParseNeedsDigit(rest);
    case None =>
      ParseNeedsDigit(text);
  }

  // ---- edits of the selected node ----

  /** Tab appends a new child to the selected node and selects it. */
  lemma NewChildSelectsIt(s: Snapshot, t: string)
    requires s.Valid() && |s.ParentList()| > 0
    ensures var r := NewChild(s, Some(t));
      r.state.Valid() && r.dirty && r.state.changes &&
      r.state.cur == s.cur + [|s.ParentList()[s.Last()].contents|] &&
      r.state.ParentList() == s.ParentList()[s.Last()].contents + [CreateItem(t)] &&
      r.state.ParentList()[r.state.Last()] == CreateItem(t)
  {
    var list := s.ParentList();
    LastInRange(s);
    var node := list[s.Last()];
    var n := |node.contents|;
    var kids := Insert(node.contents, n, CreateItem(t));
    assert kids == node.contents + [CreateItem(t)];
    var edited := list[s.Last() := node.(contents := kids)];
    ReplaceListValid(s, edited);
    var s1 := s.WithList(s.ParentPath(), edited);
    PushValid(s1, n);
  }

  /** `E`, `e` and `w` replace the title of the selected node and nothing else. */
  lemma RenameOnlyTitle(s: Snapshot, t: string)
    requires s.Valid() && |s.ParentList()| > 0
    ensures var r := Rename(s, Some(t)).state;
      r.Valid() && r.cur == s.cur && r.changes && !Rename(s, Some(t)).dirty &&
      |r.ParentList()| == |s.ParentList()| &&
      r.ParentList()[s.Last()] == s.ParentList()[s.Last()].(title := t) &&
      forall k :: 0 <= k < |s.ParentList()| && k != s.Last() ==> r.ParentList()[k] == s.ParentList()[k]
  {
    var list := s.ParentList();
    LastInRange(s);
    ReplaceListValid(s, list[s.Last() := list[s.Last()].(title := t)]);
  }

  /** Space flips the tick of the selected node and nothing else. */
  lemma ToggleFlips(s: Snapshot)
    requires s.Valid() && |s.ParentList()| > 0
    ensures var r := Toggle(s).state;
      r.Valid() && r.cur == s.cur && r.changes &&
      |r.ParentList()| == |s.ParentList()| &&
      r.ParentList()[s.Last()] == s.ParentList()[s.Last()].(tickedOff := !s.ParentList()[s.Last()].tickedOff) &&
      forall k :: 0 <= k < |s.ParentList()| && k != s.Last() ==> r.ParentList()[k] == s.ParentList()[k]
  {
    var list := s.ParentList();
    LastInRange(s);
    ReplaceListValid(s, list[s.Last() := list[s.Last()].(tickedOff := !list[s.Last()].tickedOff)]);
  }

  /** Space twice leaves the document as it was. */
  lemma ToggleTwice(s: Snapshot)
    requires s.Valid() && |s.ParentList()| > 0
    ensures Toggle(s).state.Valid()
    ensures Toggle(Toggle(s).state).state == s.(changes := true)
  {
    ToggleFlips(s);
    var list := s.ParentList();
    var node := list[s.Last()];
    var l1 := list[s.Last() := node.(tickedOff := !node.tickedOff)];
    var s1 := Toggle(s).state;
    assert s1.ParentList() == l1;
    assert l1[s.Last() := l1[s.Last()].(tickedOff := !l1[s.Last()].tickedOff)] == list;
    WithListTwice(s, s.ParentPath(), l1, list);
    WithListSame(s);
  }

  // ---- structural edits ----

  /** `i` inserts a new node at the cursor and selects it. */
  lemma InsertSelectsNew(s: Snapshot, t: string)
    requires s.Valid()
    ensures var r := InsertItem(s, Some(t));
      r.state.Valid() && r.dirty && r.state.changes && r.state.cur == s.cur &&
      r.state.Last() < |r.state.ParentList()| &&
      r.state.ParentList()[r.state.Last()] == CreateItem(t) &&
      r.state.ParentList()[..s.Last()] == s.ParentList()[..s.Last()] &&
      r.state.ParentList()[s.Last() + 1..] == s.ParentList()[s.Last()..]
  {
    ReplaceListValid(s, Insert(s.ParentList(), s.Last(), CreateItem(t)));
  }

  /** `a` inserts a new node after the selected one (first on an empty
      list) and selects it. */
  lemma AppendSelectsNew(s: Snapshot, t: string)
    requires s.Valid()
    ensures var r := AppendItem(s, Some(t)).state;
      r.Valid() && AppendItem(s, Some(t)).dirty && r.changes && r.ParentPath() == s.ParentPath() &&
      r.Last() == (if s.ParentList() == [] then 0 else s.Last() + 1) &&
      r.ParentList() == Insert(s.ParentList(), r.Last(), CreateItem(t))
  {
    var list := s.ParentList();
    var j := if list == [] then 0 else s.Last() + 1;
    assert j == (if s.Last() + 1 <= |list| then s.Last() + 1 else s.Last()) by {
      if list != [] {
        LastInRange(s);
      }
    }
    ReplaceSelectValid(s, Insert(list, j, CreateItem(t)), j);
  }

  /** The list `a` leaves holds exactly one node more, the new one. */
  lemma AppendAddsNode(s: Snapshot, t: string)
    requires s.Valid()
    ensures var r := AppendItem(s, Some(t)).state;
      r.Valid() && r.Last() < |r.ParentList()| && r.ParentList()[r.Last()] == CreateItem(t) &&
      multiset(r.ParentList()) == multiset(s.ParentList()) + multiset{CreateItem(t)}
  {
    AppendSelectsNew(s, t);
    var r := AppendItem(s, Some(t)).state;
    InsertCount(s.ParentList(), r.Last(), CreateItem(t));
  }

  /** Inserting "milk" into a new document and appending "eggs" after it
      gives the two nodes in that order, the second selected. */
  lemma Groceries(name: string, path: string)
    ensures var s0 := Initial(CreateList(name, path));
      var s1 := InsertItem(s0, Some("milk")).state;
      s1.Valid() &&
      var s2 := AppendItem(s1, Some("eggs")).state;
      s2.Contents() == [CreateItem("milk"), CreateItem("eggs")] && s2.cur == [1]
  {
    var s0 := Initial(CreateList(name, path));
    InsertSelectsNew(s0, "milk");
    var s1 := InsertItem(s0, Some("milk")).state;
    assert s1.Contents() == [CreateItem("milk")];
    AppendSelectsNew(s1, "eggs");
  }

  /** `d` on an empty list does nothing. */
  lemma DeleteOnEmpty(s: Snapshot)
    requires s.Valid() && |s.ParentList()| == 0
    ensures DeleteItem(s) == Done(s, false)
  {
  }

  /** `d` moves the selected node into the undo buffer and out of the list. */
  lemma DeleteBuffers(s: Snapshot)
    requires s.Valid() && |s.ParentList()| > 0
    ensures s.Last() < |s.ParentList()|
    ensures var r := DeleteItem(s);
      r.result == Success(false) &&
      r.state.history == Some(s.ParentList()[s.Last()]) && r.state.changes &&
      r.state.Contents() == UpdateListAt(s.Contents(), s.ParentPath(), Remove(s.ParentList(), s.Last()))
  {
    LastInRange(s);
    var list := s.ParentList();
    var rest := Remove(list, s.Last());
    var s1 := s.WithList(s.ParentPath(), rest).(history := Some(list[s.Last()]), changes := true);
    var r := DeleteItem(s);
    if s.Last() >= |rest| {
      if |rest| == 0 {
        if |s.cur| > 1 {
          assert r == Done(s1.(cur := s1.ParentPath()), true);
        } else {
          assert r == Done(s1, true);
        }
      } else {
        assert r == Done(s1.WithLast(|rest| - 1), true);
      }
    } else {
      assert r == Done(s1, false);
    }
  }

  /** `d` before the last node keeps the cursor, now on the next node. */
  lemma DeleteKeepsCursor(s: Snapshot)
    requires s.Valid() && s.Last() + 1 < |s.ParentList()|
    ensures var r := DeleteItem(s);
      r.state.Valid() && r.state.cur == s.cur && !r.dirty &&
      r.state.ParentList() == Remove(s.ParentList(), s.Last())
  {
    ReplaceListValid(s, Remove(s.ParentList(), s.Last()));
  }

  /** `d` on the last of several nodes selects the new last node. */
  lemma DeleteLastSelectsPrevious(s: Snapshot)
    requires s.Valid() && |s.ParentList()| > 1 && s.Last() == |s.ParentList()| - 1
    ensures var r := DeleteItem(s);
      r.state.Valid() && r.state.cur == s.ParentPath() + [s.Last() - 1] && r.dirty &&
      r.state.ParentList() == Remove(s.ParentList(), s.Last())
  {
    var list := s.ParentList();
    var i := s.Last();
    var rest := Remove(list, i);
    ReplaceSelectValid(s, rest, |rest| - 1);
    assert DeleteItem(s).state ==
      s.WithList(s.ParentPath(), rest).WithLast(|rest| - 1).(history := Some(list[i]), changes := true);
  }

  /** `d` on the only node of a nested list leaves that level; at the top
      the document is left empty under `[0]`. */
  lemma DeleteOnlyNode(s: Snapshot)
    requires s.Valid() && |s.ParentList()| == 1
    ensures var r := DeleteItem(s);
      r.state.Valid() && r.dirty &&
      (|s.cur| > 1 ==> r.state.cur == s.ParentPath()) &&
      (|s.cur| == 1 ==> r.state.cur == [0] && r.state.Contents() == [])
  {
    var list := s.ParentList();
    LastInRange(s);
    ReplaceListValid(s, []);
    var s1 := s.WithList(s.ParentPath(), []).(history := Some(list[0]), changes := true);
    if |s.cur| > 1 {
      PopValid(s1);
    } else {
      assert s.ParentPath() == [];
    }
  }

  /** `u` puts the buffered node back at the cursor and empties the buffer;
      with an empty buffer it changes nothing. */
  lemma UndoReinserts(s: Snapshot)
    requires s.Valid()
    ensures var r := UndoDelete(s);
      r.state.Valid() && r.state.history == None && r.state.cur == s.cur &&
      (s.history.None? ==> r.state == s && !r.dirty) &&
      (s.history.Some? ==>
        (r.dirty && r.state.changes &&
         r.state.ParentList() == Insert(s.ParentList(), s.Last(), s.history.value)))
  {
    match s.history
    case Some(item) => ReplaceListValid(s, Insert(s.ParentList(), s.Last(), item));
    case None =>
  }

  /** A second `u` does nothing. */
  lemma UndoTwice(s: Snapshot)
    requires s.Valid()
    ensures UndoDelete(s).state.Valid()
    ensures UndoDelete(UndoDelete(s).state) == Done(UndoDelete(s).state, false)
  {
    UndoReinserts(s);
  }

  /** `d` then `u` restores the document when the cursor did not move. */
  lemma DeleteThenUndo(s: Snapshot)
    requires s.Valid() && s.Last() + 1 < |s.ParentList()|
    ensures DeleteItem(s).state.Valid()
    ensures UndoDelete(DeleteItem(s).state).state == s.(changes := true, history := None)
  {
    var list := s.ParentList();
    var i := s.Last();
    DeleteKeepsCursor(s);
    var rest := Remove(list, i);
    ReplaceListValid(s, rest);
    InsertRemoved(list, i);
    WithListTwice(s, s.ParentPath(), rest, list);
    WithListSame(s);
  }

  // ---- moving nodes ----

  /** `r` holds the nodes of the current list of `s`, reordered, and selects
      the node `s` selects. */
  predicate SameNodesSameSelection(s: Snapshot, r: Snapshot)
    requires s.Valid() && r.Valid()
  {
    s.Last() < |s.ParentList()| && r.Last() < |r.ParentList()| &&
    multiset(r.ParentList()) == multiset(s.ParentList()) &&
    r.ParentList()[r.Last()] == s.ParentList()[s.Last()]
  }

  /** `K` swaps the selected node with the one before it and the cursor follows. */
  lemma ShiftUpSwaps(s: Snapshot)
    requires s.Valid() && |s.ParentList()| > 1 && s.Last() > 0
    ensures var r := ShiftUp(s).state;
      r.Valid() && ShiftUp(s).dirty && r.changes && r.ParentPath() == s.ParentPath() &&
      r.Last() == s.Last() - 1 && r.ParentList() == Swap(s.ParentList(), s.Last(), s.Last() - 1)
  {
    LastInRange(s);
    ReplaceSelectValid(s, Swap(s.ParentList(), s.Last(), s.Last() - 1), s.Last() - 1);
  }

  /** `K` on the first node rotates it to the end and the cursor follows. */
  lemma ShiftUpRotates(s: Snapshot)
    requires s.Valid() && |s.ParentList()| > 1 && s.Last() == 0
    ensures var r := ShiftUp(s).state;
      r.Valid() && ShiftUp(s).dirty && r.changes && r.ParentPath() == s.ParentPath() &&
      r.Last() == |s.ParentList()| - 1 && r.ParentList() == s.ParentList()[1..] + [s.ParentList()[0]]
  {
    var list := s.ParentList();
    ShiftUpRotateEquation(s);
    ReplaceSelectValid(s, list[1..] + [list[0]], |list| - 1);
  }

  /** `K` keeps the nodes of the list and the selection on the same node;
      on one node or none it does nothing. */
  lemma ShiftUpKeepsNodes(s: Snapshot)
    requires s.Valid()
    ensures ShiftUp(s).state.Valid()
    ensures |s.ParentList()| <= 1 ==> ShiftUp(s) == Done(s, false)
    ensures |s.ParentList()| > 1 ==> SameNodesSameSelection(s, ShiftUp(s).state)
  {
    var list := s.ParentList();
    if |list| > 1 {
      LastInRange(s);
      var i := s.Last();
      if i > 0 {
        SwapUpKeepsNodes(s);
      } else {
        RotateUpKeepsNodes(s);
      }
    }
  }

  lemma SwapUpKeepsNodes(s: Snapshot)
    requires s.Valid() && s.Last() < |s.ParentList()| && s.Last() > 0
    ensures ShiftUp(s).state.Valid() && SameNodesSameSelection(s, ShiftUp(s).state)
  {
    var list := s.ParentList();
    var i := s.Last();
    var r := ShiftUp(s).state;
    assert r.Valid() && r.Last() == i - 1 && r.ParentList() == Swap(list, i, i - 1) by {
      ShiftUpSwaps(s);
    }
    SwapCount(list, i, i - 1);
  }

  lemma RotateUpKeepsNodes(s: Snapshot)
    requires s.Valid() && |s.ParentList()| > 1 && s.Last() == 0
    ensures ShiftUp(s).state.Valid() && SameNodesSameSelection(s, ShiftUp(s).state)
  {
    var list := s.ParentList();
    var n := |list|;
    var r := ShiftUp(s).state;
    assert r.Valid() && r.Last() == n - 1 && r.ParentList() == list[1..] + [list[0]] by {
      ShiftUpRotates(s);
    }
    RotateCount(list);
  }

  /** `J` swaps the selected node with the one after it and the cursor follows. */
  lemma ShiftDownSwaps(s: Snapshot)
    requires s.Valid() && s.Last() + 1 < |s.ParentList()|
    ensures var r := ShiftDown(s).state;
      r.Valid() && ShiftDown(s).dirty && r.changes && r.ParentPath() == s.ParentPath() &&
      r.Last() == s.Last() + 1 && r.ParentList() == Swap(s.ParentList(), s.Last(), s.Last() + 1)
  {
    ReplaceSelectValid(s, Swap(s.ParentList(), s.Last(), s.Last() + 1), s.Last() + 1);
  }

  /** `J` on the last node rotates it to the front and the cursor follows. */
  lemma ShiftDownRotates(s: Snapshot)
    requires s.Valid() && |s.ParentList()| > 1 && s.Last() == |s.ParentList()| - 1
    ensures var r := ShiftDown(s).state;
      var n := |s.ParentList()|;
      r.Valid() && ShiftDown(s).dirty && r.changes && r.ParentPath() == s.ParentPath() &&
      r.Last() == 0 && r.ParentList() == [s.ParentList()[n - 1]] + s.ParentList()[..n - 1]
  {
    var list := s.ParentList();
    ShiftDownRotateEquation(s);
    ReplaceSelectValid(s, [list[|list| - 1]] + list[..|list| - 1], 0);
  }

  /** `J` keeps the nodes of the list and the selection on the same node;
      on one node or none it does nothing. */
  lemma ShiftDownKeepsNodes(s: Snapshot)
    requires s.Valid()
    ensures ShiftDown(s).state.Valid()
    ensures |s.ParentList()| <= 1 ==> ShiftDown(s) == Done(s, false)
    ensures |s.ParentList()| > 1 ==> SameNodesSameSelection(s, ShiftDown(s).state)
  {
    var list := s.ParentList();
    if |list| > 1 {
      LastInRange(s);
      var i := s.Last();
      if i + 1 < |list| {
        SwapDownKeepsNodes(s);
      } else {
        RotateDownKeepsNodes(s);
      }
    }
  }

  lemma SwapDownKeepsNodes(s: Snapshot)
    requires s.Valid() && s.Last() < |s.ParentList()| && s.Last() + 1 < |s.ParentList()|
    ensures ShiftDown(s).state.Valid() && SameNodesSameSelection(s, ShiftDown(s).state)
  {
    var list := s.ParentList();
    var i := s.Last();
    var r := ShiftDown(s).state;
    assert r.Valid() && r.Last() == i + 1 && r.ParentList() == Swap(list, i, i + 1) by {
      ShiftDownSwaps(s);
    }
    SwapCount(list, i, i + 1);
  }

  lemma RotateDownKeepsNodes(s: Snapshot)
    requires s.Valid() && |s.ParentList()| > 1 && s.Last() == |s.ParentList()| - 1
    ensures ShiftDown(s).state.Valid() && SameNodesSameSelection(s, ShiftDown(s).state)
  {
    var list := s.ParentList();
    var n := |list|;
    var r := ShiftDown(s).state;
    assert r.Valid() && r.Last() == 0 && r.ParentList() == [list[n - 1]] + list[..n - 1] by {
      ShiftDownRotates(s);
    }
    RotateCount(list);
  }

  /** `J` before the last node, as an equation on the state. */
  lemma ShiftDownSwapEquation(t: Snapshot)
    requires t.Valid() && t.Last() + 1 < |t.ParentList()|
    ensures ShiftDown(t).state ==
      t.WithList(t.ParentPath(), Swap(t.ParentList(), t.Last(), t.Last() + 1)).WithLast(t.Last() + 1).(changes := true)
  {
  }

  /** `K` after the first node, as an equation on the state. */
  lemma ShiftUpSwapEquation(t: Snapshot)
    requires t.Valid() && |t.ParentList()| > 1 && t.Last() > 0
    ensures ShiftUp(t).state ==
      t.WithList(t.ParentPath(), Swap(t.ParentList(), t.Last(), t.Last() - 1)).WithLast(t.Last() - 1).(changes := true)
  {
  }

  /** `J` on the last node, as an equation on the state. */
  lemma ShiftDownRotateEquation(t: Snapshot)
    requires t.Valid() && |t.ParentList()| > 1 && t.Last() == |t.ParentList()| - 1
    ensures var n := |t.ParentList()|;
      ShiftDown(t).state ==
      t.WithList(t.ParentPath(), [t.ParentList()[n - 1]] + t.ParentList()[..n - 1]).WithLast(0).(changes := true)
  {
    RotateToFront(t.ParentList());
  }

  /** `K` on the first node, as an equation on the state. */
  lemma ShiftUpRotateEquation(t: Snapshot)
    requires t.Valid() && |t.ParentList()| > 1 && t.Last() == 0
    ensures var n := |t.ParentList()|;
      ShiftUp(t).state ==
      t.WithList(t.ParentPath(), t.ParentList()[1..] + [t.ParentList()[0]]).WithLast(n - 1).(changes := true)
  {
    var list := t.ParentList();
    RotateToEnd(list);
  }

  /** Writing back the old list and the old last entry restores the state. */
  lemma Restore(s: Snapshot, list: seq<TodoItem>, v: nat)
    requires s.Valid()
    ensures s.WithList(s.ParentPath(), list).WithLast(v).(changes := true)
      .WithList(s.ParentPath(), s.ParentList()).WithLast(s.Last()).(changes := true) == s.(changes := true)
  {
    var p := s.ParentPath();
    var t := s.(changes := true);
    assert t.Valid() && t.ParentPath() == p && t.ParentList() == s.ParentList() && t.Last() == s.Last();
    assert s.WithList(p, list).WithLast(v).(changes := true) == t.WithList(p, list).WithLast(v);
    WithLastList(t.WithList(p, list), v, p, s.ParentList());
    WithListTwice(t, p, list, s.ParentList());
    WithListSame(t);
    WithLastTwice(t, v, t.Last());
    WithLastSame(t);
  }

  /** `K` then `J` restores the state, up to `changes`. */
  lemma ShiftUpThenDown(s: Snapshot)
    requires s.Valid() && |s.ParentList()| > 1
    ensures ShiftUp(s).state.Valid()
    ensures ShiftDown(ShiftUp(s).state).state == s.(changes := true)
  {
    LastInRange(s);
    if s.Last() > 0 {
      SwapUpThenDown(s);
    } else {
      RotateUpThenDown(s);
    }
  }

  lemma SwapUpThenDown(s: Snapshot)
    requires s.Valid() && |s.ParentList()| > 1 && s.Last() > 0
    ensures ShiftUp(s).state.Valid()
    ensures ShiftDown(ShiftUp(s).state).state == s.(changes := true)
  {
    var list := s.ParentList();
    var p := s.ParentPath();
    var i := s.Last();
    var moved := Swap(list, i, i - 1);
    var s1 := ShiftUp(s).state;
    assert s1 == s.WithList(p, moved).WithLast(i - 1).(changes := true) &&
      s1.Valid() && s1.ParentPath() == p && s1.Last() == i - 1 && s1.ParentList() == moved by {
      ShiftUpSwaps(s);
      ShiftUpSwapEquation(s);
    }
    assert ShiftDown(s1).state == s1.WithList(p, list).WithLast(i).(changes := true) by {
      DownSwapBack(s1, list, i);
    }
    Restore(s, moved, i - 1);
  }

  lemma RotateUpThenDown(s: Snapshot)
    requires s.Valid() && |s.ParentList()| > 1 && s.Last() == 0
    ensures ShiftUp(s).state.Valid()
    ensures ShiftDown(ShiftUp(s).state).state == s.(changes := true)
  {
    var list := s.ParentList();
    var p := s.ParentPath();
    var n := |list|;
    var moved := list[1..] + [list[0]];
    var s1 := ShiftUp(s).state;
    assert s1 == s.WithList(p, moved).WithLast(n - 1).(changes := true) &&
      s1.Valid() && s1.ParentPath() == p && s1.Last() == n - 1 && s1.ParentList() == moved by {
      ShiftUpRotates(s);
      ShiftUpRotateEquation(s);
    }
    assert ShiftDown(s1).state == s1.WithList(p, list).WithLast(0).(changes := true) by {
      DownRotateBack(s1, list);
    }
    Restore(s, moved, n - 1);
  }

  /** `J` on the node the cursor reached by a swap with `K` swaps it back. */
  lemma DownSwapBack(t: Snapshot, list: seq<TodoItem>, i: nat)
    requires t.Valid() && 0 < i < |list| && t.Last() == i - 1 && t.ParentList() == Swap(list, i, i - 1)
    ensures ShiftDown(t).state == t.WithList(t.ParentPath(), list).WithLast(i).(changes := true)
  {
    var m := Swap(list, i, i - 1);
    assert Swap(m, i - 1, i) == list by {
      SwapBack(list, i, i - 1);
    }
    ShiftDownSwapEquation(t);
  }

  /** `J` on the last node after `K` rotated it there rotates it back. */
  lemma DownRotateBack(t: Snapshot, list: seq<TodoItem>)
    requires t.Valid() && |list| > 1 && t.Last() == |list| - 1 && t.ParentList() == list[1..] + [list[0]]
    ensures ShiftDown(t).state == t.WithList(t.ParentPath(), list).WithLast(0).(changes := true)
  {
    ShiftDownRotateEquation(t);
    RotationsInverse(list);
  }

  /** `K` on the node the cursor reached by a swap with `J` swaps it back. */
  lemma UpSwapBack(t: Snapshot, list: seq<TodoItem>, i: nat)
    requires t.Valid() && i + 1 < |list| && t.Last() == i + 1 && t.ParentList() == Swap(list, i, i + 1)
    ensures ShiftUp(t).state == t.WithList(t.ParentPath(), list).WithLast(i).(changes := true)
  {
    ShiftUpSwapEquation(t);
    SwapBack(list, i, i + 1);
  }

  /** `K` on the first node after `J` rotated it there rotates it back. */
  lemma UpRotateBack(t: Snapshot, list: seq<TodoItem>)
    requires t.Valid() && |list| > 1 && t.Last() == 0 && t.ParentList() == [list[|list| - 1]] + list[..|list| - 1]
    ensures ShiftUp(t).state == t.WithList(t.ParentPath(), list).WithLast(|list| - 1).(changes := true)
  {
    ShiftUpRotateEquation(t);
    RotationsInverse(list);
  }

  /** `J` then `K` restores the state, up to `changes`. */
  lemma ShiftDownThenUp(s: Snapshot)
    requires s.Valid() && |s.ParentList()| > 1
    ensures ShiftDown(s).state.Valid()
    ensures ShiftUp(ShiftDown(s).state).state == s.(changes := true)
  {
    LastInRange(s);
    if s.Last() + 1 < |s.ParentList()| {
      SwapDownThenUp(s);
    } else {
      RotateDownThenUp(s);
    }
  }

  lemma SwapDownThenUp(s: Snapshot)
    requires s.Valid() && s.Last() + 1 < |s.ParentList()|
    ensures ShiftDown(s).state.Valid()
    ensures ShiftUp(ShiftDown(s).state).state == s.(changes := true)
  {
    var list := s.ParentList();
    var p := s.ParentPath();
    var i := s.Last();
    var moved := Swap(list, i, i + 1);
    var s1 := ShiftDown(s).state;
    assert s1 == s.WithList(p, moved).WithLast(i + 1).(changes := true) &&
      s1.Valid() && s1.ParentPath() == p && s1.Last() == i + 1 && s1.ParentList() == moved by {
      ShiftDownSwaps(s);
      ShiftDownSwapEquation(s);
    }
    assert ShiftUp(s1).state == s1.WithList(p, list).WithLast(i).(changes := true) by {
      UpSwapBack(s1, list, i);
    }
    Restore(s, moved, i + 1);
  }

  lemma RotateDownThenUp(s: Snapshot)
    requires s.Valid() && |s.ParentList()| > 1 && s.Last() == |s.ParentList()| - 1
    ensures ShiftDown(s).state.Valid()
    ensures ShiftUp(ShiftDown(s).state).state == s.(changes := true)
  {
    var list := s.ParentList();
    var p := s.ParentPath();
    var n := |list|;
    var moved := [list[n - 1]] + list[..n - 1];
    var s1 := ShiftDown(s).state;
    assert s1 == s.WithList(p, moved).WithLast(0).(changes := true) &&
      s1.Valid() && s1.ParentPath() == p && s1.Last() == 0 && s1.ParentList() == moved by {
      ShiftDownRotates(s);
      ShiftDownRotateEquation(s);
    }
    assert ShiftUp(s1).state == s1.WithList(p, list).WithLast(n - 1).(changes := true) by {
      UpRotateBack(s1, list);
    }
    Restore(s, moved, 0);
  }

  /** The sibling list `L` leaves behind: the node is taken out and
      appended to the children of the node before it. */
  function MovedIn(list: seq<TodoItem>, i: nat): seq<TodoItem>
    requires 0 < i < |list|
  {
    Remove(list, i)[i - 1 := list[i - 1].(contents := list[i - 1].contents + [list[i]])]
  }

  /** Taking the node back out of those children and reinserting it after
      its former sibling gives the original list. */
  lemma MovedInBack(list: seq<TodoItem>, i: nat)
    requires 0 < i < |list|
    ensures var moved := MovedIn(list, i);
      Insert(moved[i - 1 := moved[i - 1].(contents := list[i - 1].contents)], i, list[i]) == list
  {
    var rest := Remove(list, i);
    assert rest[..i] == list[..i];
    assert MovedIn(list, i)[i - 1 := MovedIn(list, i)[i - 1].(contents := list[i - 1].contents)] == rest;
    InsertRemoved(list, i);
  }

  /** `L` as an equation on the state. */
  lemma MoveInEquation(s: Snapshot)
    requires s.Valid() && |s.ParentList()| > 0 && s.Last() > 0
    ensures s.Last() < |s.ParentList()|
    ensures MoveIn(s).state ==
      s.WithContents(UpdateListAt(s.Contents(), s.ParentPath(), MovedIn(s.ParentList(), s.Last())))
       .(cur := s.ParentPath() + [s.Last() - 1, |s.ParentList()[s.Last() - 1].contents|], changes := true)
  {
    LastInRange(s);
    var list := s.ParentList();
    var i := s.Last();
    var rest := Remove(list, i);
    assert rest[i - 1] == list[i - 1] by {
      assert rest[..i] == list[..i];
    }
    var n := |list[i - 1].contents|;
    assert Insert(list[i - 1].contents, n, list[i]) == list[i - 1].contents + [list[i]];
  }

  /** `L` moves the selected node to the end of the children of the node
      before it and follows it there. */
  lemma MoveInNests(s: Snapshot)
    requires s.Valid() && |s.ParentList()| > 0 && s.Last() > 0
    ensures s.Last() < |s.ParentList()|
    ensures var list := s.ParentList();
      var i := s.Last();
      var r := MoveIn(s).state;
      r.Valid() && MoveIn(s).dirty && r.changes &&
      r.cur == s.ParentPath() + [i - 1, |list[i - 1].contents|] &&
      r.Contents() == UpdateListAt(s.Contents(), s.ParentPath(), MovedIn(list, i)) &&
      r.ParentList() == list[i - 1].contents + [list[i]] &&
      r.Last() == |list[i - 1].contents| && r.ParentList()[r.Last()] == list[i]
  {
    LastInRange(s);
    var list := s.ParentList();
    var i := s.Last();
    var p := s.ParentPath();
    var moved := MovedIn(list, i);
    var n := |list[i - 1].contents|;
    var t := s.WithList(p, moved).WithLast(i - 1);
    assert t.cur + [n] == p + [i - 1, n];
    ReplaceSelectValid(s, moved, i - 1);
    PushValid(t, n);
    assert MoveIn(s).state == t.(cur := t.cur + [n], changes := true) by {
      MoveInEquation(s);
    }
  }

  /** The state `H` passes through once the node is removed and the
      cursor has left its level: the grandparent list is current, with the
      parent at its old index. */
  lemma MoveOutPopped(s: Snapshot)
    requires s.Valid() && |s.ParentList()| > 0 && |s.cur| > 1
    ensures var q := s.cur[..|s.cur| - 2];
      var p := s.cur[|s.cur| - 2];
      var list := s.ParentList();
      var s1 := s.WithList(s.ParentPath(), Remove(list, s.Last()));
      var s2 := s1.(cur := s1.ParentPath());
      ListAt(s.Contents(), q).Some? && p < |ListAt(s.Contents(), q).value| &&
      var grand := ListAt(s.Contents(), q).value;
      var grand2 := grand[p := grand[p].(contents := Remove(list, s.Last()))];
      s2.Valid() && s2.ParentPath() == q && s2.Last() == p && s2.ParentList() == grand2 &&
      s2.Contents() == UpdateListAt(s.Contents(), q, grand2)
  {
    LastInRange(s);
    MoveOutShape(s);
    var q := s.cur[..|s.cur| - 2];
    var p := s.cur[|s.cur| - 2];
    var rest := Remove(s.ParentList(), s.Last());
    var grand := ListAt(s.Contents(), q).value;
    UpdateSnoc(s.Contents(), q, p, rest);
    assert s.ParentPath()[..|s.ParentPath()| - 1] == q;
  }

  /** `H` moves the selected node out to just after its parent, which must
      not be the first of its siblings, and follows it there. */
  lemma MoveOutUnnests(s: Snapshot)
    requires s.Valid() && |s.ParentList()| > 0 && |s.cur| > 1 && s.cur[|s.cur| - 2] > 0
    ensures var q := s.cur[..|s.cur| - 2];
      ListAt(s.Contents(), q).Some? && s.cur[|s.cur| - 2] < |ListAt(s.Contents(), q).value| &&
      s.Last() < |s.ParentList()|
    ensures var list := s.ParentList();
      var q := s.cur[..|s.cur| - 2];
      var p := s.cur[|s.cur| - 2];
      var grand := ListAt(s.Contents(), q).value;
      var outer := Insert(grand[p := grand[p].(contents := Remove(list, s.Last()))], p + 1, list[s.Last()]);
      var r := MoveOut(s).state;
      r.Valid() && MoveOut(s).dirty &&
      r == s.WithContents(UpdateListAt(s.Contents(), q, outer)).(cur := q + [p + 1], changes := true) &&
      r.ParentList() == outer && r.ParentList()[r.Last()] == list[s.Last()]
  {
    LastInRange(s);
    var list := s.ParentList();
    var q := s.cur[..|s.cur| - 2];
    var p := s.cur[|s.cur| - 2];
    var s1 := s.WithList(s.ParentPath(), Remove(list, s.Last()));
    var s2 := s1.(cur := s1.ParentPath());
    MoveOutPopped(s);
    var grand := ListAt(s.Contents(), q).value;
    var grand2 := grand[p := grand[p].(contents := Remove(list, s.Last()))];
    var outer := Insert(grand2, p + 1, list[s.Last()]);
    assert MoveOut(s).state == s2.WithList(q, outer).WithLast(p + 1).(changes := true);
    ReplaceSelectValid(s2, outer, p + 1);
    assert s2.WithList(q, outer).WithLast(p + 1).(changes := true) ==
      s.WithContents(UpdateListAt(s.Contents(), q, outer)).(cur := q + [p + 1], changes := true) by {
      UpdateTwice(s.Contents(), q, grand2, outer);
      assert s2.WithLast(p + 1).cur == q + [p + 1];
    }
  }

  /** `MoveOutUnnests` with the grandparent list and the parent's index named. */
  lemma MoveOutAt(s: Snapshot, q: seq<nat>, p: nat, grand: seq<TodoItem>, item: TodoItem, rest: seq<TodoItem>)
    requires s.Valid() && |s.ParentList()| > 0 && |s.cur| > 1 && p > 0
    requires q == s.cur[..|s.cur| - 2] && p == s.cur[|s.cur| - 2] && ListAt(s.Contents(), q) == Some(grand)
    requires s.Last() < |s.ParentList()| && item == s.ParentList()[s.Last()] && rest == Remove(s.ParentList(), s.Last())
    ensures p < |grand|
    ensures MoveOut(s).state ==
      s.WithContents(UpdateListAt(s.Contents(), q, Insert(grand[p := grand[p].(contents := rest)], p + 1, item)))
       .(cur := q + [p + 1], changes := true)
  {
    MoveOutUnnests(s);
  }

  /** `H` on the last child of a node at index `j > 0` of the list at `p`. */
  lemma MoveOutOfLastChild(t: Snapshot, p: seq<nat>, j: nat, outer: seq<TodoItem>, kids: seq<TodoItem>, item: TodoItem)
    requires t.Valid() && t.cur == p + [j, |kids|] && j > 0
    requires ListAt(t.Contents(), p) == Some(outer) && j < |outer| && outer[j].contents == kids + [item]
    ensures MoveOut(t).state ==
      t.WithContents(UpdateListAt(t.Contents(), p, Insert(outer[j := outer[j].(contents := kids)], j + 1, item)))
       .(cur := p + [j + 1], changes := true)
  {
    assert t.ParentPath() == p + [j] && t.cur[..|t.cur| - 2] == p && t.cur[|t.cur| - 2] == j;
    ListAtSnoc(t.Contents(), p, j);
    assert t.ParentList() == kids + [item];
    assert Remove(kids + [item], |kids|) == kids;
    MoveOutAt(t, p, j, outer, item, kids);
  }

  /** `L` then `H` restores the state, up to `changes`, when the moved node
      had at least two siblings before it (`H` refuses a parent at index 0). */
  lemma MoveInThenOut(s: Snapshot)
    requires s.Valid() && |s.ParentList()| > 0 && s.Last() >= 2
    ensures MoveIn(s).state.Valid()
    ensures MoveOut(MoveIn(s).state).state == s.(changes := true)
  {
    var list := s.ParentList();
    var i := s.Last();
    var p := s.ParentPath();
    MoveInNests(s);
    var moved := MovedIn(list, i);
    ListAtUpdated(s.Contents(), p, moved);
    MovedInBack(list, i);
    MoveOutOfLastChild(MoveIn(s).state, p, i - 1, moved, list[i - 1].contents, list[i]);
    UpdateTwice(s.Contents(), p, moved, list);
    UpdateWithSame(s.Contents(), p);
    MoveInEquation(s);
    WithContentsTwice(s, UpdateListAt(s.Contents(), p, moved), s.Contents());
    WithContentsSame(s);
    WithLastSame(s);
  }

  /** `H` without a grandparent slot to move to, and `L` on the first node,
      change nothing but `changes`; they redraw exactly when there is a node. */
  lemma RefusedMovesOnlyMark(s: Snapshot)
    requires s.Valid()
    ensures !(|s.ParentList()| > 0 && |s.cur| > 1 && s.cur[|s.cur| - 2] > 0) ==>
      MoveOut(s) == Done(s.(changes := true), |s.ParentList()| > 0)
    ensures !(|s.ParentList()| > 0 && s.Last() > 0) ==>
      MoveIn(s) == Done(s.(changes := true), |s.ParentList()| > 0)
  {
  }
}
