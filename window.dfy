/** `Window`: the editor object. Its key and mouse handlers edit the
    `WindowState` in place, as `handle_key_event` and `handle_mouse_event`
    do, and are proved to agree with `Keys.HandleKey` and
    `Mouse.HandleMouse`; one turn of the event loop of `run` then
    recomputes the scroll offset when the window is dirty and draws the
    screen. */
module Editor {
  import opened Wrappers
  import opened Decimal
  import opened Todo
  import opened Tree
  import opened State
  import opened Keys
  import opened Mouse
  import opened Viewport
  import opened View
  import opened Session

  /** The cursor after `d` removed a node from a list that then holds
      `len` nodes: a last entry past the end goes back to the new last
      node, or, when the list emptied, is popped unless it is the only one. */
  function DeleteCursor(cur: seq<nat>, len: nat): seq<nat>
    requires |cur| >= 1
  {
    if cur[|cur| - 1] < len then cur
    else if len > 0 then cur[..|cur| - 1] + [len - 1]
    else if |cur| > 1 then cur[..|cur| - 1]
    else cur
  }

  /** `DeleteItem` on a non-empty list, split the way the arm works: the
      removal, then the cursor repair. */
  lemma DeleteSteps(s: Snapshot)
    requires s.Valid() && |s.ParentList()| > 0
    ensures var list := s.ParentList();
      var rest := Remove(list, s.Last());
      var s1 := s.WithList(s.ParentPath(), rest).(history := Some(list[s.Last()]), changes := true);
      DeleteItem(s) == Done(s1.(cur := DeleteCursor(s.cur, |rest|)), s.Last() >= |rest|)
  {
  }

  // ---- one turn of the loop of `run` ----

  /** What the terminal delivers: a key, a mouse event, or anything else
      (an unreadable or unsupported event). */
  datatype Event = KeyPress(key: Key) | MouseAction(ev: MouseEvent) | Unreadable

  /** Ctrl-q and Esc leave the loop. */
  predicate QuitKey(ev: Event) {
    ev == KeyPress(Ctrl('q')) || ev == KeyPress(Esc)
  }

  /** How a turn ends: the loop is left, or the screen is drawn from the
      scroll offset `offset`, with the "Unrecognised Key" report or not. */
  datatype Turn = Quit | Drawn(reportErr: bool, offset: nat, screen: seq<Line>)

  /** The handler the event goes to. */
  function Respond(s: Snapshot, ev: Event, env: Env): Step
    requires s.Valid() && |s.ParentList()| <= VEC_MAX
  {
    match ev
    case KeyPress(key) => HandleKey(s, key, env)
    case MouseAction(m) => HandleMouse(s, m)
    case Unreadable => Unrecognised(s)
  }

  /** Every handler leaves the state well formed. */
  lemma RespondWellFormed(s: Snapshot, ev: Event, env: Env)
    requires s.Valid() && |s.ParentList()| <= VEC_MAX
    ensures Respond(s, ev, env).state.WellFormed()
  {
    if ev.KeyPress? {
      HandleKeySound(s, ev.key, env);
    }
  }

  /** The lines to draw and the scroll offset after a turn: the screen
      height less four (an unsigned subtraction), and, when the window is
      dirty, the offset recomputed for the first cursor entry, whose node
      the offset block indexes. */
  function Placement(s: Snapshot, dirty: bool, height: nat, offset: nat): Result<(nat, nat), Error>
    requires s.WellFormed()
  {
    if height < 4 then Failure(Underflow)
    else if !dirty then Success((height - 4, offset))
    else
      var index := s.cur[0];
      if index > 0 && index >= |s.Contents()| then Failure(DepthError)
      else match ScrollOffset(s.Contents(), index, height - 4)
        case Success(o) => Success((height - 4, o))
        case Failure(e) => Failure(e)
  }

  /** On a valid cursor the first entry names a top-level node, or the
      document is empty and the entry is 0. */
  lemma TopInRange(s: Snapshot)
    requires s.Valid()
    ensures s.cur[0] < |s.Contents()| || (s.cur[0] == 0 && s.Contents() == [])
  {
    if |s.cur| > 1 {
      assert s.ParentPath()[0] == s.cur[0];
    }
  }

  /** Only a small screen makes the placement fail; a dirty window gets an
      offset at or above the selected top-level node, and a clean one keeps
      its offset. */
  lemma PlacementMeaning(s: Snapshot, dirty: bool, height: nat, offset: nat)
    requires s.Valid()
    ensures Placement(s, dirty, height, offset).Failure? ==>
      Placement(s, dirty, height, offset).error == Underflow
    ensures height < 4 ==> Placement(s, dirty, height, offset).Failure?
    ensures !dirty ==> (Placement(s, dirty, height, offset).Failure? <==> height < 4)
    ensures Placement(s, dirty, height, offset).Success? ==>
      var p := Placement(s, dirty, height, offset).value;
      p.0 == height - 4 && (dirty ==> p.1 <= s.cur[0]) && (!dirty ==> p.1 == offset)
  {
    TopInRange(s);
    if height >= 4 && dirty {
      ScrollOffsetMeaning(s.Contents(), s.cur[0], height - 4);
    }
  }

  /** One turn of the loop of `run` on the state `s`, the flag `dirty`
      and the offset of the last drawing, when `height` is the screen
      height: Ctrl-q and Esc leave, after saving if there are changes and
      the user agrees; anything else goes to its handler, whose failure
      ends the loop, and then the screen is placed and drawn. */
  function Advance(s: Snapshot, dirty: bool, offset: nat, height: nat, ev: Event, env: Env): Result<(Snapshot, Turn), Error>
    requires s.Valid() && |s.ParentList()| <= VEC_MAX
  {
    if QuitKey(ev) then
      if s.changes && env.confirmed && !env.ioOk then Failure(IoError) else Success((s, Quit))
    else
      var st := Respond(s, ev, env);
      if st.result.Failure? then Failure(st.result.error)
      else
        RespondWellFormed(s, ev, env);
        match Placement(st.state, dirty || st.dirty, height, offset)
        case Failure(e) => Failure(e)
        case Success(p) =>
          Success((st.state, Drawn(st.result.value, p.1, PrintOutList(st.state, p.1, p.0))))
  }

  /** The screen `run` draws before the loop. */
  function FirstScreen(s: Snapshot, height: nat): Result<seq<Line>, Error>
    requires s.WellFormed()
  {
    if height < 4 then Failure(Underflow) else Success(PrintOutList(s, 0, height - 4))
  }

  /** Every handler but those of Ctrl-r and Ctrl-c keeps the cursor on a
      node and leaves it alone when it does not ask for a redraw. */
  lemma RespondKeepsCursor(s: Snapshot, ev: Event, env: Env)
    requires s.Valid() && |s.ParentList()| <= WHEEL_MAX
    requires ev.KeyPress? ==> ArmOf(ev.key) != ReloadFile && ArmOf(ev.key) != SwitchList
    ensures var st := Respond(s, ev, env);
      st.state.Valid() && (!st.dirty ==> st.state.cur == s.cur)
  {
    match ev {
      case KeyPress(key) => HandleKeySound(s, key, env);
      case MouseAction(m) => MouseMovesLikeKeys(s, m);
      case Unreadable =>
    }
  }

  /** Drawing a valid state from where `Placement` puts it: the offset is
      at or above the selected top-level node when it was recomputed or
      already was, and then a current list that is not empty and a drawn
      part that fits give exactly one marked line: that of the selected
      node, at the cursor's depth, with its tick and title. */
  lemma PlacedShowsCursor(t: Snapshot, dirty: bool, height: nat, offset: nat, o: nat, screen: seq<Line>)
    requires t.Valid() && (dirty || offset <= t.cur[0])
    requires Placement(t, dirty, height, offset).Success?
    requires o == Placement(t, dirty, height, offset).value.1
    requires screen == PrintOutList(t, o, Placement(t, dirty, height, offset).value.0)
    ensures t.Valid() && o <= t.cur[0] && o <= |t.Contents()| &&
      (|t.ParentList()| > 0 && height - 4 > ForestLength(t.Contents()[o..]) ==>
        t.Last() < |t.ParentList()| &&
        Marked(screen) == [Entry(|t.cur| - 1, true, t.ParentList()[t.Last()].tickedOff, t.ParentList()[t.Last()].title)])
  {
    PlacementMeaning(t, dirty, height, offset);
    TopInRange(t);
    if |t.ParentList()| > 0 && height - 4 > ForestLength(t.Contents()[o..]) {
      ScreenShowsCursor(t, o, height - 4);
    }
  }

  /** The screen keeps the selection in view: from a valid state whose
      offset is at or above the selected top-level node, a turn that draws
      (after any event but Ctrl-r and Ctrl-c) leaves a valid state whose
      offset is still at or above it, and when the current list is not
      empty and the drawn part of the document fits on the screen, exactly
      one line is marked as selected: that of the selected node. */
  lemma TurnShowsCursor(s: Snapshot, dirty: bool, offset: nat, height: nat, ev: Event, env: Env)
    requires s.Valid() && |s.ParentList()| <= WHEEL_MAX && offset <= s.cur[0]
    requires ev.KeyPress? ==> ArmOf(ev.key) != ReloadFile && ArmOf(ev.key) != SwitchList
    requires Advance(s, dirty, offset, height, ev, env).Success?
    requires Advance(s, dirty, offset, height, ev, env).value.1.Drawn?
    ensures var a := Advance(s, dirty, offset, height, ev, env).value;
      var t := a.0;
      var o := a.1.offset;
      t.Valid() && o <= t.cur[0] && o <= |t.Contents()| &&
      (|t.ParentList()| > 0 && height - 4 > ForestLength(t.Contents()[o..]) ==>
        t.Last() < |t.ParentList()| &&
        Marked(a.1.screen) == [Entry(|t.cur| - 1, true, t.ParentList()[t.Last()].tickedOff, t.ParentList()[t.Last()].title)])
  {
    var st := Respond(s, ev, env);
    RespondKeepsCursor(s, ev, env);
    var t := st.state;
    var d := dirty || st.dirty;
    AdvanceDraws(s, dirty, offset, height, ev, env);
    var a := Advance(s, dirty, offset, height, ev, env).value;
    PlacedShowsCursor(a.0, d, height, offset, a.1.offset, a.1.screen);
  }

  /** A turn that draws is the handler's answer followed by the screen from
      where `Placement` puts the new state. */
  lemma AdvanceDraws(s: Snapshot, dirty: bool, offset: nat, height: nat, ev: Event, env: Env)
    requires s.Valid() && |s.ParentList()| <= VEC_MAX
    requires Advance(s, dirty, offset, height, ev, env).Success?
    requires Advance(s, dirty, offset, height, ev, env).value.1.Drawn?
    ensures var st := Respond(s, ev, env);
      st.result.Success? && st.state.WellFormed() &&
      Placement(st.state, dirty || st.dirty, height, offset).Success? &&
      var p := Placement(st.state, dirty || st.dirty, height, offset).value;
      Advance(s, dirty, offset, height, ev, env).value == (st.state, Drawn(st.result.value, p.1, PrintOutList(st.state, p.1, p.0)))
  {
    RespondWellFormed(s, ev, env);
  }

  /** The first screen of a freshly opened document that fits marks
      exactly its first node, under the header line. */
  lemma FirstScreenShowsCursor(list: TodoList, height: nat)
    requires |list.contents| > 0 && height - 4 > ForestLength(list.contents)
    ensures var f := FirstScreen(Initial(list), height);
      f.Success? && f.value[0] == HeaderLine(Initial(list)) &&
      Marked(f.value) == [Entry(0, true, list.contents[0].tickedOff, list.contents[0].title)]
  {
    var s := Initial(list);
    assert s.ParentList() == list.contents;
    assert s.Contents()[0..] == list.contents;
    ScreenShowsCursor(s, 0, height - 4);
  }

  class Window {
    const state: WindowState
    var dirtyWindow: bool

    /** `Window::new(state)`: nothing to redraw yet. */
    constructor (st: WindowState)
      ensures state == st && !dirtyWindow
    {
      state := st;
      dirtyWindow := false;
    }

    /** The state is well formed and its cursor designates a node. */
    predicate Ready()
      reads this, state
    {
      state.Valid() && state.Snap().Valid()
    }

    /** The handler's effect is the step `st`: the new state, `dirty_window`
        set when the step says so, and the value returned. */
    predicate Took(st: Step, oldDirty: bool, r: Result<bool, Error>)
      reads this, state
    {
      state.Snap() == st.state && dirtyWindow == (oldDirty || st.dirty) && r == st.result
    }

    /** `let cur_list = self.state.cur_parent_list()`, which resolves on a
        valid cursor. */
    method ParentList() returns (list: seq<TodoItem>)
      requires Ready()
      ensures list == state.Snap().ParentList()
    {
      var res := state.CurParentList();
      assert res.Success?;
      list := res.value;
    }

    // ---- navigation ----

    /** Down / `j`. */
    method KeyDown() returns (r: Result<bool, Error>)
      requires Ready()
      modifies state`cur, this`dirtyWindow
      ensures Took(CursorDown(old(state.Snap())), old(dirtyWindow), r)
    {
      var m := state.MoveCurDown(1);
      assert m.Success?;
      dirtyWindow := true;
      return Success(false);
    }

    /** Up / `k`. */
    method KeyUp() returns (r: Result<bool, Error>)
      requires Ready()
      modifies state`cur, this`dirtyWindow
      ensures Took(CursorUp(old(state.Snap())), old(dirtyWindow), r)
    {
      var m := state.MoveCurUp(1);
      assert m.Success?;
      dirtyWindow := true;
      return Success(false);
    }

    /** Left / `h`. */
    method KeyLeft() returns (r: Result<bool, Error>)
      requires Ready()
      modifies state`cur, this`dirtyWindow
      ensures Took(Leave(old(state.Snap())), old(dirtyWindow), r)
    {
      var depth := state.CurDepth();
      if depth > 1 {
        var _ := state.PopCur();
        dirtyWindow := true;
      }
      return Success(false);
    }

    /** Right / `l`, when the current list is not empty. */
    method KeyRight(list: seq<TodoItem>) returns (r: Result<bool, Error>)
      requires Ready() && list == state.Snap().ParentList()
      modifies state`cur, this`dirtyWindow
      ensures Took(Enter(old(state.Snap())), old(dirtyWindow), r)
    {
      if |list| == 0 {
        return Success(true);
      }
      var item := state.CurItem();
      assert item.Success?;
      if |item.value.contents| > 0 {
        var _ := state.PushCur(0);
        dirtyWindow := true;
      }
      return Success(false);
    }

    /** PageDown. */
    method KeyPageDown(list: seq<TodoItem>) returns (r: Result<bool, Error>)
      requires Ready() && list == state.Snap().ParentList()
      modifies state`cur, this`dirtyWindow
      ensures Took(JumpLast(old(state.Snap())), old(dirtyWindow), r)
    {
      if |list| > 0 {
        state.WriteLastCur(|list| - 1);
        dirtyWindow := true;
      }
      return Success(false);
    }

    /** PageUp. */
    method KeyPageUp(list: seq<TodoItem>) returns (r: Result<bool, Error>)
      requires Ready() && list == state.Snap().ParentList()
      modifies state`cur, this`dirtyWindow
      ensures Took(JumpFirst(old(state.Snap())), old(dirtyWindow), r)
    {
      if |list| > 0 {
        state.WriteLastCur(0);
        dirtyWindow := true;
      }
      return Success(false);
    }

    /** `g`: the typed text is parsed by `GotoIndex`; text naming no node beeps. */
    method KeyGoto(list: seq<TodoItem>, input: Option<string>) returns (r: Result<bool, Error>)
      requires Ready() && list == state.Snap().ParentList()
      modifies state`cur, this`dirtyWindow
      ensures Took(Goto(old(state.Snap()), input), old(dirtyWindow), r)
    {
      if input.Some? {
        var target := GotoIndex(input.value, |list|);
        if target.Some? {
          if target.value.Failure? {
            return Failure(target.value.error);
          }
          state.WriteLastCur(target.value.value);
        }
        dirtyWindow := true;
      }
      return Success(false);
    }

    // ---- edits of the selected node ----

    /** Tab, when the current list is not empty: a new last child, selected. */
    method KeyTab(list: seq<TodoItem>, input: Option<string>) returns (r: Result<bool, Error>)
      requires Ready() && list == state.Snap().ParentList()
      modifies state, this`dirtyWindow
      ensures Took(NewChild(old(state.Snap()), input), old(dirtyWindow), r)
    {
      if |list| == 0 {
        return Success(true);
      }
      var path := state.cur[..|state.cur| - 1];
      var item := state.CurItem();
      assert item.Success?;
      if input.Some? {
        var node := item.value;
        var i := |node.contents|;
        var last := state.LastCur();
        state.WriteList(path, list[last.value := node.(contents := Insert(node.contents, i, CreateItem(input.value)))]);
        var _ := state.PushCur(i);
        state.changes := true;
        dirtyWindow := true;
      }
      return Success(false);
    }

    /** `E`, `e`, `w`, when the current list is not empty. */
    method KeyEdit(list: seq<TodoItem>, input: Option<string>) returns (r: Result<bool, Error>)
      requires Ready() && list == state.Snap().ParentList()
      modifies state, this`dirtyWindow
      ensures Took(Rename(old(state.Snap()), input), old(dirtyWindow), r)
    {
      if |list| == 0 {
        return Success(true);
      }
      var path := state.cur[..|state.cur| - 1];
      var item := state.CurItem();
      assert item.Success?;
      if input.Some? {
        var last := state.LastCur();
        state.WriteList(path, list[last.value := item.value.(title := input.value)]);
        state.changes := true;
      }
      return Success(false);
    }

    /** Space, when the current list is not empty. */
    method KeySpace(list: seq<TodoItem>) returns (r: Result<bool, Error>)
      requires Ready() && list == state.Snap().ParentList()
      modifies state, this`dirtyWindow
      ensures Took(Toggle(old(state.Snap())), old(dirtyWindow), r)
    {
      if |list| == 0 {
        return Success(true);
      }
      var path := state.cur[..|state.cur| - 1];
      var item := state.CurItem();
      assert item.Success?;
      var last := state.LastCur();
      state.WriteList(path, list[last.value := item.value.(tickedOff := !item.value.tickedOff)]);
      state.changes := true;
      return Success(false);
    }
    // ---- structural edits of the current list ----

    /** `i`: a new node at the cursor. */
    method KeyInsert(list: seq<TodoItem>, input: Option<string>) returns (r: Result<bool, Error>)
      requires Ready() && list == state.Snap().ParentList()
      modifies state, this`dirtyWindow
      ensures Took(InsertItem(old(state.Snap()), input), old(dirtyWindow), r)
    {
      if input.Some? {
        var path := state.cur[..|state.cur| - 1];
        var last := state.LastCur();
        state.WriteList(path, Insert(list, last.value, CreateItem(input.value)));
        state.changes := true;
        dirtyWindow := true;
      }
      return Success(false);
    }

    /** `a`: step the cursor forward unless past the end, insert there. */
    method KeyAppend(list: seq<TodoItem>, input: Option<string>) returns (r: Result<bool, Error>)
      requires Ready() && list == state.Snap().ParentList()
      modifies state, this`dirtyWindow
      ensures Took(AppendItem(old(state.Snap()), input), old(dirtyWindow), r)
    {
      if input.Some? {
        ghost var s0 := state.Snap();
        var last := state.LastCur();
        assert last.value == s0.Last();
        var j := if last.value + 1 <= |list| then last.value + 1 else last.value;
        StoreEdit(Insert(list, j, CreateItem(input.value)), j);
        dirtyWindow := true;
      }
      return Success(false);
    }

    /** Writing back an edited current list through its path and `v`
        through `last_cur`, and marking the document changed. */
    method StoreEdit(list: seq<TodoItem>, v: nat)
      requires state.Valid()
      modifies state`loadedLists, state`cur, state`changes
      ensures var s0 := old(state.Snap());
        state.Snap() == s0.WithList(s0.ParentPath(), list).WithLast(v).(changes := true)
    {
      var path := state.cur[..|state.cur| - 1];
      state.WriteList(path, list);
      state.WriteLastCur(v);
      state.changes := true;
    }

    /** `d`: the selected node goes to the undo buffer and the cursor is
        repaired when it is left past the end. */
    method KeyDelete(list: seq<TodoItem>) returns (r: Result<bool, Error>)
      requires Ready() && list == state.Snap().ParentList()
      modifies state, this`dirtyWindow
      ensures Took(DeleteItem(old(state.Snap())), old(dirtyWindow), r)
    {
      if |list| == 0 {
        return Success(false);
      }
      DeleteSteps(state.Snap());
      var rest := TakeSelected(list);
      var moved := RepairCursor(|rest|);
      if moved {
        dirtyWindow := true;
      }
      return Success(false);
    }

    /** The removal half of `d`: the selected node leaves the current list
        for the undo buffer. */
    method TakeSelected(list: seq<TodoItem>) returns (rest: seq<TodoItem>)
      requires Ready() && list == state.Snap().ParentList() && |list| > 0
      modifies state`loadedLists, state`history, state`changes
      ensures var s0 := old(state.Snap());
        rest == Remove(list, s0.Last()) &&
        state.Snap() == s0.WithList(s0.ParentPath(), rest).(history := Some(list[s0.Last()]), changes := true)
    {
      var path := state.cur[..|state.cur| - 1];
      var last := state.LastCur();
      LastInRange(state.Snap());
      rest := Remove(list, last.value);
      state.WriteList(path, rest);
      state.history := Some(list[last.value]);
      state.changes := true;
    }

    /** The repair half of `d`, given the length the list is left with. */
    method RepairCursor(len: nat) returns (moved: bool)
      requires |state.cur| >= 1
      modifies state`cur
      ensures moved == (old(state.cur)[|old(state.cur)| - 1] >= len)
      ensures state.cur == DeleteCursor(old(state.cur), len)
    {
      var last := state.LastCur();
      moved := last.value >= len;
      if moved {
        if len == 0 {
          var depth := state.CurDepth();
          if depth > 1 {
            var _ := state.PopCur();
          }
        } else {
          state.WriteLastCur(len - 1);
        }
      }
    }

    /** `u`: the buffered node goes back in at the cursor; the buffer is emptied. */
    method KeyUndo(list: seq<TodoItem>) returns (r: Result<bool, Error>)
      requires Ready() && list == state.Snap().ParentList()
      modifies state, this`dirtyWindow
      ensures Took(UndoDelete(old(state.Snap())), old(dirtyWindow), r)
    {
      if state.history.Some? {
        var item := state.history.value;
        var path := state.cur[..|state.cur| - 1];
        var last := state.LastCur();
        state.WriteList(path, Insert(list, last.value, item));
        state.changes := true;
        dirtyWindow := true;
      }
      state.history := None;
      return Success(false);
    }

    /** `K`: swap with the node before, or rotate the first node to the end. */
    method KeyShiftUp(list: seq<TodoItem>) returns (r: Result<bool, Error>)
      requires Ready() && list == state.Snap().ParentList()
      modifies state, this`dirtyWindow
      ensures Took(ShiftUp(old(state.Snap())), old(dirtyWindow), r)
    {
      if |list| > 1 {
        LastInRange(state.Snap());
        ghost var s0 := state.Snap();
        var last := state.LastCur();
        var i := last.value;
        assert i == s0.Last();
        if i > 0 {
          StoreEdit(Swap(list, i, i - 1), i - 1);
        } else {
          var item := list[i];
          var rest := Remove(list, i);
          StoreEdit(Insert(rest, |rest|, item), |rest|);
        }
        dirtyWindow := true;
      }
      return Success(false);
    }

    /** `J`: swap with the node after, or rotate the last node to the front. */
    method KeyShiftDown(list: seq<TodoItem>) returns (r: Result<bool, Error>)
      requires Ready() && list == state.Snap().ParentList()
      modifies state, this`dirtyWindow
      ensures Took(ShiftDown(old(state.Snap())), old(dirtyWindow), r)
    {
      if |list| > 1 {
        LastInRange(state.Snap());
        ghost var s0 := state.Snap();
        var last := state.LastCur();
        var i := last.value;
        assert i == s0.Last();
        if i < |list| - 1 {
          StoreEdit(Swap(list, i, i + 1), i + 1);
        } else {
          var item := list[i];
          var rest := Remove(list, i);
          StoreEdit(Insert(rest, 0, item), 0);
        }
        dirtyWindow := true;
      }
      return Success(false);
    }

    /** `H`: move the selected node out to just after its parent, when the
        parent is not the first of its siblings. */
    method KeyMoveOut(list: seq<TodoItem>) returns (r: Result<bool, Error>)
      requires Ready() && list == state.Snap().ParentList()
      modifies state, this`dirtyWindow
      ensures Took(MoveOut(old(state.Snap())), old(dirtyWindow), r)
    {
      if |list| > 0 {
        var depth := state.CurDepth();
        var parentIndex: nat := 0;
        if depth > 1 {
          var p := state.Cur(depth - 2);
          parentIndex := p.value;
        }
        if depth > 1 && parentIndex > 0 {
          Outdent(list);
        }
        dirtyWindow := true;
      }
      state.changes := true;
      return Success(false);
    }

    /** The moving branch of `H`: out of the current list, up to the
        parent, and in again just after it. */
    method Outdent(list: seq<TodoItem>)
      requires Ready() && list == state.Snap().ParentList() && |list| > 0
      requires |state.cur| > 1 && state.cur[|state.cur| - 2] > 0
      modifies state`loadedLists, state`cur, state`changes
      ensures state.Snap() == MoveOut(old(state.Snap())).state
    {
      MoveOutShape(state.Snap());
      LastInRange(state.Snap());
      var last := state.LastCur();
      var item := list[last.value];
      TakeOut(list);
      PutAfter(item);
    }

    /** The second half of `H`: `item` goes in just after the selected node,
        which becomes selected. */
    method PutAfter(item: TodoItem)
      requires state.Valid()
      requires var s := state.Snap();
        ListAt(s.Contents(), s.ParentPath()).Some? && s.Last() < |ListAt(s.Contents(), s.ParentPath()).value|
      modifies state`loadedLists, state`cur, state`changes
      ensures var s := old(state.Snap());
        var grand := ListAt(s.Contents(), s.ParentPath()).value;
        state.Snap() == s.WithList(s.ParentPath(), Insert(grand, s.Last() + 1, item)).WithLast(s.Last() + 1).(changes := true)
    {
      ghost var s := state.Snap();
      var grand := state.CurParentList();
      assert grand.value == ListAt(s.Contents(), s.ParentPath()).value;
      var above := state.LastCur();
      assert above.value == s.Last();
      StoreEdit(Insert(grand.value, above.value + 1, item), above.value + 1);
    }

    /** The first half of `H`: the selected node leaves the current list
        and the cursor goes up to its parent. */
    method TakeOut(list: seq<TodoItem>)
      requires Ready() && list == state.Snap().ParentList() && |list| > 0 && |state.cur| > 1
      modifies state`loadedLists, state`cur
      ensures var s0 := old(state.Snap());
        var s1 := s0.WithList(s0.ParentPath(), Remove(list, s0.Last()));
        state.Valid() && state.Snap() == s1.(cur := s1.ParentPath())
    {
      LastInRange(state.Snap());
      var path := state.cur[..|state.cur| - 1];
      var last := state.LastCur();
      state.WriteList(path, Remove(list, last.value));
      var _ := state.PopCur();
    }

    /** `L`: move the selected node to the end of the children of the node
        before it, and follow it there. */
    method KeyMoveIn(list: seq<TodoItem>) returns (r: Result<bool, Error>)
      requires Ready() && list == state.Snap().ParentList()
      modifies state, this`dirtyWindow
      ensures Took(MoveIn(old(state.Snap())), old(dirtyWindow), r)
    {
      if |list| > 0 {
        LastInRange(state.Snap());
        ghost var s0 := state.Snap();
        var last := state.LastCur();
        var i := last.value;
        assert i == s0.Last();
        if i > 0 {
          var item := list[i];
          var rest := Remove(list, i);
          var node := rest[i - 1];
          var len := |node.contents|;
          StoreEdit(rest[i - 1 := node.(contents := Insert(node.contents, len, item))], i - 1);
          var pushed := state.PushCur(len);
          assert state.cur == s0.ParentPath() + [i - 1, len];
        }
        dirtyWindow := true;
      }
      state.changes := true;
      return Success(false);
    }

    // ---- the document as a whole ----

    /** Ctrl-r: after confirmation the contents are read back from the file. */
    method KeyReload(env: Env) returns (r: Result<bool, Error>)
      requires Ready()
      modifies state
      ensures Took(Reload(old(state.Snap()), env), old(dirtyWindow), r)
    {
      if env.confirmed {
        var res := state.ReloadList(env.loaded);
        if res.Failure? {
          return Failure(res.error);
        }
      }
      return Success(false);
    }

    /** Ctrl-s: `save_list` succeeds exactly when `ioOk`; only then are both
        flags cleared. */
    method KeySave(ioOk: bool) returns (r: Result<bool, Error>)
      requires Ready()
      modifies state`changes, state`destructiveChanges
      ensures Took(Save(old(state.Snap()), ioOk), old(dirtyWindow), r)
    {
      if !ioOk {
        return Failure(IoError);
      }
      state.changes := false;
      state.destructiveChanges := false;
      return Success(false);
    }

    /** Ctrl-S: the typed path replaces the document's, then it is saved. */
    method KeySaveAs(env: Env) returns (r: Result<bool, Error>)
      requires Ready()
      modifies state`loadedLists, state`changes, state`destructiveChanges
      ensures Took(SaveAs(old(state.Snap()), env), old(dirtyWindow), r)
    {
      if env.input.Some? {
        var doc := state.CurLoadedList();
        state.loadedLists := state.loadedLists[state.curList := doc.(path := env.input.value)];
        if !env.ioOk {
          return Failure(IoError);
        }
        state.changes := false;
        state.destructiveChanges := false;
      }
      return Success(false);
    }

    /** Ctrl-c: with changes, and when the user agrees, save first; then
        switch to the document picked, failing when none was. */
    method KeyChangeList(env: Env) returns (r: Result<bool, Error>)
      requires Ready()
      modifies state
      ensures Took(ChangeList(old(state.Snap()), env), old(dirtyWindow), r)
    {
      if state.changes && env.confirmed {
        if !env.ioOk {
          return Failure(IoError);
        }
      }
      if env.chosen.None? {
        return Failure(SwitchError);
      }
      state.SwitchList(env.chosen.value);
      return Success(false);
    }

    /** Ctrl-d: after confirmation the file is removed and both flags set. */
    method KeyDeleteFile(env: Env) returns (r: Result<bool, Error>)
      requires Ready()
      modifies state`changes, state`destructiveChanges
      ensures Took(DeleteFile(old(state.Snap()), env), old(dirtyWindow), r)
    {
      if env.confirmed {
        if !env.ioOk {
          return Failure(IoError);
        }
        state.changes := true;
        state.destructiveChanges := true;
      }
      return Success(false);
    }

    /** Ctrl-p: the typed title replaces the document's name. */
    method KeyEditTitle(input: Option<string>) returns (r: Result<bool, Error>)
      requires Ready()
      modifies state`loadedLists, state`changes
      ensures Took(EditTitle(old(state.Snap()), input), old(dirtyWindow), r)
    {
      if input.Some? {
        var doc := state.CurLoadedList();
        state.loadedLists := state.loadedLists[state.curList := doc.(name := input.value)];
      }
      state.changes := true;
      return Success(false);
    }

    // ---- dispatch ----

    /** `handle_key_event`: take the current sibling list, then run the arm
        the key selects; `Ok(true)` for a key without an arm. */
    method HandleKeyEvent(key: Key, env: Env) returns (r: Result<bool, Error>)
      requires Ready()
      modifies state, this`dirtyWindow
      ensures Took(HandleKey(old(state.Snap()), key, env), old(dirtyWindow), r)
    {
      var list := ParentList();
      var cmd := ArmOf(key);
      if cmd.ShowHelp? {
        r := Success(false);
      } else if cmd.NoArm? {
        r := Success(true);
      } else if cmd.ReloadFile? || cmd.SaveFile? || cmd.SaveFileAs? || cmd.SwitchList? || cmd.RemoveFile? ||
         cmd.RetitleList? {
        r := RunFileCommand(cmd, env);
      } else {
        r := RunTreeCommand(cmd, list, env);
      }
    }

    /** The arms that edit the tree or move the cursor. */
    method RunTreeCommand(cmd: Command, list: seq<TodoItem>, env: Env) returns (r: Result<bool, Error>)
      requires Ready() && list == state.Snap().ParentList()
      requires !(cmd.ReloadFile? || cmd.SaveFile? || cmd.SaveFileAs? || cmd.SwitchList? || cmd.RemoveFile? ||
                 cmd.RetitleList? || cmd.ShowHelp? || cmd.NoArm?)
      modifies state, this`dirtyWindow
      ensures Took(Run(old(state.Snap()), cmd, env), old(dirtyWindow), r)
    {
      ghost var s0 := state.Snap();
      match cmd {
        case MoveDown => assert Run(s0, cmd, env) == CursorDown(s0); r := KeyDown();
        case MoveUp => assert Run(s0, cmd, env) == CursorUp(s0); r := KeyUp();
        case LeaveLevel => assert Run(s0, cmd, env) == Leave(s0); r := KeyLeft();
        case EnterNode => assert Run(s0, cmd, env) == Enter(s0); r := KeyRight(list);
        case AddChild => assert Run(s0, cmd, env) == NewChild(s0, env.input); r := KeyTab(list, env.input);
        case RenameNode => assert Run(s0, cmd, env) == Rename(s0, env.input); r := KeyEdit(list, env.input);
        case ToggleNode => assert Run(s0, cmd, env) == Toggle(s0); r := KeySpace(list);
        case InsertNode => assert Run(s0, cmd, env) == InsertItem(s0, env.input); r := KeyInsert(list, env.input);
        case AppendNode => assert Run(s0, cmd, env) == AppendItem(s0, env.input); r := KeyAppend(list, env.input);
        case DeleteNode => assert Run(s0, cmd, env) == DeleteItem(s0); r := KeyDelete(list);
        case UndoNode => assert Run(s0, cmd, env) == UndoDelete(s0); r := KeyUndo(list);
        case GotoNode => assert Run(s0, cmd, env) == Goto(s0, env.input); r := KeyGoto(list, env.input);
        case ShiftNodeUp => assert Run(s0, cmd, env) == ShiftUp(s0); r := KeyShiftUp(list);
        case ShiftNodeDown => assert Run(s0, cmd, env) == ShiftDown(s0); r := KeyShiftDown(list);
        case NodeOut => assert Run(s0, cmd, env) == MoveOut(s0); r := KeyMoveOut(list);
        case NodeIn => assert Run(s0, cmd, env) == MoveIn(s0); r := KeyMoveIn(list);
        case LastNode => assert Run(s0, cmd, env) == JumpLast(s0); r := KeyPageDown(list);
        case FirstNode => assert Run(s0, cmd, env) == JumpFirst(s0); r := KeyPageUp(list);
      }
    }

    /** The arms that act on the document as a whole. */
    method RunFileCommand(cmd: Command, env: Env) returns (r: Result<bool, Error>)
      requires Ready()
      requires cmd.ReloadFile? || cmd.SaveFile? || cmd.SaveFileAs? || cmd.SwitchList? || cmd.RemoveFile? ||
               cmd.RetitleList?
      modifies state
      ensures Took(Run(old(state.Snap()), cmd, env), old(dirtyWindow), r)
    {
      ghost var s0 := state.Snap();
      match cmd {
        case ReloadFile => assert Run(s0, cmd, env) == Reload(s0, env); r := KeyReload(env);
        case SaveFile => assert Run(s0, cmd, env) == Save(s0, env.ioOk); r := KeySave(env.ioOk);
        case SaveFileAs => assert Run(s0, cmd, env) == SaveAs(s0, env); r := KeySaveAs(env);
        case SwitchList => assert Run(s0, cmd, env) == ChangeList(s0, env); r := KeyChangeList(env);
        case RemoveFile => assert Run(s0, cmd, env) == DeleteFile(s0, env); r := KeyDeleteFile(env);
        case RetitleList => assert Run(s0, cmd, env) == EditTitle(s0, env.input); r := KeyEditTitle(env.input);
      }
    }

    /** `handle_mouse_event`: the wheel rewrites the last cursor entry
        through `last_cur` when the current list is not empty; any other
        mouse event is not recognised. */
    method HandleMouseEvent(ev: MouseEvent) returns (r: Result<bool, Error>)
      requires Ready() && |state.Snap().ParentList()| <= VEC_MAX
      modifies state`cur, this`dirtyWindow
      ensures Took(HandleMouse(old(state.Snap()), ev), old(dirtyWindow), r)
    {
      var list := ParentList();
      match ev {
        case WheelDown =>
          if |list| > 0 {
            LastInRange(state.Snap());
            var last := state.LastCur();
            state.WriteLastCur(WheelDownIndex(|list|, last.value));
            dirtyWindow := true;
          }
        case WheelUp =>
          if |list| > 0 {
            LastInRange(state.Snap());
            var last := state.LastCur();
            state.WriteLastCur(WheelUpIndex(|list|, last.value));
            dirtyWindow := true;
          }
        case OtherMouse =>
          return Success(true);
      }
      return Success(false);
    }

    // ---- the loop of `run` ----

    /** The start of `run`: the first screen, drawn from offset 0. */
    method Open(height: nat) returns (r: Result<seq<Line>, Error>)
      requires state.Valid()
      ensures r == FirstScreen(state.Snap(), height)
    {
      if height < 4 {
        return Failure(Underflow);
      }
      var amount := height - 4;
      return Success(PrintOutList(state.Snap(), 0, amount));
    }

    /** The offset block of `run` (lines 68-93): `amount` from the screen
        height and, when the window is dirty, the offset recomputed and the
        flag cleared. */
    method Refresh(height: nat, offset: nat) returns (r: Result<(nat, nat), Error>)
      requires state.Valid()
      modifies this`dirtyWindow
      ensures r == Placement(state.Snap(), old(dirtyWindow), height, offset)
      ensures dirtyWindow == (old(dirtyWindow) && r.Failure?)
    {
      if height < 4 {
        return Failure(Underflow);
      }
      var amount := height - 4;
      if !dirtyWindow {
        return Success((amount, offset));
      }
      var parent := state.CurLoadedList();
      var first := state.FirstCur();
      var index := first.value;
      if index > 0 && index >= |parent.contents| {
        return Failure(DepthError);
      }
      var o := ComputeOffset(parent.contents, index, amount);
      if o.Failure? {
        return Failure(o.error);
      }
      dirtyWindow := false;
      return Success((amount, o.value));
    }

    /** One turn of the loop: the event is handled, the offset placed and
        the screen drawn, as `Advance` describes. */
    method ProcessEvent(ev: Event, env: Env, height: nat, offset: nat) returns (r: Result<Turn, Error>)
      requires Ready() && |state.Snap().ParentList()| <= VEC_MAX
      modifies state, this`dirtyWindow
      ensures var a := Advance(old(state.Snap()), old(dirtyWindow), offset, height, ev, env);
        (r.Failure? <==> a.Failure?) && (r.Failure? ==> r.error == a.error) &&
        (r.Success? ==> r.value == a.value.1 && state.Snap() == a.value.0)
      ensures r.Success? && r.value.Drawn? ==> !dirtyWindow
    {
      ghost var s0 := state.Snap();
      var reportErr: bool;
      match ev {
        case MouseAction(m) =>
          var res := HandleMouseEvent(m);
          if res.Failure? {
            return Failure(res.error);
          }
          reportErr := res.value;
        case KeyPress(key) =>
          if key == Ctrl('q') || key == Esc {
            if state.changes && env.confirmed && !env.ioOk {
              return Failure(IoError);
            }
            return Success(Quit);
          }
          var res := HandleKeyEvent(key, env);
          if res.Failure? {
            return Failure(res.error);
          }
          reportErr := res.value;
        case Unreadable =>
          reportErr := true;
      }
      assert state.Snap() == Respond(s0, ev, env).state;
      RespondWellFormed(s0, ev, env);
      var place := Refresh(height, offset);
      if place.Failure? {
        return Failure(place.error);
      }
      var amount := place.value.0;
      var newOffset := place.value.1;
      return Success(Drawn(reportErr, newOffset, PrintOutList(state.Snap(), newOffset, amount)));
    }
  }
}
