/** The session state of the editor: the cursor path, the resident
    documents with the active one, the two dirty flags and the one-slot
    undo buffer. `Snapshot` is its value, on which the commands are
    specified; `WindowState` is the object the commands update in place. */
module State {
  import opened Wrappers
  import opened Decimal
  import opened Todo
  import opened Tree

  /** `iter().position(|r| r.path == path)`: the first resident document
      stored at `path`. */
  function Position(lists: seq<TodoList>, path: string): (r: Option<nat>)
    ensures r.Some? ==> r.value < |lists| && lists[r.value].path == path
    ensures r.Some? ==> forall k :: 0 <= k < r.value ==> lists[k].path != path
    ensures r.None? ==> forall k :: 0 <= k < |lists| ==> lists[k].path != path
  {
    if |lists| == 0 then None
    else if lists[0].path == path then Some(0)
    else match Position(lists[1..], path)
      case Some(k) => Some(k + 1)
      case None => None
  }

  /** `move_cur_down(amount)` on a non-empty list of length `len`: step
      forward unless that leaves the list or overflows, else go back to 0. */
  function MoveDownIndex(len: nat, last: nat, amount: nat): nat
    requires len > 0
  {
    if amount <= USIZE_MAX && last <= USIZE_MAX - amount && last < len - 1 then last + amount else 0
  }

  /** `move_cur_up(amount)` on a non-empty list: step back, or jump to the
      last entry when that would go below 0. */
  function MoveUpIndex(len: nat, last: nat, amount: nat): nat
    requires len > 0
  {
    if last >= amount then last - amount else len - 1
  }

  /** One step down is a step forward modulo the length. */
  lemma MoveDownOneWraps(len: nat, i: nat)
    requires 0 < len <= USIZE_MAX && i < len
    ensures MoveDownIndex(len, i, 1) == (i + 1) % len
  {
    if i < len - 1 {
      ModBelow(i + 1, len);
    } else {
      ModSelf(len);
    }
  }

  lemma ModBelow(a: nat, n: nat)
    requires a < n
    ensures a % n == a
  {
  }

  lemma ModSelf(n: nat)
    requires n > 0
    ensures n % n == 0
  {
  }

  /** One step up is a step backward modulo the length. */
  lemma MoveUpOneWraps(len: nat, i: nat)
    requires 0 < len && i < len
    ensures MoveUpIndex(len, i, 1) == (i + len - 1) % len
  {
  }

  /** Moving down and then up by the same positive amount returns to the
      start, whenever the step does not overflow. */
  lemma MoveDownThenUp(len: nat, i: nat, amount: nat)
    requires 0 < len && i < len && 1 <= amount && i + amount <= USIZE_MAX
    ensures MoveUpIndex(len, MoveDownIndex(len, i, amount), amount) == i
  {
  }

  /** Moving up and then down by one returns to the start. */
  lemma MoveUpThenDown(len: nat, i: nat)
    requires 0 < len <= USIZE_MAX && i < len
    ensures MoveDownIndex(len, MoveUpIndex(len, i, 1), 1) == i
  {
  }

  /** The value of the session state. */
  datatype Snapshot = Snapshot(
    changes: bool,
    destructiveChanges: bool,
    cur: seq<nat>,
    loadedLists: seq<TodoList>,
    curList: nat,
    history: Option<TodoItem>)
  {
    /** The cursor is never empty and the active index names a resident document. */
    predicate WellFormed() {
      |cur| >= 1 && curList < |loadedLists|
    }

    /** Well formed and the cursor designates a node (see `CursorValid`). */
    predicate Valid() {
      WellFormed() && CursorValid(Contents(), cur)
    }

    /** `cur_loaded_list`. */
    function Current(): TodoList
      requires WellFormed()
    {
      loadedLists[curList]
    }

    function Contents(): seq<TodoItem>
      requires WellFormed()
    {
      loadedLists[curList].contents
    }

    /** The path of the current list: every cursor entry but the last. */
    function ParentPath(): seq<nat>
      requires |cur| >= 1
    {
      cur[..|cur| - 1]
    }

    /** `*last_cur()`. */
    function Last(): nat
      requires |cur| >= 1
    {
      cur[|cur| - 1]
    }

    /** `cur_parent_list()` on a valid cursor. */
    function ParentList(): seq<TodoItem>
      requires Valid()
    {
      ListAt(Contents(), ParentPath()).value
    }

    /** The active document with its sibling list at `path` replaced. */
    function WithList(path: seq<nat>, list: seq<TodoItem>): (r: Snapshot)
      requires WellFormed()
      ensures r.WellFormed() && r.cur == cur && r.curList == curList
    {
      this.(loadedLists := loadedLists[curList := Current().(contents := UpdateListAt(Contents(), path, list))])
    }

    /** The active document with its whole contents replaced. */
    function WithContents(contents: seq<TodoItem>): (r: Snapshot)
      requires WellFormed()
      ensures r.WellFormed() && r.Contents() == contents && r.cur == cur
    {
      this.(loadedLists := loadedLists[curList := Current().(contents := contents)])
    }

    /** The cursor with its last entry overwritten. */
    function WithLast(v: nat): (r: Snapshot)
      requires |cur| >= 1
      ensures |r.cur| == |cur| && r.Last() == v && r.ParentPath() == ParentPath()
    {
      this.(cur := cur[..|cur| - 1] + [v])
    }

    /** `switch_list(list)`: the cursor goes back to `[0]`, the undo buffer and
        both flags are cleared, and the document stored at the same path is
        activated if it is resident, else `list` is appended and activated. */
    function Switched(list: TodoList): (r: Snapshot)
      requires WellFormed()
      ensures r.Valid()
      ensures r.cur == [0] && r.history == None && !r.changes && !r.destructiveChanges
      ensures r.Current().path == list.path
      ensures (exists k :: 0 <= k < |loadedLists| && loadedLists[k].path == list.path) ==>
        r.loadedLists == loadedLists
      ensures (forall k :: 0 <= k < |loadedLists| ==> loadedLists[k].path != list.path) ==>
        r.loadedLists == loadedLists + [list] && r.curList == |loadedLists|
    {
      var base := this.(cur := [0], history := None, changes := false, destructiveChanges := false);
      match Position(loadedLists, list.path)
      case Some(k) => base.(curList := k)
      case None => base.(curList := |loadedLists|, loadedLists := loadedLists + [list])
    }
  }

  /** The state `WindowState::new(list)` starts in: the one document
      active, the cursor on its first node, both flags clear and nothing to
      undo. */
  function Initial(list: TodoList): (r: Snapshot)
    ensures r.Valid() && r.Current() == list && r.loadedLists == [list]
    ensures r.cur == [0] && |r.ParentList()| == |list.contents|
    ensures !r.changes && !r.destructiveChanges && r.history == None
  {
    Snapshot(false, false, [0], [list], 0, None)
  }

  /** Replacing the current list by one the last entry still fits keeps the
      cursor valid, and the current list reads back as the new one. */
  lemma ReplaceListValid(s: Snapshot, list: seq<TodoItem>)
    requires s.Valid()
    requires s.Last() < |list| || (list == [] && s.Last() == 0)
    ensures s.WithList(s.ParentPath(), list).Valid()
    ensures s.WithList(s.ParentPath(), list).ParentList() == list
  {
    ListAtUpdated(s.Contents(), s.ParentPath(), list);
  }

  /** Overwriting the last entry by an index of the current list keeps the
      cursor valid. */
  lemma WithLastValid(s: Snapshot, v: nat)
    requires s.Valid() && v < |s.ParentList()|
    ensures s.WithLast(v).Valid() && s.WithLast(v).ParentList() == s.ParentList()
  {
  }

  /** Leaving a level keeps the cursor valid: the new last entry is the
      index of the node whose children were the current list. */
  lemma PopValid(s: Snapshot)
    requires s.Valid() && |s.cur| > 1
    ensures s.(cur := s.ParentPath()).Valid()
    ensures s.(cur := s.ParentPath()).Last() == s.cur[|s.cur| - 2]
  {
    var q := s.cur[..|s.cur| - 2];
    var p := s.cur[|s.cur| - 2];
    assert s.ParentPath() == q + [p];
    ListAtSnoc(s.Contents(), q, p);
    assert s.(cur := s.ParentPath()).ParentPath() == q;
  }

  /** Entering the children of the selected node keeps the cursor valid
      when the new entry fits them. */
  lemma PushValid(s: Snapshot, x: nat)
    requires s.Valid() && s.Last() < |s.ParentList()|
    requires var kids := s.ParentList()[s.Last()].contents; x < |kids| || (kids == [] && x == 0)
    ensures s.(cur := s.cur + [x]).Valid()
    ensures s.(cur := s.cur + [x]).ParentList() == s.ParentList()[s.Last()].contents
  {
    assert s.cur == s.ParentPath() + [s.Last()];
    assert (s.cur + [x])[..|s.cur|] == s.cur;
    assert ListAt(s.Contents(), s.cur) == Some(s.ParentList()[s.Last()].contents) by {
      ListAtSnoc(s.Contents(), s.ParentPath(), s.Last());
    }
  }

  /** Replacing the current list and selecting an entry that fits it keeps
      the cursor valid. */
  lemma ReplaceSelectValid(s: Snapshot, list: seq<TodoItem>, v: nat)
    requires s.Valid()
    requires v < |list| || (list == [] && v == 0)
    ensures s.WithList(s.ParentPath(), list).WithLast(v).Valid()
    ensures s.WithList(s.ParentPath(), list).WithLast(v).ParentList() == list
  {
    ListAtUpdated(s.Contents(), s.ParentPath(), list);
  }

  /** Writing a list and moving the last entry do not interfere. */
  lemma WithLastList(s: Snapshot, v: nat, path: seq<nat>, list: seq<TodoItem>)
    requires s.WellFormed()
    ensures s.WithLast(v).WithList(path, list) == s.WithList(path, list).WithLast(v)
  {
  }

  /** Writing the contents back unchanged changes nothing. */
  lemma WithContentsSame(s: Snapshot)
    requires s.WellFormed()
    ensures s.WithContents(s.Contents()) == s
  {
    assert s.loadedLists[s.curList := s.Current()] == s.loadedLists;
  }

  /** Of two writes of the contents the second wins. */
  lemma WithContentsTwice(s: Snapshot, c1: seq<TodoItem>, c2: seq<TodoItem>)
    requires s.WellFormed()
    ensures s.WithContents(c1).WithContents(c2) == s.WithContents(c2)
  {
    assert s.WithContents(c1).loadedLists[s.curList := s.Current().(contents := c2)] ==
      s.loadedLists[s.curList := s.Current().(contents := c2)];
  }

  /** Rewriting the last entry with its own value changes nothing. */
  lemma WithLastSame(s: Snapshot)
    requires |s.cur| >= 1
    ensures s.WithLast(s.Last()) == s
  {
    assert s.cur[..|s.cur| - 1] + [s.Last()] == s.cur;
  }

  /** Of two writes of the last entry the second wins. */
  lemma WithLastTwice(s: Snapshot, a: nat, b: nat)
    requires |s.cur| >= 1
    ensures s.WithLast(a).WithLast(b) == s.WithLast(b)
  {
    assert s.WithLast(a).cur[..|s.cur| - 1] == s.cur[..|s.cur| - 1];
  }

  /** Writing the current list back unchanged changes nothing. */
  lemma WithListSame(s: Snapshot)
    requires s.Valid()
    ensures s.WithList(s.ParentPath(), s.ParentList()) == s
  {
    UpdateWithSame(s.Contents(), s.ParentPath());
    assert s.loadedLists[s.curList := s.Current()] == s.loadedLists;
  }

  /** Of two writes of the list at one path the second wins. */
  lemma WithListTwice(s: Snapshot, path: seq<nat>, l1: seq<TodoItem>, l2: seq<TodoItem>)
    requires s.WellFormed()
    ensures s.WithList(path, l1).WithList(path, l2) == s.WithList(path, l2)
  {
    UpdateTwice(s.Contents(), path, l1, l2);
  }

  /** The session state as an object, updated in place by the commands. */
  class WindowState {
    var changes: bool
    var destructiveChanges: bool
    var cur: seq<nat>
    var loadedLists: seq<TodoList>
    var curList: nat
    var history: Option<TodoItem>

    function Snap(): Snapshot
      reads this
    {
      Snapshot(changes, destructiveChanges, cur, loadedLists, curList, history)
    }

    predicate Valid()
      reads this
    {
      Snap().WellFormed()
    }

    /** `WindowState::new(list)`: cursor `[0]`, the one document active, both
        flags clear and nothing to undo. */
    constructor (list: TodoList)
      ensures Valid() && Snap() == Initial(list)
    {
      changes := false;
      destructiveChanges := false;
      cur := [0];
      loadedLists := [list];
      curList := 0;
      history := None;
    }

    /** `cur_loaded_list`. */
    function CurLoadedList(): TodoList
      reads this
      requires Valid()
    {
      loadedLists[curList]
    }

    /** The linear search inside `switch_list`. */
    method FindLoaded(path: string) returns (pos: Option<nat>)
      ensures pos == Position(loadedLists, path)
    {
      var i := 0;
      while i < |loadedLists|
        invariant i <= |loadedLists|
        invariant forall k :: 0 <= k < i ==> loadedLists[k].path != path
      {
        if loadedLists[i].path == path {
          return Some(i);
        }
        i := i + 1;
      }
      return None;
    }

    /** `switch_list`: in both branches the cursor is reset and the flags and
        the undo buffer cleared; a resident document with the same path is
        reactivated, otherwise the new one is appended and activated. */
    method SwitchList(list: TodoList)
      requires Valid()
      modifies this
      ensures Valid() && Snap() == old(Snap()).Switched(list)
    {
      var pos := FindLoaded(list.path);
      if pos.Some? {
        ResetCur();
        history := None;
        changes := false;
        destructiveChanges := false;
        curList := pos.value;
      } else {
        ResetCur();
        history := None;
        changes := false;
        destructiveChanges := false;
        curList := |loadedLists|;
        loadedLists := loadedLists + [list];
      }
    }

    /** `reload_list`: the contents of the active document are replaced by
        what was read back from its file (`loaded`, None when reading failed).
        The cursor is left as it was, so it may no longer be valid. */
    method ReloadList(loaded: Option<seq<TodoItem>>) returns (r: Result<(), Error>)
      requires Valid()
      modifies this
      ensures Valid()
      ensures loaded.Some? ==> r == Success(()) && Snap() == old(Snap()).WithContents(loaded.value)
      ensures loaded.None? ==> r == Failure(LoadError) && Snap() == old(Snap())
    {
      if loaded.None? {
        return Failure(LoadError);
      }
      loadedLists := loadedLists[curList := loadedLists[curList].(contents := loaded.value)];
      return Success(());
    }

    /** `cur_parent_list`: walk the top level along every cursor entry but
        the last; an entry that selects no node is a `DepthError`. */
    method CurParentList() returns (r: Result<seq<TodoItem>, Error>)
      requires Valid()
      ensures r.Success? <==> ListAt(CurLoadedList().contents, cur[..|cur| - 1]).Some?
      ensures r.Success? ==> Some(r.value) == ListAt(CurLoadedList().contents, cur[..|cur| - 1])
      ensures r.Failure? ==> r.error == DepthError
    {
      var top := loadedLists[curList].contents;
      var it := top;
      var n := |cur| - 1;
      for i := 0 to n
        invariant ListAt(top, cur[..i]) == Some(it)
      {
        assert cur[..i + 1] == cur[..i] + [cur[i]];
        ListAtSnoc(top, cur[..i], cur[i]);
        if cur[i] >= |it| {
          ListAtAppend(top, cur[..i + 1], cur[i + 1..n]);
          assert cur[..i + 1] + cur[i + 1..n] == cur[..n];
          return Failure(DepthError);
        }
        it := it[cur[i]].contents;
      }
      return Success(it);
    }

    /** `cur_item`: the node the cursor selects. */
    method CurItem() returns (r: Result<TodoItem, Error>)
      requires Valid()
      ensures var p := ListAt(CurLoadedList().contents, cur[..|cur| - 1]);
        r.Success? <==> (p.Some? && cur[|cur| - 1] < |p.value|)
      ensures r.Success? ==> r.value == ListAt(CurLoadedList().contents, cur[..|cur| - 1]).value[cur[|cur| - 1]]
      ensures r.Failure? ==> r.error == DepthError
    {
      var list := CurParentList();
      if list.Failure? {
        return Failure(DepthError);
      }
      var last := LastCur();
      if last.value >= |list.value| {
        return Failure(DepthError);
      }
      return Success(list.value[last.value]);
    }

    /** `reset_cur`: the cursor becomes `[0]`. */
    method ResetCur()
      modifies this`cur
      ensures cur == [0]
    {
      cur := [];
      cur := cur + [0];
    }

    /** `cur_depth`. */
    method CurDepth() returns (d: nat)
      ensures d == |cur|
    {
      return |cur|;
    }

    /** `move_cur_down(amount)`: on a non-empty current list the last entry
        steps forward, falling back to 0 at the end or on overflow; an empty
        list leaves the cursor alone. */
    method MoveCurDown(amount: nat) returns (r: Result<(), Error>)
      requires Valid()
      modifies this`cur
      ensures Valid()
      ensures var p := old(ListAt(CurLoadedList().contents, cur[..|cur| - 1]));
        match p
        case None => r == Failure(DepthError) && cur == old(cur)
        case Some(list) => (r == Success(()) &&
          cur == (if |list| > 0 then old(Snap().WithLast(MoveDownIndex(|list|, Snap().Last(), amount)).cur) else old(cur)))
    {
      var list := CurParentList();
      if list.Failure? {
        return Failure(DepthError);
      }
      var len := |list.value|;
      if len > 0 {
        var last := LastCur();
        if amount <= USIZE_MAX && last.value <= USIZE_MAX - amount && last.value < len - 1 {
          WriteLastCur(last.value + amount);
        } else {
          WriteLastCur(0);
        }
      }
      return Success(());
    }

    /** `move_cur_up(amount)`: on a non-empty current list the last entry
        steps back, jumping to the last index below 0; an empty list leaves
        the cursor alone. */
    method MoveCurUp(amount: nat) returns (r: Result<(), Error>)
      requires Valid()
      modifies this`cur
      ensures Valid()
      ensures var p := old(ListAt(CurLoadedList().contents, cur[..|cur| - 1]));
        match p
        case None => r == Failure(DepthError) && cur == old(cur)
        case Some(list) => (r == Success(()) &&
          cur == (if |list| > 0 then old(Snap().WithLast(MoveUpIndex(|list|, Snap().Last(), amount)).cur) else old(cur)))
    {
      var list := CurParentList();
      if list.Failure? {
        return Failure(DepthError);
      }
      var len := |list.value|;
      if len > 0 {
        var last := LastCur();
        if last.value >= amount {
          WriteLastCur(last.value - amount);
        } else {
          WriteLastCur(len - 1);
        }
      }
      return Success(());
    }

    /** `set_cur(values)`: the cursor is reset and every value pushed. The
        reset leaves its `0` in place, so the result starts with `0`. */
    method SetCur(values: seq<nat>)
      modifies this`cur
      ensures cur == [0] + values
    {
      ResetCur();
      for i := 0 to |values|
        invariant cur == [0] + values[..i]
      {
        assert values[..i + 1] == values[..i] + [values[i]];
        var _ := PushCur(values[i]);
      }
      assert values[..|values|] == values;
    }

    /** `pop_cur`: refuses at depth 1, otherwise removes and returns the last entry. */
    method PopCur() returns (r: Result<nat, Error>)
      modifies this`cur
      ensures |old(cur)| <= 1 ==> r == Failure(MinDepthError) && cur == old(cur)
      ensures |old(cur)| > 1 ==>
        r == Success(old(cur)[|old(cur)| - 1]) && cur == old(cur)[..|old(cur)| - 1]
    {
      if |cur| <= 1 {
        return Failure(MinDepthError);
      }
      var res := cur[|cur| - 1];
      cur := cur[..|cur| - 1];
      return Success(res);
    }

    /** `push_cur(entry)`: appends an entry and returns it as the new last one. */
    method PushCur(entry: nat) returns (last: nat)
      modifies this`cur
      ensures cur == old(cur) + [entry] && last == cur[|cur| - 1]
    {
      cur := cur + [entry];
      last := entry;
    }

    /** `last_cur`. */
    method LastCur() returns (r: Result<nat, Error>)
      requires |cur| >= 1
      ensures r == Success(cur[|cur| - 1])
    {
      r := Cur(|cur| - 1);
    }

    /** `first_cur`. */
    method FirstCur() returns (r: Result<nat, Error>)
      requires |cur| >= 1
      ensures r == Success(cur[0])
    {
      r := Cur(0);
    }

    /** `cur(depth)`: the entry at `depth`, failing exactly when the cursor is
        not that deep. */
    method Cur(depth: nat) returns (r: Result<nat, Error>)
      ensures r.Failure? <==> depth >= |cur|
      ensures r.Failure? ==> r.error == DepthError
      ensures r.Success? ==> r.value == cur[depth]
    {
      if |cur| <= depth {
        return Failure(DepthError);
      }
      return Success(cur[depth]);
    }

    /** Assigning through the reference `last_cur` returns. */
    method WriteLastCur(v: nat)
      requires |cur| >= 1
      modifies this`cur
      ensures cur == old(cur)[..|old(cur)| - 1] + [v]
    {
      cur := cur[..|cur| - 1] + [v];
    }

    /** Editing in place the sibling list that `cur_parent_list` returned
        while the cursor path was `path`. */
    method WriteList(path: seq<nat>, list: seq<TodoItem>)
      requires Valid()
      modifies this`loadedLists
      ensures Valid() && Snap() == old(Snap().WithList(path, list))
    {
      var doc := loadedLists[curList];
      loadedLists := loadedLists[curList := doc.(contents := UpdateListAt(doc.contents, path, list))];
    }
  }
}
