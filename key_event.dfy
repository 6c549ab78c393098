/** `Window::handle_key_event` as a function of the session state: one
    function per arm, each the in-place edit of the current sibling list
    together with the repair of the cursor. The imperative rendering is
    `Editor.Window.HandleKeyEvent`, which is proved to agree with `HandleKey`. */
module Keys {
  import opened Wrappers
  import opened Decimal
  import opened Todo
  import opened Tree
  import opened State

  /** The keys termion reports; `OtherKey` stands for every key the handler
      has no arm for. */
  datatype Key = Up | Down | Left | Right | PageUp | PageDown | Esc | Char(c: char) | Ctrl(c: char) | OtherKey

  /** What the collaborators answer during one command. */
  datatype Env = Env(
    input: Option<string>,          // the text typed at the prompt; None when it was abandoned
    confirmed: bool,                // the answer to the yes/no confirmation
    ioOk: bool,                     // whether saving or removing the file succeeded
    loaded: Option<seq<TodoItem>>,  // the contents read back from the file; None when reading failed
    chosen: Option<TodoList>)       // the document picked when switching; None when none was

  /** The new state, whether the command set `dirty_window`, and the value
      `handle_key_event` returns: `Ok(true)` for an unrecognised key. */
  datatype Step = Step(state: Snapshot, dirty: bool, result: Result<bool, Error>)

  function Done(s: Snapshot, dirty: bool): Step {
    Step(s, dirty, Success(false))
  }

  function Unrecognised(s: Snapshot): Step {
    Step(s, false, Success(true))
  }

  /** The first position of `c` in `s` (`str::find`). */
  function FirstIndexOf(s: string, c: char): (r: Option<nat>)
    ensures r.Some? ==> r.value < |s| && s[r.value] == c && forall k :: 0 <= k < r.value ==> s[k] != c
    ensures r.None? ==> forall k :: 0 <= k < |s| ==> s[k] != c
  {
    if |s| == 0 then None
    else if s[0] == c then Some(0)
    else match FirstIndexOf(s[1..], c)
      case Some(k) => Some(k + 1)
      case None => None
  }

  /** On a valid cursor a non-empty current list contains the last entry. */
  lemma LastInRange(s: Snapshot)
    requires s.Valid() && |s.ParentList()| > 0
    ensures s.Last() < |s.ParentList()|
  {
  }

  // ---- navigation ----

  /** `j` / Down. */
  function CursorDown(s: Snapshot): Step
    requires s.Valid()
  {
    var list := s.ParentList();
    Done(if |list| > 0 then s.WithLast(MoveDownIndex(|list|, s.Last(), 1)) else s, true)
  }

  /** `k` / Up. */
  function CursorUp(s: Snapshot): Step
    requires s.Valid()
  {
    var list := s.ParentList();
    Done(if |list| > 0 then s.WithLast(MoveUpIndex(|list|, s.Last(), 1)) else s, true)
  }

  /** `h` / Left: leave one level unless at the top. */
  function Leave(s: Snapshot): Step
    requires s.Valid()
  {
    if |s.cur| > 1 then Done(s.(cur := s.ParentPath()), true) else Done(s, false)
  }

  /** `l` / Right: enter the first child of a node that has children. */
  function Enter(s: Snapshot): Step
    requires s.Valid()
  {
    var list := s.ParentList();
    if |list| == 0 then Unrecognised(s)
    else if |list[s.Last()].contents| > 0 then Done(s.(cur := s.cur + [0]), true)
    else Done(s, false)
  }

  /** PageDown: select the last sibling. */
  function JumpLast(s: Snapshot): Step
    requires s.Valid()
  {
    var list := s.ParentList();
    if |list| > 0 then Done(s.WithLast(|list| - 1), true) else Done(s, false)
  }

  /** PageUp: select the first sibling. */
  function JumpFirst(s: Snapshot): Step
    requires s.Valid()
  {
    var list := s.ParentList();
    if |list| > 0 then Done(s.WithLast(0), true) else Done(s, false)
  }

  /** The index `g` selects in a list of `len` nodes for the typed text:
      counted from the end when the text holds a '-' (removed before
      parsing), else from the start; None when the text is not a positive
      number (the editor beeps); Underflow for a plain number on an empty
      list. */
  function GotoIndex(text: string, len: nat): (r: Option<Result<nat, Error>>)
    ensures r.Some? && r.value.Success? ==> r.value.value < len || (len == 0 && r.value.value == 0)
    ensures r.Some? && r.value.Failure? ==> len == 0 && r.value.error == Underflow
  {
    match FirstIndexOf(text, '-')
    case Some(k) =>
      var num := ParseUsize(Remove(text, k));
      if num.Some? && num.value > 0 then
        Some(Success(if num.value <= len then len - num.value else 0))
      else None
    case None =>
      var num := ParseUsize(text);
      if num.Some? && num.value > 0 then
        if num.value <= len then Some(Success(num.value - 1))
        else if len == 0 then Some(Failure(Underflow))
        else Some(Success(len - 1))
      else None
  }

  /** `g`: select the node `GotoIndex` names; text that names none only beeps. */
  function Goto(s: Snapshot, input: Option<string>): Step
    requires s.Valid()
  {
    match input
    case None => Done(s, false)
    case Some(text) =>
      match GotoIndex(text, |s.ParentList()|)
      case None => Done(s, true)
      case Some(Success(k)) => Done(s.WithLast(k), true)
      case Some(Failure(e)) => Step(s, false, Failure(e))
  }

  // ---- edits of the selected node ----

  /** Tab: append a new child to the selected node and select it. */
  function NewChild(s: Snapshot, input: Option<string>): Step
    requires s.Valid()
  {
    var list := s.ParentList();
    if |list| == 0 then Unrecognised(s)
    else match input
      case None => Done(s, false)
      case Some(t) =>
        var node := list[s.Last()];
        var n := |node.contents|;
        var edited := list[s.Last() := node.(contents := Insert(node.contents, n, CreateItem(t)))];
        Done(s.WithList(s.ParentPath(), edited).(cur := s.cur + [n], changes := true), true)
  }

  /** `E`, `e`, `w`: replace the title of the selected node. */
  function Rename(s: Snapshot, input: Option<string>): Step
    requires s.Valid()
  {
    var list := s.ParentList();
    if |list| == 0 then Unrecognised(s)
    else match input
      case None => Done(s, false)
      case Some(t) =>
        var edited := list[s.Last() := list[s.Last()].(title := t)];
        Done(s.WithList(s.ParentPath(), edited).(changes := true), false)
  }

  /** Space: flip the tick of the selected node. */
  function Toggle(s: Snapshot): Step
    requires s.Valid()
  {
    var list := s.ParentList();
    if |list| == 0 then Unrecognised(s)
    else
      var node := list[s.Last()];
      Done(s.WithList(s.ParentPath(), list[s.Last() := node.(tickedOff := !node.tickedOff)]).(changes := true), false)
  }

  // ---- structural edits of the current list ----

  /** `i`: insert a new node at the cursor. */
  function InsertItem(s: Snapshot, input: Option<string>): Step
    requires s.Valid()
  {
    var list := s.ParentList();
    match input
    case None => Done(s, false)
    case Some(t) =>
      Done(s.WithList(s.ParentPath(), Insert(list, s.Last(), CreateItem(t))).(changes := true), true)
  }

  /** `a`: step the cursor forward unless it would pass the end, then insert
      a new node there. */
  function AppendItem(s: Snapshot, input: Option<string>): Step
    requires s.Valid()
  {
    var list := s.ParentList();
    match input
    case None => Done(s, false)
    case Some(t) =>
      var j := if s.Last() + 1 <= |list| then s.Last() + 1 else s.Last();
      Done(s.WithList(s.ParentPath(), Insert(list, j, CreateItem(t))).WithLast(j).(changes := true), true)
  }

  /** `d`: move the selected node into the undo buffer; when the cursor is
      left past the end, leave the level if the list became empty (and the
      cursor is deeper than 1), else select the new last node. */
  function DeleteItem(s: Snapshot): Step
    requires s.Valid()
  {
    var list := s.ParentList();
    if |list| == 0 then Done(s, false)
    else
      var rest := Remove(list, s.Last());
      var s1 := s.WithList(s.ParentPath(), rest).(history := Some(list[s.Last()]), changes := true);
      if s.Last() >= |rest| then
        if |rest| == 0 then
          if |s.cur| > 1 then Done(s1.(cur := s1.ParentPath()), true) else Done(s1, true)
        else Done(s1.WithLast(|rest| - 1), true)
      else Done(s1, false)
  }

  /** `u`: insert the buffered node at the cursor, and empty the buffer. */
  function UndoDelete(s: Snapshot): Step
    requires s.Valid()
  {
    match s.history
    case Some(item) =>
      Done(s.WithList(s.ParentPath(), Insert(s.ParentList(), s.Last(), item)).(changes := true, history := None), true)
    case None => Done(s.(history := None), false)
  }

  /** `K`: swap the selected node with the one before it, the cursor
      following it; the first node rotates to the end. */
  function ShiftUp(s: Snapshot): Step
    requires s.Valid()
  {
    var list := s.ParentList();
    var i := s.Last();
    if |list| > 1 then
      if i > 0 then
        Done(s.WithList(s.ParentPath(), Swap(list, i, i - 1)).WithLast(i - 1).(changes := true), true)
      else
        var rest := Remove(list, i);
        Done(s.WithList(s.ParentPath(), Insert(rest, |rest|, list[i])).WithLast(|rest|).(changes := true), true)
    else Done(s, false)
  }

  /** `J`: swap the selected node with the one after it, the cursor
      following it; the last node rotates to the front. */
  function ShiftDown(s: Snapshot): Step
    requires s.Valid()
  {
    var list := s.ParentList();
    var i := s.Last();
    if |list| > 1 then
      if i < |list| - 1 then
        Done(s.WithList(s.ParentPath(), Swap(list, i, i + 1)).WithLast(i + 1).(changes := true), true)
      else
        var rest := Remove(list, i);
        Done(s.WithList(s.ParentPath(), Insert(rest, 0, list[i])).WithLast(0).(changes := true), true)
    else Done(s, false)
  }

  /** The grandparent list as it reads once the selected node has been
      removed from its parent, which sits at entry `p` of it. */
  lemma MoveOutShape(s: Snapshot)
    requires s.Valid() && |s.ParentList()| > 0 && |s.cur| > 1
    ensures var q := s.cur[..|s.cur| - 2];
      var p := s.cur[|s.cur| - 2];
      var s1 := s.WithList(s.ParentPath(), Remove(s.ParentList(), s.Last()));
      ListAt(s.Contents(), q).Some? &&
      p < |ListAt(s.Contents(), q).value| &&
      ListAt(s.Contents(), q).value[p].contents == s.ParentList() &&
      s.ParentPath() == q + [p] &&
      ListAt(s1.Contents(), q) ==
        Some(ListAt(s.Contents(), q).value[p := ListAt(s.Contents(), q).value[p].(contents := Remove(s.ParentList(), s.Last()))])
  {
    var q := s.cur[..|s.cur| - 2];
    var p := s.cur[|s.cur| - 2];
    assert s.ParentPath() == q + [p];
    ListAtSnoc(s.Contents(), q, p);
    var g := ListAt(s.Contents(), q).value;
    var rest := Remove(s.ParentList(), s.Last());
    UpdateSnoc(s.Contents(), q, p, rest);
    ListAtUpdated(s.Contents(), q, g[p := g[p].(contents := rest)]);
  }

  /** `H`: at depth > 1, and only when the parent is not the first of its
      siblings, move the selected node out to just after its parent and
      select it there. `changes` is set in every case. */
  function MoveOut(s: Snapshot): Step
    requires s.Valid()
  {
    var list := s.ParentList();
    if |list| > 0 then
      if |s.cur| > 1 && s.cur[|s.cur| - 2] > 0 then
        MoveOutShape(s);
        var item := list[s.Last()];
        var s1 := s.WithList(s.ParentPath(), Remove(list, s.Last()));
        var s2 := s1.(cur := s1.ParentPath());
        var grand := ListAt(s2.Contents(), s2.ParentPath()).value;
        var p := s2.Last();
        Done(s2.WithList(s2.ParentPath(), Insert(grand, p + 1, item)).WithLast(p + 1).(changes := true), true)
      else Done(s.(changes := true), true)
    else Done(s.(changes := true), false)
  }

  /** `L`: when the selected node has a sibling before it, move it to the
      end of that sibling's children and follow it there. `changes` is set
      in every case. */
  function MoveIn(s: Snapshot): Step
    requires s.Valid()
  {
    var list := s.ParentList();
    var i := s.Last();
    if |list| > 0 then
      if i > 0 then
        var rest := Remove(list, i);
        var node := rest[i - 1];
        var n := |node.contents|;
        var moved := rest[i - 1 := node.(contents := Insert(node.contents, n, list[i]))];
        Done(s.WithList(s.ParentPath(), moved).(cur := s.ParentPath() + [i - 1, n], changes := true), true)
      else Done(s.(changes := true), true)
    else Done(s.(changes := true), false)
  }

  // ---- document commands; the file operations are the answers in `Env` ----

  /** Ctrl-r: after confirmation the contents are replaced by what is read
      back from the file. The cursor is not revalidated. */
  function Reload(s: Snapshot, env: Env): Step
    requires s.Valid()
  {
    if !env.confirmed then Done(s, false)
    else match env.loaded
      case Some(contents) => Done(s.WithContents(contents), false)
      case None => Step(s, false, Failure(LoadError))
  }

  /** Ctrl-s: a successful save clears both flags; a failed one changes nothing. */
  function Save(s: Snapshot, ioOk: bool): (r: Step)
    requires s.Valid()
    ensures ioOk ==> r.result == Success(false) && !r.state.changes && !r.state.destructiveChanges
    ensures !ioOk ==> r.result == Failure(IoError) && r.state == s
  {
    if ioOk then Done(s.(changes := false, destructiveChanges := false), false)
    else Step(s, false, Failure(IoError))
  }

  /** Ctrl-S: the document takes the typed path, then is saved there. */
  function SaveAs(s: Snapshot, env: Env): Step
    requires s.Valid()
  {
    match env.input
    case None => Done(s, false)
    case Some(p) =>
      var s1 := s.(loadedLists := s.loadedLists[s.curList := s.Current().(path := p)]);
      if env.ioOk then Done(s1.(changes := false, destructiveChanges := false), false)
      else Step(s1, false, Failure(IoError))
  }

  /** Ctrl-c: save first if there are changes and the user agrees, then
      switch to the document picked. */
  function ChangeList(s: Snapshot, env: Env): Step
    requires s.Valid()
  {
    if s.changes && env.confirmed && !env.ioOk then Step(s, false, Failure(IoError))
    else match env.chosen
      case Some(list) => Done(s.Switched(list), false)
      case None => Step(s, false, Failure(SwitchError))
  }

  /** Ctrl-d: after confirmation the file is removed, which marks both flags. */
  function DeleteFile(s: Snapshot, env: Env): (r: Step)
    requires s.Valid()
    ensures env.confirmed && env.ioOk ==> r.state.changes && r.state.destructiveChanges
    ensures !env.confirmed ==> r.state == s
  {
    if !env.confirmed then Done(s, false)
    else if env.ioOk then Done(s.(changes := true, destructiveChanges := true), false)
    else Step(s, false, Failure(IoError))
  }

  /** Ctrl-p: rename the document; `changes` is set even when the prompt is abandoned. */
  function EditTitle(s: Snapshot, input: Option<string>): Step
    requires s.Valid()
  {
    match input
    case Some(t) => Done(s.(loadedLists := s.loadedLists[s.curList := s.Current().(name := t)], changes := true), false)
    case None => Done(s.(changes := true), false)
  }

  /** The arms of `handle_key_event`. */
  datatype Command =
    | MoveDown | MoveUp | LeaveLevel | EnterNode | AddChild | RenameNode | ToggleNode
    | InsertNode | AppendNode | DeleteNode | UndoNode | GotoNode
    | ShiftNodeUp | ShiftNodeDown | NodeOut | NodeIn | LastNode | FirstNode
    | ReloadFile | SaveFile | SaveFileAs | SwitchList | RemoveFile | RetitleList | ShowHelp
    | NoArm

  /** The arm `handle_key_event` selects for `key`. */
  function ArmOf(key: Key): Command {
    match key
    case Down => MoveDown
    case Up => MoveUp
    case Left => LeaveLevel
    case Right => EnterNode
    case PageDown => LastNode
    case PageUp => FirstNode
    case Char(c) => CharArm(c)
    case Ctrl(c) => CtrlArm(c)
    case Esc => NoArm
    case OtherKey => NoArm
  }

  /** The arm for a plain character key. */
  function CharArm(c: char): Command {
    if c == 'j' then MoveDown
    else if c == 'k' then MoveUp
    else if c == 'h' then LeaveLevel
    else if c == 'l' then EnterNode
    else if c == '\t' then AddChild
    else if c == 'E' || c == 'e' || c == 'w' then RenameNode
    else if c == ' ' then ToggleNode
    else if c == 'i' then InsertNode
    else if c == 'a' then AppendNode
    else if c == 'd' then DeleteNode
    else if c == 'u' then UndoNode
    else if c == 'g' then GotoNode
    else if c == 'K' then ShiftNodeUp
    else if c == 'J' then ShiftNodeDown
    else if c == 'H' then NodeOut
    else if c == 'L' then NodeIn
    else NoArm
  }

  /** The arm for a Ctrl chord. */
  function CtrlArm(c: char): Command {
    if c == 'r' then ReloadFile
    else if c == 's' then SaveFile
    else if c == 'S' then SaveFileAs
    else if c == 'c' then SwitchList
    else if c == 'd' then RemoveFile
    else if c == 'p' then RetitleList
    else if c == 'h' then ShowHelp
    else NoArm
  }

  /** The body of the arm `cmd`. */
  function Run(s: Snapshot, cmd: Command, env: Env): Step
    requires s.Valid()
  {
    match cmd
    case MoveDown => CursorDown(s)
    case MoveUp => CursorUp(s)
    case LeaveLevel => Leave(s)
    case EnterNode => Enter(s)
    case AddChild => NewChild(s, env.input)
    case RenameNode => Rename(s, env.input)
    case ToggleNode => Toggle(s)
    case InsertNode => InsertItem(s, env.input)
    case AppendNode => AppendItem(s, env.input)
    case DeleteNode => DeleteItem(s)
    case UndoNode => UndoDelete(s)
    case GotoNode => Goto(s, env.input)
    case ShiftNodeUp => ShiftUp(s)
    case ShiftNodeDown => ShiftDown(s)
    case NodeOut => MoveOut(s)
    case NodeIn => MoveIn(s)
    case LastNode => JumpLast(s)
    case FirstNode => JumpFirst(s)
    case ReloadFile => Reload(s, env)
    case SaveFile => Save(s, env.ioOk)
    case SaveFileAs => SaveAs(s, env)
    case SwitchList => ChangeList(s, env)
    case RemoveFile => DeleteFile(s, env)
    case RetitleList => EditTitle(s, env.input)
    case ShowHelp => Done(s, false)
    case NoArm => Unrecognised(s)
  }

  /** `handle_key_event`: run the arm the key selects. */
  function HandleKey(s: Snapshot, key: Key, env: Env): Step
    requires s.Valid()
  {
    Run(s, ArmOf(key), env)
  }
}
