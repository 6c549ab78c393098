/** Properties of `handle_key_event` over every key: the cursor stays on a
    node (except after Ctrl-r), the `changes` flag is cleared only by a
    save or a switch, a key the handler does not bind changes nothing, and
    a command that fails leaves the tree and the cursor as they were. */
module Session {
  import opened Wrappers
  import opened Decimal
  import opened Todo
  import opened Tree
  import opened State
  import opened Keys
  import opened KeyProps

  // ---- what every arm keeps ----

  /** The arms guarded by a non-empty current list. */
  predicate NodeArm(cmd: Command) {
    cmd == EnterNode || cmd == AddChild || cmd == RenameNode || cmd == ToggleNode
  }

  /** What the arm `cmd` guarantees when it produced `r` from `s`: the
      cursor stays on a node unless the document was reloaded; `changes`
      once set is cleared only by a save or a switch of document; a failure
      does not redraw and leaves the cursor and the active tree as they
      were; a command that does not redraw leaves the cursor alone, except
      the switch of document, which resets it; and the answer is `Ok(true)`,
      with nothing changed, exactly when there is no arm or a guarded arm
      meets an empty list. */
  predicate Sound(s: Snapshot, cmd: Command, r: Step)
    requires s.Valid()
  {
    (cmd != ReloadFile ==> r.state.Valid()) &&
    (s.changes && cmd != SaveFile && cmd != SaveFileAs && cmd != SwitchList ==> r.state.changes) &&
    (r.result.Failure? ==>
      !r.dirty && r.state.cur == s.cur && r.state.WellFormed() && r.state.Contents() == s.Contents()) &&
    (!r.dirty && cmd != SwitchList ==> r.state.cur == s.cur) &&
    (r.result == Success(true) <==> cmd == NoArm || (NodeArm(cmd) && |s.ParentList()| == 0)) &&
    (r.result == Success(true) ==> r == Unrecognised(s))
  }

  // ---- one arm at a time ----

  lemma EnterSound(s: Snapshot)
    requires s.Valid()
    ensures Sound(s, EnterNode, Enter(s))
  {
    if |s.ParentList()| > 0 {
      LastInRange(s);
      if |s.ParentList()[s.Last()].contents| > 0 {
        PushValid(s, 0);
      }
    }
  }

  lemma NewChildSound(s: Snapshot, input: Option<string>)
    requires s.Valid()
    ensures Sound(s, AddChild, NewChild(s, input))
  {
    if |s.ParentList()| > 0 && input.Some? {
      NewChildSelectsIt(s, input.value);
    }
  }

  lemma RenameSound(s: Snapshot, input: Option<string>)
    requires s.Valid()
    ensures Sound(s, RenameNode, Rename(s, input))
  {
    if |s.ParentList()| > 0 && input.Some? {
      RenameOnlyTitle(s, input.value);
    }
  }

  lemma ToggleSound(s: Snapshot)
    requires s.Valid()
    ensures Sound(s, ToggleNode, Toggle(s))
  {
    if |s.ParentList()| > 0 {
      ToggleFlips(s);
    }
  }

  lemma InsertSound(s: Snapshot, input: Option<string>)
    requires s.Valid()
    ensures Sound(s, InsertNode, InsertItem(s, input))
  {
    if input.Some? {
      InsertSelectsNew(s, input.value);
    }
  }

  lemma AppendSound(s: Snapshot, input: Option<string>)
    requires s.Valid()
    ensures Sound(s, AppendNode, AppendItem(s, input))
  {
    if input.Some? {
      AppendSelectsNew(s, input.value);
    }
  }

  lemma DeleteSound(s: Snapshot)
    requires s.Valid()
    ensures Sound(s, DeleteNode, DeleteItem(s))
  {
    assert DeleteItem(s).state.Valid() by {
      var n := |s.ParentList()|;
      if n > 0 {
        LastInRange(s);
        if s.Last() + 1 < n {
          DeleteKeepsCursor(s);
        } else if n > 1 {
          DeleteLastSelectsPrevious(s);
        } else {
          DeleteOnlyNode(s);
        }
      }
    }
  }

  lemma GotoSound(s: Snapshot, input: Option<string>)
    requires s.Valid()
    ensures Sound(s, GotoNode, Goto(s, input))
  {
    if input.Some? {
      GotoSelects(s, input.value);
    }
  }

  lemma MoveOutSound(s: Snapshot)
    requires s.Valid()
    ensures Sound(s, NodeOut, MoveOut(s))
  {
    if |s.ParentList()| > 0 && |s.cur| > 1 && s.cur[|s.cur| - 2] > 0 {
      MoveOutUnnests(s);
    }
  }

  lemma MoveInSound(s: Snapshot)
    requires s.Valid()
    ensures Sound(s, NodeIn, MoveIn(s))
  {
    if |s.ParentList()| > 0 && s.Last() > 0 {
      MoveInNests(s);
    }
  }

  /** Renaming or re-pathing the active document leaves its tree alone. */
  lemma RelabelValid(s: Snapshot, d: TodoList)
    requires s.Valid() && d.contents == s.Current().contents
    ensures s.(loadedLists := s.loadedLists[s.curList := d]).Valid()
    ensures s.(loadedLists := s.loadedLists[s.curList := d]).Contents() == s.Contents()
  {
  }

  lemma CursorDownSound(s: Snapshot)
    requires s.Valid()
    ensures Sound(s, MoveDown, CursorDown(s))
  {
    CursorDownWraps(s);
  }

  lemma CursorUpSound(s: Snapshot)
    requires s.Valid()
    ensures Sound(s, MoveUp, CursorUp(s))
  {
    CursorUpWraps(s);
  }

  lemma LeaveSound(s: Snapshot)
    requires s.Valid()
    ensures Sound(s, LeaveLevel, Leave(s))
  {
    LeaveSelectsParent(s);
  }

  lemma UndoSound(s: Snapshot)
    requires s.Valid()
    ensures Sound(s, UndoNode, UndoDelete(s))
  {
    UndoReinserts(s);
  }

  lemma ShiftUpSound(s: Snapshot)
    requires s.Valid()
    ensures Sound(s, ShiftNodeUp, ShiftUp(s))
  {
    ShiftUpKeepsNodes(s);
  }

  lemma ShiftDownSound(s: Snapshot)
    requires s.Valid()
    ensures Sound(s, ShiftNodeDown, ShiftDown(s))
  {
    ShiftDownKeepsNodes(s);
  }

  lemma JumpLastSound(s: Snapshot)
    requires s.Valid()
    ensures Sound(s, LastNode, JumpLast(s))
  {
    JumpLastSelects(s);
  }

  lemma JumpFirstSound(s: Snapshot)
    requires s.Valid()
    ensures Sound(s, FirstNode, JumpFirst(s))
  {
    JumpFirstSelects(s);
  }

  lemma SaveAsSound(s: Snapshot, env: Env)
    requires s.Valid()
    ensures Sound(s, SaveFileAs, SaveAs(s, env))
  {
    if env.input.Some? {
      RelabelValid(s, s.Current().(path := env.input.value));
    }
  }

  lemma EditTitleSound(s: Snapshot, input: Option<string>)
    requires s.Valid()
    ensures Sound(s, RetitleList, EditTitle(s, input))
  {
    if input.Some? {
      RelabelValid(s, s.Current().(name := input.value));
    }
  }

  lemma ReloadSound(s: Snapshot, env: Env)
    requires s.Valid()
    ensures Sound(s, ReloadFile, Reload(s, env))
  {
  }

  lemma SaveSound(s: Snapshot, ioOk: bool)
    requires s.Valid()
    ensures Sound(s, SaveFile, Save(s, ioOk))
  {
  }

  lemma ChangeListSound(s: Snapshot, env: Env)
    requires s.Valid()
    ensures Sound(s, SwitchList, ChangeList(s, env))
  {
  }

  lemma DeleteFileSound(s: Snapshot, env: Env)
    requires s.Valid()
    ensures Sound(s, RemoveFile, DeleteFile(s, env))
  {
  }

  lemma RunSound(s: Snapshot, cmd: Command, env: Env)
    requires s.Valid()
    ensures Sound(s, cmd, Run(s, cmd, env))
  {
    match cmd
    case MoveDown => CursorDownSound(s);
    case MoveUp => CursorUpSound(s);
    case LeaveLevel => LeaveSound(s);
    case EnterNode => EnterSound(s);
    case AddChild => NewChildSound(s, env.input);
    case RenameNode => RenameSound(s, env.input);
    case ToggleNode => ToggleSound(s);
    case InsertNode => InsertSound(s, env.input);
    case AppendNode => AppendSound(s, env.input);
    case DeleteNode => DeleteSound(s);
    case UndoNode => UndoSound(s);
    case GotoNode => GotoSound(s, env.input);
    case ShiftNodeUp => ShiftUpSound(s);
    case ShiftNodeDown => ShiftDownSound(s);
    case NodeOut => MoveOutSound(s);
    case NodeIn => MoveInSound(s);
    case LastNode => JumpLastSound(s);
    case FirstNode => JumpFirstSound(s);
    case ReloadFile => ReloadSound(s, env);
    case SaveFile => SaveSound(s, env.ioOk);
    case SaveFileAs => SaveAsSound(s, env);
    case SwitchList => ChangeListSound(s, env);
    case RemoveFile => DeleteFileSound(s, env);
    case RetitleList => EditTitleSound(s, env.input);
    case ShowHelp =>
    case NoArm =>
  }

  // ---- every key ----

  /** The keys `handle_key_event` has an arm for. */
  predicate Bound(key: Key) {
    key == Down || key == Char('j') || key == Up || key == Char('k') ||
    key == Left || key == Char('h') || key == Right || key == Char('l') ||
    key == Char('\t') || key == Char('E') || key == Char('e') || key == Char('w') || key == Char(' ') ||
    key == Char('i') || key == Char('a') || key == Char('d') || key == Char('u') || key == Char('g') ||
    key == Char('K') || key == Char('J') || key == Char('H') || key == Char('L') ||
    key == PageDown || key == PageUp ||
    key == Ctrl('r') || key == Ctrl('s') || key == Ctrl('S') || key == Ctrl('c') ||
    key == Ctrl('d') || key == Ctrl('p') || key == Ctrl('h')
  }

  /** The keys whose arm is guarded by a non-empty current list. */
  predicate NeedsNode(key: Key) {
    key == Right || key == Char('l') || key == Char('\t') ||
    key == Char('E') || key == Char('e') || key == Char('w') || key == Char(' ')
  }

  /** Exactly the bound keys select an arm, and exactly the guarded ones a
      node arm. */
  lemma CommandOfBound(key: Key)
    ensures Bound(key) <==> ArmOf(key) != NoArm
    ensures NeedsNode(key) <==> NodeArm(ArmOf(key))
  {
  }

  /** The document arms are selected by their Ctrl keys alone. */
  lemma ArmOfCtrl(key: Key)
    ensures ArmOf(key) == ReloadFile <==> key == Ctrl('r')
    ensures ArmOf(key) == SaveFile <==> key == Ctrl('s')
    ensures ArmOf(key) == SaveFileAs <==> key == Ctrl('S')
    ensures ArmOf(key) == SwitchList <==> key == Ctrl('c')
  {
  }

  lemma HandleKeySound(s: Snapshot, key: Key, env: Env)
    requires s.Valid()
    ensures Sound(s, ArmOf(key), HandleKey(s, key, env))
  {
    RunSound(s, ArmOf(key), env);
  }

  /** Every key but Ctrl-r keeps the cursor on a node of the active document. */
  lemma HandleKeyKeepsCursorValid(s: Snapshot, key: Key, env: Env)
    requires s.Valid() && key != Ctrl('r')
    ensures HandleKey(s, key, env).state.Valid()
  {
    HandleKeySound(s, key, env);
    assert ArmOf(key) != ReloadFile by { ArmOfCtrl(key); }
  }

  /** `changes` is cleared only by Ctrl-s, Ctrl-S and Ctrl-c. */
  lemma ChangesSticky(s: Snapshot, key: Key, env: Env)
    requires s.Valid() && s.changes
    ensures HandleKey(s, key, env).state.changes || key == Ctrl('s') || key == Ctrl('S') || key == Ctrl('c')
  {
    HandleKeySound(s, key, env);
    ArmOfCtrl(key);
  }

  /** A command that fails does not redraw and leaves the cursor and the
      active tree alone. */
  lemma FailureKeepsTree(s: Snapshot, key: Key, env: Env)
    requires s.Valid() && HandleKey(s, key, env).result.Failure?
    ensures var r := HandleKey(s, key, env);
      !r.dirty && r.state.cur == s.cur && r.state.WellFormed() && r.state.Contents() == s.Contents()
  {
    HandleKeySound(s, key, env);
  }

  /** The handler answers `Ok(true)` exactly for a key it does not bind and
      for a guarded key on an empty list, and then it changes nothing. */
  lemma UnrecognisedExactly(s: Snapshot, key: Key, env: Env)
    requires s.Valid()
    ensures HandleKey(s, key, env).result == Success(true) <==>
      !Bound(key) || (NeedsNode(key) && |s.ParentList()| == 0)
    ensures HandleKey(s, key, env).result == Success(true) ==> HandleKey(s, key, env) == Unrecognised(s)
  {
    HandleKeySound(s, key, env);
    CommandOfBound(key);
  }

  /** Ctrl-r does not repair the cursor: reloading a document of two nodes
      with the second selected, when the file now holds none, leaves the
      cursor on a node that does not exist. */
  lemma ReloadLeavesStaleCursor(name: string, path: string, a: TodoItem, b: TodoItem)
    ensures var s := Initial(TodoList(name, path, [a, b])).WithLast(1);
      var env := Env(None, true, true, Some([]), None);
      s.Valid() && !HandleKey(s, Ctrl('r'), env).state.Valid()
  {
  }
}
