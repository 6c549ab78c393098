# Todo outliner: the tree-cursor engine in Dafny

This project models the core of a terminal outliner written in Rust. A
document holds an ordered forest of `TodoItem` nodes; each node has a tick flag, a
title and owned children. The selection is a stack of sibling indices, one per depth. Every key
command edits the current sibling list in place and then repairs that index
stack. Mouse wheel events move the selection. A separate menu (`select`) picks
one of a list of options. The screen is laid out line by line under a budget,
and it scrolls so that the selected top-level node sits in the lower half.

The model has one module per source file. The session state appears twice:

- `State.Snapshot` is a value. Specification functions are stated over it.
- `State.WindowState` and `Editor.Window` are classes whose methods update
  fields in place, as the Rust methods do.

Every imperative method is proved equal to the specification function of
its command. The properties themselves are lemmas about those functions.

| module | file | models |
|---|---|---|
| `Todo` | `todo_list.dfy` | `TodoItem`, `TodoList`, their constructors, the serialised part |
| `Decimal` | `decimal.dfy` | `str::parse::<usize>` (the goto prompt) and, as its reference inverse, the shortest decimal text of a number |
| `Tree` | `tree.dfy` | `Vec::insert`/`remove`/`swap`, the path walk, the cursor invariant |
| `State` | `window_state.dfy` | `WindowState`: cursor stack, resident documents, flags, undo slot |
| `Keys` | `key_event.dfy` | `handle_key_event`: one function per arm, and the key dispatch |
| `KeyProps` | `key_props.dfy` | what each arm does, and the round trips between arms |
| `Session` | `key_session.dfy` | what every arm keeps: a valid cursor, sticky `changes`, harmless failures |
| `Mouse` | `mouse_event.dfy` | `handle_mouse_event`, with its `i64`/`u64` arithmetic written out |
| `Viewport` | `viewport.dfy` | `calc_item_length` and the scroll offset loop of `run` |
| `View` | `window_view.dfy` | `get_color`, the header, `print_out_list`/`print_item` as line records |
| `Select` | `select_helper.dfy` | the event loop of `select` |
| `Editor` | `window.dfy` | the `Window` object: key and mouse handlers, one turn of `run` |

Modelling decisions:

- **Collaborators.** What the user types, the answers to confirmations, the
  outcome of file writes and reads, and the document picked when switching are
  all inputs. They are collected in `Keys.Env`.
- **Errors.** What the Rust code returns as an error, or where it panics, is
  a `Failure`:
  - `DepthError` for a cursor entry out of range;
  - `MinDepthError` for popping the last level;
  - `LoadError` and `IoError` for the file operations;
  - `SwitchError` when no document is chosen;
  - `Underflow` for an unsigned subtraction below zero. This covers the
    terminal height less 4, `amount / 2 - sum - 2` in the offset loop,
    `len - 1` of goto on an empty list, and the menu arrows on an empty menu.
- **Out-of-range scroll index.** Indexing the top level with a scroll index
  past its end panics in `run`. The model reports this as `DepthError`.
- **Cursor invariant.** `Tree.CursorValid` is the invariant behind the cursor:
  - every entry but the last selects an existing node;
  - the last is an index of the current list, or 0 when that list is empty.

  Every command keeps it, except Ctrl-r. Reloading replaces the contents but
  not the cursor, so the cursor can point past the new contents.
  `Session.ReloadLeavesStaleCursor` exhibits this. The handlers require a
  valid cursor, so the model does not go on past such a reload.
- **Re-anchoring after Ctrl-c.** Switching documents resets the cursor to
  `[0]` but does not set `dirty_window`. The next screen therefore keeps the
  old scroll offset. For this reason, the on-screen guarantee
  `Editor.TurnShowsCursor` is stated for every event except Ctrl-r and Ctrl-c.

## Model

| member | source | states |
|---|---|---|
| `Todo.CreateItem` | src/todo_list.rs:35-41 | a new node is unticked, has the given title and has no children |
| `Todo.CreateList` | src/todo_list.rs:14-20 | a new document has the given name and path and no nodes |
| `Todo.Stored` | src/todo_list.rs:6-11 | what is serialised is the name and the nodes; the path is skipped |
| `Todo.Loaded` | src/window/window_state/mod.rs:47-51 | a document read back carries the path it was read from, and its serialised part is what was stored |
| `Todo.StoreLoadRoundTrip` | src/todo_list.rs:6-11 | storing then loading from the document's own path gives the document back; the path never affects what is stored |
| `Decimal.NatToString` | src/window/key_event.rs:141-142 | the reference inverse of the `parse::<usize>` applied there (the source prints no numbers this way): digits only, no leading zero, denoting the number; `ParsePrinted` and `KeyProps.GotoPrinted` use it |
| `Decimal.ParseUsize` | src/window/key_event.rs:136-142 | `parse::<usize>` yields a value only when it fits in 64 bits |
| `Decimal.ParsePrinted` | src/window/key_event.rs:141-142 | parsing the printed form of any 64-bit number gives the number |
| `Decimal.ParseRejectsNonDigit` | src/window/key_event.rs:141-143 | text with, at any position, a character other than a digit (a `+` is allowed only in the first position) does not parse |
| `Decimal.ParseNeedsDigit` | src/window/key_event.rs:141-143 | text without a digit, the empty text and a lone `+` included, does not parse |
| `Tree.Insert` | src/window/key_event.rs:88 | `Vec::insert`: one longer, the new element at the index, the prefix kept, the suffix shifted up by one |
| `Tree.Remove` | src/window/key_event.rs:107 | `Vec::remove`: one shorter, the prefix kept, the suffix shifted down by one |
| `Tree.Swap` | src/window/key_event.rs:155 | `Vec::swap`: same length, the two positions exchanged, every other position kept |
| `Tree.InsertCount` | src/window/key_event.rs:88 | inserting adds exactly the new element to the multiset of elements |
| `Tree.RemoveCount` | src/window/key_event.rs:107 | removing takes exactly the removed element out of the multiset |
| `Tree.SwapCount` | src/window/key_event.rs:155 | swapping keeps the multiset of elements |
| `Tree.RotateCount` | src/window/key_event.rs:158-160 | both rotations keep the multiset of elements |
| `Tree.RotateToEnd` | src/window/key_event.rs:158-160 | removing the first element and inserting it at the end is a rotation left |
| `Tree.RotateToFront` | src/window/key_event.rs:176-178 | removing the last element and inserting it at the front is a rotation right |
| `Tree.RotationsInverse` | src/window/key_event.rs:149-184 | the two rotations undo each other |
| `Tree.SwapBack` | src/window/key_event.rs:155 | swapping twice restores the sequence |
| `Tree.InsertRemoved` | src/window/key_event.rs:104-129 | re-inserting a removed element at its index restores the sequence |
| `Tree.RemoveInserted` | src/window/key_event.rs:84-121 | removing an element just inserted restores the sequence |
| `Tree.ListAtUpdated` | src/window/window_state/mod.rs:100-109 | after replacing the list a path reaches, the walk along that path reaches the new list |
| `Tree.UpdateWithSame` | src/window/window_state/mod.rs:100-109 | replacing a list by itself changes nothing |
| `Tree.UpdateTwice` | src/window/window_state/mod.rs:100-109 | the second replacement along a path wins |
| `Tree.ListAtAppend` | src/window/window_state/mod.rs:100-109 | walking a path in two pieces is walking it at once |
| `Tree.ListAtSnoc` | src/window/window_state/mod.rs:103-105 | one more entry steps into the children of the node it selects, and fails when there is none |
| `Tree.UpdateSnoc` | src/window/window_state/mod.rs:103-105 | replacing a grandchild list is replacing one node's children in the list above |
| `Tree.PrefixResolves` | src/window/window_state/mod.rs:103-105 | every prefix of a path that resolves also resolves, and each entry selects a node |
| `State.Position` | src/window/window_state/mod.rs:55 | `position`: the first resident document with the path, or none when no document has it |
| `State.MoveDownOneWraps` | src/window/window_state/mod.rs:124-136 | `move_cur_down(1)` maps index `i` of a list of length `len` to `(i + 1) mod len` |
| `State.MoveUpOneWraps` | src/window/window_state/mod.rs:138-150 | `move_cur_up(1)` maps `i` to `(i + len - 1) mod len` |
| `State.MoveDownThenUp` | src/window/window_state/mod.rs:124-150 | moving down then up by the same amount restores any index of a non-empty list |
| `State.MoveUpThenDown` | src/window/window_state/mod.rs:124-150 | moving up then down by one restores any index |
| `State.Switched` | src/window/window_state/mod.rs:54-69 | after switching, the cursor is `[0]`, the flags and undo slot are clear, and the active document has the path; a resident document with the path is reactivated with the document set unchanged, otherwise the new one is appended and activated |
| `State.Initial` | src/window/window_state/mod.rs:32-41 | the first state: one resident document, active, the cursor `[0]` valid, both flags clear, nothing to undo |
| `State.WithLastValid` | src/window/window_state/mod.rs:171-174 | writing an index of the current list through `last_cur` keeps the cursor valid and the current list the same |
| `State.PopValid` | src/window/window_state/mod.rs:159-164 | popping a level keeps the cursor valid and selects the parent |
| `State.PushValid` | src/window/window_state/mod.rs:166-169 | pushing an index of the selected node's children keeps the cursor valid, and the current list becomes those children |
| `State.ReplaceSelectValid` | src/window/key_event.rs:88-99 | replacing the current list and selecting one of its indices keeps the cursor valid |
| `State.WindowState.constructor` | src/window/window_state/mod.rs:32-41 | `new(list)` starts in the state `Initial(list)` |
| `State.WindowState.FindLoaded` | src/window/window_state/mod.rs:55 | the linear search finds exactly `Position` |
| `State.WindowState.SwitchList` | src/window/window_state/mod.rs:54-69 | `switch_list` leaves the state `Switched(list)` |
| `State.WindowState.ReloadList` | src/window/window_state/mod.rs:71-75 | a successful read replaces the active contents and nothing else; a failed one is a `LoadError` and changes nothing |
| `State.WindowState.CurParentList` | src/window/window_state/mod.rs:100-109 | the loop walks every cursor entry but the last and returns the list reached; it fails exactly when the walk does |
| `State.WindowState.CurItem` | src/window/window_state/mod.rs:111-113 | the current list indexed by the last entry; fails exactly when there is no such node |
| `State.WindowState.ResetCur` | src/window/window_state/mod.rs:115-118 | the cursor becomes `[0]` |
| `State.WindowState.CurDepth` | src/window/window_state/mod.rs:120-122 | the depth is the number of cursor entries |
| `State.WindowState.MoveCurDown` | src/window/window_state/mod.rs:124-136 | the last entry steps down with wrap, as `MoveDownIndex`, on a non-empty list; an empty list is left alone |
| `State.WindowState.MoveCurUp` | src/window/window_state/mod.rs:138-150 | the last entry steps up, to `len - 1` when below the amount; an empty list is left alone |
| `State.WindowState.SetCur` | src/window/window_state/mod.rs:152-157 | the cursor becomes `[0]` followed by the values, because `reset_cur` leaves its 0 in place |
| `State.WindowState.PopCur` | src/window/window_state/mod.rs:159-164 | fails at depth 1 with nothing changed; otherwise removes and returns the last entry and keeps the rest |
| `State.WindowState.PushCur` | src/window/window_state/mod.rs:166-169 | appends the entry and returns it as the new last entry |
| `State.WindowState.LastCur` | src/window/window_state/mod.rs:171-174 | the last cursor entry |
| `State.WindowState.FirstCur` | src/window/window_state/mod.rs:176-178 | the first cursor entry |
| `State.WindowState.Cur` | src/window/window_state/mod.rs:180-184 | fails exactly when the depth is at least the number of entries; otherwise the entry at that depth |
| `State.WindowState.WriteLastCur` | src/window/window_state/mod.rs:171-174 | a write through `last_cur` replaces the last entry and keeps the others |
| `State.WindowState.WriteList` | src/window/key_event.rs:88 | an in-place edit of the list a path reaches replaces that list in the active document and nothing else |
| `Keys.FirstIndexOf` | src/window/key_event.rs:134 | `find('-')`: the first position holding the character, or none when no position does |
| `Keys.GotoIndex` | src/window/key_event.rs:134-145 | the selected index is within the list, or 0 for an empty list; the only failure is `Underflow` on an empty list |
| `Keys.Save` | src/window/key_event.rs:234-238 | a successful save clears both flags; a failed one is an `IoError` and changes nothing |
| `Keys.DeleteFile` | src/window/key_event.rs:258-265 | a confirmed removal sets both flags; a refused one changes nothing |
| `KeyProps.CursorDownWraps` | src/window/key_event.rs:14-17 | `j` keeps the cursor valid, the tree and the level unchanged, redraws, and maps `i` to `(i + 1) mod len` |
| `KeyProps.CursorUpWraps` | src/window/key_event.rs:18-21 | `k` keeps the cursor valid, the tree and the level unchanged, redraws, and maps `i` to `(i + len - 1) mod len` |
| `KeyProps.DownThenUp` | src/window/key_event.rs:14-21 | `j` then `k` restores the state |
| `KeyProps.UpThenDown` | src/window/key_event.rs:14-21 | `k` then `j` restores the state |
| `KeyProps.LeaveSelectsParent` | src/window/key_event.rs:22-27 | `h` below the top selects the parent node, whose children are the old list; at the top it changes nothing and does not redraw |
| `KeyProps.EnterThenLeave` | src/window/key_event.rs:22-34 | `l` on a node with children selects its first child, and `h` comes back to the same state |
| `KeyProps.EnterLeaf` | src/window/key_event.rs:28-34 | `l` on an empty list is not recognised; on a leaf it changes nothing and does not redraw |
| `KeyProps.JumpLastSelects` | src/window/key_event.rs:214-220 | PageDown selects the last node of the current list |
| `KeyProps.JumpFirstSelects` | src/window/key_event.rs:221-227 | PageUp selects index 0 of the current list |
| `KeyProps.GotoSelects` | src/window/key_event.rs:130-148 | `g` keeps the tree and the level, selects the index `GotoIndex` names, only beeps (and redraws) on text that names none, and fails only with `Underflow` |
| `KeyProps.GotoFromEnd` | src/window/key_event.rs:134-139 | text with a `-` and a positive number `n` selects `len - n`, or 0 when `n` exceeds the length |
| `KeyProps.GotoFromStart` | src/window/key_event.rs:140-144 | a plain positive number `n` selects `n - 1`, or the last node when `n` exceeds the length; on an empty list it is an `Underflow` |
| `KeyProps.GotoPrinted` | src/window/key_event.rs:130-145 | typing `-n` or `n` for any positive 64-bit `n` selects the node counted from the end or from the start |
| `KeyProps.GotoMinusOneOfFive` | src/window/key_event.rs:137 | `-1` on five nodes selects index 4 |
| `KeyProps.GotoZero` | src/window/key_event.rs:136-143 | `0` and `-0` name no node |
| `KeyProps.GotoNonNumber` | src/window/key_event.rs:136-144 | any text without a digit, with or without a dash and of any length, names no node |
| `KeyProps.NewChildSelectsIt` | src/window/key_event.rs:35-45 | Tab appends a new node to the selected node's children and selects it one level deeper |
| `KeyProps.RenameOnlyTitle` | src/window/key_event.rs:46-75 | `E`/`e`/`w` replace the selected node's title and nothing else in the list, set `changes` and do not redraw |
| `KeyProps.ToggleFlips` | src/window/key_event.rs:76-83 | Space flips the selected node's tick and nothing else in the list, and sets `changes` |
| `KeyProps.ToggleTwice` | src/window/key_event.rs:76-83 | Space twice restores the state up to `changes` |
| `KeyProps.InsertSelectsNew` | src/window/key_event.rs:84-92 | `i` inserts the new node at the current index, which then selects it; the nodes before stay, the nodes after shift by one |
| `KeyProps.AppendSelectsNew` | src/window/key_event.rs:93-103 | `a` moves the index to `i + 1` (0 on an empty list) and inserts the new node there |
| `KeyProps.AppendAddsNode` | src/window/key_event.rs:93-103 | `a` selects the new node and adds exactly it to the multiset of the list |
| `KeyProps.Groceries` | src/window/key_event.rs:93-103 | on a new document, `a` "milk" then `a` "eggs" gives `[milk, eggs]` with index 1 selected |
| `KeyProps.DeleteOnEmpty` | src/window/key_event.rs:104-106 | `d` on an empty list changes nothing |
| `KeyProps.DeleteBuffers` | src/window/key_event.rs:104-121 | `d` moves the selected node to the undo slot, removes it from its list and sets `changes` |
| `KeyProps.DeleteKeepsCursor` | src/window/key_event.rs:104-121 | deleting a node that is not the last keeps the cursor, which now selects the next node, and does not redraw |
| `KeyProps.DeleteLastSelectsPrevious` | src/window/key_event.rs:109-118 | deleting the last of several nodes selects the new last node and redraws |
| `KeyProps.DeleteOnlyNode` | src/window/key_event.rs:109-117 | deleting the only node pops one level below the top, or leaves `[0]` on an empty document at the top |
| `KeyProps.UndoReinserts` | src/window/key_event.rs:122-129 | `u` inserts the buffered node at the current index when there is one, and always empties the slot |
| `KeyProps.UndoTwice` | src/window/key_event.rs:122-129 | a second `u` changes nothing |
| `KeyProps.DeleteThenUndo` | src/window/key_event.rs:104-129 | `d` then `u` restores the state up to `changes`, when the deleted node was not the last |
| `KeyProps.ShiftUpSwaps` | src/window/key_event.rs:149-156 | `K` away from index 0 swaps the node with its predecessor and follows it |
| `KeyProps.ShiftUpRotates` | src/window/key_event.rs:157-161 | `K` at index 0 rotates the node to the end and follows it |
| `KeyProps.ShiftUpKeepsNodes` | src/window/key_event.rs:149-166 | `K` keeps the length and the multiset of the list and keeps the moved node selected; on a list of at most one node it changes nothing |
| `KeyProps.SwapUpKeepsNodes` | src/window/key_event.rs:154-156 | the swap of `K` keeps the nodes and the selected node |
| `KeyProps.RotateUpKeepsNodes` | src/window/key_event.rs:157-161 | the rotation of `K` keeps the nodes and the selected node |
| `KeyProps.ShiftDownSwaps` | src/window/key_event.rs:167-174 | `J` before the last index swaps the node with its successor and follows it |
| `KeyProps.ShiftDownRotates` | src/window/key_event.rs:175-179 | `J` at the last index rotates the node to the front and selects index 0 |
| `KeyProps.ShiftDownKeepsNodes` | src/window/key_event.rs:167-184 | `J` keeps the length and the multiset of the list and keeps the moved node selected; on a list of at most one node it changes nothing |
| `KeyProps.SwapDownKeepsNodes` | src/window/key_event.rs:172-174 | the swap of `J` keeps the nodes and the selected node |
| `KeyProps.RotateDownKeepsNodes` | src/window/key_event.rs:175-179 | the rotation of `J` keeps the nodes and the selected node |
| `KeyProps.ShiftUpThenDown` | src/window/key_event.rs:149-184 | `K` then `J` restores the state up to `changes` |
| `KeyProps.ShiftDownThenUp` | src/window/key_event.rs:149-184 | `J` then `K` restores the state up to `changes` |
| `KeyProps.SwapUpThenDown` | src/window/key_event.rs:149-184 | the round trip from an interior index |
| `KeyProps.RotateUpThenDown` | src/window/key_event.rs:149-184 | the round trip from index 0 |
| `KeyProps.SwapDownThenUp` | src/window/key_event.rs:149-184 | the round trip from before the last index |
| `KeyProps.RotateDownThenUp` | src/window/key_event.rs:149-184 | the round trip from the last index |
| `KeyProps.MoveInNests` | src/window/key_event.rs:200-213 | `L` at index `i > 0` moves the node to the end of sibling `i - 1`'s children, and the cursor becomes `[..., i - 1, old child count]` selecting it |
| `KeyProps.MoveOutPopped` | src/window/key_event.rs:189-190 | the first half of `H`: the node leaves its list and the cursor moves to the parent, which stays valid |
| `KeyProps.MoveOutUnnests` | src/window/key_event.rs:185-199 | `H` below the top with a parent index `p > 0` moves the node to position `p + 1` of the grandparent list and selects it there |
| `KeyProps.RefusedMovesOnlyMark` | src/window/key_event.rs:185-213 | `H` and `L` whose guard fails change nothing but `changes`, which they set in every case, and redraw exactly when the list has a node |
| `KeyProps.MoveInThenOut` | src/window/key_event.rs:185-213 | `L` then `H` restores the state up to `changes` when the node had at least two siblings before it |
| `Session.CursorDownSound` | src/window/key_event.rs:14-17 | `j` keeps the invariants bundled in `Sound` |
| `Session.CursorUpSound` | src/window/key_event.rs:18-21 | `k` keeps the invariants bundled in `Sound` |
| `Session.LeaveSound` | src/window/key_event.rs:22-27 | `h` keeps the invariants bundled in `Sound` |
| `Session.EnterSound` | src/window/key_event.rs:28-34 | `l` keeps the invariants bundled in `Sound` |
| `Session.NewChildSound` | src/window/key_event.rs:35-45 | Tab keeps the invariants bundled in `Sound` |
| `Session.RenameSound` | src/window/key_event.rs:46-75 | `E`/`e`/`w` keep the invariants bundled in `Sound` |
| `Session.ToggleSound` | src/window/key_event.rs:76-83 | Space keeps the invariants bundled in `Sound` |
| `Session.InsertSound` | src/window/key_event.rs:84-92 | `i` keeps the invariants bundled in `Sound` |
| `Session.AppendSound` | src/window/key_event.rs:93-103 | `a` keeps the invariants bundled in `Sound` |
| `Session.DeleteSound` | src/window/key_event.rs:104-121 | `d` keeps the invariants bundled in `Sound` |
| `Session.UndoSound` | src/window/key_event.rs:122-129 | `u` keeps the invariants bundled in `Sound` |
| `Session.GotoSound` | src/window/key_event.rs:130-148 | `g` keeps the invariants bundled in `Sound` |
| `Session.ShiftUpSound` | src/window/key_event.rs:149-166 | `K` keeps the invariants bundled in `Sound` |
| `Session.ShiftDownSound` | src/window/key_event.rs:167-184 | `J` keeps the invariants bundled in `Sound` |
| `Session.MoveOutSound` | src/window/key_event.rs:185-199 | `H` keeps the invariants bundled in `Sound` |
| `Session.MoveInSound` | src/window/key_event.rs:200-213 | `L` keeps the invariants bundled in `Sound` |
| `Session.JumpLastSound` | src/window/key_event.rs:214-220 | PageDown keeps the invariants bundled in `Sound` |
| `Session.JumpFirstSound` | src/window/key_event.rs:221-227 | PageUp keeps the invariants bundled in `Sound` |
| `Session.ReloadSound` | src/window/key_event.rs:229-233 | Ctrl-r keeps the invariants bundled in `Sound`, except the cursor's validity |
| `Session.SaveSound` | src/window/key_event.rs:234-238 | Ctrl-s keeps the invariants bundled in `Sound` |
| `Session.SaveAsSound` | src/window/key_event.rs:239-246 | Ctrl-S keeps the invariants bundled in `Sound` |
| `Session.ChangeListSound` | src/window/key_event.rs:247-257 | Ctrl-c keeps the invariants bundled in `Sound` |
| `Session.DeleteFileSound` | src/window/key_event.rs:258-265 | Ctrl-d keeps the invariants bundled in `Sound` |
| `Session.EditTitleSound` | src/window/key_event.rs:266-274 | Ctrl-p keeps the invariants bundled in `Sound` |
| `Session.RelabelValid` | src/window/key_event.rs:239-246 | changing a document's path or name leaves its contents and the cursor's validity alone |
| `Session.RunSound` | src/window/key_event.rs:13-305 | every arm keeps `Sound`: a valid cursor (except Ctrl-r), `changes` cleared only by a save or a switch, a failure that neither redraws nor changes the tree or the cursor, no cursor change without a redraw (except Ctrl-c), and `Ok(true)` with nothing changed exactly for no arm or a guarded arm on an empty list |
| `Session.CommandOfBound` | src/window/key_event.rs:13-303 | a key has an arm exactly when it is one of the bound keys; the guarded arms are exactly Right, `l`, Tab, `E`, `e`, `w` and Space |
| `Session.ArmOfCtrl` | src/window/key_event.rs:229-257 | Ctrl-r, Ctrl-s, Ctrl-S and Ctrl-c each select their own arm, and no other key selects it |
| `Session.HandleKeySound` | src/window/key_event.rs:11-306 | `handle_key_event` keeps `Sound` for every key |
| `Session.HandleKeyKeepsCursorValid` | src/window/key_event.rs:11-306 | every key but Ctrl-r leaves a valid cursor |
| `Session.ChangesSticky` | src/window/key_event.rs:11-306 | once set, `changes` stays set under every key but Ctrl-s, Ctrl-S and Ctrl-c |
| `Session.FailureKeepsTree` | src/window/key_event.rs:11-306 | a key that fails does not redraw and leaves the cursor and the active tree unchanged |
| `Session.UnrecognisedExactly` | src/window/key_event.rs:28-83 | the handler answers `Ok(true)` exactly for an unbound key or a guarded key on an empty list, and then changes nothing |
| `Session.ReloadLeavesStaleCursor` | src/window/window_state/mod.rs:71-75 | after Ctrl-r with the second of two nodes selected, reloading an empty document leaves a cursor that selects no node |
| `Mouse.UsizeToI64` | src/window/mouse_event.rs:35-36 | `as i64` keeps the 64 bits: the value modulo 2^64, in `i64` range, unchanged below 2^63 |
| `Mouse.I64ToUsize` | src/window/mouse_event.rs:35-36 | `as usize` keeps the 64 bits, unchanged for non-negative values |
| `Mouse.WrapI64` | src/window/mouse_event.rs:35 | an `i64` sum wraps modulo 2^64 and is unchanged when in range |
| `Mouse.RemI64` | src/window/mouse_event.rs:35-36 | `%` on `i64` rounds toward zero: the remainder takes the dividend's sign and differs from the Euclidean one by the divisor exactly for a negative non-multiple |
| `Mouse.WheelDownIndex` | src/window/mouse_event.rs:28-40 | wheel-down maps the sentinel `!0` to the last index |
| `Mouse.WheelUpIndex` | src/window/mouse_event.rs:41-51 | wheel-up always gives an index of the list, and maps the sentinel to 0 |
| `Mouse.WheelDownBelow` | src/window/mouse_event.rs:35-36 | without overflow, wheel-down is `(i - 1 + len) mod len` and an index of the list, even from a stale index past the end |
| `Mouse.WheelUpIsMoveDown` | src/window/mouse_event.rs:41-51 | wheel-up is `(i + 1) mod len`, the step of `j` |
| `Mouse.WheelDownIsMoveUp` | src/window/mouse_event.rs:28-40 | wheel-down is the step of `k` |
| `Mouse.WheelUpThenDown` | src/window/mouse_event.rs:28-51 | wheel-up then wheel-down restores any index of the list |
| `Mouse.WheelDownThenUp` | src/window/mouse_event.rs:28-51 | wheel-down then wheel-up restores any index of the list |
| `Mouse.MouseMovesLikeKeys` | src/window/mouse_event.rs:25-55 | the wheel changes the state exactly as `k`/`j` do, keeps the cursor valid, answers `Ok(false)` and redraws exactly on a non-empty list; any other event is unrecognised and changes nothing |
| `Mouse.WheelUpThenDownRestores` | src/window/mouse_event.rs:28-51 | wheel-up then wheel-down restores the session state |
| `Mouse.WheelDownThenUpRestores` | src/window/mouse_event.rs:28-51 | wheel-down then wheel-up restores the session state |
| `Viewport.ItemLengthCountsNodes` | src/window/mod.rs:38-44 | the height of a subtree is its number of nodes, so at least 1 |
| `Viewport.ForestLengthCountsNodes` | src/window/mod.rs:38-44 | the height of a forest is its number of nodes |
| `Viewport.CalcItemLength` | src/window/mod.rs:38-44 | the recursive loop computes the subtree height |
| `Viewport.ConsumedBounds` | src/window/mod.rs:76-86 | the loop consumes a number of nodes between its start and the index |
| `Viewport.ConsumedMeaning` | src/window/mod.rs:74-91 | the loop fails only with `Underflow`, and otherwise consumes a run of nodes upward from `list[index]` that fits below half the screen less two and stops at the first node that does not fit |
| `Viewport.ScrollOffsetMeaning` | src/window/mod.rs:69-91 | the offset is at most the selected index, is 0 for index 0, and leaves above the selected node exactly the run that fits; the only failure is `Underflow` |
| `Viewport.ComputeOffset` | src/window/mod.rs:69-91 | the `while` loop and its final adjustment compute `ScrollOffset` |
| `View.GetColor` | src/window/window_view.rs:46-52 | red exactly for 0 to 33, yellow exactly for 34 to 66, green exactly from 67 |
| `View.ColorMonotone` | src/window/window_view.rs:46-52 | a higher percentage never gets a lower colour |
| `View.CountTicked` | src/window/window_view.rs:59 | the ticked count is at most the total, equals it exactly when every node is ticked, and is 0 exactly when none is |
| `View.QuotientIsDivision` | src/window/window_view.rs:60 | the repeated-subtraction quotient the percentage uses is the rounded-down division of `usize` |
| `View.PercentageBounds` | src/window/window_view.rs:60 | the percentage is at most 100, is 100 exactly when all nodes are ticked, and is 0 when none is (and for an empty list) |
| `View.HeaderLine` | src/window/window_view.rs:58-70 | the header shows the document name, `*` exactly with `changes`, `!` exactly with `destructive_changes`, the ticked and total counts, and the percentage with its colour |
| `View.PrintItem` | src/window/window_view.rs:96-105 | `print_item` writes as many lines as it takes from the budget |
| `View.PrintChildren` | src/window/window_view.rs:99-102 | the loop over children writes as many lines as it takes from the budget |
| `View.PrintTop` | src/window/window_view.rs:77-80 | the loop over top-level nodes writes as many lines as it takes from the budget |
| `View.PrintOutList` | src/window/window_view.rs:54-82 | no lines for a budget of 0; otherwise the header first and at most the budget in all |
| `View.OutlineLength` | src/window/mod.rs:38-44 | a subtree's outline has one row per line `calc_item_length` counts |
| `View.PrintItemShows` | src/window/window_view.rs:84-105 | whatever the budget, `print_item` shows the first `min(budget, subtree height)` rows of the subtree's preorder outline (depth, title, tick) and takes exactly that many lines from the budget; the outline has one row per node |
| `View.PrintChildrenShows` | src/window/window_view.rs:99-102 | the same for the children from an index on, one level deeper, up to the height of those children |
| `View.PrintTopShows` | src/window/window_view.rs:77-80 | the same for the top-level nodes from a position on, at depth 0 |
| `View.ScreenBody` | src/window/window_view.rs:54-80 | with lines to draw, what the screen shows and marks is what the top-level loop below the header shows and marks, from the clamped offset with one line less |
| `View.ScreenShows` | src/window/window_view.rs:54-82 | with lines to draw, the screen below the header shows the first `min(amount - 1, height)` rows of the outline of the nodes from the offset: all of them when they fit, else a full screen |
| `View.PrintItemWhole` | src/window/window_view.rs:84-105 | with budget for the subtree, one line per node in preorder, each at the node's depth with its title and tick, taking exactly the subtree height |
| `View.PrintChildrenWhole` | src/window/window_view.rs:99-102 | the same for the children from an index on, one level deeper |
| `View.PrintTopWhole` | src/window/window_view.rs:77-80 | the same for the top-level nodes from a position on, at depth 0 |
| `View.PrintItemMarks` | src/window/window_view.rs:97-101 | the marked lines of a drawn subtree are at most the line of the node the cursor designates in it (at the cursor's depth, with that node's tick and title), and exactly that line when the subtree is drawn whole; none when it may not be selected |
| `View.PrintChildrenMarks` | src/window/window_view.rs:99-101 | only the child the cursor entry names may hold the arrow, on the line of the designated node, and it holds exactly that line when the children fit |
| `View.DesignatedSelects` | src/window/window_view.rs:97-101 | the node the arrow lands on below a node is the one the last cursor entry selects in the list the earlier entries reach, and none when that walk fails |
| `View.DesignatedWalks` | src/window/window_view.rs:97-101 | the chain of selectable nodes reaches a marked node exactly when the cursor path resolves below it |
| `View.PrintTopMarks` | src/window/window_view.rs:77-80 | only the top-level node at `cur[0]` may hold the arrow, on the designated node's line, and it holds exactly that line when the nodes fit; nothing does when it is scrolled off above |
| `View.AtMostOneMarked` | src/window/window_view.rs:77-101 | the screen has at most one arrow, on the line of the designated node, and none when the selected top-level node is above the offset |
| `View.ScreenShowsNodes` | src/window/window_view.rs:74-105 | when the nodes from the offset fit, the screen shows exactly them in preorder, each indented by its depth, with its title and its tick (a corollary of `ScreenShows`) |
| `View.ScreenShowsCursor` | src/window/window_view.rs:77-101 | when they fit, a valid cursor on a non-empty list that is not scrolled off gets exactly one arrow, on the line of the selected node `ParentList()[Last()]`: at depth one less than the cursor length, with its tick and its title |
| `View.ScreenMarksDesignated` | src/window/window_view.rs:77-101 | the same for any cursor that designates a node below its top-level node: the one arrow is on that node's line |
| `View.CursorOnNode` | src/window/window_state/mod.rs:100-113 | a valid cursor on a non-empty list selects a top-level node, and the node it designates below it is the selected node of the current list |
| `Select.SelectStepMeaning` | src/select_helper.rs:36-52 | one event fails only on an empty menu for an arrow or wheel-down, with `Underflow`; `q`/Esc cancel and Enter confirms the current option; an unrecognised event keeps the option; on a non-empty menu the option stays in range |
| `Select.RunSelect` | src/select_helper.rs:28-60 | the loop starts on option 0 and returns what `SelectFrom` gives for the events |
| `Select.SelectFromStep` | src/select_helper.rs:33-53 | one turn of the loop |
| `Select.SelectInRange` | src/select_helper.rs:39-50 | on a non-empty menu the loop never fails and returns an existing option or none |
| `Select.SelectEmpty` | src/select_helper.rs:39-46 | on an empty menu the loop fails exactly when an arrow or wheel-down comes before a cancel or confirm, and otherwise returns option 0 or none |
| `Select.ArrowsInverse` | src/select_helper.rs:39-40 | Down then Up, and Up then Down, come back to the same option, the wrap included |
| `Select.WheelSaturates` | src/select_helper.rs:44-50 | the wheel stops at both ends and otherwise steps by one, and wheel-down then wheel-up comes back |
| `Editor.DeleteSteps` | src/window/key_event.rs:104-121 | `d` is the removal followed by the cursor repair `DeleteCursor`, and it redraws exactly when the old index is no longer in the list |
| `Editor.RespondWellFormed` | src/window/mod.rs:55-66 | one event leaves a well-formed state |
| `Editor.RespondKeepsCursor` | src/window/mod.rs:55-66 | every event but Ctrl-r and Ctrl-c leaves a valid cursor, and one that does not redraw leaves the cursor as it was |
| `Editor.PlacementMeaning` | src/window/mod.rs:68-93 | the screen is the height less 4 and fails only with `Underflow` below 4; the offset is kept when nothing is dirty and otherwise does not pass the selected top-level node |
| `Editor.PlacedShowsCursor` | src/window/mod.rs:68-95 | for the offset `Placement` chooses and the screen drawn from it: the offset does not pass the selected node, and when the nodes from it fit, the screen has exactly one arrow, on the selected node's line |
| `Editor.AdvanceDraws` | src/window/mod.rs:51-97 | a turn that draws answers as the handler did and draws the new state from where `Placement` puts it |
| `Editor.TurnShowsCursor` | src/window/mod.rs:51-103 | after one turn of `run` that draws, the cursor is valid and not scrolled off, and when the nodes from the offset fit the screen has exactly one arrow, on the selected node's line |
| `Editor.FirstScreenShowsCursor` | src/window/mod.rs:47-49 | the first screen of a non-empty document that fits starts with the header and has exactly one arrow, on the first node's line at depth 0 |
| `Editor.Window.constructor` | src/window/mod.rs:26-32 | `Window::new` holds the state and starts with `dirty_window` clear |
| `Editor.Window.ParentList` | src/window/key_event.rs:12 | on a valid cursor `cur_parent_list` resolves, to the current list |
| `Editor.Window.KeyDown` | src/window/key_event.rs:14-17 | the arm's in-place effect is `CursorDown` |
| `Editor.Window.KeyUp` | src/window/key_event.rs:18-21 | the arm's in-place effect is `CursorUp` |
| `Editor.Window.KeyLeft` | src/window/key_event.rs:22-27 | the arm's in-place effect is `Leave` |
| `Editor.Window.KeyRight` | src/window/key_event.rs:28-34 | the arm's in-place effect is `Enter` |
| `Editor.Window.KeyTab` | src/window/key_event.rs:35-45 | the arm's in-place effect is `NewChild` |
| `Editor.Window.KeyEdit` | src/window/key_event.rs:46-75 | the arm's in-place effect is `Rename` |
| `Editor.Window.KeySpace` | src/window/key_event.rs:76-83 | the arm's in-place effect is `Toggle` |
| `Editor.Window.KeyInsert` | src/window/key_event.rs:84-92 | the arm's in-place effect is `InsertItem` |
| `Editor.Window.KeyAppend` | src/window/key_event.rs:93-103 | the arm's in-place effect is `AppendItem` |
| `Editor.Window.StoreEdit` | src/window/key_event.rs:97-100 | writing an edited list and a new last index sets exactly those and `changes` |
| `Editor.Window.KeyDelete` | src/window/key_event.rs:104-121 | the arm's in-place effect is `DeleteItem` |
| `Editor.Window.TakeSelected` | src/window/key_event.rs:107 | the selected node is removed and moved into the undo slot |
| `Editor.Window.RepairCursor` | src/window/key_event.rs:108-118 | the cursor is repaired as `DeleteCursor` says, and a redraw is asked exactly when the old index is out of the list |
| `Editor.Window.KeyUndo` | src/window/key_event.rs:122-129 | the arm's in-place effect is `UndoDelete` |
| `Editor.Window.KeyGoto` | src/window/key_event.rs:130-148 | the arm's in-place effect is `Goto` |
| `Editor.Window.KeyShiftUp` | src/window/key_event.rs:149-166 | the arm's in-place effect is `ShiftUp` |
| `Editor.Window.KeyShiftDown` | src/window/key_event.rs:167-184 | the arm's in-place effect is `ShiftDown` |
| `Editor.Window.KeyMoveOut` | src/window/key_event.rs:185-199 | the arm's in-place effect is `MoveOut` |
| `Editor.Window.Outdent` | src/window/key_event.rs:188-195 | the guarded block of `H` has the effect of `MoveOut` |
| `Editor.Window.TakeOut` | src/window/key_event.rs:189-190 | the node is removed and the cursor pops to the parent |
| `Editor.Window.PutAfter` | src/window/key_event.rs:191-194 | the node goes in right after the parent in the grandparent list, and the cursor follows it |
| `Editor.Window.KeyMoveIn` | src/window/key_event.rs:200-213 | the arm's in-place effect is `MoveIn` |
| `Editor.Window.KeyPageDown` | src/window/key_event.rs:214-220 | the arm's in-place effect is `JumpLast` |
| `Editor.Window.KeyPageUp` | src/window/key_event.rs:221-227 | the arm's in-place effect is `JumpFirst` |
| `Editor.Window.KeyReload` | src/window/key_event.rs:229-233 | the arm's in-place effect is `Reload` |
| `Editor.Window.KeySave` | src/window/key_event.rs:234-238 | the arm's in-place effect is `Save` |
| `Editor.Window.KeySaveAs` | src/window/key_event.rs:239-246 | the arm's in-place effect is `SaveAs` |
| `Editor.Window.KeyChangeList` | src/window/key_event.rs:247-257 | the arm's in-place effect is `ChangeList` |
| `Editor.Window.KeyDeleteFile` | src/window/key_event.rs:258-265 | the arm's in-place effect is `DeleteFile` |
| `Editor.Window.KeyEditTitle` | src/window/key_event.rs:266-274 | the arm's in-place effect is `EditTitle` |
| `Editor.Window.HandleKeyEvent` | src/window/key_event.rs:11-306 | `handle_key_event` changes the state, `dirty_window` and the answer exactly as `HandleKey` |
| `Editor.Window.RunTreeCommand` | src/window/key_event.rs:13-227 | the tree and cursor arms behave as `Run` |
| `Editor.Window.RunFileCommand` | src/window/key_event.rs:229-274 | the document arms behave as `Run` |
| `Editor.Window.HandleMouseEvent` | src/window/mouse_event.rs:25-55 | `handle_mouse_event` changes the state, `dirty_window` and the answer exactly as `HandleMouse` |
| `Editor.Window.Open` | src/window/mod.rs:47-49 | the first screen is `FirstScreen`: an `Underflow` below 4 rows, else the layout from offset 0 |
| `Editor.Window.Refresh` | src/window/mod.rs:68-93 | the offset block gives `Placement`; afterwards `dirty_window` is set only when it was set and the block failed |
| `Editor.Window.ProcessEvent` | src/window/mod.rs:51-103 | one turn of the loop has the outcome `Advance` describes (quit, or the answer, offset and screen), and a drawn turn leaves `dirty_window` clear |

## Left out

- Terminal I/O is not modelled: reading events, writing and flushing the screen, clearing, showing or hiding the cursor, and the size query. The terminal height is a parameter.
- The ANSI colour and style escapes, the exact header text and its centring are left out. The centring depends on the byte length of the escapes. A line is a record of what it shows.
- Reading and writing TOML files, `remove_file` and the `dialoguer` confirmations are left out. Their outcomes are the inputs `Env.loaded`, `Env.ioOk` and `Env.confirmed`.
- Line editing through `linefeed` (`get_user_input`, `get_user_input_buf`) is left out. The text typed, or its absence, is `Env.input`. The three rename keys differ only in the initial buffer, so they share one function.
- The help screen of Ctrl-h and the key read that dismisses it are left out. The arm is modelled as changing nothing and answering `Ok(false)`.
- The document picker `change_list` of Ctrl-c, its directory search and its own I/O errors are left out. Its result is `Env.chosen`, and none is `SwitchError`. `create_new_list` and `change_list` in src/window/window_state/todo_window.rs and src/window/window_state/helper.rs are not part of this model.
- src/main.rs, src/init_communism.rs and src/util.rs are not part of this model. They hold argument parsing, error-chain setup, the Ctrl-C handler, directory creation, an animation thread and a home-directory lookup.
- The drawing of the `select` menu (`print_out_selections`) and its "Unrecognised Key" line are left out. Only the `reportErr` flag of each step is kept.
- The "Unrecognised Key" line that `run` writes is left out. Only the flag `Drawn.reportErr` is kept.
- `run` is modelled one turn at a time (`Editor.Advance`, `Editor.Window.ProcessEvent`), not as a loop over a stream of events. The handlers require a valid cursor, so a run that goes on past a Ctrl-r that invalidated the cursor is not covered.
- The `unsafe` raw-reference aliasing and the `RefCell`s are left out. The state is one object with owned fields.
- Rust panics are failures that end the step. Nothing is modelled about unwinding.
- Terminal and prompt error paths are left out: the `?` on read errors of `get_user_input`, the `?` on errors of the `dialoguer` `interact()` calls, and the `?` on `calc_size()` and on every write, clear and flush. The model has no input that makes these fail.
- The header centring computes `w - (title.len() - 25)` in `usize` (src/window/window_view.rs:73). On a terminal narrower than the header text this underflows and panics. The header's text and width are not modelled, so the model draws the screen there.
- Indexing the top level past its end in the offset loop of `run` is a panic there. After a reload it is reported as `DepthError`.
- When the top-level list is empty and `cur[0]` is 0, `run` never indexes it, so the offset is 0 without a panic. The model does the same.
- Viewport.CalcItemLength: the `usize` sum is unbounded here, because a subtree of 2^64 nodes cannot exist in memory.
- `full_offset += sum` in the offset loop is unbounded for the same reason.
- Arm bodies: several call `last_cur()` after the list edit, and the edits write the sibling list before the cursor. The model computes each new list and index first and then writes both. No caller can observe the difference.
- Mouse.WheelDownIsMoveUp: proved for lists of at most 2^62 nodes only. For larger lists, `last - 1 + len` can pass `i64::MAX` and wrap, and the model states nothing about the result there. `Mouse.WheelDownIndex` still models the wrap for any length that fits in `i64`.
- Mouse.MouseMovesLikeKeys: the same bound of 2^62 nodes, for the same reason.
- Mouse.WheelUpThenDown: the same bound of 2^62 nodes, for the same reason.
- Mouse.WheelDownThenUp: the same bound of 2^62 nodes, for the same reason.
- Mouse.WheelUpThenDownRestores: the same bound of 2^62 nodes, for the same reason.
- Mouse.WheelDownThenUpRestores: the same bound of 2^62 nodes, for the same reason.
- Editor.RespondKeepsCursor: the same bound of 2^62 nodes for mouse events. Ctrl-r (which can invalidate the cursor) and Ctrl-c (which resets it without a redraw) are excluded.
- Editor.TurnShowsCursor: the same bound and the same two keys excluded. After Ctrl-c the offset of the previous document is kept, so the reset cursor may be scrolled off.
- Session.HandleKeyKeepsCursorValid: Ctrl-r is excluded, because the source does not revalidate the cursor after a reload (see `Session.ReloadLeavesStaleCursor`).
- KeyProps.MoveInThenOut: stated only for a node with at least two siblings before it. `H` refuses a parent at index 0, so after `L` from index 1, `H` only sets `changes`; `KeyProps.RefusedMovesOnlyMark` states that case.
- Mouse.HandleMouse: requires a list of at most `i64::MAX` nodes, the most a Rust `Vec` can hold. It has no row in the table of its own; `Mouse.MouseMovesLikeKeys` states what it does.
- `Window::run` reports a failed save on quit as an error. The model returns it as `IoError` from `Editor.Advance`.
