/** Addressing sibling lists inside a forest by a path of indices, and the
    `Vec` edits the editor applies to one sibling list. The `*mut` reference
    the editor keeps to "the current list" is modelled as the path that
    reaches it; writing through it is `UpdateListAt` on that path. */
module Tree {
  import opened Wrappers
  import opened Todo

  /** `Vec::insert(i, x)`. */
  function Insert<T>(s: seq<T>, i: nat, x: T): (r: seq<T>)
    requires i <= |s|
    ensures |r| == |s| + 1 && r[i] == x
    ensures r[..i] == s[..i] && r[i + 1..] == s[i..]
  {
    assert s == s[..i] + s[i..];
    s[..i] + [x] + s[i..]
  }

  /** `Vec::remove(i)`, without the returned element. */
  function Remove<T>(s: seq<T>, i: nat): (r: seq<T>)
    requires i < |s|
    ensures |r| == |s| - 1
    ensures r[..i] == s[..i] && r[i..] == s[i + 1..]
  {
    assert s == s[..i] + [s[i]] + s[i + 1..];
    s[..i] + s[i + 1..]
  }

  /** `Vec::swap(i, j)`. */
  function Swap<T>(s: seq<T>, i: nat, j: nat): (r: seq<T>)
    requires i < |s| && j < |s|
    ensures |r| == |s| && r[i] == s[j] && r[j] == s[i]
    ensures forall k :: 0 <= k < |s| && k != i && k != j ==> r[k] == s[k]
  {
    s[i := s[j]][j := s[i]]
  }

  /** `Vec::insert` adds exactly the inserted element. */
  lemma InsertCount<T>(s: seq<T>, i: nat, x: T)
    requires i <= |s|
    ensures multiset(Insert(s, i, x)) == multiset(s) + multiset{x}
  {
    assert s == s[..i] + s[i..];
  }

  /** `Vec::remove` drops exactly the removed element. */
  lemma RemoveCount<T>(s: seq<T>, i: nat)
    requires i < |s|
    ensures multiset(Remove(s, i)) + multiset{s[i]} == multiset(s)
  {
    assert s == s[..i] + [s[i]] + s[i + 1..];
  }

  /** `Vec::swap` permutes. */
  lemma SwapCount<T>(s: seq<T>, i: nat, j: nat)
    requires i < |s| && j < |s|
    ensures multiset(Swap(s, i, j)) == multiset(s)
  {
  }

  /** Rotating by one, either way, permutes. */
  lemma RotateCount<T>(s: seq<T>)
    requires |s| > 0
    ensures multiset(s[1..] + [s[0]]) == multiset(s)
    ensures multiset([s[|s| - 1]] + s[..|s| - 1]) == multiset(s)
  {
    assert s == [s[0]] + s[1..];
    assert s == s[..|s| - 1] + [s[|s| - 1]];
  }

  /** Taking out the first element and inserting it at the end rotates left. */
  lemma RotateToEnd<T>(s: seq<T>)
    requires |s| > 0
    ensures Insert(Remove(s, 0), |s| - 1, s[0]) == s[1..] + [s[0]]
  {
  }

  /** Taking out the last element and inserting it at the front rotates right. */
  lemma RotateToFront<T>(s: seq<T>)
    requires |s| > 0
    ensures Insert(Remove(s, |s| - 1), 0, s[|s| - 1]) == [s[|s| - 1]] + s[..|s| - 1]
  {
  }

  /** The two rotations undo each other. */
  lemma RotationsInverse<T>(s: seq<T>)
    requires |s| > 0
    ensures var a := s[1..] + [s[0]]; [a[|a| - 1]] + a[..|a| - 1] == s
    ensures var b := [s[|s| - 1]] + s[..|s| - 1]; b[1..] + [b[0]] == s
  {
    var a := s[1..] + [s[0]];
    assert a[..|a| - 1] == s[1..];
    var b := [s[|s| - 1]] + s[..|s| - 1];
    assert b[1..] == s[..|s| - 1];
  }

  /** Swapping back undoes a swap. */
  lemma SwapBack<T>(s: seq<T>, i: nat, j: nat)
    requires i < |s| && j < |s|
    ensures Swap(Swap(s, i, j), j, i) == s
  {
    var r := Swap(Swap(s, i, j), j, i);
    assert forall k :: 0 <= k < |s| ==> r[k] == s[k];
  }

  /** Removing an element and inserting it where it was is the identity. */
  lemma InsertRemoved<T>(s: seq<T>, i: nat)
    requires i < |s|
    ensures Insert(Remove(s, i), i, s[i]) == s
  {
    var r := Insert(Remove(s, i), i, s[i]);
    assert forall k :: 0 <= k < |s| ==> r[k] == s[k] by {
      forall k | 0 <= k < |s| ensures r[k] == s[k] {
        if k < i { assert r[k] == r[..i][k]; }
        else if k > i { assert r[k] == r[i + 1..][k - i - 1]; }
      }
    }
  }

  /** Inserting an element and removing it again is the identity. */
  lemma RemoveInserted<T>(s: seq<T>, i: nat, x: T)
    requires i <= |s|
    ensures Remove(Insert(s, i, x), i) == s
  {
    var r := Remove(Insert(s, i, x), i);
    assert r == s[..i] + s[i..];
    assert s == s[..i] + s[i..];
  }

  /** The sibling list reached by following `path` from the top level, the
      walk of `cur_parent_list`; None where an index does not exist. */
  function ListAt(items: seq<TodoItem>, path: seq<nat>): Option<seq<TodoItem>>
    decreases |path|
  {
    if |path| == 0 then Some(items)
    else if path[0] < |items| then ListAt(items[path[0]].contents, path[1..])
    else None
  }

  /** The forest with the sibling list at `path` replaced by `list`: the
      effect of editing the `Vec` that `cur_parent_list` points to. */
  function UpdateListAt(items: seq<TodoItem>, path: seq<nat>, list: seq<TodoItem>): seq<TodoItem>
    decreases |path|
  {
    if |path| == 0 then list
    else if path[0] < |items| then
      items[path[0] := items[path[0]].(contents := UpdateListAt(items[path[0]].contents, path[1..], list))]
    else items
  }

  /** The list written at a path is the list read back there. */
  lemma {:induction false} ListAtUpdated(items: seq<TodoItem>, path: seq<nat>, list: seq<TodoItem>)
    requires ListAt(items, path).Some?
    ensures ListAt(UpdateListAt(items, path, list), path) == Some(list)
    decreases |path|
  {
    if |path| > 0 {
      ListAtUpdated(items[path[0]].contents, path[1..], list);
    }
  }

  /** Writing back the list read at a path changes nothing. */
  lemma {:induction false} UpdateWithSame(items: seq<TodoItem>, path: seq<nat>)
    requires ListAt(items, path).Some?
    ensures UpdateListAt(items, path, ListAt(items, path).value) == items
    decreases |path|
  {
    if |path| > 0 {
      UpdateWithSame(items[path[0]].contents, path[1..]);
    }
  }

  /** A second write at the same path overrides the first. */
  lemma {:induction false} UpdateTwice(items: seq<TodoItem>, path: seq<nat>, l1: seq<TodoItem>, l2: seq<TodoItem>)
    ensures UpdateListAt(UpdateListAt(items, path, l1), path, l2) == UpdateListAt(items, path, l2)
    decreases |path|
  {
    if |path| > 0 && path[0] < |items| {
      UpdateTwice(items[path[0]].contents, path[1..], l1, l2);
    }
  }

  /** Walking a concatenated path is walking its first part, then its second. */
  lemma {:induction false} ListAtAppend(items: seq<TodoItem>, p: seq<nat>, q: seq<nat>)
    ensures ListAt(items, p + q) ==
      (match ListAt(items, p)
       case Some(g) => ListAt(g, q)
       case None => None)
    decreases |p|
  {
    if |p| > 0 {
      assert (p + q)[0] == p[0];
      assert (p + q)[1..] == p[1..] + q;
      if p[0] < |items| {
        ListAtAppend(items[p[0]].contents, p[1..], q);
      }
    } else {
      assert p + q == q;
    }
  }

  /** One more step of the walk: the list below entry `k` of the list at `path`. */
  lemma {:induction false} ListAtSnoc(items: seq<TodoItem>, path: seq<nat>, k: nat)
    ensures ListAt(items, path + [k]) ==
      (match ListAt(items, path)
       case Some(g) => if k < |g| then Some(g[k].contents) else None
       case None => None)
    decreases |path|
  {
    if |path| > 0 {
      assert (path + [k])[0] == path[0];
      assert (path + [k])[1..] == path[1..] + [k];
      if path[0] < |items| {
        ListAtSnoc(items[path[0]].contents, path[1..], k);
      }
    }
  }

  /** Writing the children of entry `k` is writing, at the path of its list,
      that list with entry `k` given the new children. */
  lemma {:induction false} UpdateSnoc(items: seq<TodoItem>, path: seq<nat>, k: nat, list: seq<TodoItem>)
    requires ListAt(items, path).Some? && k < |ListAt(items, path).value|
    ensures var g := ListAt(items, path).value;
      UpdateListAt(items, path + [k], list) == UpdateListAt(items, path, g[k := g[k].(contents := list)])
    decreases |path|
  {
    if |path| == 0 {
      assert path + [k] == [k];
    } else {
      assert (path + [k])[0] == path[0];
      assert (path + [k])[1..] == path[1..] + [k];
      UpdateSnoc(items[path[0]].contents, path[1..], k, list);
    }
  }

  /** The cursor invariant: every entry but the last selects an existing
      node, and the last selects a node of the current list or is 0 when that
      list is empty. */
  predicate CursorValid(items: seq<TodoItem>, cur: seq<nat>) {
    |cur| >= 1 &&
    var p := ListAt(items, cur[..|cur| - 1]);
    p.Some? && (cur[|cur| - 1] < |p.value| || (p.value == [] && cur[|cur| - 1] == 0))
  }

  /** On a valid cursor the path to its parent list resolves, and so does
      every shorter prefix of it, each entry selecting an existing node. */
  lemma {:induction false} PrefixResolves(items: seq<TodoItem>, path: seq<nat>, n: nat)
    requires ListAt(items, path).Some? && n < |path|
    ensures ListAt(items, path[..n]).Some? && path[n] < |ListAt(items, path[..n]).value|
    ensures ListAt(items, path[..n + 1]).Some?
    decreases |path|
  {
    if n > 0 {
      assert path[1..][..n - 1] == path[1..n];
      assert path[..n][1..] == path[1..n];
      assert path[..n + 1][1..] == path[1..][..n];
      PrefixResolves(items[path[0]].contents, path[1..], n - 1);
    }
  }
}
