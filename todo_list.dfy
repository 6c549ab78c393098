/** The tree model: a node owns its children, a document owns its top level. */
module Todo {

  /** One outline entry: its completion flag, its title and the ordered
      children it owns. Ownership is strict (no back links), so every tree is
      finite and acyclic. */
  datatype TodoItem = TodoItem(tickedOff: bool, title: string, contents: seq<TodoItem>)

  /** A document: its name, the file it lives in and its top-level nodes. */
  datatype TodoList = TodoList(name: string, path: string, contents: seq<TodoItem>)

  /** What is written to and read back from a file: the path is not part of it. */
  datatype StoredList = StoredList(name: string, contents: seq<TodoItem>)

  /** `TodoItem::create`: a fresh node is unticked, has the given title and no children. */
  function CreateItem(title: string): (r: TodoItem)
    ensures !r.tickedOff && r.title == title && r.contents == []
  {
    TodoItem(false, title, [])
  }

  /** `TodoList::create`: a fresh document is empty. */
  function CreateList(name: string, path: string): (r: TodoList)
    ensures r.name == name && r.path == path && r.contents == []
  {
    TodoList(name, path, [])
  }

  /** The serialised part of a document: the path is skipped. */
  function Stored(list: TodoList): (r: StoredList)
    ensures r.name == list.name && r.contents == list.contents
  {
    StoredList(list.name, list.contents)
  }

  /** Reading a document back (`load_list`): the path is the one it was read from. */
  function Loaded(stored: StoredList, path: string): (r: TodoList)
    ensures r.path == path && Stored(r) == stored
  {
    TodoList(stored.name, path, stored.contents)
  }

  /** Storing and loading from the same path gives the document back, and the
      path never influences what is stored. */
  lemma StoreLoadRoundTrip(list: TodoList, other: string)
    ensures Loaded(Stored(list), list.path) == list
    ensures Stored(list.(path := other)) == Stored(list)
  {
  }
}
