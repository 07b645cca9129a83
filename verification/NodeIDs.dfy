/**
 The nodes of a stack graph and the table that finds them by ID.  IDs are unique: no two nodes ever share
 one, whatever is added, so a node's handle identifies it as well as its ID does.
 */
module NodeIDs {
  import opened Wrappers
  import opened Graphs
  import opened SupplementalArenas

  /** Without a file, the ID of one of the two singleton nodes. */
  datatype NodeID = NodeID(file: Option<nat>, localID: nat)

  const ROOT_ID := NodeID(None, 1)
  const JUMP_TO_ID := NodeID(None, 2)

  function NewInFile(file: nat, localID: nat): NodeID {
    NodeID(Some(file), localID)
  }

  /** The handle stored for an ID, if there is one.  `files` holds a vector for every file, indexed by local ID. */
  function HandleAt(files: seq<seq<Option<NodeHandle>>>, file: nat, localID: nat): Option<NodeHandle> {
    Lookup(Lookup(files, file, []), localID, None)
  }

  /** Handles are positions, counted from 1. */
  predicate IsNode(ids: seq<NodeID>, h: NodeHandle, id: NodeID) {
    0 < h <= |ids| && ids[h - 1] == id
  }

  predicate IsInFile(ids: seq<NodeID>, h: NodeHandle, file: nat) {
    0 < h <= |ids| && ids[h - 1].file == Some(file)
  }

  /** The table finds exactly the nodes that are in files, and the first two nodes are the singletons. */
  ghost predicate FindsNodes(files: seq<seq<Option<NodeHandle>>>, ids: seq<NodeID>) {
    && IsNode(ids, 1, ROOT_ID) && IsNode(ids, 2, JUMP_TO_ID)
    && (forall i :: 2 <= i < |ids| ==> ids[i].file.Some?)
    && (forall file, localID, h: nat :: HandleAt(files, file, localID) == Some(h) <==>
        IsNode(ids, h, NewInFile(file, localID)))
  }

  /** Two nodes are the same exactly when their IDs are. */
  lemma SameIDSameNode(files: seq<seq<Option<NodeHandle>>>, ids: seq<NodeID>, a: NodeHandle, b: NodeHandle)
    requires FindsNodes(files, ids) && 0 < a <= |ids| && 0 < b <= |ids|
    ensures a == b <==> ids[a - 1] == ids[b - 1]
  {
    if ids[a - 1] == ids[b - 1] && ids[a - 1].file.Some? {
      var id := ids[a - 1];
      assert id == NewInFile(id.file.value, id.localID);
      assert IsNode(ids, a, NewInFile(id.file.value, id.localID));
      assert IsNode(ids, b, NewInFile(id.file.value, id.localID));
      assert Some(a) == HandleAt(files, id.file.value, id.localID) == Some(b);
    }
  }

  /** Making room in the table changes nothing that it finds. */
  lemma RoomMade(files: seq<seq<Option<NodeHandle>>>, file: nat, localID: nat)
    ensures var entry := Lookup(files, file, []);
            var after := Updated(files, file, Grown(entry, localID), []);
            forall f, l :: HandleAt(after, f, l) == HandleAt(files, f, l)
  {
  }

  /** A vector that reaches to an index. */
  function Grown(entry: seq<Option<NodeHandle>>, localID: nat): (r: seq<Option<NodeHandle>>)
    ensures |r| > localID && |r| >= |entry|
    ensures forall l :: Lookup(r, l, None) == Lookup(entry, l, None)
  {
    if |entry| <= localID then entry + seq(localID + 1 - |entry|, _ => None) else entry
  }

  class NodeTable {
    var files: seq<seq<Option<NodeHandle>>>
    /** The IDs of the nodes, in the order in which they were added. */
    var ids: seq<NodeID>

    ghost predicate Valid()
      reads this
    {
      FindsNodes(files, ids)
    }

    constructor ()
      ensures Valid() && ids == [ROOT_ID, JUMP_TO_ID]
    {
      files := [];
      ids := [ROOT_ID, JUMP_TO_ID];
    }

    /** The handle stored for an ID in a file, and room for one if there is none yet. */
    method HandleForID(id: NodeID) returns (r: Option<NodeHandle>)
      requires Valid() && id.file.Some?
      modifies this`files
      ensures Valid() && r == HandleAt(files, id.file.value, id.localID)
      ensures id.file.value < |files| && id.localID < |files[id.file.value]|
    {
      var file := id.file.value;
      var entry := Lookup(files, file, []);
      RoomMade(files, file, id.localID);
      files := Updated(files, file, Grown(entry, id.localID), []);
      r := files[file][id.localID];
    }

    /** Adds a node, unless there is one with that ID. */
    method AddNode(id: NodeID) returns (r: Option<NodeHandle>)
      requires Valid() && id.file.Some?
      modifies this
      ensures Valid()
      ensures r.None? <==> id in old(ids)
      ensures ids == if id in old(ids) then old(ids) else old(ids) + [id]
      ensures r.Some? ==> IsNode(ids, r.value, id)
    {
      var existing := HandleForID(id);
      Known(files, ids, id);
      if existing.Some? {
        return None;
      }
      var h := |ids| + 1;
      var file := id.file.value;
      NodeAdded(files, ids, file, id.localID);
      ids := ids + [id];
      files := files[file := files[file][id.localID := Some(h)]];
      return Some(h);
    }

    /** The node with an ID, if it exists. */
    method NodeForID(id: NodeID) returns (r: Option<NodeHandle>)
      requires Valid()
      ensures forall h: nat :: r == Some(h) <==> IsNode(ids, h, id)
    {
      if id.file.Some? {
        r := if id.file.value < |files| then Lookup(files[id.file.value], id.localID, None) else None;
        assert r == HandleAt(files, id.file.value, id.localID);
      } else if id == ROOT_ID {
        r := Some(1);
      } else if id == JUMP_TO_ID {
        r := Some(2);
      } else {
        r := None;
      }
    }

    /** An ID in a file that no node has. */
    method UnusedID(file: nat) returns (id: NodeID)
      requires Valid()
      ensures id.file == Some(file) && id !in ids
    {
      id := NewInFile(file, if file < |files| then |files[file]| else 0);
      Known(files, ids, id);
    }

    /** The nodes of a file. */
    method NodesForFile(file: nat) returns (handles: seq<NodeHandle>)
      requires Valid()
      ensures forall h: nat :: h in handles <==> IsInFile(ids, h, file)
      ensures forall i, j :: 0 <= i < j < |handles| ==> handles[i] != handles[j]
    {
      handles := [];
      var entries := Lookup(files, file, []);
      for l := 0 to |entries|
        invariant forall h: nat :: h in handles <==> IsInFile(ids, h, file) && ids[h - 1].localID < l
        invariant forall i, j :: 0 <= i < j < |handles| ==> handles[i] != handles[j]
      {
        assert entries[l] == HandleAt(files, file, l);
        EntryOf(files, ids, file, l);
        if entries[l].Some? {
          handles := handles + [entries[l].value];
        }
      }
      BeyondEntries(files, ids, file);
    }
  }

  /** The entry for a local ID is the only node of the file that has it. */
  lemma EntryOf(files: seq<seq<Option<NodeHandle>>>, ids: seq<NodeID>, file: nat, localID: nat)
    requires FindsNodes(files, ids)
    ensures forall h: nat :: IsInFile(ids, h, file) && ids[h - 1].localID == localID <==>
            HandleAt(files, file, localID) == Some(h)
  {
    forall h: nat
      ensures IsInFile(ids, h, file) && ids[h - 1].localID == localID <==> HandleAt(files, file, localID) == Some(h)
    {
      assert HandleAt(files, file, localID) == Some(h) <==> IsNode(ids, h, NewInFile(file, localID));
    }
  }

  lemma BeyondEntries(files: seq<seq<Option<NodeHandle>>>, ids: seq<NodeID>, file: nat)
    requires FindsNodes(files, ids)
    ensures forall h: nat :: IsInFile(ids, h, file) ==> ids[h - 1].localID < |Lookup(files, file, [])|
  {
    forall h: nat | IsInFile(ids, h, file) ensures ids[h - 1].localID < |Lookup(files, file, [])| {
      EntryOf(files, ids, file, ids[h - 1].localID);
    }
  }

  /** A node with an ID in a file exists exactly if the table has a handle for it. */
  lemma Known(files: seq<seq<Option<NodeHandle>>>, ids: seq<NodeID>, id: NodeID)
    requires FindsNodes(files, ids) && id.file.Some?
    ensures id in ids <==> HandleAt(files, id.file.value, id.localID).Some?
  {
    var found := HandleAt(files, id.file.value, id.localID);
    if found.Some? {
      assert id == NewInFile(id.file.value, id.localID);
      assert IsNode(ids, found.value, NewInFile(id.file.value, id.localID));
    }
    if id in ids {
      var i :| 0 <= i < |ids| && ids[i] == id;
      assert id == NewInFile(id.file.value, id.localID);
      assert IsNode(ids, i + 1, NewInFile(id.file.value, id.localID));
      assert HandleAt(files, id.file.value, id.localID) == Some(i + 1);
    }
  }

  lemma NodeAdded(files: seq<seq<Option<NodeHandle>>>, ids: seq<NodeID>, file: nat, localID: nat)
    requires FindsNodes(files, ids) && file < |files| && localID < |files[file]|
    requires HandleAt(files, file, localID).None?
    ensures FindsNodes(files[file := files[file][localID := Some(|ids| + 1)]], ids + [NewInFile(file, localID)])
  {
    var h := |ids| + 1;
    var after, more := files[file := files[file][localID := Some(h)]], ids + [NewInFile(file, localID)];
    forall f, l, k: nat ensures HandleAt(after, f, l) == Some(k) <==> IsNode(more, k, NewInFile(f, l)) {
      assert HandleAt(after, f, l) == if f == file && l == localID then Some(h) else HandleAt(files, f, l);
      assert HandleAt(files, f, l) == Some(k) <==> IsNode(ids, k, NewInFile(f, l));
      assert IsNode(more, k, NewInFile(f, l)) <==>
             IsNode(ids, k, NewInFile(f, l)) || (k == h && f == file && l == localID);
      if f == file && l == localID {
        assert !IsNode(ids, k, NewInFile(f, l));
      }
    }
    assert IsNode(more, 1, ROOT_ID) && IsNode(more, 2, JUMP_TO_ID);
  }
}
