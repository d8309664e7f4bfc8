/** Named snapshots of the board (src/ExcalidrawClone.jsx): saving a copy of
    the elements and the camera under a name, and deleting one. Loading is a
    transition of the session. */
module Snapshots {
  import opened Common
  import opened Elements
  import opened Viewport
  import opened Tags

  /** A saved board. The deep copy taken at saving is a distinct array,
      identified by its own `stamp`. */
  datatype Snapshot = Snapshot(id: Id, name: string, timestamp: string,
                               elements: seq<Element>, stamp: nat, camera: Camera)

  /** `saveSnapshot`: a name that is empty after trimming is refused (the
      source alerts); otherwise the snapshot, under the name as typed, is
      appended. `id`, `timestamp` and `stamp` stand for `generateId()`, the
      clock and the fresh copy. */
  function Save(snapshots: seq<Snapshot>, name: string, id: Id, timestamp: string,
                elements: seq<Element>, stamp: nat, camera: Camera): (r: Option<seq<Snapshot>>)
    ensures r.None? <==> AllSpace(name)
    ensures r.Some? ==> |r.value| == |snapshots| + 1 && r.value[..|snapshots|] == snapshots
    ensures r.Some? ==> var s := r.value[|snapshots|];
                        s.name == name && s.elements == elements && s.camera == camera && s.id == id
  {
    TrimSpec(name);
    if Trim(name) == [] then None
    else Some(snapshots + [Snapshot(id, name, timestamp, elements, stamp, camera)])
  }

  /** `deleteSnapshot`: every snapshot with another id, in order. */
  function Delete(snapshots: seq<Snapshot>, id: Id): (r: seq<Snapshot>)
    ensures forall i :: 0 <= i < |r| ==> r[i].id != id
    ensures IsSubsequence(r, snapshots)
  {
    if |snapshots| == 0 then []
    else
      var rest := Delete(snapshots[1..], id);
      if snapshots[0].id == id then
        SubsequenceDropHead(rest, snapshots);
        rest
      else
        assert ([snapshots[0]] + rest)[1..] == rest;
        [snapshots[0]] + rest
  }

  /** Deleting keeps every snapshot with another id. */
  lemma {:induction false} DeleteKeepsOthers(snapshots: seq<Snapshot>, id: Id)
    ensures forall s :: s in snapshots && s.id != id ==> s in Delete(snapshots, id)
  {
    if |snapshots| > 0 {
      DeleteKeepsOthers(snapshots[1..], id);
      assert forall s :: s in snapshots ==> s == snapshots[0] || s in snapshots[1..];
    }
  }

  lemma {:induction false} DeleteAbsent(snapshots: seq<Snapshot>, id: Id)
    requires forall i :: 0 <= i < |snapshots| ==> snapshots[i].id != id
    ensures Delete(snapshots, id) == snapshots
  {
    if |snapshots| > 0 {
      DeleteAbsent(snapshots[1..], id);
      assert snapshots == [snapshots[0]] + snapshots[1..];
    }
  }

  lemma {:induction false} DeleteAppended(snapshots: seq<Snapshot>, s: Snapshot)
    ensures Delete(snapshots + [s], s.id) == Delete(snapshots, s.id)
  {
    if |snapshots| == 0 {
      assert Delete([s], s.id) == Delete([], s.id);
    } else {
      assert (snapshots + [s])[1..] == snapshots[1..] + [s];
      DeleteAppended(snapshots[1..], s);
    }
  }

  /** Deleting a snapshot that was just saved under a fresh id gives the
      list back. */
  lemma SaveThenDelete(snapshots: seq<Snapshot>, name: string, id: Id, timestamp: string,
                       elements: seq<Element>, stamp: nat, camera: Camera)
    requires forall i :: 0 <= i < |snapshots| ==> snapshots[i].id != id
    requires !AllSpace(name)
    ensures Delete(Save(snapshots, name, id, timestamp, elements, stamp, camera).value, id) == snapshots
  {
    var s := Snapshot(id, name, timestamp, elements, stamp, camera);
    DeleteAppended(snapshots, s);
    DeleteAbsent(snapshots, id);
  }
}
