/** The element array of the whiteboard (src/ExcalidrawClone.jsx) together
    with what refers to arrays: the undo history and the snapshots.

    The source compares arrays by reference. Every array here carries a
    stamp; `arrays` remembers the contents of every array allocated so far
    and `clock` is the next fresh stamp, so a stamp names one array for
    ever. An update that builds a new array takes a fresh stamp; one that
    hands back an existing array (an updater returning `prev`, an undo, a
    snapshot load) keeps that array's stamp. */
module Boards {
  import opened Common
  import opened Elements
  import opened Viewport
  import opened Scene
  import opened Snapshots
  import opened History
  import opened Tags

  datatype Board = Board(
    elements: seq<Element>,
    stamp: nat,
    clock: nat,
    arrays: map<nat, seq<Element>>,
    history: History,
    snapshots: seq<Snapshot>)

  /** The board at start-up: the persisted elements as the only history
      entry, and no snapshots. */
  function InitialBoard(elements: seq<Element>): (b: Board)
    ensures Coherent(b) && Synced(b) && b.elements == elements
  {
    Board(elements, 0, 1, map[0 := elements], Initial(Entry(0, elements)), [])
  }

  /** `arrays` holds the array `e` names. */
  predicate Holds(arrays: map<nat, seq<Element>>, e: Entry) {
    e.stamp in arrays && arrays[e.stamp] == e.elements
  }

  /** Every array in use is the one its stamp names, and the clock is ahead
      of every stamp handed out. */
  predicate Coherent(b: Board) {
    && Valid(b.history)
    && (forall k :: k in b.arrays ==> k < b.clock)
    && Holds(b.arrays, Entry(b.stamp, b.elements))
    && (forall e :: e in b.history.entries ==> Holds(b.arrays, e))
    && (forall n :: n in b.snapshots ==> Holds(b.arrays, Entry(n.stamp, n.elements)))
  }

  /** The history's current entry is the array on the board. */
  predicate Synced(b: Board) {
    Valid(b.history) && Top(b.history) == Entry(b.stamp, b.elements)
  }

  /** Two arrays with the same stamp are the same array. */
  lemma SameStampSameArray(b: Board, e1: Entry, e2: Entry)
    requires Coherent(b) && Holds(b.arrays, e1) && Holds(b.arrays, e2) && e1.stamp == e2.stamp
    ensures e1 == e2
  {
  }

  /** Allocating a new array under the clock's stamp leaves every array
      in use where it was. */
  lemma AllocateKeepsCoherent(b: Board, es: seq<Element>)
    requires Coherent(b)
    ensures Coherent(b.(clock := b.clock + 1, arrays := b.arrays[b.clock := es]))
    ensures Holds(b.arrays[b.clock := es], Entry(b.clock, es))
  {
    var a := b.arrays[b.clock := es];
    forall e | Holds(b.arrays, e)
      ensures Holds(a, e)
    {
      assert e.stamp < b.clock;
    }
  }

  /** `setElements` with an update: a new array takes a fresh stamp, the
      previous array keeps its own. */
  function Write(b: Board, u: Update): (r: Board)
    ensures r.elements == Apply(u, b.elements)
    ensures r.history == b.history && r.snapshots == b.snapshots
    ensures u.Keep? <==> r == b
    ensures u.Replace? ==> r.stamp == b.clock
  {
    match u
    case Keep => b
    case Replace(es) => b.(elements := es, stamp := b.clock, clock := b.clock + 1, arrays := b.arrays[b.clock := es])
  }

  /** A write keeps the board coherent, and a new array is told apart from
      the one it replaces. */
  lemma WriteCoherent(b: Board, u: Update)
    requires Coherent(b)
    ensures Coherent(Write(b, u))
    ensures u.Replace? ==> Write(b, u).stamp != b.stamp
  {
    if u.Replace? {
      AllocateKeepsCoherent(b, u.elements);
    }
  }

  /** The history effect after a handler: recorded when the board shows a
      different array from the history's current entry. */
  function Settle(b: Board, paused: bool): (r: Board)
    requires Valid(b.history)
    ensures Valid(r.history)
    ensures r.elements == b.elements && r.stamp == b.stamp && r.snapshots == b.snapshots
    ensures paused || Top(b.history).stamp == b.stamp ==> r == b
    ensures !paused && Top(b.history).stamp != b.stamp ==>
              && r.history.entries == b.history.entries[..b.history.index + 1] + [Entry(b.stamp, b.elements)]
              && r.history.index == b.history.index + 1
  {
    b.(history := Record(b.history, Entry(b.stamp, b.elements), paused))
  }

  /** After the effect, the history has caught up with the board. */
  lemma SettleSyncs(b: Board, paused: bool)
    requires Coherent(b)
    ensures Coherent(Settle(b, paused))
    ensures !paused ==> Synced(Settle(b, paused))
  {
    if Top(b.history).stamp == b.stamp {
      SameStampSameArray(b, Top(b.history), Entry(b.stamp, b.elements));
    }
  }

  /** `undo`: step back in the history and show that entry; at the first
      entry nothing happens. */
  function UndoBoard(b: Board): (r: (Board, bool))
    requires Valid(b.history)
    ensures Valid(r.0.history) && r.0.snapshots == b.snapshots
    ensures r.1 <==> b.history.index > 0
    ensures !r.1 ==> r.0 == b
    ensures r.1 ==> r.0.history.index == b.history.index - 1 && r.0.history.entries == b.history.entries
                    && Entry(r.0.stamp, r.0.elements) == b.history.entries[b.history.index - 1]
  {
    var (h, restored) := Undo(b.history);
    match restored
    case Some(e) => (b.(elements := e.elements, stamp := e.stamp, history := h), true)
    case None => (b, false)
  }

  lemma UndoCoherent(b: Board)
    requires Coherent(b)
    ensures Coherent(UndoBoard(b).0)
  {
    if b.history.index > 0 {
      assert b.history.entries[b.history.index - 1] in b.history.entries;
    }
  }

  /** `saveSnapshot`: a blank name is refused; otherwise the deep copy of
      the elements, a new array, is appended with the camera. */
  function SaveSnapshot(b: Board, name: string, id: Id, timestamp: string, camera: Camera): (r: Option<Board>)
    ensures r.None? <==> AllSpace(name)
    ensures r.Some? ==> r.value.elements == b.elements && r.value.stamp == b.stamp && r.value.history == b.history
    ensures r.Some? ==> var list := r.value.snapshots;
                        && |list| == |b.snapshots| + 1 && list[..|b.snapshots|] == b.snapshots
                        && list[|b.snapshots|].name == name && list[|b.snapshots|].elements == b.elements
                        && list[|b.snapshots|].camera == camera
  {
    match Save(b.snapshots, name, id, timestamp, b.elements, b.clock, camera)
    case None => None
    case Some(list) => Some(b.(snapshots := list, clock := b.clock + 1, arrays := b.arrays[b.clock := b.elements]))
  }

  lemma SaveCoherent(b: Board, name: string, id: Id, timestamp: string, camera: Camera)
    requires Coherent(b)
    ensures var r := SaveSnapshot(b, name, id, timestamp, camera);
            r.Some? ==> Coherent(r.value)
  {
    var r := SaveSnapshot(b, name, id, timestamp, camera);
    if r.Some? {
      AllocateKeepsCoherent(b, b.elements);
      var list := r.value.snapshots;
      var added := list[|b.snapshots|];
      assert list == b.snapshots + [added];
      assert added.stamp == b.clock;
    }
  }

  /** `loadSnapshot`'s element half: the snapshot's own array is shown. */
  function LoadSnapshot(b: Board, index: nat): (r: Board)
    requires index < |b.snapshots|
    ensures r.history == b.history && r.snapshots == b.snapshots
    ensures r.elements == b.snapshots[index].elements && r.stamp == b.snapshots[index].stamp
  {
    b.(elements := b.snapshots[index].elements, stamp := b.snapshots[index].stamp)
  }

  lemma LoadCoherent(b: Board, index: nat)
    requires Coherent(b) && index < |b.snapshots|
    ensures Coherent(LoadSnapshot(b, index))
  {
    assert b.snapshots[index] in b.snapshots;
  }

  /** `deleteSnapshot`: the snapshots with another id, in order. */
  function DeleteSnapshot(b: Board, id: Id): (r: Board)
    ensures r.elements == b.elements && r.stamp == b.stamp && r.history == b.history
    ensures forall n :: n in r.snapshots ==> n in b.snapshots && n.id != id
  {
    var list := Snapshots.Delete(b.snapshots, id);
    IsSubsequenceMembers(list, b.snapshots);
    b.(snapshots := list)
  }
}
