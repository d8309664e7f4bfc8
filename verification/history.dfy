/** The linear undo history (src/ExcalidrawClone.jsx): a list of element
    arrays and an index into it, extended by an effect after every change of
    the element array and rewound by `undo`.

    The effect compares arrays by reference. Arrays are identified here by a
    stamp: an array built by an update gets a fresh stamp, and an array that
    is handed back unchanged (an updater returning `prev`, an undo restoring
    a history entry) keeps its own. */
module History {
  import opened Common
  import opened Elements

  /** One element array together with the stamp that identifies it. */
  datatype Entry = Entry(stamp: nat, elements: seq<Element>)

  datatype History = History(entries: seq<Entry>, index: nat)

  /** The index always points into the list. */
  predicate Valid(h: History) {
    h.index < |h.entries|
  }

  /** The history the board starts with: just the initial array. */
  function Initial(current: Entry): (h: History)
    ensures Valid(h) && h.entries[h.index] == current
  {
    History([current], 0)
  }

  /** The entry the index points at. */
  function Top(h: History): Entry
    requires Valid(h)
  {
    h.entries[h.index]
  }

  /** The record effect: nothing while text editing is flagged; otherwise,
      when the current array is not the one at the index, everything after
      the index is dropped and the current array is appended and becomes
      the new index. When the arrays are the same nothing is written. */
  function Record(h: History, current: Entry, paused: bool): (r: History)
    requires Valid(h)
    ensures Valid(r) && Top(r).stamp == (if paused then Top(h).stamp else current.stamp)
    ensures paused || Top(h).stamp == current.stamp ==> r == h
    ensures !paused && Top(h).stamp != current.stamp ==>
              r.entries == h.entries[..h.index + 1] + [current] && r.index == h.index + 1
  {
    if paused then h
    else
      var kept := h.entries[..h.index + 1];
      if kept[|kept| - 1].stamp != current.stamp then History(kept + [current], |kept|)
      else h
  }

  /** `undo`: at index 0 nothing happens; otherwise the index steps back and
      the entry there is handed back to become the current array. */
  function Undo(h: History): (r: (History, Option<Entry>))
    requires Valid(h)
    ensures Valid(r.0) && r.0.entries == h.entries
    ensures h.index == 0 <==> r.1.None?
    ensures h.index > 0 ==> r.0.index == h.index - 1 && r.1 == Some(Top(r.0))
    ensures h.index == 0 ==> r.0 == h
  {
    if h.index > 0 then (h.(index := h.index - 1), Some(h.entries[h.index - 1]))
    else (h, None)
  }

  /** Once the effect has recorded an array, running it again changes
      nothing: the effect settles after one pass. */
  lemma RecordSettles(h: History, current: Entry, paused: bool)
    requires Valid(h)
    ensures Record(Record(h, current, paused), current, paused) == Record(h, current, paused)
  {
  }

  /** Undo restores the array that was current before the last recorded
      change, and the effect that runs after the undo records nothing. */
  lemma UndoAfterRecord(h: History, current: Entry)
    requires Valid(h) && Top(h).stamp != current.stamp
    ensures var (u, restored) := Undo(Record(h, current, false));
            && restored == Some(Top(h))
            && u.index == h.index
            && Record(u, Top(h), false) == u
  {
  }

  /** After an undo, the effect sees the restored array at the index and
      leaves the history alone, so the undone entries stay in the list
      until a new change is recorded. */
  lemma UndoIsNotRecorded(h: History)
    requires Valid(h) && h.index > 0
    ensures var (u, restored) := Undo(h);
            Record(u, restored.value, false) == u
  {
  }

  /** A change recorded after undoing drops the undone entries. */
  lemma RecordAfterUndoDropsRedo(h: History, current: Entry)
    requires Valid(h) && h.index > 0
    requires current.stamp != h.entries[h.index - 1].stamp
    ensures var u := Undo(h).0;
            Record(u, current, false).entries == h.entries[..h.index] + [current]
  {
  }

  /** Record a sequence of changes, each array differing from the one
      before. */
  function RecordAll(h: History, changes: seq<Entry>): (r: History)
    requires Valid(h)
    ensures Valid(r)
    decreases |changes|
  {
    if |changes| == 0 then h else RecordAll(Record(h, changes[0], false), changes[1..])
  }

  /** Undo `n` times. */
  function UndoN(h: History, n: nat): (r: History)
    requires Valid(h)
    ensures Valid(r) && r.entries == h.entries
    decreases n
  {
    if n == 0 then h else UndoN(Undo(h).0, n - 1)
  }

  /** Each change differs from the array current before it. */
  predicate Fresh(top: Entry, changes: seq<Entry>) {
    && (|changes| > 0 ==> changes[0].stamp != top.stamp)
    && (forall i :: 0 < i < |changes| ==> changes[i].stamp != changes[i - 1].stamp)
  }

  /** After `n` recorded changes, `n` undos bring back the array that was
      current before them, with the changes kept after it. */
  lemma {:induction false} RecordAllThenUndoAll(h: History, changes: seq<Entry>)
    requires Valid(h) && Fresh(Top(h), changes)
    ensures var r := RecordAll(h, changes);
            && r.index == h.index + |changes|
            && r.entries[..r.index + 1] == h.entries[..h.index + 1] + changes
            && UndoN(r, |changes|).index == h.index
            && Top(UndoN(r, |changes|)) == Top(h)
    decreases |changes|
  {
    if |changes| > 0 {
      assert changes[0].stamp != Top(h).stamp;
      var h' := Record(h, changes[0], false);
      assert h'.entries == h.entries[..h.index + 1] + [changes[0]];
      assert Fresh(Top(h'), changes[1..]) by {
        forall i | 0 < i < |changes[1..]|
          ensures changes[1..][i].stamp != changes[1..][i - 1].stamp
        {
          assert changes[1..][i] == changes[i + 1] && changes[1..][i - 1] == changes[i];
        }
        if |changes| > 1 {
          assert changes[1].stamp != changes[0].stamp;
        }
      }
      RecordAllThenUndoAll(h', changes[1..]);
      var r := RecordAll(h, changes);
      assert r == RecordAll(h', changes[1..]);
      assert h'.entries[..h'.index + 1] == h.entries[..h.index + 1] + [changes[0]];
      assert h.entries[..h.index + 1] + [changes[0]] + changes[1..] == h.entries[..h.index + 1] + changes;
      assert r.entries[..r.index + 1] == h.entries[..h.index + 1] + changes;
      UndoNSteps(r, |changes|);
      assert Top(UndoN(r, |changes|)) == r.entries[h.index];
    }
  }

  /** Undoing `n` times steps the index back by `n`, stopping at 0. */
  lemma {:induction false} UndoNSteps(h: History, n: nat)
    requires Valid(h)
    ensures UndoN(h, n).index == if n <= h.index then h.index - n else 0
    decreases n
  {
    if n > 0 {
      UndoNSteps(Undo(h).0, n - 1);
    }
  }
}
