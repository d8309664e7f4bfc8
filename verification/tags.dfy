/** Pin tags (src/ExcalidrawClone.jsx): adding, removing and reordering the
    tags of the selected pin, the board-wide tag list, and the tag filter of
    the canvas. */
module Tags {
  import opened Common
  import opened Elements
  import opened Scene

  // ------------------------------------------------------------ trimming

  /** The characters `String.prototype.trim` removes: the ECMAScript white
      space and line terminators. */
  predicate IsJsSpace(c: char) {
    || c == '\t' || c == '\n' || c == '\U{B}' || c == '\U{C}' || c == '\r' || c == ' '
    || c == '\U{A0}' || c == '\U{1680}' || ('\U{2000}' <= c <= '\U{200A}')
    || c == '\U{2028}' || c == '\U{2029}' || c == '\U{202F}' || c == '\U{205F}'
    || c == '\U{3000}' || c == '\U{FEFF}'
  }

  predicate AllSpace(s: string) {
    forall i :: 0 <= i < |s| ==> IsJsSpace(s[i])
  }

  function TrimStart(s: string): (r: string)
    ensures |r| <= |s| && r == s[|s| - |r|..]
    ensures AllSpace(s[..|s| - |r|])
    ensures r != [] ==> !IsJsSpace(r[0])
  {
    if |s| > 0 && IsJsSpace(s[0]) then
      var r := TrimStart(s[1..]);
      assert s[..|s| - |r|] == [s[0]] + s[1..][..|s[1..]| - |r|];
      r
    else s
  }

  function TrimEnd(s: string): (r: string)
    ensures |r| <= |s| && r == s[..|r|]
    ensures AllSpace(s[|r|..])
    ensures r != [] ==> !IsJsSpace(r[|r| - 1])
  {
    if |s| > 0 && IsJsSpace(s[|s| - 1]) then
      var r := TrimEnd(s[..|s| - 1]);
      assert s[..|s| - 1][..|r|] == s[..|r|];
      assert s[|r|..] == s[..|s| - 1][|r|..] + [s[|s| - 1]];
      r
    else s
  }

  /** `r` is `s[i..j]` with only white space cut off on either side. */
  predicate CutFrom(s: string, r: string, i: int, j: int) {
    0 <= i <= j <= |s| && r == s[i..j] && AllSpace(s[..i]) && AllSpace(s[j..])
  }

  /** `String.prototype.trim`. */
  function Trim(s: string): (r: string)
    ensures exists i, j :: CutFrom(s, r, i, j)
    ensures r != [] ==> !IsJsSpace(r[0]) && !IsJsSpace(r[|r| - 1])
  {
    var t := TrimStart(s);
    var r := TrimEnd(t);
    PrefixOfSuffix(s, t, r);
    assert CutFrom(s, r, |s| - |t|, |s| - |t| + |r|);
    r
  }

  /** A prefix `r` of a suffix `t` of `s` is a slice of `s`, and what
      follows `r` in `t` is what follows the slice in `s`. */
  lemma PrefixOfSuffix(s: string, t: string, r: string)
    requires |t| <= |s| && t == s[|s| - |t|..] && |r| <= |t| && r == t[..|r|]
    ensures r == s[|s| - |t|..|s| - |t| + |r|] && s[|s| - |t| + |r|..] == t[|r|..]
  {
  }

  /** Trimming is idempotent, and the trimmed string is empty exactly when
      the input is all white space. */
  lemma TrimSpec(s: string)
    ensures Trim(Trim(s)) == Trim(s)
    ensures Trim(s) == [] <==> AllSpace(s)
  {
    var r := Trim(s);
    var i, j :| CutFrom(s, r, i, j);
    if !AllSpace(s) && r == [] {
      assert i == j;
      forall k | 0 <= k < |s| ensures IsJsSpace(s[k]) {
        if k < i { assert s[k] == s[..i][k]; } else { assert s[k] == s[j..][k - j]; }
      }
    }
  }

  // ------------------------------------------------ one pin's tag list

  /** Add a tag unless it is already there. */
  function AddTagTo(tags: seq<string>, tag: string): (r: seq<string>)
    ensures tag in r
    ensures forall t :: t in r <==> t in tags || t == tag
    ensures NoDup(tags) ==> NoDup(r)
  {
    if tag in tags then tags else tags + [tag]
  }

  /** All tags but `tag`, in order. */
  function RemoveTagFrom(tags: seq<string>, tag: string): (r: seq<string>)
    ensures tag !in r
    ensures forall t :: t in r <==> t in tags && t != tag
    ensures IsSubsequence(r, tags)
  {
    if |tags| == 0 then []
    else if tags[0] == tag then
      var rest := RemoveTagFrom(tags[1..], tag);
      SubsequenceDropHead(rest, tags);
      rest
    else
      var rest := RemoveTagFrom(tags[1..], tag);
      assert ([tags[0]] + rest)[1..] == rest;
      [tags[0]] + rest
  }

  lemma SubsequenceDropHead<T>(a: seq<T>, b: seq<T>)
    requires |b| > 0 && IsSubsequence(a, b[1..])
    ensures IsSubsequence(a, b)
  {
  }

  /** Removing a tag that was just added gives the list back, and removing
      a tag keeps a duplicate-free list duplicate-free. */
  lemma AddRemoveInverse(tags: seq<string>, tag: string)
    ensures tag !in tags ==> RemoveTagFrom(AddTagTo(tags, tag), tag) == tags
    ensures NoDup(tags) ==> NoDup(RemoveTagFrom(tags, tag))
  {
    if tag !in tags {
      RemoveAbsentTag(tags, tag);
      RemoveAppended(tags, tag);
    }
    if NoDup(tags) {
      RemoveKeepsNoDup(tags, tag);
    }
  }

  lemma {:induction false} RemoveAbsentTag(tags: seq<string>, tag: string)
    requires tag !in tags
    ensures RemoveTagFrom(tags, tag) == tags
  {
    if |tags| > 0 {
      RemoveAbsentTag(tags[1..], tag);
      assert tags == [tags[0]] + tags[1..];
    }
  }

  lemma {:induction false} RemoveAppended(tags: seq<string>, tag: string)
    ensures RemoveTagFrom(tags + [tag], tag) == RemoveTagFrom(tags, tag)
  {
    if |tags| == 0 {
      assert RemoveTagFrom([tag], tag) == RemoveTagFrom([], tag);
    } else {
      assert (tags + [tag])[1..] == tags[1..] + [tag];
      RemoveAppended(tags[1..], tag);
    }
  }

  lemma {:induction false} RemoveKeepsNoDup(tags: seq<string>, tag: string)
    requires NoDup(tags)
    ensures NoDup(RemoveTagFrom(tags, tag))
  {
    if |tags| > 0 {
      assert NoDup(tags[1..]) by {
        forall i, j | 0 <= i < j < |tags[1..]| ensures tags[1..][i] != tags[1..][j] {
          assert tags[1..][i] == tags[i + 1] && tags[1..][j] == tags[j + 1];
        }
      }
      RemoveKeepsNoDup(tags[1..], tag);
      var rest := RemoveTagFrom(tags[1..], tag);
      if tags[0] != tag {
        assert tags[0] !in tags[1..];
        assert tags[0] !in rest;
        var r := [tags[0]] + rest;
        forall i, j | 0 <= i < j < |r| ensures r[i] != r[j] {
          if i == 0 {
            assert r[j] == rest[j - 1];
          } else {
            assert r[i] == rest[i - 1] && r[j] == rest[j - 1];
          }
        }
      }
    }
  }

  /** Exchange the entries at `i` and `j`. */
  function Swap<T>(s: seq<T>, i: nat, j: nat): (r: seq<T>)
    requires i < |s| && j < |s|
    ensures |r| == |s| && r[i] == s[j] && r[j] == s[i]
    ensures forall k :: 0 <= k < |s| && k != i && k != j ==> r[k] == s[k]
  {
    s[i := s[j]][j := s[i]]
  }

  /** The up arrow: the first occurrence of `tag` changes places with its
      predecessor; nothing happens at the front or for an absent tag. */
  function TagUp(tags: seq<string>, tag: string): seq<string> {
    var idx := IndexOf(tags, tag);
    if idx > 0 then Swap(tags, idx - 1, idx) else tags
  }

  /** The down arrow: the first occurrence of `tag` changes places with its
      successor; nothing happens at the back or for an absent tag. */
  function TagDown(tags: seq<string>, tag: string): seq<string> {
    var idx := IndexOf(tags, tag);
    if 0 <= idx < |tags| - 1 then Swap(tags, idx, idx + 1) else tags
  }

  lemma SwapKeepsMultiset<T>(s: seq<T>, i: nat, j: nat)
    requires i < |s| && j < |s|
    ensures multiset(Swap(s, i, j)) == multiset(s)
  {
    var t := s[i := s[j]];
    assert multiset(t) == multiset(s) - multiset{s[i]} + multiset{s[j]};
    assert multiset(t[j := s[i]]) == multiset(t) - multiset{t[j]} + multiset{s[i]};
  }

  lemma SwapKeepsNoDup<T>(s: seq<T>, i: nat, j: nat)
    requires i < |s| && j < |s| && NoDup(s)
    ensures NoDup(Swap(s, i, j))
  {
    var r := Swap(s, i, j);
    forall a, b | 0 <= a < b < |r| ensures r[a] != r[b] {
      var a' := if a == i then j else if a == j then i else a;
      var b' := if b == i then j else if b == j then i else b;
      assert r[a] == s[a'] && r[b] == s[b'] && a' != b';
      if a' > b' {
        assert s[b'] != s[a'];
      }
    }
  }

  /** ↑ swaps the tag with the one before it: the same tags, still free
      of duplicates, and nothing moves when the tag is absent or first. */
  lemma TagUpSpec(tags: seq<string>, tag: string)
    ensures multiset(TagUp(tags, tag)) == multiset(tags)
    ensures NoDup(tags) ==> NoDup(TagUp(tags, tag))
    ensures (tag !in tags || tags[0] == tag) ==> TagUp(tags, tag) == tags
    ensures var idx := IndexOf(tags, tag);
            idx > 0 ==> TagUp(tags, tag)[idx - 1] == tag && TagUp(tags, tag)[idx] == tags[idx - 1]
  {
    var idx := IndexOf(tags, tag);
    if idx > 0 {
      SwapKeepsMultiset(tags, idx - 1, idx);
      if NoDup(tags) {
        SwapKeepsNoDup(tags, idx - 1, idx);
      }
    }
  }

  /** ↓ swaps the tag with the one after it; on a list without duplicates
      nothing moves when the tag is absent or last. */
  lemma TagDownSpec(tags: seq<string>, tag: string)
    ensures multiset(TagDown(tags, tag)) == multiset(tags)
    ensures NoDup(tags) ==> NoDup(TagDown(tags, tag))
    ensures (tag !in tags || tags[|tags| - 1] == tag) && NoDup(tags) ==> TagDown(tags, tag) == tags
    ensures var idx := IndexOf(tags, tag);
            0 <= idx < |tags| - 1 ==> TagDown(tags, tag)[idx + 1] == tag && TagDown(tags, tag)[idx] == tags[idx + 1]
  {
    var idx := IndexOf(tags, tag);
    if 0 <= idx < |tags| - 1 {
      SwapKeepsMultiset(tags, idx, idx + 1);
      if NoDup(tags) {
        SwapKeepsNoDup(tags, idx, idx + 1);
      }
    }
  }

  /** On a list without duplicates, ↓ undoes ↑ when ↑ moved the tag. */
  lemma TagUpThenDown(tags: seq<string>, tag: string)
    requires NoDup(tags) && IndexOf(tags, tag) > 0
    ensures TagDown(TagUp(tags, tag), tag) == tags
  {
    var idx := IndexOf(tags, tag);
    var up := TagUp(tags, tag);
    TagUpSpec(tags, tag);
    assert up[idx - 1] == tag;
    assert IndexOf(up, tag) == idx - 1;
    assert Swap(up, idx - 1, idx) == tags;
  }

  /** On a list without duplicates, ↑ undoes ↓ when ↓ moved the tag. */
  lemma TagDownThenUp(tags: seq<string>, tag: string)
    requires NoDup(tags) && 0 <= IndexOf(tags, tag) < |tags| - 1
    ensures TagUp(TagDown(tags, tag), tag) == tags
  {
    var idx := IndexOf(tags, tag);
    var down := TagDown(tags, tag);
    TagDownSpec(tags, tag);
    assert IndexOf(down, tag) == idx + 1;
    assert Swap(down, idx, idx + 1) == tags;
  }

  // -------------------------------------------------- the board's pins

  /** Apply `f` to the tag list of the pins with id `selected`; the tag
      handlers always build a new array with `map`. */
  function MapTags(es: seq<Element>, selected: Id, f: seq<string> -> seq<string>): (r: seq<Element>)
    ensures |r| == |es| && Ids(r) == Ids(es)
    ensures forall i :: 0 <= i < |es| && !(es[i].id == selected && es[i].body.Pin?) ==> r[i] == es[i]
    ensures forall i :: 0 <= i < |es| && es[i].id == selected && es[i].body.Pin? ==>
              r[i] == es[i].(body := es[i].body.(tags := f(es[i].body.tags)))
  {
    seq(|es|, i requires 0 <= i < |es| =>
      if es[i].id == selected && es[i].body.Pin? then es[i].(body := es[i].body.(tags := f(es[i].body.tags))) else es[i])
  }

  /** The Add button and the Enter key: the typed tag is trimmed; nothing
      happens for an empty tag or when the selection is not a pin (the
      first element with the selected id); otherwise the tag is appended
      unless present. */
  function AddTag(es: seq<Element>, selected: Option<Id>, typed: string): (r: Option<seq<Element>>)
    ensures r.Some? <==> Trim(typed) != [] && selected.Some? && Find(es, selected.value).Some?
                         && Find(es, selected.value).value.body.Pin?
  {
    var tag := Trim(typed);
    if tag == [] || selected.None? then None
    else match Find(es, selected.value)
      case Some(e) => if e.body.Pin? then Some(MapTags(es, selected.value, tags => AddTagTo(tags, tag))) else None
      case None => None
  }

  /** The pin's tag list after adding holds the trimmed tag once more than
      before at most, and stays duplicate-free. */
  lemma AddTagSpec(es: seq<Element>, selected: Id, typed: string, i: nat)
    requires i < |es| && es[i].id == selected && es[i].body.Pin?
    requires AddTag(es, Some(selected), typed).Some?
    ensures var after := AddTag(es, Some(selected), typed).value[i].body;
            && after.Pin? && Trim(typed) in after.tags
            && (forall t :: t in after.tags <==> t in es[i].body.tags || t == Trim(typed))
            && (NoDup(es[i].body.tags) ==> NoDup(after.tags))
            && (Trim(typed) !in es[i].body.tags ==> after.tags == es[i].body.tags + [Trim(typed)])
  {
  }

  /** The × button of a tag. */
  function RemoveTag(es: seq<Element>, selected: Id, tag: string): seq<Element> {
    MapTags(es, selected, tags => RemoveTagFrom(tags, tag))
  }

  /** The ↑ button of a tag. */
  function MoveTagUp(es: seq<Element>, selected: Id, tag: string): seq<Element> {
    MapTags(es, selected, tags => TagUp(tags, tag))
  }

  /** The ↓ button of a tag. */
  function MoveTagDown(es: seq<Element>, selected: Id, tag: string): seq<Element> {
    MapTags(es, selected, tags => TagDown(tags, tag))
  }

  /** `r` is `s` with the neighbours at `k` and `k + 1` exchanged. */
  predicate NeighboursSwapped<T(==)>(r: seq<T>, s: seq<T>, k: nat) {
    && k + 1 < |s| && |r| == |s|
    && r[k] == s[k + 1] && r[k + 1] == s[k]
    && forall j :: 0 <= j < |s| && j != k && j != k + 1 ==> r[j] == s[j]
  }

  /** The tag buttons on the selected pin `es[i]`. × deletes exactly that
      tag. ↑ exchanges the tag's first occurrence with its predecessor and
      ↓ with its successor, leaving the pin as it was at the edge of the
      list or for an absent tag; the pin keeps its id. Moving up then down
      restores a duplicate-free list. */
  lemma PinTagOpsSpec(es: seq<Element>, selected: Id, tag: string, i: nat)
    requires i < |es| && es[i].id == selected && es[i].body.Pin?
    ensures forall t :: t in RemoveTag(es, selected, tag)[i].body.tags <==> t in es[i].body.tags && t != tag
    ensures var tags := es[i].body.tags;
            var idx := IndexOf(tags, tag);
            var up := MoveTagUp(es, selected, tag)[i];
            && up.id == selected && up.body.Pin?
            && (idx > 0 ==> up.body.tags[idx - 1] == tag && NeighboursSwapped(up.body.tags, tags, idx - 1))
            && (idx <= 0 ==> up == es[i])
    ensures var tags := es[i].body.tags;
            var idx := IndexOf(tags, tag);
            var down := MoveTagDown(es, selected, tag)[i];
            && down.id == selected && down.body.Pin?
            && (0 <= idx < |tags| - 1 ==> down.body.tags[idx + 1] == tag && NeighboursSwapped(down.body.tags, tags, idx))
            && (!(0 <= idx < |tags| - 1) ==> down == es[i])
    ensures NoDup(es[i].body.tags) && IndexOf(es[i].body.tags, tag) > 0 ==>
              MoveTagDown(MoveTagUp(es, selected, tag), selected, tag)[i] == es[i]
  {
    var tags := es[i].body.tags;
    var up := MoveTagUp(es, selected, tag);
    var down := MoveTagDown(es, selected, tag);
    assert up[i].body.tags == TagUp(tags, tag);
    assert down[i].body.tags == TagDown(tags, tag);
    if NoDup(tags) && IndexOf(tags, tag) > 0 {
      TagUpThenDown(tags, tag);
      assert MoveTagDown(up, selected, tag)[i].body.tags == TagDown(TagUp(tags, tag), tag);
    }
  }

  // ------------------------------------------------- the board's tags

  /** Every pin's tags, pin after pin. */
  function PinTags(es: seq<Element>): (r: seq<string>)
    ensures forall t :: t in r <==> exists i :: 0 <= i < |es| && es[i].body.Pin? && t in es[i].body.tags
  {
    if |es| == 0 then []
    else
      var init := es[..|es| - 1];
      var last := es[|es| - 1];
      var r := PinTags(init) + (if last.body.Pin? then last.body.tags else []);
      assert forall i :: 0 <= i < |init| ==> init[i] == es[i];
      r
  }

  /** The values of `s` in order of first appearance, each once: what
      `Array.from` gives for a `Set` filled from `s`. */
  function Distinct<T(==,!new)>(s: seq<T>): (r: seq<T>)
    ensures forall x :: x in r <==> x in s
    ensures NoDup(r)
  {
    if |s| == 0 then []
    else
      var d := Distinct(s[..|s| - 1]);
      var x := s[|s| - 1];
      assert forall y :: y in s <==> y in s[..|s| - 1] || y == x by {
        assert s == s[..|s| - 1] + [x];
      }
      if x in d then d else d + [x]
  }

  /** The tag list shown above the canvas. */
  function AllTags(es: seq<Element>): seq<string> {
    Distinct(PinTags(es))
  }

  lemma IndexOfPrefix<T(!new)>(s: seq<T>, k: nat, x: T)
    requires k <= |s| && x in s[..k]
    ensures IndexOf(s, x) == IndexOf(s[..k], x)
  {
    var i := IndexOf(s[..k], x);
    assert s[i] == x;
    forall j | 0 <= j < i ensures s[j] != x {
      assert s[j] == s[..k][j];
    }
  }

  /** `Distinct` lists values in the order of their first appearance. */
  lemma {:induction false} DistinctFirstSeenOrder<T(!new)>(s: seq<T>)
    ensures forall i, j :: 0 <= i < j < |Distinct(s)| ==> IndexOf(s, Distinct(s)[i]) < IndexOf(s, Distinct(s)[j])
  {
    if |s| > 0 {
      var init := s[..|s| - 1];
      var d := Distinct(init);
      var x := s[|s| - 1];
      DistinctFirstSeenOrder(init);
      var r := Distinct(s);
      forall y | y in d ensures IndexOf(s, y) == IndexOf(init, y) && IndexOf(s, y) < |s| - 1 {
        assert s[..|s| - 1] == init;
        IndexOfPrefix(s, |s| - 1, y);
      }
      if x !in d {
        assert r == d + [x];
        assert x !in init;
        assert IndexOf(s, x) == |s| - 1;
        forall i, j | 0 <= i < j < |r| ensures IndexOf(s, r[i]) < IndexOf(s, r[j]) {
          assert r[i] == d[i] && r[i] in d;
          if j < |d| {
            assert r[j] == d[j] && r[j] in d;
            assert IndexOf(init, d[i]) < IndexOf(init, d[j]);
          } else {
            assert r[j] == x;
          }
        }
      } else {
        forall i, j | 0 <= i < j < |r| ensures IndexOf(s, r[i]) < IndexOf(s, r[j]) {
          assert r[i] == d[i] && r[j] == d[j] && r[i] in d && r[j] in d;
          assert IndexOf(init, d[i]) < IndexOf(init, d[j]);
        }
      }
    }
  }

  /** The board's tag list holds every pin tag exactly once, and lists
      them in the order they are first met. */
  lemma AllTagsSpec(es: seq<Element>)
    ensures forall t :: t in AllTags(es) <==> exists i :: 0 <= i < |es| && es[i].body.Pin? && t in es[i].body.tags
    ensures NoDup(AllTags(es))
    ensures var r := AllTags(es);
            forall i, j :: 0 <= i < j < |r| ==> IndexOf(PinTags(es), r[i]) < IndexOf(PinTags(es), r[j])
  {
    DistinctFirstSeenOrder(PinTags(es));
    assert AllTags(es) == Distinct(PinTags(es));
  }

  /** The elements drawn under a tag filter: all of them when the filter is
      empty, otherwise the pins carrying the tag, in order. */
  function FilterByTag(es: seq<Element>, filter: string): (r: seq<Element>)
    ensures filter == [] ==> r == es
    ensures filter != [] ==> forall i :: 0 <= i < |r| ==> r[i].body.Pin? && filter in r[i].body.tags
    ensures filter != [] ==> forall i :: 0 <= i < |es| && es[i].body.Pin? && filter in es[i].body.tags ==> es[i] in r
    ensures IsSubsequence(r, es)
  {
    if filter == [] then
      SubsequenceRefl(es);
      es
    else if |es| == 0 then []
    else
      var rest := FilterByTag(es[1..], filter);
      assert forall i :: 1 <= i < |es| ==> es[i] == es[1..][i - 1];
      if es[0].body.Pin? && filter in es[0].body.tags then
        assert ([es[0]] + rest)[1..] == rest;
        [es[0]] + rest
      else
        SubsequenceDropHead(rest, es);
        rest
  }

  lemma {:induction false} SubsequenceRefl<T>(s: seq<T>)
    ensures IsSubsequence(s, s)
  {
    if |s| > 0 {
      SubsequenceRefl(s[1..]);
    }
  }
}
