/**
 * `positionCommitsElements` and `moveElement` (GitgraphUI.tsx): after a render,
 * each commit's branch label, tags and message are lined up from
 * `commitMessagesX`, in that order. A placed label pushes the next element
 * right by its measured width plus `BranchLabel.paddingX` plus 10; a placed
 * tag by its width plus `TAG_PADDING_X` plus 10; the message pushes nothing.
 * Refs that are missing or not attached to an element are skipped.
 *
 * Elements live in an array; a ref is attached when `mounted` maps it to an
 * index of that array (`ref.current`).
 */
module Stacking {
  import opened JsValues
  import opened Registry
  import Transforms

  /** An element a ref can point at: its `transform` attribute and its measured bbox width. */
  datatype Element = Element(transform: Option<string>, width: int)

  /** `padding` in positionCommitsElements: the gap left after a placed label or tag. */
  const Padding: int := 10

  /** The numbers positionCommitsElements reads besides the registry and the elements. */
  datatype Layout = Layout(commitMessagesX: int, labelPaddingX: int, tagPaddingX: int)

  /** One `moveElement(target, x)` call. */
  datatype Move = Move(target: nat, x: int)

  function Widths(els: seq<Element>): (ws: seq<int>)
    ensures |ws| == |els|
    ensures forall i :: 0 <= i < |els| ==> ws[i] == els[i].width
  {
    seq(|els|, i requires 0 <= i < |els| => els[i].width)
  }

  /** `ref.current` for a ref: the index of its element among `n`, if it is attached to one. */
  function Current(mounted: map<RefId, nat>, n: nat, r: RefId): (t: Option<nat>)
    ensures t.Some? ==> t.value < n
  {
    if r in mounted && mounted[r] < n then Some(mounted[r]) else None
  }

  /** `ref && ref.current` for a ref slot that may be null. */
  function CurrentOf(mounted: map<RefId, nat>, n: nat, r: Option<RefId>): (t: Option<nat>)
    ensures t.Some? ==> t.value < n
  {
    if r.None? then None else Current(mounted, n, r.value)
  }

  /** How far a placed label or tag pushes x: its width, the padding its bbox leaves out, and the gap. */
  function Advance(ws: seq<int>, t: nat, pad: int): int
    requires t < |ws|
  {
    ws[t] + pad + Padding
  }

  /** The moves of the `tags.forEach` starting at x, in tag order. */
  function TagMoves(mounted: map<RefId, nat>, ws: seq<int>, tags: seq<RefId>, x: int, pad: int): seq<Move> {
    if tags == [] then []
    else
      var init := tags[..|tags| - 1];
      match Current(mounted, |ws|, tags[|tags| - 1])
      case None => TagMoves(mounted, ws, init, x, pad)
      case Some(t) => TagMoves(mounted, ws, init, x, pad) + [Move(t, TagsEnd(mounted, ws, init, x, pad))]
  }

  /** x after the `tags.forEach` starting at x. */
  function TagsEnd(mounted: map<RefId, nat>, ws: seq<int>, tags: seq<RefId>, x: int, pad: int): int {
    if tags == [] then x
    else
      var init := tags[..|tags| - 1];
      match Current(mounted, |ws|, tags[|tags| - 1])
      case None => TagsEnd(mounted, ws, init, x, pad)
      case Some(t) => TagsEnd(mounted, ws, init, x, pad) + Advance(ws, t, pad)
  }

  function LabelMoves(mounted: map<RefId, nat>, ws: seq<int>, e: Entry, layout: Layout): seq<Move> {
    match CurrentOf(mounted, |ws|, e.branchLabel)
    case None => []
    case Some(t) => [Move(t, layout.commitMessagesX)]
  }

  /** x after the branch label. */
  function LabelEnd(mounted: map<RefId, nat>, ws: seq<int>, e: Entry, layout: Layout): int {
    match CurrentOf(mounted, |ws|, e.branchLabel)
    case None => layout.commitMessagesX
    case Some(t) => layout.commitMessagesX + Advance(ws, t, layout.labelPaddingX)
  }

  function MessageMoves(mounted: map<RefId, nat>, ws: seq<int>, e: Entry, x: int): seq<Move> {
    match CurrentOf(mounted, |ws|, e.message)
    case None => []
    case Some(t) => [Move(t, x)]
  }

  /** The moves made for one commit: label, then tags in registry order, then message. */
  function EntryMoves(mounted: map<RefId, nat>, ws: seq<int>, e: Entry, layout: Layout): seq<Move> {
    var labelEnd := LabelEnd(mounted, ws, e, layout);
    LabelMoves(mounted, ws, e, layout)
    + TagMoves(mounted, ws, e.tags, labelEnd, layout.tagPaddingX)
    + MessageMoves(mounted, ws, e, TagsEnd(mounted, ws, e.tags, labelEnd, layout.tagPaddingX))
  }

  /** The moves made for the commits listed in `keys`, in that order. */
  function Plan(entries: map<string, Entry>, keys: seq<string>, mounted: map<RefId, nat>, ws: seq<int>, layout: Layout): seq<Move>
    requires forall i :: 0 <= i < |keys| ==> keys[i] in entries
  {
    if keys == [] then []
    else Plan(entries, keys[..|keys| - 1], mounted, ws, layout) + EntryMoves(mounted, ws, entries[keys[|keys| - 1]], layout)
  }

  /** An element after `moveElement(element, x)`: its transform rewritten, nothing else changed. */
  function Moved(el: Element, x: int): Element {
    el.(transform := Some(Transforms.MoveTransform(el.transform, x)))
  }

  /** The elements after one `moveElement`. */
  function ApplyMove(els: seq<Element>, m: Move): seq<Element> {
    if m.target < |els| then els[m.target := Moved(els[m.target], m.x)] else els
  }

  /** The elements after the moves, made one after the other. */
  function ApplyMoves(els: seq<Element>, ms: seq<Move>): seq<Element> {
    if ms == [] then els else ApplyMove(ApplyMoves(els, ms[..|ms| - 1]), ms[|ms| - 1])
  }

  // ---------------------------------------------------------------------------
  // The methods

  /** `moveElement(target, x)` */
  method MoveElement(elements: array<Element>, t: nat, x: int)
    requires t < elements.Length
    modifies elements
    ensures elements[..] == ApplyMove(old(elements[..]), Move(t, x))
  {
    var transform := elements[t].transform;
    elements[t] := elements[t].(transform := Some(Transforms.MoveTransform(transform, x)));
    assert elements[t] == Moved(old(elements[t]), x);
  }

  /** The body of the `Object.keys(...).forEach` for one commit. */
  method PositionEntry(e: Entry, mounted: map<RefId, nat>, elements: array<Element>, layout: Layout)
    modifies elements
    ensures elements[..] == ApplyMoves(old(elements[..]), EntryMoves(mounted, Widths(old(elements[..])), e, layout))
  {
    ghost var els0 := elements[..];
    ghost var ws := Widths(els0);
    ghost var labelMoves := LabelMoves(mounted, ws, e, layout);
    var x := PositionLabel(e, mounted, elements, layout);
    WidthsAfter(els0, labelMoves);
    ghost var tagMoves := TagMoves(mounted, ws, e.tags, x, layout.tagPaddingX);
    ghost var els1 := elements[..];
    x := PositionTags(e.tags, mounted, elements, x, layout.tagPaddingX);
    WidthsAfter(els1, tagMoves);
    ApplyMovesAppend(els0, labelMoves, tagMoves);
    ghost var done := labelMoves + tagMoves;
    var message := CurrentOf(mounted, elements.Length, e.message);
    if message.Some? {
      MoveElement(elements, message.value, x);
      ApplyMovesSnoc(els0, done, Move(message.value, x));
    } else {
      assert done + [] == done;
    }
  }

  /** The branch label of one commit goes to `commitMessagesX`; returns x after it. */
  method PositionLabel(e: Entry, mounted: map<RefId, nat>, elements: array<Element>, layout: Layout) returns (x: int)
    modifies elements
    ensures elements[..] == ApplyMoves(old(elements[..]), LabelMoves(mounted, Widths(old(elements[..])), e, layout))
    ensures x == LabelEnd(mounted, Widths(old(elements[..])), e, layout)
  {
    x := layout.commitMessagesX;
    var branchLabel := CurrentOf(mounted, elements.Length, e.branchLabel);
    if branchLabel.Some? {
      MoveElement(elements, branchLabel.value, x);
      x := x + elements[branchLabel.value].width + layout.labelPaddingX + Padding;
      assert [Move(branchLabel.value, layout.commitMessagesX)][..0] == [];
    }
  }

  /** The `tags.forEach` for one commit, starting at x0; returns x after the last tag. */
  method PositionTags(tags: seq<RefId>, mounted: map<RefId, nat>, elements: array<Element>, x0: int, pad: int)
    returns (x: int)
    modifies elements
    ensures elements[..] == ApplyMoves(old(elements[..]), TagMoves(mounted, Widths(old(elements[..])), tags, x0, pad))
    ensures x == TagsEnd(mounted, Widths(old(elements[..])), tags, x0, pad)
  {
    ghost var els0 := elements[..];
    ghost var ws := Widths(els0);
    x := x0;
    var j := 0;
    assert tags[..0] == [];
    while j < |tags|
      invariant 0 <= j <= |tags|
      invariant Widths(elements[..]) == ws
      invariant x == TagsEnd(mounted, ws, tags[..j], x0, pad)
      invariant elements[..] == ApplyMoves(els0, TagMoves(mounted, ws, tags[..j], x0, pad))
    {
      ghost var done := TagMoves(mounted, ws, tags[..j], x0, pad);
      TagStep(mounted, ws, tags, j, x0, pad);
      var tag := Current(mounted, elements.Length, tags[j]);
      if tag.Some? {
        ghost var before := elements[..];
        MoveElement(elements, tag.value, x);
        WidthsAfterMove(before, Move(tag.value, x));
        ApplyMovesSnoc(els0, done, Move(tag.value, x));
        x := x + elements[tag.value].width + pad + Padding;
      }
      j := j + 1;
    }
    assert tags[..j] == tags;
  }

  /**
   * positionCommitsElements: nothing in horizontal mode; otherwise the
   * moves of every registered commit, in `Object.keys` order.
   */
  method PositionCommitsElements(registry: CommitsElements, mounted: map<RefId, nat>, elements: array<Element>,
                                 isHorizontal: bool, layout: Layout)
    requires registry.Valid()
    modifies elements
    ensures isHorizontal ==> elements[..] == old(elements[..])
    ensures !isHorizontal ==>
              elements[..] == ApplyMoves(old(elements[..]), Plan(registry.entries, registry.keys, mounted, Widths(old(elements[..])), layout))
  {
    if isHorizontal {
      return;
    }
    KeysRegistered(registry.entries, registry.keys, registry.nextRef);
    PositionAll(registry.entries, registry.keys, mounted, elements, layout);
  }

  /** The `Object.keys(commitsElements).forEach`: every listed commit in turn. */
  method PositionAll(entries: map<string, Entry>, keys: seq<string>, mounted: map<RefId, nat>, elements: array<Element>,
                     layout: Layout)
    requires forall k :: 0 <= k < |keys| ==> keys[k] in entries
    modifies elements
    ensures elements[..] == ApplyMoves(old(elements[..]), Plan(entries, keys, mounted, Widths(old(elements[..])), layout))
  {
    ghost var els0 := elements[..];
    ghost var ws := Widths(els0);
    var i := 0;
    while i < |keys|
      invariant 0 <= i <= |keys|
      invariant Widths(elements[..]) == ws
      invariant elements[..] == ApplyMoves(els0, Plan(entries, keys[..i], mounted, ws, layout))
    {
      ghost var before := elements[..];
      var entry := entries[keys[i]];
      PositionEntry(entry, mounted, elements, layout);
      PlanStep(els0, before, entries, keys, i, mounted, layout);
      i := i + 1;
    }
    assert keys[..i] == keys;
  }

  /** Making one more commit's moves on the elements the plan so far left is making the plan for one more commit. */
  lemma PlanStep(els0: seq<Element>, before: seq<Element>, entries: map<string, Entry>, keys: seq<string>, i: nat,
                 mounted: map<RefId, nat>, layout: Layout)
    requires i < |keys|
    requires forall k :: 0 <= k < |keys| ==> keys[k] in entries
    requires before == ApplyMoves(els0, Plan(entries, keys[..i], mounted, Widths(els0), layout))
    ensures var after := ApplyMoves(before, EntryMoves(mounted, Widths(els0), entries[keys[i]], layout));
            && after == ApplyMoves(els0, Plan(entries, keys[..i + 1], mounted, Widths(els0), layout))
            && Widths(after) == Widths(els0)
  {
    var ws := Widths(els0);
    var done := Plan(entries, keys[..i], mounted, ws, layout);
    var more := EntryMoves(mounted, ws, entries[keys[i]], layout);
    assert keys[..i + 1][..i] == keys[..i];
    assert Plan(entries, keys[..i + 1], mounted, ws, layout) == done + more;
    ApplyMovesAppend(els0, done, more);
    WidthsAfter(els0, done + more);
  }

  // ---------------------------------------------------------------------------
  // Moves compose

  lemma ApplyMovesSnoc(els: seq<Element>, ms: seq<Move>, m: Move)
    ensures ApplyMoves(els, ms + [m]) == ApplyMove(ApplyMoves(els, ms), m)
  {
    assert (ms + [m])[..|ms|] == ms;
  }

  lemma {:induction false} ApplyMovesAppend(els: seq<Element>, a: seq<Move>, b: seq<Move>)
    ensures ApplyMoves(els, a + b) == ApplyMoves(ApplyMoves(els, a), b)
    decreases |b|
  {
    if b == [] {
      assert a + b == a;
    } else {
      var init := b[..|b| - 1];
      assert a + b == (a + init) + [b[|b| - 1]];
      ApplyMovesSnoc(els, a + init, b[|b| - 1]);
      ApplyMovesAppend(els, a, init);
    }
  }

  /** One `moveElement` never changes how many elements there are or how wide they are. */
  lemma WidthsAfterMove(els: seq<Element>, m: Move)
    ensures |ApplyMove(els, m)| == |els|
    ensures Widths(ApplyMove(els, m)) == Widths(els)
  {
  }

  /** One more tag: its move, when it is attached, is at the x reached so far, and x advances past it. */
  lemma TagStep(mounted: map<RefId, nat>, ws: seq<int>, tags: seq<RefId>, j: nat, x: int, pad: int)
    requires j < |tags|
    ensures var t := Current(mounted, |ws|, tags[j]);
            var end := TagsEnd(mounted, ws, tags[..j], x, pad);
            && (t.None? ==> TagMoves(mounted, ws, tags[..j + 1], x, pad) == TagMoves(mounted, ws, tags[..j], x, pad))
            && (t.None? ==> TagsEnd(mounted, ws, tags[..j + 1], x, pad) == end)
            && (t.Some? ==> TagMoves(mounted, ws, tags[..j + 1], x, pad) == TagMoves(mounted, ws, tags[..j], x, pad) + [Move(t.value, end)])
            && (t.Some? ==> TagsEnd(mounted, ws, tags[..j + 1], x, pad) == end + Advance(ws, t.value, pad))
  {
    assert tags[..j + 1][..j] == tags[..j];
  }

  /** Moving elements never changes how many there are or how wide they are. */
  lemma {:induction false} WidthsAfter(els: seq<Element>, ms: seq<Move>)
    ensures |ApplyMoves(els, ms)| == |els|
    ensures Widths(ApplyMoves(els, ms)) == Widths(els)
  {
    if ms != [] {
      WidthsAfter(els, ms[..|ms| - 1]);
    }
  }

  // ---------------------------------------------------------------------------
  // Where things end up

  /**
   * The tags line up from x: the first placed tag is at x, each next placed
   * tag sits exactly the previous one's advance further right, and x after the
   * loop is the last placed tag's position plus its advance (x itself when no
   * tag is placed).
   */
  lemma {:induction false} TagMovesLineUp(mounted: map<RefId, nat>, ws: seq<int>, tags: seq<RefId>, x: int, pad: int)
    ensures var ms := TagMoves(mounted, ws, tags, x, pad);
            && (forall i :: 0 <= i < |ms| ==> ms[i].target < |ws|)
            && (|ms| > 0 ==> ms[0].x == x)
            && (forall i :: 0 <= i < |ms| - 1 ==> ms[i + 1].x == ms[i].x + Advance(ws, ms[i].target, pad))
            && (|ms| == 0 ==> TagsEnd(mounted, ws, tags, x, pad) == x)
            && (|ms| > 0 ==> TagsEnd(mounted, ws, tags, x, pad) == ms[|ms| - 1].x + Advance(ws, ms[|ms| - 1].target, pad))
    decreases |tags|
  {
    if tags != [] {
      var init := tags[..|tags| - 1];
      TagMovesLineUp(mounted, ws, init, x, pad);
    }
  }

  /** A skipped tag (not attached) adds no move and does not advance x. */
  lemma SkippedTag(mounted: map<RefId, nat>, ws: seq<int>, tags: seq<RefId>, r: RefId, x: int, pad: int)
    requires Current(mounted, |ws|, r).None?
    ensures TagMoves(mounted, ws, tags + [r], x, pad) == TagMoves(mounted, ws, tags, x, pad)
    ensures TagsEnd(mounted, ws, tags + [r], x, pad) == TagsEnd(mounted, ws, tags, x, pad)
  {
    assert (tags + [r])[..|tags|] == tags;
  }

  /** The pad the i-th move of a commit is followed by: the label's for a placed label, else the tags'. */
  function PadAfter(mounted: map<RefId, nat>, ws: seq<int>, e: Entry, layout: Layout, i: nat): int {
    if i == 0 && CurrentOf(mounted, |ws|, e.branchLabel).Some? then layout.labelPaddingX else layout.tagPaddingX
  }

  /** The label's and the tags' moves of one commit line up, and the tags' loop ends one advance past the last of them. */
  lemma LabelThenTags(mounted: map<RefId, nat>, ws: seq<int>, e: Entry, layout: Layout)
    ensures var labelEnd := LabelEnd(mounted, ws, e, layout);
            var lt := LabelMoves(mounted, ws, e, layout) + TagMoves(mounted, ws, e.tags, labelEnd, layout.tagPaddingX);
            var end := TagsEnd(mounted, ws, e.tags, labelEnd, layout.tagPaddingX);
            && (forall i :: 0 <= i < |lt| ==> lt[i].target < |ws|)
            && (|lt| > 0 ==> lt[0].x == layout.commitMessagesX)
            && (forall i :: 0 <= i < |lt| - 1 ==>
                  lt[i + 1].x == lt[i].x + ws[lt[i].target] + PadAfter(mounted, ws, e, layout, i) + Padding)
            && (|lt| == 0 ==> end == layout.commitMessagesX)
            && (|lt| > 0 ==> end == lt[|lt| - 1].x + ws[lt[|lt| - 1].target] + PadAfter(mounted, ws, e, layout, |lt| - 1) + Padding)
  {
    var labelEnd := LabelEnd(mounted, ws, e, layout);
    var lm := LabelMoves(mounted, ws, e, layout);
    var tm := TagMoves(mounted, ws, e.tags, labelEnd, layout.tagPaddingX);
    var lt := lm + tm;
    TagMovesLineUp(mounted, ws, e.tags, labelEnd, layout.tagPaddingX);
    forall i | 0 <= i < |lt| - 1
      ensures lt[i + 1].x == lt[i].x + ws[lt[i].target] + PadAfter(mounted, ws, e, layout, i) + Padding
    {
      if i < |lm| {
        assert lt[i] == lm[0] && lt[i + 1] == tm[0];
      } else {
        assert lt[i] == tm[i - |lm|] && lt[i + 1] == tm[i - |lm| + 1];
      }
    }
    if |tm| > 0 {
      assert lt[|lt| - 1] == tm[|tm| - 1];
    }
  }

  /**
   * One commit's elements line up from `commitMessagesX`: the first placed
   * element is there, and each next one sits exactly the previous one's width
   * plus its padding plus 10 further right. The message, when placed, is last.
   */
  lemma EntryLinesUp(mounted: map<RefId, nat>, ws: seq<int>, e: Entry, layout: Layout)
    ensures var ms := EntryMoves(mounted, ws, e, layout);
            && (forall i :: 0 <= i < |ms| ==> ms[i].target < |ws|)
            && (|ms| > 0 ==> ms[0].x == layout.commitMessagesX)
            && (forall i :: 0 <= i < |ms| - 1 ==>
                  ms[i + 1].x == ms[i].x + ws[ms[i].target] + PadAfter(mounted, ws, e, layout, i) + Padding)
            && (CurrentOf(mounted, |ws|, e.message).Some? ==> ms[|ms| - 1].target == CurrentOf(mounted, |ws|, e.message).value)
  {
    var labelEnd := LabelEnd(mounted, ws, e, layout);
    var lt := LabelMoves(mounted, ws, e, layout) + TagMoves(mounted, ws, e.tags, labelEnd, layout.tagPaddingX);
    var mm := MessageMoves(mounted, ws, e, TagsEnd(mounted, ws, e.tags, labelEnd, layout.tagPaddingX));
    var ms := lt + mm;
    assert ms == EntryMoves(mounted, ws, e, layout);
    LabelThenTags(mounted, ws, e, layout);
    forall i | 0 <= i < |ms| - 1
      ensures ms[i + 1].x == ms[i].x + ws[ms[i].target] + PadAfter(mounted, ws, e, layout, i) + Padding
    {
      assert ms[i] == lt[i];
      if i + 1 < |lt| {
        assert ms[i + 1] == lt[i + 1];
      } else {
        assert ms[i + 1] == mm[0];
      }
    }
    if |lt| == 0 && |mm| > 0 {
      assert ms[0] == mm[0];
    }
  }

  /** With non-negative widths and paddings the elements of a commit are placed left to right, 10 or more apart. */
  lemma EntryLeftToRight(mounted: map<RefId, nat>, ws: seq<int>, e: Entry, layout: Layout)
    requires forall i :: 0 <= i < |ws| ==> ws[i] >= 0
    requires layout.labelPaddingX >= 0 && layout.tagPaddingX >= 0
    ensures var ms := EntryMoves(mounted, ws, e, layout);
            forall i, j :: 0 <= i < j < |ms| ==> ms[i].x + Padding <= ms[j].x
  {
    var ms := EntryMoves(mounted, ws, e, layout);
    EntryLinesUp(mounted, ws, e, layout);
    forall i, j | 0 <= i < j < |ms|
      ensures ms[i].x + Padding <= ms[j].x
    {
      Increasing(ms, i, j);
    }
  }

  lemma {:induction false} Increasing(ms: seq<Move>, i: nat, j: nat)
    requires i < j < |ms|
    requires forall k :: 0 <= k < |ms| - 1 ==> ms[k].x + Padding <= ms[k + 1].x
    ensures ms[i].x + Padding <= ms[j].x
    decreases j - i
  {
    if i + 1 < j {
      Increasing(ms, i + 1, j);
    }
  }

  predicate DistinctTargets(ms: seq<Move>) {
    forall i, j :: 0 <= i < j < |ms| ==> ms[i].target != ms[j].target
  }

  /** No move targets element `i`. */
  predicate Untouched(ms: seq<Move>, i: nat) {
    forall k :: 0 <= k < |ms| ==> ms[k].target != i
  }

  /**
   * When no element is moved twice, each moved element ends with its old
   * transform rewritten to its own x, and every other element is unchanged.
   */
  lemma {:induction false} ApplyDistinctMoves(els: seq<Element>, ms: seq<Move>)
    requires DistinctTargets(ms)
    requires forall k :: 0 <= k < |ms| ==> ms[k].target < |els|
    ensures |ApplyMoves(els, ms)| == |els|
    ensures forall k :: 0 <= k < |ms| ==> ApplyMoves(els, ms)[ms[k].target] == Moved(els[ms[k].target], ms[k].x)
    ensures forall i :: 0 <= i < |els| && Untouched(ms, i) ==> ApplyMoves(els, ms)[i] == els[i]
  {
    if ms != [] {
      var init, last := ms[..|ms| - 1], ms[|ms| - 1];
      var before := ApplyMoves(els, init);
      var after := ApplyMoves(els, ms);
      forall i, j | 0 <= i < j < |init|
        ensures init[i].target != init[j].target
      {
        assert init[i] == ms[i] && init[j] == ms[j];
      }
      forall k | 0 <= k < |init|
        ensures init[k].target < |els|
      {
        assert init[k] == ms[k];
      }
      ApplyDistinctMoves(els, init);
      assert after == before[last.target := Moved(before[last.target], last.x)];
      forall k | 0 <= k < |init|
        ensures init[k] == ms[k] && init[k].target != last.target
      {
        assert ms[k].target != ms[|ms| - 1].target;
      }
      assert Untouched(init, last.target);
      forall k | 0 <= k < |ms|
        ensures after[ms[k].target] == Moved(els[ms[k].target], ms[k].x)
      {
        if k < |init| {
          assert ms[k] == init[k];
        }
      }
      forall i | 0 <= i < |els| && Untouched(ms, i)
        ensures after[i] == els[i]
      {
        assert Untouched(init, i) by {
          forall k | 0 <= k < |init|
            ensures init[k].target != i
          {
            assert init[k] == ms[k];
          }
        }
        assert last.target != i;
      }
    }
  }

  // ---------------------------------------------------------------------------
  // Which elements move

  /** The elements the moves target, in order. */
  function Targets(ms: seq<Move>): (ts: seq<nat>)
    ensures |ts| == |ms|
    ensures forall i :: 0 <= i < |ms| ==> ts[i] == ms[i].target
  {
    seq(|ms|, i requires 0 <= i < |ms| => ms[i].target)
  }

  /** A ref slot that may be null, as zero or one refs. */
  function SlotRefs(r: Option<RefId>): seq<RefId> {
    if r.Some? then [r.value] else []
  }

  /** The refs registered for one commit, in the order they are visited: label, tags, message. */
  function EntryRefs(e: Entry): seq<RefId> {
    SlotRefs(e.branchLabel) + e.tags + SlotRefs(e.message)
  }

  /** The refs of the commits listed in `keys`, in that order. */
  function PlanRefs(entries: map<string, Entry>, keys: seq<string>): seq<RefId>
    requires forall i :: 0 <= i < |keys| ==> keys[i] in entries
  {
    if keys == [] then [] else PlanRefs(entries, keys[..|keys| - 1]) + EntryRefs(entries[keys[|keys| - 1]])
  }

  /** The elements the refs are attached to, in order; refs not attached are skipped. */
  function Attached(mounted: map<RefId, nat>, n: nat, rs: seq<RefId>): seq<nat> {
    if rs == [] then []
    else
      var init := Attached(mounted, n, rs[..|rs| - 1]);
      match Current(mounted, n, rs[|rs| - 1])
      case None => init
      case Some(t) => init + [t]
  }

  lemma TargetsAppend(a: seq<Move>, b: seq<Move>)
    ensures Targets(a + b) == Targets(a) + Targets(b)
  {
    assert |Targets(a + b)| == |Targets(a) + Targets(b)|;
    forall i | 0 <= i < |a + b|
      ensures Targets(a + b)[i] == (Targets(a) + Targets(b))[i]
    {
      if i < |a| {
        assert (a + b)[i] == a[i];
      } else {
        assert (a + b)[i] == b[i - |a|];
      }
    }
  }

  lemma {:induction false} AttachedAppend(mounted: map<RefId, nat>, n: nat, a: seq<RefId>, b: seq<RefId>)
    ensures Attached(mounted, n, a + b) == Attached(mounted, n, a) + Attached(mounted, n, b)
    decreases |b|
  {
    if b == [] {
      assert a + b == a;
    } else {
      var init := b[..|b| - 1];
      assert (a + b)[..|a + b| - 1] == a + init;
      assert (a + b)[|a + b| - 1] == b[|b| - 1];
      AttachedAppend(mounted, n, a, init);
    }
  }

  /** A slot's ref moves its element, when attached. */
  lemma SlotAttached(mounted: map<RefId, nat>, n: nat, r: Option<RefId>)
    ensures Attached(mounted, n, SlotRefs(r)) == if CurrentOf(mounted, n, r).Some? then [CurrentOf(mounted, n, r).value] else []
  {
    if r.Some? {
      assert SlotRefs(r)[..0] == [];
    }
  }

  /** The tags loop moves the elements of the attached tags, in registry order. */
  lemma {:induction false} TagTargets(mounted: map<RefId, nat>, ws: seq<int>, tags: seq<RefId>, x: int, pad: int)
    ensures Targets(TagMoves(mounted, ws, tags, x, pad)) == Attached(mounted, |ws|, tags)
    decreases |tags|
  {
    if tags != [] {
      var init := tags[..|tags| - 1];
      TagTargets(mounted, ws, init, x, pad);
      match Current(mounted, |ws|, tags[|tags| - 1])
      case None =>
      case Some(t) =>
        TargetsAppend(TagMoves(mounted, ws, init, x, pad), [Move(t, TagsEnd(mounted, ws, init, x, pad))]);
    }
  }

  /**
   * The elements one commit's moves target are, in order: the attached branch
   * label, the attached tags in registry order, the attached message.
   */
  lemma EntryTargets(mounted: map<RefId, nat>, ws: seq<int>, e: Entry, layout: Layout)
    ensures Targets(EntryMoves(mounted, ws, e, layout)) == Attached(mounted, |ws|, EntryRefs(e))
  {
    var labelEnd := LabelEnd(mounted, ws, e, layout);
    var lm := LabelMoves(mounted, ws, e, layout);
    var tm := TagMoves(mounted, ws, e.tags, labelEnd, layout.tagPaddingX);
    var mm := MessageMoves(mounted, ws, e, TagsEnd(mounted, ws, e.tags, labelEnd, layout.tagPaddingX));
    TargetsAppend(lm, tm);
    TargetsAppend(lm + tm, mm);
    TagTargets(mounted, ws, e.tags, labelEnd, layout.tagPaddingX);
    SlotAttached(mounted, |ws|, e.branchLabel);
    SlotAttached(mounted, |ws|, e.message);
    AttachedAppend(mounted, |ws|, SlotRefs(e.branchLabel), e.tags);
    AttachedAppend(mounted, |ws|, SlotRefs(e.branchLabel) + e.tags, SlotRefs(e.message));
  }

  /** The elements the whole plan targets are those of the registered refs, commit by commit. */
  lemma {:induction false} PlanTargets(entries: map<string, Entry>, keys: seq<string>, mounted: map<RefId, nat>, ws: seq<int>, layout: Layout)
    requires forall i :: 0 <= i < |keys| ==> keys[i] in entries
    ensures Targets(Plan(entries, keys, mounted, ws, layout)) == Attached(mounted, |ws|, PlanRefs(entries, keys))
    decreases |keys|
  {
    if keys != [] {
      var init := keys[..|keys| - 1];
      var e := entries[keys[|keys| - 1]];
      PlanTargets(entries, init, mounted, ws, layout);
      TargetsAppend(Plan(entries, init, mounted, ws, layout), EntryMoves(mounted, ws, e, layout));
      EntryTargets(mounted, ws, e, layout);
      AttachedAppend(mounted, |ws|, PlanRefs(entries, init), EntryRefs(e));
    }
  }

  /** No two refs are attached to the same element. */
  predicate Injective(mounted: map<RefId, nat>) {
    forall r1, r2 :: r1 in mounted && r2 in mounted && r1 != r2 ==> mounted[r1] != mounted[r2]
  }

  predicate Distinct<T(==)>(s: seq<T>) {
    forall i, j :: 0 <= i < j < |s| ==> s[i] != s[j]
  }

  /** The element of a ref not among `rs` is not among their elements. */
  lemma {:induction false} AttachedAvoids(mounted: map<RefId, nat>, n: nat, rs: seq<RefId>, r: RefId)
    requires Injective(mounted) && r in mounted
    requires forall j :: 0 <= j < |rs| ==> rs[j] != r
    ensures mounted[r] !in Attached(mounted, n, rs)
    decreases |rs|
  {
    if rs != [] {
      var init := rs[..|rs| - 1];
      forall j | 0 <= j < |init|
        ensures init[j] != r
      {
        assert init[j] == rs[j];
      }
      AttachedAvoids(mounted, n, init, r);
      assert rs[|rs| - 1] != r;
    }
  }

  /** Distinct refs attached to distinct elements give distinct elements. */
  lemma {:induction false} AttachedDistinct(mounted: map<RefId, nat>, n: nat, rs: seq<RefId>)
    requires Injective(mounted) && Distinct(rs)
    ensures Distinct(Attached(mounted, n, rs))
    decreases |rs|
  {
    if rs != [] {
      var init, r := rs[..|rs| - 1], rs[|rs| - 1];
      forall i, j | 0 <= i < j < |init|
        ensures init[i] != init[j]
      {
        assert init[i] == rs[i] && init[j] == rs[j];
      }
      AttachedDistinct(mounted, n, init);
      var a := Attached(mounted, n, init);
      match Current(mounted, n, r)
      case None =>
      case Some(t) =>
        forall j | 0 <= j < |init|
          ensures init[j] != r
        {
          assert init[j] == rs[j];
        }
        AttachedAvoids(mounted, n, init, r);
        assert Attached(mounted, n, rs) == a + [t];
    }
  }

  /**
   * When the registered refs are all different and no two refs are attached to
   * the same element, positionCommitsElements moves no element twice.
   */
  lemma PlanDistinctTargets(entries: map<string, Entry>, keys: seq<string>, mounted: map<RefId, nat>, ws: seq<int>, layout: Layout)
    requires forall i :: 0 <= i < |keys| ==> keys[i] in entries
    requires Injective(mounted) && Distinct(PlanRefs(entries, keys))
    ensures DistinctTargets(Plan(entries, keys, mounted, ws, layout))
  {
    var ms := Plan(entries, keys, mounted, ws, layout);
    PlanTargets(entries, keys, mounted, ws, layout);
    AttachedDistinct(mounted, |ws|, PlanRefs(entries, keys));
    var ts := Targets(ms);
    forall i, j | 0 <= i < j < |ms|
      ensures ms[i].target != ms[j].target
    {
      assert ts[i] == ms[i].target && ts[j] == ms[j].target;
    }
  }
}
