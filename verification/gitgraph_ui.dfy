/**
 * The small rules of the GitgraphUI component (GitgraphUI.tsx): the lookup of
 * a commit's corrected y, the tooltip predicate, the arrows' parent lookup and
 * origin, the branch-label filter and the canvas size.
 */
module GitgraphUI {
  import opened JsValues
  import Offsets

  datatype Coordinate = Coordinate(x: int, y: int)

  /**
   * The fields of a core commit this component reads. `id` stands for the
   * object's identity, which `currentCommitOver === commit` compares.
   */
  datatype Commit = Commit(id: nat, hash: string, x: int, y: int, parents: seq<string>,
                           dotSize: int, hasTooltipInCompactMode: bool, branchToDisplay: string)

  // ---------------------------------------------------------------------------
  // getWithCommitOffset

  /** The table has a truthy entry for y. */
  predicate HasTruthyEntry(table: map<JsInt, JsInt>, y: int) {
    Int(y) in table && table[Int(y)].Truthy()
  }

  /** `{ x, y: commitYWithOffsets[y] || y }`: a missing, 0 or NaN entry falls back to y. */
  function GetWithCommitOffset(table: map<JsInt, JsInt>, c: Coordinate): (r: Coordinate)
    ensures r.x == c.x
    ensures HasTruthyEntry(table, c.y) ==> r.y == table[Int(c.y)].v
    ensures !HasTruthyEntry(table, c.y) ==> r.y == c.y
  {
    Coordinate(c.x, if HasTruthyEntry(table, c.y) then table[Int(c.y)].v else c.y)
  }

  /** The lookup as intended: any numeric entry for y is used, 0 included. */
  function CorrectedCommitOffset(table: map<JsInt, JsInt>, c: Coordinate): (r: Coordinate)
    ensures r.x == c.x
    ensures Int(c.y) in table && table[Int(c.y)].Int? ==> r.y == table[Int(c.y)].v
    ensures !(Int(c.y) in table && table[Int(c.y)].Int?) ==> r.y == c.y
  {
    Coordinate(c.x, if Int(c.y) in table && table[Int(c.y)].Int? then table[Int(c.y)].v else c.y)
  }

  /**
   * A commit drawn at the y of a measured row is moved down by the extra
   * heights of the rows before it (when their total is a number and no later
   * row has the same y).
   */
  lemma CorrectedLookupOfRow(ms: seq<Offsets.Measured>, i: nat, x: int, y: int)
    requires i < |ms| && ms[i].y == Int(y)
    requires forall j :: i < j < |ms| ==> ms[j].y != ms[i].y
    requires Offsets.Total(ms[..i]).Int?
    ensures CorrectedCommitOffset(Offsets.Table(ms), Coordinate(x, y)) == Coordinate(x, y + Offsets.Total(ms[..i]).v)
  {
    Offsets.TableEntry(ms, i);
  }

  /** With non-negative extra heights and y >= 0 the lookup as written is the intended one. */
  lemma LookupAgreesWithoutNegativeHeights(ms: seq<Offsets.Measured>, c: Coordinate)
    requires Offsets.NonNegativeHeights(ms)
    requires c.y >= 0
    ensures GetWithCommitOffset(Offsets.Table(ms), c) == CorrectedCommitOffset(Offsets.Table(ms), c)
  {
    Offsets.NoRowMovesUp(ms);
  }

  /**
   * A negative top margin can pull a row's corrected y to 0; the lookup as
   * written then falls back to the row's own y. Rows at y = 0 (a message
   * whose height 10 and margin -30 add up to -20) and y = 20 give the table
   * {0: 0, 20: 0}: the commit at 20 is drawn at 20, not at 0.
   */
  lemma ZeroEntryIgnored()
    ensures var ms := [Offsets.Measured(Int(0), Int(-20)), Offsets.Measured(Int(20), Int(0))];
            && Offsets.Table(ms) == map[Int(0) := Int(0), Int(20) := Int(0)]
            && GetWithCommitOffset(Offsets.Table(ms), Coordinate(5, 20)) == Coordinate(5, 20)
            && CorrectedCommitOffset(Offsets.Table(ms), Coordinate(5, 20)) == Coordinate(5, 0)
  {
    var m0, m1 := Offsets.Measured(Int(0), Int(-20)), Offsets.Measured(Int(20), Int(0));
    var none: seq<Offsets.Measured> := [];
    Offsets.TableSnoc(none, m0);
    assert none + [m0] == [m0];
    Offsets.TableSnoc([m0], m1);
    assert [m0] + [m1] == [m0, m1];
    var table := Offsets.Table([m0, m1]);
    assert table == map[Int(0) := Int(0), Int(20) := Int(0)];
    assert Int(20) in table && !table[Int(20)].Truthy();
  }

  // ---------------------------------------------------------------------------
  // The next correction

  /** The y each commit is drawn at under `table`: `getWithCommitOffset` of its own y. */
  function DrawnYs(table: map<JsInt, JsInt>, ys: seq<int>): (ds: seq<int>)
    ensures |ds| == |ys|
  {
    seq(|ys|, k requires 0 <= k < |ys| => GetWithCommitOffset(table, Coordinate(0, ys[k])).y)
  }

  /** Rows drawn at `ys`, in traversal order, with extra heights `hs`, as the fold reads them. */
  function RowsAt(ys: seq<int>, hs: seq<JsInt>): (ms: seq<Offsets.Measured>)
    requires |ys| == |hs|
    ensures |ms| == |ys|
  {
    seq(|ys|, k requires 0 <= k < |ys| => Offsets.Measured(Int(ys[k]), hs[k]))
  }

  /**
   * The table `computeOffsets` builds when the commits change while `table`
   * is in state: every row is read back at the y it was drawn at.
   */
  function NextTable(table: map<JsInt, JsInt>, ys: seq<int>, hs: seq<JsInt>): map<JsInt, JsInt>
    requires |ys| == |hs|
  {
    Offsets.Table(RowsAt(DrawnYs(table, ys), hs))
  }

  /** The table keyed by the commits' own ys, whatever table was in state. */
  function KeyedTable(ys: seq<int>, hs: seq<JsInt>): map<JsInt, JsInt>
    requires |ys| == |hs|
  {
    Offsets.Table(RowsAt(ys, hs))
  }

  /** With the empty table of the first render, rows are drawn at their own ys: both tables agree. */
  lemma FirstTableKeyed(ys: seq<int>, hs: seq<JsInt>)
    requires |ys| == |hs|
    ensures NextTable(map[], ys, hs) == KeyedTable(ys, hs)
  {
    assert DrawnYs(map[], ys) == ys;
  }

  /**
   * Looked up in the keyed table, a commit is drawn at its own y plus the
   * extra heights of the commits before it, on every render.
   */
  lemma KeyedLookup(ys: seq<int>, hs: seq<JsInt>, i: nat, x: int)
    requires |ys| == |hs| && i < |ys|
    requires forall j :: i < j < |ys| ==> ys[j] != ys[i]
    requires Offsets.Total(RowsAt(ys, hs)[..i]).Int?
    ensures CorrectedCommitOffset(KeyedTable(ys, hs), Coordinate(x, ys[i]))
            == Coordinate(x, ys[i] + Offsets.Total(RowsAt(ys, hs)[..i]).v)
  {
    var ms := RowsAt(ys, hs);
    forall j | i < j < |ms| ensures ms[j].y != ms[i].y {
      assert ys[j] != ys[i];
    }
    CorrectedLookupOfRow(ms, i, x, ys[i]);
  }

  /**
   * As written, the next table is keyed by the corrected ys. Rows at y = 0
   * (a message 50 tall) and y = 20 first give {0: 0, 20: 70}. When the
   * commits change again with both in place, the rows are read back at 0 and
   * 70, the new table is {0: 0, 70: 120}, and the commit at 20 is drawn at 20
   * rather than 70.
   */
  lemma StaleTableCounterexample()
    ensures var ys, hs := [0, 20], [Int(50), Int(0)];
            var first := NextTable(map[], ys, hs);
            var second := NextTable(first, ys, hs);
            && first == map[Int(0) := Int(0), Int(20) := Int(70)]
            && second == map[Int(0) := Int(0), Int(70) := Int(120)]
            && GetWithCommitOffset(second, Coordinate(5, 20)) == Coordinate(5, 20)
            && CorrectedCommitOffset(second, Coordinate(5, 20)) == Coordinate(5, 20)
            && CorrectedCommitOffset(KeyedTable(ys, hs), Coordinate(5, 20)) == Coordinate(5, 70)
  {
    FirstTwoRowTable();
    SecondTwoRowTable();
    FirstTableKeyed([0, 20], [Int(50), Int(0)]);
  }

  /** The table the fold builds over rows at y = 0 (50 tall) and y = t. */
  lemma TwoRowTable(t: int)
    ensures Offsets.Table(RowsAt([0, t], [Int(50), Int(0)])) == map[Int(0) := Int(0), Int(t) := Int(t + 50)]
  {
    var m0, m1 := Offsets.Measured(Int(0), Int(50)), Offsets.Measured(Int(t), Int(0));
    assert RowsAt([0, t], [Int(50), Int(0)]) == [m0, m1];
    TwoRowFold(m0, m1);
  }

  lemma TwoRowFold(m0: Offsets.Measured, m1: Offsets.Measured)
    ensures Offsets.Table([m0, m1]) == map[m0.y := m0.y][m1.y := m1.y.Plus(Int(0).Plus(m0.extra))]
  {
    var none: seq<Offsets.Measured> := [];
    Offsets.TableSnoc(none, m0);
    assert none + [m0] == [m0];
    Offsets.TableSnoc([m0], m1);
    assert [m0] + [m1] == [m0, m1];
  }

  /** The first of those tables, computed under the empty state. */
  lemma FirstTwoRowTable()
    ensures NextTable(map[], [0, 20], [Int(50), Int(0)]) == map[Int(0) := Int(0), Int(20) := Int(70)]
  {
    assert DrawnYs(map[], [0, 20]) == [0, 20];
    TwoRowTable(20);
  }

  /** The second, computed while the first is in state. */
  lemma SecondTwoRowTable()
    ensures NextTable(map[Int(0) := Int(0), Int(20) := Int(70)], [0, 20], [Int(50), Int(0)])
            == map[Int(0) := Int(0), Int(70) := Int(120)]
  {
    var first := map[Int(0) := Int(0), Int(20) := Int(70)];
    assert !first[Int(0)].Truthy();
    assert DrawnYs(first, [0, 20]) == [0, 70];
    TwoRowTable(70);
  }

  // ---------------------------------------------------------------------------
  // Tooltip

  /** `currentCommitOver === commit && (isHorizontal || (mode === Mode.Compact && commit.style.hasTooltipInCompactMode))` */
  predicate ShouldRenderTooltip(hovered: Option<nat>, commit: Commit, isHorizontal: bool, isCompact: bool) {
    hovered == Some(commit.id) && (isHorizontal || (isCompact && commit.hasTooltipInCompactMode))
  }

  /**
   * The commit whose tooltip `$tooltip` holds after `renderCommits`: every
   * commit that passes the predicate overwrites it, so the last one wins.
   */
  function TooltipCommit(commits: seq<Commit>, hovered: Option<nat>, isHorizontal: bool, isCompact: bool): (r: Option<nat>)
    ensures r.Some? ==> r.value < |commits| && ShouldRenderTooltip(hovered, commits[r.value], isHorizontal, isCompact)
    ensures r.Some? ==> forall j :: r.value < j < |commits| ==> !ShouldRenderTooltip(hovered, commits[j], isHorizontal, isCompact)
    ensures r.None? ==> forall j :: 0 <= j < |commits| ==> !ShouldRenderTooltip(hovered, commits[j], isHorizontal, isCompact)
  {
    if commits == [] then None
    else if ShouldRenderTooltip(hovered, commits[|commits| - 1], isHorizontal, isCompact) then Some(|commits| - 1)
    else TooltipCommit(commits[..|commits| - 1], hovered, isHorizontal, isCompact)
  }

  /**
   * With distinct commit objects the tooltip is the hovered commit's, exactly
   * when the mode allows it.
   */
  lemma TooltipOfHovered(commits: seq<Commit>, i: nat, isHorizontal: bool, isCompact: bool)
    requires i < |commits|
    requires forall j, k :: 0 <= j < k < |commits| ==> commits[j].id != commits[k].id
    ensures var r := TooltipCommit(commits, Some(commits[i].id), isHorizontal, isCompact);
            r == (if isHorizontal || (isCompact && commits[i].hasTooltipInCompactMode) then Some(i) else None)
  {
    forall j | 0 <= j < |commits| && j != i
      ensures !ShouldRenderTooltip(Some(commits[i].id), commits[j], isHorizontal, isCompact)
    {
      assert commits[j].id != commits[i].id;
    }
  }

  // ---------------------------------------------------------------------------
  // Arrows

  /** `commits.find(({ hash }) => hash === parentHash)`: the first commit with that hash. */
  function FindCommit(commits: seq<Commit>, hash: string): (r: Option<nat>)
    ensures r.Some? ==> r.value < |commits| && commits[r.value].hash == hash
    ensures r.Some? ==> forall j :: 0 <= j < r.value ==> commits[j].hash != hash
    ensures r.None? <==> forall j :: 0 <= j < |commits| ==> commits[j].hash != hash
  {
    if commits == [] then None
    else if commits[0].hash == hash then Some(0)
    else
      match FindCommit(commits[1..], hash)
      case None => None
      case Some(j) => Some(j + 1)
  }

  /**
   * Where an arrow starts, relative to the commit: the commit's dot centre,
   * or with `reverseArrow` the parent's dot centre.
   */
  function ArrowOrigin(commit: Commit, parent: Commit, reverseArrow: bool): (o: Coordinate)
    ensures !reverseArrow ==> o == Coordinate(commit.dotSize, commit.dotSize)
    ensures reverseArrow ==> commit.x + o.x == parent.x + commit.dotSize && commit.y + o.y == parent.y + commit.dotSize
  {
    if reverseArrow then Coordinate(commit.dotSize + (parent.x - commit.x), commit.dotSize + (parent.y - commit.y))
    else Coordinate(commit.dotSize, commit.dotSize)
  }

  /** One arrow slot for a parent hash: null when no commit has that hash. */
  function ArrowSlot(commits: seq<Commit>, commit: Commit, parentHash: string, reverseArrow: bool): Option<Coordinate> {
    match FindCommit(commits, parentHash)
    case None => None
    case Some(j) => Some(ArrowOrigin(commit, commits[j], reverseArrow))
  }

  /** `parents.map(...)`: one slot per parent hash, in order. */
  function ArrowSlots(commits: seq<Commit>, commit: Commit, parents: seq<string>, reverseArrow: bool)
    : (r: seq<Option<Coordinate>>)
    ensures |r| == |parents|
    ensures forall i :: 0 <= i < |parents| ==> r[i] == ArrowSlot(commits, commit, parents[i], reverseArrow)
  {
    if parents == [] then []
    else ArrowSlots(commits, commit, parents[..|parents| - 1], reverseArrow)
         + [ArrowSlot(commits, commit, parents[|parents| - 1], reverseArrow)]
  }

  /**
   * `arrowSize && renderArrows(commit)`: nothing unless the arrow size is
   * truthy; otherwise one slot per parent hash, in order, holding the arrow's
   * origin, or null for a parent that is not among the commits.
   */
  function RenderArrows(commits: seq<Commit>, commit: Commit, arrowSize: Option<JsInt>, reverseArrow: bool)
    : (r: Option<seq<Option<Coordinate>>>)
    ensures r.Some? <==> arrowSize.Some? && arrowSize.value.Truthy()
    ensures r.Some? ==> |r.value| == |commit.parents|
    ensures r.Some? ==> forall i :: 0 <= i < |commit.parents| ==>
              (r.value[i].None? <==> forall j :: 0 <= j < |commits| ==> commits[j].hash != commit.parents[i])
    ensures r.Some? ==> forall i :: 0 <= i < |commit.parents| && r.value[i].Some? ==>
              exists j :: 0 <= j < |commits| && commits[j].hash == commit.parents[i]
                          && r.value[i] == Some(ArrowOrigin(commit, commits[j], reverseArrow))
  {
    if arrowSize.Some? && arrowSize.value.Truthy() then
      Some(ArrowSlots(commits, commit, commit.parents, reverseArrow))
    else None
  }

  // ---------------------------------------------------------------------------
  // Branch labels

  /** The fields of a core branch this component reads. */
  datatype Branch = Branch(name: string, labelDisplay: bool)

  /**
   * Whether `renderBranchLabels` emits the branch's label for the commit:
   * the label is displayed, the commit is the branch's head unless labels go
   * on every commit, and the commit displays this branch. `head` is the hash
   * the branch points at, if any.
   */
  predicate BranchLabelShown(branch: Branch, commit: Commit, onEveryCommit: bool, head: Option<string>) {
    && branch.labelDisplay
    && (onEveryCommit || head == Some(commit.hash))
    && commit.branchToDisplay == branch.name
  }

  /** The head lookup as written: the literal 'asd' stands for every branch's head. */
  const StubHead: string := "asd"

  predicate BranchLabelShownAsWritten(branch: Branch, commit: Commit, onEveryCommit: bool) {
    BranchLabelShown(branch, commit, onEveryCommit, Some(StubHead))
  }

  /** The labels emitted for a commit, one slot per branch: the branch's name, or null. */
  function RenderBranchLabels(branches: seq<Branch>, heads: map<string, string>, commit: Commit, onEveryCommit: bool)
    : (r: seq<Option<string>>)
    ensures |r| == |branches|
    ensures forall i :: 0 <= i < |branches| ==>
              (r[i].Some? <==>
                 && branches[i].labelDisplay
                 && (onEveryCommit || (branches[i].name in heads && heads[branches[i].name] == commit.hash))
                 && commit.branchToDisplay == branches[i].name)
    ensures forall i :: 0 <= i < |branches| && r[i].Some? ==> r[i].value == branches[i].name
  {
    seq(|branches|, i requires 0 <= i < |branches| =>
      if BranchLabelShown(branches[i], commit, onEveryCommit, Head(heads, branches[i].name))
      then Some(branches[i].name) else None)
  }

  /** `refs.getCommit(name)` */
  function Head(heads: map<string, string>, name: string): Option<string> {
    if name in heads then Some(heads[name]) else None
  }

  /** With distinct branch names a commit gets at most one label: the one of the branch it displays. */
  lemma AtMostOneLabel(branches: seq<Branch>, heads: map<string, string>, commit: Commit, onEveryCommit: bool)
    requires forall i, j :: 0 <= i < j < |branches| ==> branches[i].name != branches[j].name
    ensures var r := RenderBranchLabels(branches, heads, commit, onEveryCommit);
            forall i, j :: 0 <= i < |r| && 0 <= j < |r| && r[i].Some? && r[j].Some? ==> i == j
    ensures var r := RenderBranchLabels(branches, heads, commit, onEveryCommit);
            forall i :: 0 <= i < |r| && r[i].Some? ==> r[i].value == commit.branchToDisplay
  {
    var r := RenderBranchLabels(branches, heads, commit, onEveryCommit);
    forall i, j | 0 <= i < |r| && 0 <= j < |r| && r[i].Some? && r[j].Some?
      ensures i == j
    {
      assert branches[i].name == commit.branchToDisplay == branches[j].name;
    }
  }

  /** Unless labels go on every commit, a label is only emitted on the branch's head commit. */
  lemma LabelOnlyOnHead(branches: seq<Branch>, heads: map<string, string>, commit: Commit, i: nat)
    requires i < |branches|
    requires RenderBranchLabels(branches, heads, commit, false)[i].Some?
    ensures branches[i].name in heads && heads[branches[i].name] == commit.hash
  {
  }

  /** As written, without labels on every commit no commit whose hash is not "asd" gets a label. */
  lemma StubHidesLabels(branch: Branch, commit: Commit)
    requires commit.hash != StubHead
    ensures !BranchLabelShownAsWritten(branch, commit, false)
  {
  }

  /** The head commit of a displayed branch gets its label from the intended rule but not from the rule as written. */
  lemma StubCounterexample()
    ensures var master := Branch("master", true);
            var commit := Commit(0, "9a8b7c", 0, 0, [], 10, false, "master");
            && BranchLabelShown(master, commit, false, Some("9a8b7c"))
            && !BranchLabelShownAsWritten(master, commit, false)
  {
    var commit := Commit(0, "9a8b7c", 0, 0, [], 10, false, "master");
    assert commit.hash[0] == '9' != StubHead[0];
  }

  // ---------------------------------------------------------------------------
  // Canvas size

  /** The number written to the root `<svg>`'s width or height: the content's size plus the paddings. */
  function CanvasSize(contentSize: int, tooltipPadding: int, labelPadding: int): (s: string)
    ensures ParseInt(s) == Int(contentSize + tooltipPadding + labelPadding)
  {
    ParseIntOfToString(contentSize + tooltipPadding + labelPadding, "");
    assert IntToString(contentSize + tooltipPadding + labelPadding) + "" == IntToString(contentSize + tooltipPadding + labelPadding);
    IntToString(contentSize + tooltipPadding + labelPadding)
  }

  /** The root `<svg>` element's size attributes. */
  class SvgRoot {
    var width: Option<string>
    var height: Option<string>

    constructor()
      ensures width == None && height == None
    {
      width := None;
      height := None;
    }

    /**
     * The third effect: the canvas is the bbox grown by `Tooltip.padding` in
     * both directions, by `BranchLabel.paddingX` in width and by
     * `BranchLabel.paddingY` in height, so tooltips and labels are not cropped.
     */
    method FitToContent(bboxWidth: int, bboxHeight: int, tooltipPadding: int, labelPaddingX: int, labelPaddingY: int)
      modifies this
      ensures width == Some(CanvasSize(bboxWidth, tooltipPadding, labelPaddingX))
      ensures height == Some(CanvasSize(bboxHeight, tooltipPadding, labelPaddingY))
    {
      width := Some(CanvasSize(bboxWidth, tooltipPadding, labelPaddingX));
      height := Some(CanvasSize(bboxHeight, tooltipPadding, labelPaddingY));
    }
  }
}
