/**
 * The row-offset correction of the React binding (computeOffsets.ts).
 *
 * After the first paint every commit is a `<g transform="translate(x, y)">`
 * row. A row may hold a `foreignObject` whose first element child is a custom
 * HTML message of variable height. The correction table maps the y each row
 * was rendered at to that y plus the extra heights of every row above it, where
 * "above" is the traversal order fixed by the orientation.
 */
module Offsets {
  import opened JsValues

  /** `Vertical` stands for the orientation prop being left undefined (the default top-down layout). */
  datatype Orientation = Vertical | VerticalReverse | Horizontal | HorizontalReverse

  /** The custom HTML message inside a foreignObject: its measured height and its computed `margin-top` text. */
  datatype HtmlMessage = HtmlMessage(height: int, marginTop: string)

  /** A foreignObject: its `height` attribute and its first element child, if any. */
  datatype ForeignObject = ForeignObject(height: Option<string>, child: Option<HtmlMessage>)

  /** A rendered commit row: its `transform` attribute and its first foreignObject descendant. */
  datatype Row = Row(transform: Option<string>, foreignObject: Option<ForeignObject>)

  /** The `transform` a commit row is rendered with (`translate(${x}, ${y})`). */
  function RowTransform(x: int, y: int): string {
    "translate(" + IntToString(x) + ", " + IntToString(y) + ")"
  }

  /**
   * The y the row was rendered at: `parseInt(transform.split(",")[1].slice(0, -1), 10)`.
   * None where the source throws a TypeError (no transform, or no comma in it).
   */
  function RowY(row: Row): Option<JsInt> {
    match row.transform
    case None => None
    case Some(t) =>
      match SecondField(t)
      case None => None
      case Some(field) => Some(ParseInt(DropLast(field)))
  }

  /** `getComputedStyle(el).marginTop || "0px"` */
  function MarginOrDefault(marginTop: string): string {
    if marginTop == "" then "0px" else marginTop
  }

  /** The height a row adds below itself: the custom message's height plus its parsed top margin, else 0. */
  function ExtraHeight(row: Row): JsInt {
    if row.foreignObject.Some? && row.foreignObject.value.child.Some? then
      var message := row.foreignObject.value.child.value;
      Int(message.height).Plus(ParseInt(ReplaceFirst(MarginOrDefault(message.marginTop), "px", "")))
    else
      Int(0)
  }

  /** `${messageHeight}px` */
  function HeightAttribute(h: JsInt): string {
    h.ToString() + "px"
  }

  /** The row after its foreignObject (if any) has been given the height `h`. */
  function Stamp(row: Row, h: JsInt): Row {
    match row.foreignObject
    case None => row
    case Some(fo) => row.(foreignObject := Some(fo.(height := Some(HeightAttribute(h)))))
  }

  /** What the fold reads from one row: its rendered y and its extra height. */
  datatype Measured = Measured(y: JsInt, extra: JsInt)

  /** The row as the fold reads it; None where reading its y throws. */
  function Read(row: Row): Option<Measured> {
    match RowY(row)
    case None => None
    case Some(y) => Some(Measured(y, ExtraHeight(row)))
  }

  function Reads(rows: seq<Row>): (rs: seq<Option<Measured>>)
    ensures |rs| == |rows|
    ensures forall i :: 0 <= i < |rows| ==> rs[i] == Read(rows[i])
  {
    seq(|rows|, i requires 0 <= i < |rows| => Read(rows[i]))
  }

  function Reversed<T>(s: seq<T>): (r: seq<T>)
    ensures |r| == |s|
    ensures forall i :: 0 <= i < |s| ==> r[i] == s[|s| - 1 - i]
  {
    seq(|s|, i requires 0 <= i < |s| => s[|s| - 1 - i])
  }

  /** Rows are in top-down order in the DOM only for VerticalReverse; otherwise the DOM order is bottom-up. */
  function Traversal(rows: seq<Row>, orientation: Orientation): seq<Row> {
    if orientation == VerticalReverse then rows else Reversed(rows)
  }

  /** How many rows are handled before the first one that throws. */
  function Processed(rs: seq<Option<Measured>>): (n: nat)
    ensures n <= |rs|
    ensures forall k :: 0 <= k < n ==> rs[k].Some?
    ensures n < |rs| ==> rs[n].None?
  {
    if rs == [] || rs[0].None? then 0 else 1 + Processed(rs[1..])
  }

  /** The measured rows, once every read has succeeded. */
  function Values(rs: seq<Option<Measured>>): (ms: seq<Measured>)
    requires forall k :: 0 <= k < |rs| ==> rs[k].Some?
    ensures |ms| == |rs|
    ensures forall k :: 0 <= k < |rs| ==> ms[k] == rs[k].value
  {
    seq(|rs|, k requires 0 <= k < |rs| && rs[k].Some? => rs[k].value)
  }

  /** The running total after the given rows: the sum of their extra heights. */
  function Total(ms: seq<Measured>): JsInt {
    if ms == [] then Int(0) else Total(ms[..|ms| - 1]).Plus(ms[|ms| - 1].extra)
  }

  /** The correction table the fold builds over rows in traversal order. */
  function Table(ms: seq<Measured>): map<JsInt, JsInt> {
    if ms == [] then map[]
    else
      var before := ms[..|ms| - 1];
      var y := ms[|ms| - 1].y;
      Table(before)[y := y.Plus(Total(before))]
  }

  datatype Outcome = Ok(table: map<JsInt, JsInt>) | TypeError

  /** `Array.prototype.reverse`: reverses the caller's array in place. */
  method ReverseInPlace(a: array<Row>)
    modifies a
    ensures a[..] == Reversed(old(a[..]))
  {
    var dom := a[..];
    forall i | 0 <= i < a.Length {
      a[i] := dom[a.Length - 1 - i];
    }
  }

  /**
   * computeOffsets: reverses `commits` in place unless the orientation is
   * VerticalReverse, then folds over the rows in that order. Each row's
   * foreignObject gets the row's extra height, and `table[y] = y + total`
   * is recorded before the row's own extra height joins the total. A row
   * whose y cannot be read throws, leaving the earlier rows stamped.
   */
  method ComputeOffsets(commits: array<Row>, orientation: Orientation) returns (r: Outcome)
    modifies commits
    ensures var rows := Traversal(old(commits[..]), orientation);
            var rs := Reads(rows);
            var n := Processed(rs);
            && commits.Length == |rows|
            && (forall k :: 0 <= k < n ==> commits[k] == Stamp(rows[k], rs[k].value.extra))
            && (forall k :: n <= k < |rows| ==> commits[k] == rows[k])
            && r == if n == |rows| then Ok(Table(Values(rs))) else TypeError
  {
    if orientation != VerticalReverse {
      ReverseInPlace(commits);
    }
    r := AccumulateOffsets(commits);
  }

  /** The `reduce` of computeOffsets, over rows already in traversal order. */
  method AccumulateOffsets(commits: array<Row>) returns (r: Outcome)
    modifies commits
    ensures var rows := old(commits[..]);
            var rs := Reads(rows);
            var n := Processed(rs);
            && (forall k :: 0 <= k < n ==> commits[k] == Stamp(rows[k], rs[k].value.extra))
            && (forall k :: n <= k < |rows| ==> commits[k] == rows[k])
            && r == if n == |rows| then Ok(Table(Values(rs))) else TypeError
  {
    ghost var rows := commits[..];
    ghost var rs := Reads(rows);
    var totalOffsetY := Int(0);
    var newOffsets: map<JsInt, JsInt> := map[];
    var i := 0;
    while i < commits.Length
      invariant 0 <= i <= commits.Length == |rows| == |rs|
      invariant forall k :: 0 <= k < i ==> rs[k].Some?
      invariant forall k :: 0 <= k < i ==> commits[k] == Stamp(rows[k], rs[k].value.extra)
      invariant forall k :: i <= k < |rows| ==> commits[k] == rows[k]
      invariant totalOffsetY == Total(Values(rs[..i]))
      invariant newOffsets == Table(Values(rs[..i]))
    {
      var commit := commits[i];
      assert rs[i] == Read(commit);
      var commitY := RowY(commit);
      if commitY.None? {
        ThrowsAt(rs, i);
        return TypeError;
      }
      var messageHeight := ExtraHeight(commit);
      // Force the foreignObject's height (it does nothing to a row without one).
      commits[i] := Stamp(commit, messageHeight);
      FoldStep(rs, i);
      newOffsets := newOffsets[commitY.value := commitY.value.Plus(totalOffsetY)];
      totalOffsetY := totalOffsetY.Plus(messageHeight);
      i := i + 1;
    }
    assert rs[..i] == rs;
    r := Ok(newOffsets);
  }

  /** The first read that fails is where the fold stops. */
  lemma ThrowsAt(rs: seq<Option<Measured>>, i: nat)
    requires i < |rs| && rs[i].None?
    requires forall k :: 0 <= k < i ==> rs[k].Some?
    ensures Processed(rs) == i
  {
    var n := Processed(rs);
    assert n <= i;
    assert n < |rs| && rs[n].None?;
  }

  /** One more successful read extends the running total and the table by that row. */
  lemma FoldStep(rs: seq<Option<Measured>>, i: nat)
    requires i < |rs|
    requires forall k :: 0 <= k <= i ==> rs[k].Some?
    ensures Total(Values(rs[..i + 1])) == Total(Values(rs[..i])).Plus(rs[i].value.extra)
    ensures Table(Values(rs[..i + 1])) == Table(Values(rs[..i]))[rs[i].value.y := rs[i].value.y.Plus(Total(Values(rs[..i])))]
  {
    assert Values(rs[..i + 1]) == Values(rs[..i]) + [rs[i].value];
    TableSnoc(Values(rs[..i]), rs[i].value);
  }

  // ---------------------------------------------------------------------------
  // What the table says

  function Ys(ms: seq<Measured>): set<JsInt> {
    set i | 0 <= i < |ms| :: ms[i].y
  }

  /** The table has one key per distinct rendered y, and no other key. */
  lemma {:induction false} TableKeys(ms: seq<Measured>)
    ensures Table(ms).Keys == Ys(ms)
  {
    if ms != [] {
      var before := ms[..|ms| - 1];
      TableKeys(before);
      assert Ys(ms) == Ys(before) + {ms[|ms| - 1].y} by {
        forall y | y in Ys(ms) ensures y in Ys(before) + {ms[|ms| - 1].y} {
          var i :| 0 <= i < |ms| && ms[i].y == y;
          if i < |ms| - 1 {
            assert ms[i] == before[i];
          }
        }
        forall y | y in Ys(before) ensures y in Ys(ms) {
          var i :| 0 <= i < |before| && before[i].y == y;
          assert ms[i] == before[i];
        }
      }
    }
  }

  /**
   * A row's entry is its rendered y plus the extra heights of the rows strictly
   * before it; when several rows share a y, the last of them decides.
   */
  lemma {:induction false} TableEntry(ms: seq<Measured>, i: nat)
    requires i < |ms|
    requires forall j :: i < j < |ms| ==> ms[j].y != ms[i].y
    ensures ms[i].y in Table(ms)
    ensures Table(ms)[ms[i].y] == ms[i].y.Plus(Total(ms[..i]))
  {
    var before := ms[..|ms| - 1];
    if i < |ms| - 1 {
      assert before[i] == ms[i];
      assert before[..i] == ms[..i];
      forall j | i < j < |before| ensures before[j].y != before[i].y {
        assert before[j] == ms[j];
      }
      TableEntry(before, i);
    } else {
      assert before == ms[..i];
    }
  }

  /** A row's own extra height never moves its own entry. */
  lemma OwnHeightIrrelevant(ms: seq<Measured>, i: nat, extra: JsInt)
    requires i < |ms|
    requires forall j :: i < j < |ms| ==> ms[j].y != ms[i].y
    ensures ms[i].y in Table(ms) && ms[i].y in Table(ms[i := ms[i].(extra := extra)])
    ensures Table(ms[i := ms[i].(extra := extra)])[ms[i].y] == Table(ms)[ms[i].y]
  {
    var changed := ms[i := ms[i].(extra := extra)];
    assert changed[..i] == ms[..i];
    TableEntry(ms, i);
    TableEntry(changed, i);
  }

  /** With no variable-height content the running total stays 0. */
  lemma {:induction false} TotalOfZeroHeights(ms: seq<Measured>)
    requires forall i :: 0 <= i < |ms| ==> ms[i].extra == Int(0)
    ensures Total(ms) == Int(0)
  {
    if ms != [] {
      TotalOfZeroHeights(ms[..|ms| - 1]);
    }
  }

  /** Without variable-height content the table is the identity. */
  lemma {:induction false} ZeroHeightsIdentity(ms: seq<Measured>)
    requires forall i :: 0 <= i < |ms| ==> ms[i].extra == Int(0)
    ensures forall y :: y in Table(ms) ==> Table(ms)[y] == y
  {
    if ms != [] {
      var before := ms[..|ms| - 1];
      ZeroHeightsIdentity(before);
      TotalOfZeroHeights(before);
    }
  }

  predicate NonNegativeHeights(ms: seq<Measured>) {
    forall i :: 0 <= i < |ms| ==> ms[i].extra.Int? && ms[i].extra.v >= 0
  }

  /** With non-negative heights the running total is a number and never decreases. */
  lemma {:induction false} TotalMonotone(ms: seq<Measured>, i: nat, j: nat)
    requires NonNegativeHeights(ms)
    requires i <= j <= |ms|
    ensures Total(ms[..i]).Int? && Total(ms[..j]).Int?
    ensures 0 <= Total(ms[..i]).v <= Total(ms[..j]).v
    decreases j
  {
    if j == 0 {
      assert ms[..0] == [];
    } else if i == j {
      TotalMonotone(ms, i - 1, j - 1);
      assert ms[..j][..j - 1] == ms[..j - 1];
    } else {
      TotalMonotone(ms, i, j - 1);
      assert ms[..j][..j - 1] == ms[..j - 1];
    }
  }

  /** With non-negative heights no numeric row moves up. */
  lemma {:induction false} NoRowMovesUp(ms: seq<Measured>)
    requires NonNegativeHeights(ms)
    ensures forall y :: Int(y) in Table(ms) ==> Table(ms)[Int(y)].Int? && Table(ms)[Int(y)].v >= y
  {
    if ms != [] {
      var before := ms[..|ms| - 1];
      assert NonNegativeHeights(before) by {
        forall i | 0 <= i < |before| ensures before[i] == ms[i] {
        }
      }
      NoRowMovesUp(before);
      TotalMonotone(ms, |ms| - 1, |ms| - 1);
    }
  }

  // ---------------------------------------------------------------------------
  // Reading the DOM

  /** `split(",")[1]` of a rendered row transform is the y text with its closing parenthesis. */
  lemma RowTransformSecondField(x: int, y: int)
    ensures SecondField(RowTransform(x, y)) == Some(" " + IntToString(y) + ")")
  {
    var sx := IntToString(x);
    var t := RowTransform(x, y);
    var rest := " " + IntToString(y) + ")";
    assert t == ("translate(" + sx) + [','] + rest;
    NoCommaInInt(x);
    NoCommaInInt(y);
    assert ',' !in "translate(" + sx;
    assert t[..10 + |sx|] == "translate(" + sx;
    IndexOfAt(t, ',', 10 + |sx|);
    assert t[10 + |sx| + 1..] == rest;
    assert ',' !in rest;
    IndexOfSpec(rest, ',');
  }

  /** The y a row is rendered with is the y the pass reads back. */
  lemma RenderedRowY(x: int, y: int, fo: Option<ForeignObject>)
    ensures RowY(Row(Some(RowTransform(x, y)), fo)) == Some(Int(y))
  {
    RowTransformSecondField(x, y);
    var rest := " " + IntToString(y) + ")";
    assert DropLast(rest) == [' '] + IntToString(y);
    ParseIntSkipsSpace(' ', IntToString(y));
    ParseIntOfToString(y, "");
    assert IntToString(y) + "" == IntToString(y);
  }

  /** Reading a row's y throws exactly when it has no transform or its transform has no comma. */
  lemma RowYThrows(row: Row)
    ensures RowY(row).None? <==> row.transform.None? || ',' !in row.transform.value
  {
    if row.transform.Some? {
      SecondFieldSpec(row.transform.value);
    }
  }

  /** An empty computed margin counts as "0px": the message adds just its height. */
  lemma EmptyMarginAddsHeight(fo: ForeignObject, h: int, transform: Option<string>)
    requires fo.child == Some(HtmlMessage(h, ""))
    ensures ExtraHeight(Row(transform, Some(fo))) == Int(h)
  {
    assert MarginOrDefault("") == IntToString(0) + "px";
    StripPixels(0);
    ParseIntOfToString(0, "");
    assert IntToString(0) + "" == IntToString(0);
  }

  /** A message with computed margin `<m>px` and measured height h adds h + m. */
  lemma MessageExtraHeight(fo: ForeignObject, h: int, m: int, transform: Option<string>)
    requires fo.child == Some(HtmlMessage(h, IntToString(m) + "px"))
    ensures ExtraHeight(Row(transform, Some(fo))) == Int(h + m)
  {
    IntToStringShape(m);
    assert MarginOrDefault(IntToString(m) + "px") == IntToString(m) + "px";
    StripPixels(m);
    ParseIntOfToString(m, "");
    assert IntToString(m) + "" == IntToString(m);
  }

  /** The height written back to a foreignObject reads as the row's extra height, and stamping changes nothing the pass reads. */
  lemma StampedHeightReadsBack(row: Row, h: int)
    requires row.foreignObject.Some?
    ensures Stamp(row, Int(h)).foreignObject.Some?
    ensures ParseInt(Stamp(row, Int(h)).foreignObject.value.height.value) == Int(h)
    ensures Read(Stamp(row, Int(h))) == Read(row)
  {
    ParseIntOfToString(h, "px");
  }

  /** A rendered row without a custom message reads as its y with no extra height. */
  lemma ReadPlainRow(x: int, y: int)
    ensures Read(Row(Some(RowTransform(x, y)), None)) == Some(Measured(Int(y), Int(0)))
  {
    RenderedRowY(x, y, None);
  }

  /** A rendered row whose message is h tall with margin `<m>px` reads as its y with extra height h + m. */
  lemma ReadMessageRow(x: int, y: int, fo: ForeignObject, h: int, m: int)
    requires fo.child == Some(HtmlMessage(h, IntToString(m) + "px"))
    ensures Read(Row(Some(RowTransform(x, y)), Some(fo))) == Some(Measured(Int(y), Int(h + m)))
  {
    RenderedRowY(x, y, Some(fo));
    MessageExtraHeight(fo, h, m, Some(RowTransform(x, y)));
  }

  /** A fractional y is cut at the dot: a row at `translate(0, 22.5)` is filed under 22. */
  lemma FractionalYTruncated(fo: Option<ForeignObject>)
    ensures RowY(Row(Some("translate(0, 22.5)"), fo)) == Some(Int(22))
  {
    FractionalField();
    assert DropLast(" 22.5)") == " 22.5";
    FractionalText();
  }

  lemma FractionalField()
    ensures SecondField("translate(0, 22.5)") == Some(" 22.5)")
  {
    assert "translate(0, 22.5)" == "translate(0" + "," + " 22.5)";
    SecondFieldOfTwo("translate(0", " 22.5)");
  }

  lemma FractionalText()
    ensures ParseInt(" 22.5") == Int(22)
  {
    assert IntToString(22) == "22" by {
      assert NatToDigits(2) == "2";
    }
    assert " 22.5" == [' '] + (IntToString(22) + ".5");
    ParseIntSkipsSpace(' ', IntToString(22) + ".5");
    ParseIntOfToString(22, ".5");
  }

  /** A fractional computed margin is cut at the dot too: `12.5px` adds 12. */
  lemma FractionalMarginTruncated(fo: ForeignObject, h: int, transform: Option<string>)
    requires fo.child == Some(HtmlMessage(h, "12.5px"))
    ensures ExtraHeight(Row(transform, Some(fo))) == Int(h + 12)
  {
    var m := "12.5px";
    assert OccursAt(m, "px", 4);
    forall k | 0 <= k < 4
      ensures !OccursAt(m, "px", k)
    {
      assert m[k] != 'p';
    }
    FindFromSpec(m, "px", 0);
    assert FindFrom(m, "px", 0) == Some(4);
    assert IntToString(12) == "12" by {
      assert NatToDigits(1) == "1";
    }
    assert ReplaceFirst(m, "px", "") == IntToString(12) + ".5";
    ParseIntOfToString(12, ".5");
  }

  /** One more row: its entry is its y plus the total so far, and its height joins the total. */
  lemma TableSnoc(ms: seq<Measured>, m: Measured)
    ensures Total(ms + [m]) == Total(ms).Plus(m.extra)
    ensures Table(ms + [m]) == Table(ms)[m.y := m.y.Plus(Total(ms))]
  {
    assert (ms + [m])[..|ms|] == ms;
  }

  /** The fold over three measured rows, the middle one 50 units tall. */
  lemma ThreeRowTable()
    ensures var ms := [Measured(Int(0), Int(0)), Measured(Int(20), Int(50)), Measured(Int(40), Int(0))];
            Table(ms) == map[Int(0) := Int(0), Int(20) := Int(20), Int(40) := Int(90)]
  {
    var m0, m1, m2 := Measured(Int(0), Int(0)), Measured(Int(20), Int(50)), Measured(Int(40), Int(0));
    TableSnoc([], m0);
    assert [] + [m0] == [m0];
    TableSnoc([m0], m1);
    assert [m0] + [m1] == [m0, m1];
    TableSnoc([m0, m1], m2);
    assert [m0, m1] + [m2] == [m0, m1, m2];
  }

  /** The three rows of the example below, in DOM order (y = 40, 20, 0), the middle one holding a 50-unit message. */
  function ThreeRows(x: int): seq<Row> {
    [Row(Some(RowTransform(x, 40)), None),
     Row(Some(RowTransform(x, 20)), Some(ForeignObject(None, Some(HtmlMessage(50, "0px"))))),
     Row(Some(RowTransform(x, 0)), None)]
  }

  /** Traversed bottom-up, the three rows read as y = 0, 20, 40 with extra heights 0, 50, 0. */
  lemma ThreeRowReads(x: int)
    ensures Reads(Traversal(ThreeRows(x), Vertical))
         == [Some(Measured(Int(0), Int(0))), Some(Measured(Int(20), Int(50))), Some(Measured(Int(40), Int(0)))]
  {
    var dom := ThreeRows(x);
    ReadPlainRow(x, 40);
    ReadPlainRow(x, 0);
    assert IntToString(0) + "px" == "0px";
    ReadMessageRow(x, 20, dom[1].foreignObject.value, 50, 0);
    assert Traversal(dom, Vertical) == [dom[2], dom[1], dom[0]];
  }

  /**
   * Three rows rendered at any x in DOM order y = 40, 20, 0 (default
   * orientation, so traversed 0, 20, 40); the row at 20 holds a 50-unit message:
   * every row is read and the table is {0: 0, 20: 20, 40: 90}.
   */
  lemma ThreeRowExample(x: int)
    ensures var rs := Reads(Traversal(ThreeRows(x), Vertical));
            && Processed(rs) == 3
            && Table(Values(rs)) == map[Int(0) := Int(0), Int(20) := Int(20), Int(40) := Int(90)]
  {
    var m0, m1, m2 := Measured(Int(0), Int(0)), Measured(Int(20), Int(50)), Measured(Int(40), Int(0));
    ThreeRowReads(x);
    var rs := Reads(Traversal(ThreeRows(x), Vertical));
    assert Values(rs) == [m0, m1, m2];
    ThreeRowTable();
  }
}
