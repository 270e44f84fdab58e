# gitgraph-react layout correction, modelled in Dafny

gitgraph-react renders a git graph as SVG. Two parts of its layout cannot be
known when it renders: how tall a custom HTML commit message is, and how wide
a branch label or a tag is. So the component renders first, measures the DOM,
and then corrects the layout.

- **Vertical correction (`computeOffsets`).** After the commits render, the
  rows are walked in screen order, top-down. Each row's rendered y is read
  back from its `transform` attribute. The height of its custom message and
  the message's top margin are measured. The result is a table from the y
  each row was rendered at to that y plus the heights of all messages above
  it. The
  `foreignObject` holding a message is given its measured height as it is
  passed. The next render looks every commit up in that table
  (`getWithCommitOffset`).
- **Horizontal correction (`positionCommitsElements`).** While the commits
  render, a registry (`commitsElements`) records for each commit the refs of
  its branch label, its tags and its message. After the render, those
  elements are moved, one commit at a time, to `commitMessagesX`. Each one
  moves right past the width of the previous one (`moveElement` rewrites the
  first component of the element's `translate(...)`).
- **Render-time logic.** Which commit shows the tooltip. Where each parent
  arrow starts. Which branch label a commit gets. How large the root `<svg>`
  is made.

The Dafny modules follow the source files:

| module | file | models |
|---|---|---|
| `JsValues` | `js_values.dfy` | the JavaScript numbers and string operations the code relies on: `parseInt`, `${n}`, `split(",")[1]`, `slice(0, -1)`, `replace` |
| `Offsets` | `compute_offsets.dfy` | `computeOffsets.ts`: an in-place pass over an array of DOM rows |
| `Transforms` | `move_element.dfy` | the rewrite `moveElement` applies to a `transform` attribute |
| `Registry` | `commits_elements.dfy` | the `commitsElements` registry, as a class updated by the `create*Ref` methods |
| `Stacking` | `position_elements.dfy` | `positionCommitsElements` and `moveElement`, moving elements held in an array |
| `GitgraphUI` | `gitgraph_ui.dfy` | `getWithCommitOffset`, the tooltip predicate, `renderArrows`, the branch-label filter and the canvas-size effect |

DOM rows and elements are records in an `array`. A measurement such as a
bounding-box width or height, or a computed margin, is an input value. A
React ref is a number handed out in creation order. Which element a ref is
attached to after the render is an input map from refs to array indices.

## Model

| member | source | states |
|---|---|---|
| `Offsets.ComputeOffsets` | packages/gitgraph-react/src/computeOffsets.ts:3-54 | the rows are reversed in place unless the orientation is VerticalReverse; every row handled gets its foreignObject's height set to its message height, and later rows stay as they were; the result is the offset table of the rows in that order, or a TypeError at the first row whose `transform` is missing or has no comma |
| `Offsets.AccumulateOffsets` | packages/gitgraph-react/src/computeOffsets.ts:13-53 | the `reduce` over rows already in traversal order: the same stamping, table and TypeError as above |
| `Offsets.ReverseInPlace` | packages/gitgraph-react/src/computeOffsets.ts:10-11 | `commits.reverse()` leaves the caller's array holding the old rows in reverse order |
| `Offsets.Traversal` | packages/gitgraph-react/src/computeOffsets.ts:10-11 | the rows in the order the pass visits them: as they are in the DOM for VerticalReverse, reversed for every other orientation |
| `Offsets.RowTransform` | packages/gitgraph-react/src/GitgraphUI.tsx:231 | the `transform` a commit row is rendered with: `translate(${x}, ${y})`, each number in decimal with a minus sign when negative |
| `Offsets.RowY` | packages/gitgraph-react/src/computeOffsets.ts:15-21 | a row's y: `parseInt` of the second comma-separated field of its `transform` without its last character; nothing where the source throws (no transform, or no comma in it) |
| `Offsets.MarginOrDefault` | packages/gitgraph-react/src/computeOffsets.ts:32-33 | an empty computed `margin-top` becomes "0px" |
| `Offsets.ExtraHeight` | packages/gitgraph-react/src/computeOffsets.ts:23-37 | when the row's first foreignObject has an element child, that child's height plus its parsed top margin; otherwise 0 |
| `Offsets.HeightAttribute` | packages/gitgraph-react/src/computeOffsets.ts:41 | the attribute text `${messageHeight}px` |
| `Offsets.Stamp` | packages/gitgraph-react/src/computeOffsets.ts:39-42 | the row with its first foreignObject's `height` set to the message height; a row without a foreignObject is unchanged |
| `Offsets.Read` | packages/gitgraph-react/src/computeOffsets.ts:15-37 | what one row contributes to the fold: the y it was rendered at and its message height; nothing where reading y throws |
| `Offsets.Total` | packages/gitgraph-react/src/computeOffsets.ts:7-48 | the running total `totalOffsetY` after the given rows: the sum of their message heights, NaN once any is NaN |
| `Offsets.Table` | packages/gitgraph-react/src/computeOffsets.ts:13-48 | the object the `reduce` builds: each row in turn maps its y to y plus the total of the rows before it, and a later row with the same y overwrites an earlier one |
| `Offsets.ThrowsAt` | packages/gitgraph-react/src/computeOffsets.ts:15-21 | the pass stops at the first row whose y cannot be read, and only there |
| `Offsets.FoldStep` | packages/gitgraph-react/src/computeOffsets.ts:44-48 | one more row maps its y to y plus the running total taken before it, and then adds its message height to the total |
| `Offsets.TableSnoc` | packages/gitgraph-react/src/computeOffsets.ts:44-48 | the same step, stated on the table of measured rows |
| `Offsets.TableKeys` | packages/gitgraph-react/src/computeOffsets.ts:13-48 | the table has exactly one key per distinct y the rows were rendered at |
| `Offsets.TableEntry` | packages/gitgraph-react/src/computeOffsets.ts:44-48 | the entry for a row's y (its last row) is that y plus the sum of the message heights of all rows before it |
| `Offsets.OwnHeightIrrelevant` | packages/gitgraph-react/src/computeOffsets.ts:44-48 | a row's own message height never moves its own entry, because the total grows after the entry is set |
| `Offsets.TotalOfZeroHeights` | packages/gitgraph-react/src/computeOffsets.ts:7-48 | with no message heights the running total stays 0 |
| `Offsets.ZeroHeightsIdentity` | packages/gitgraph-react/src/computeOffsets.ts:7-48 | with no message heights every row keeps its y |
| `Offsets.TotalMonotone` | packages/gitgraph-react/src/computeOffsets.ts:7-48 | with non-negative message heights the running total is a number and never decreases |
| `Offsets.NoRowMovesUp` | packages/gitgraph-react/src/computeOffsets.ts:44-48 | with non-negative message heights no entry is above the rendered y it is keyed by |
| `Offsets.RowTransformSecondField` | packages/gitgraph-react/src/computeOffsets.ts:15-19 | `split(",")[1]` of `translate(x, y)` is the text of y with a leading space and a closing parenthesis |
| `Offsets.RenderedRowY` | packages/gitgraph-react/src/computeOffsets.ts:15-21 | the y read back from a row rendered at `translate(x, y)` is y |
| `Offsets.RowYThrows` | packages/gitgraph-react/src/computeOffsets.ts:15-21 | reading a row's y throws exactly when the row has no `transform` or the transform has no comma |
| `Offsets.ReadPlainRow` | packages/gitgraph-react/src/computeOffsets.ts:15-30 | a rendered row without a foreignObject reads as its y with message height 0 |
| `Offsets.MessageExtraHeight` | packages/gitgraph-react/src/computeOffsets.ts:29-37 | a message h tall with computed margin `<m>px` adds h + m |
| `Offsets.EmptyMarginAddsHeight` | packages/gitgraph-react/src/computeOffsets.ts:31-36 | an empty computed margin counts as "0px", so the message adds just its height |
| `Offsets.ReadMessageRow` | packages/gitgraph-react/src/computeOffsets.ts:15-37 | a rendered row with such a message reads as its y with message height h + m |
| `Offsets.StampedHeightReadsBack` | packages/gitgraph-react/src/computeOffsets.ts:39-42 | the `${h}px` written on the foreignObject parses back to h, and setting it changes nothing the pass reads |
| `Offsets.FractionalYTruncated` | packages/gitgraph-react/src/computeOffsets.ts:15-21 | `parseInt` stops at the dot: a row at `translate(0, 22.5)` is filed under 22 |
| `Offsets.FractionalMarginTruncated` | packages/gitgraph-react/src/computeOffsets.ts:31-36 | a computed margin of `12.5px` adds 12, not 12.5 |
| `Offsets.ThreeRowReads` | packages/gitgraph-react/src/computeOffsets.ts:10-37 | three rows in DOM order y = 40, 20, 0 are read bottom-up, as y = 0, 20, 40 with message heights 0, 50, 0 |
| `Offsets.ThreeRowTable` | packages/gitgraph-react/src/computeOffsets.ts:7-53 | for rows y = 0, 20, 40 with heights 0, 50, 0, the table is {0: 0, 20: 20, 40: 90} |
| `Offsets.ThreeRowExample` | packages/gitgraph-react/src/computeOffsets.ts:3-54 | the whole pass over those three DOM rows handles all three and yields {0: 0, 20: 20, 40: 90} |
| `JsValues.ParseIntOfToString` | packages/gitgraph-react/src/computeOffsets.ts:15-21 | `parseInt` of the printed form of an integer, followed by any text that does not start with a digit, is that integer |
| `JsValues.ParseIntSkipsSpace` | packages/gitgraph-react/src/computeOffsets.ts:15-21 | `parseInt` skips leading white space, such as the space after the comma of a transform |
| `JsValues.DigitsRoundTrip` | packages/gitgraph-react/src/computeOffsets.ts:41 | the decimal digits printed for a number read back as that number |
| `JsValues.SecondFieldSpec` | packages/gitgraph-react/src/computeOffsets.ts:18 | `split(",")[1]` is undefined exactly when there is no comma, and it never holds a comma |
| `JsValues.StripPixels` | packages/gitgraph-react/src/computeOffsets.ts:34 | `replace("px", "")` on `<n>px` leaves the text of n |
| `JsValues.ParseInt` | packages/gitgraph-react/src/computeOffsets.ts:15-21 | `parseInt(s, 10)`: skip leading white space, take an optional sign, then the longest run of decimal digits; NaN when that run is empty |
| `JsValues.SecondField` | packages/gitgraph-react/src/computeOffsets.ts:18 | `split(",")[1]`: the text between the first comma and the next one (or the end); undefined when there is no comma |
| `JsValues.SecondFieldOfTwo` | packages/gitgraph-react/src/computeOffsets.ts:18 | with exactly one comma, `split(",")[1]` is everything after it |
| `JsValues.DropLast` | packages/gitgraph-react/src/computeOffsets.ts:19 | `slice(0, -1)`: everything but the last character |
| `JsValues.ReplaceFirst` | packages/gitgraph-react/src/computeOffsets.ts:34 | `replace` with a string pattern: only the first occurrence is replaced, and text without it is unchanged |
| `JsValues.IntToString` | packages/gitgraph-react/src/computeOffsets.ts:41 | `${n}` of an integer: its decimal digits, with a minus sign when negative |
| `JsValues.JsInt.Plus` | packages/gitgraph-react/src/computeOffsets.ts:36 | JavaScript `+` on numbers: the sum of two integers, NaN as soon as either side is NaN (also the `+=` of line 48) |
| `JsValues.JsInt.Truthy` | packages/gitgraph-react/src/GitgraphUI.tsx:123 | JavaScript truthiness of a number: every integer but 0 is truthy, and 0 and NaN are falsy (also `arrowSize &&` at line 233) |
| `Transforms.RunEndSpec` | packages/gitgraph-react/src/GitgraphUI.tsx:460 | `[\d\.]+` takes the longest run of digits and dots |
| `Transforms.FirstMatchSpec` | packages/gitgraph-react/src/GitgraphUI.tsx:460 | the search finds the leftmost position where `translate(`, a run of digits and dots, and a comma match, and reports none when there is no such position |
| `Transforms.MatchAt` | packages/gitgraph-react/src/GitgraphUI.tsx:460 | `/translate\(([\d\.]+),/` matches at p: "translate(", one or more digits or dots, then a comma |
| `Transforms.Rewrite` | packages/gitgraph-react/src/GitgraphUI.tsx:460 | the `replace`: the first match's `translate(<run>,` becomes `translate(<x>,`; text without a match is unchanged |
| `Transforms.MoveTransform` | packages/gitgraph-react/src/GitgraphUI.tsx:457-460 | the rewrite of the element's `transform`, of "translate(0, 0)" when it is missing or empty |
| `Transforms.MoveRendered` | packages/gitgraph-react/src/GitgraphUI.tsx:456-462 | moving an element rendered at `translate(a, b)`, with a ≥ 0, to x gives `translate(x, b)` |
| `Transforms.MoveMissing` | packages/gitgraph-react/src/GitgraphUI.tsx:457 | an element without a transform, or with an empty one, is moved as `translate(0, 0)` would be: to `translate(x, 0)` |
| `Transforms.NegativeStays` | packages/gitgraph-react/src/GitgraphUI.tsx:460 | a rendered `translate(a, b)` with a < 0 does not match (a minus sign is not in `[\d\.]`), so it is left unchanged |
| `Transforms.MoveOverwrites` | packages/gitgraph-react/src/GitgraphUI.tsx:456-462 | after a move to x1 ≥ 0, a move to x2 has the same effect as moving the original transform to x2 |
| `Transforms.MoveIdempotent` | packages/gitgraph-react/src/GitgraphUI.tsx:456-462 | moving twice to the same x ≥ 0 is moving once |
| `Stacking.MoveElement` | packages/gitgraph-react/src/GitgraphUI.tsx:456-462 | only the target element changes, and only its transform, which becomes the rewritten one |
| `Stacking.Moved` | packages/gitgraph-react/src/GitgraphUI.tsx:456-462 | an element after `moveElement(element, x)`: its transform is the rewritten one and nothing else about it changes |
| `Stacking.ApplyMove` | packages/gitgraph-react/src/GitgraphUI.tsx:456-462 | the elements after one `moveElement`: only the target is replaced by its moved form |
| `Stacking.ApplyMoves` | packages/gitgraph-react/src/GitgraphUI.tsx:357-386 | the elements after a sequence of `moveElement` calls made one after the other, each on the result of the one before |
| `Stacking.Plan` | packages/gitgraph-react/src/GitgraphUI.tsx:357-386 | the moves of the `Object.keys(commitsElements).forEach`: each listed commit's moves, in key order, one commit after the other |
| `Stacking.EntryMoves` | packages/gitgraph-react/src/GitgraphUI.tsx:359-385 | one iteration of that loop: x starts at `commitMessagesX`; the label's move, then the tags' moves from where the label ends, then the message's move from where the tags end |
| `Stacking.Current` | packages/gitgraph-react/src/GitgraphUI.tsx:374 | `tag.current` for a ref: the element the ref is attached to, if any |
| `Stacking.CurrentOf` | packages/gitgraph-react/src/GitgraphUI.tsx:365 | `ref && ref.current` for a slot that may be null: nothing when the slot is null or its ref is not attached |
| `Stacking.LabelMoves` | packages/gitgraph-react/src/GitgraphUI.tsx:365-366 | the branch label, when attached, moves to `commitMessagesX`; otherwise nothing moves |
| `Stacking.LabelEnd` | packages/gitgraph-react/src/GitgraphUI.tsx:365-371 | x after the label: `commitMessagesX`, plus the label's width, `BranchLabel.paddingX` and 10 when the label is attached |
| `Stacking.TagMoves` | packages/gitgraph-react/src/GitgraphUI.tsx:373-381 | the moves of `tags.forEach`: each attached tag moves to the x reached after the tags before it; an unattached tag is skipped |
| `Stacking.TagsEnd` | packages/gitgraph-react/src/GitgraphUI.tsx:373-381 | x after `tags.forEach`: the starting x plus, for each attached tag, its width, `TAG_PADDING_X` and 10 |
| `Stacking.MessageMoves` | packages/gitgraph-react/src/GitgraphUI.tsx:382-384 | the message, when attached, moves to the x the tags end at; otherwise nothing moves |
| `Stacking.PositionCommitsElements` | packages/gitgraph-react/src/GitgraphUI.tsx:348-387 | in horizontal mode nothing moves; otherwise every registered commit's moves are made in key order, and the elements end as those moves leave them |
| `Stacking.PositionAll` | packages/gitgraph-react/src/GitgraphUI.tsx:358-386 | the `Object.keys(...).forEach` makes each listed commit's moves in turn |
| `Stacking.PlanStep` | packages/gitgraph-react/src/GitgraphUI.tsx:358-386 | one more commit's moves extend the plan by that commit, and no move changes any width read later |
| `Stacking.PositionEntry` | packages/gitgraph-react/src/GitgraphUI.tsx:359-385 | for one commit: the branch label, then the tags in registry order, then the message |
| `Stacking.PositionLabel` | packages/gitgraph-react/src/GitgraphUI.tsx:362-371 | an attached branch label goes to `commitMessagesX`, and x advances by its width plus `BranchLabel.paddingX` plus 10 |
| `Stacking.PositionTags` | packages/gitgraph-react/src/GitgraphUI.tsx:373-381 | each attached tag goes to the current x, and x advances by its width plus `TAG_PADDING_X` plus 10 |
| `Stacking.TagStep` | packages/gitgraph-react/src/GitgraphUI.tsx:373-381 | one more tag either is skipped (no ref attached) with x unchanged, or moves to x and advances x past itself |
| `Stacking.SkippedTag` | packages/gitgraph-react/src/GitgraphUI.tsx:374 | a tag whose ref is not attached makes no move and does not advance x |
| `Stacking.TagMovesLineUp` | packages/gitgraph-react/src/GitgraphUI.tsx:373-381 | the first tag is at the starting x, each next tag starts where the previous one's advance ends, and the loop ends one advance past the last tag |
| `Stacking.LabelThenTags` | packages/gitgraph-react/src/GitgraphUI.tsx:362-381 | the tags start where the branch label's advance ends |
| `Stacking.EntryLinesUp` | packages/gitgraph-react/src/GitgraphUI.tsx:359-385 | a commit's elements are placed edge to edge from `commitMessagesX`, each 10 past the previous one's padded width, and the message, when attached, comes last |
| `Stacking.EntryLeftToRight` | packages/gitgraph-react/src/GitgraphUI.tsx:362-385 | with non-negative widths and paddings, a commit's elements are placed left to right, at least 10 apart |
| `Stacking.WidthsAfter` | packages/gitgraph-react/src/GitgraphUI.tsx:358-386 | moving elements never changes how many there are or the widths read later |
| `Stacking.ApplyDistinctMoves` | packages/gitgraph-react/src/GitgraphUI.tsx:358-386 | when no element is moved twice, each moved element holds its own move and every other element is unchanged |
| `Stacking.TagTargets` | packages/gitgraph-react/src/GitgraphUI.tsx:373-381 | the tags loop moves the elements of the attached tags, in registry order |
| `Stacking.EntryTargets` | packages/gitgraph-react/src/GitgraphUI.tsx:359-385 | the elements one commit's moves target are, in order: its attached branch label, its attached tags in registry order, its attached message |
| `Stacking.PlanTargets` | packages/gitgraph-react/src/GitgraphUI.tsx:358-386 | the elements the whole pass moves are those of the registered refs, commit by commit in key order |
| `Stacking.PlanDistinctTargets` | packages/gitgraph-react/src/GitgraphUI.tsx:358-386 | when the registered refs are all different and no two refs are attached to the same element, no element is moved twice |
| `Registry.CommitsElements.constructor` | packages/gitgraph-react/src/GitgraphUI.tsx:77-83 | each render starts from an empty registry: no entries, no keys, no refs created |
| `Registry.CommitsElements.InitCommitElements` | packages/gitgraph-react/src/GitgraphUI.tsx:340-346 | the commit's hash maps to an empty entry, a new hash is listed last among the keys, and the registry stays well formed |
| `Registry.KeysAfterStore` | packages/gitgraph-react/src/GitgraphUI.tsx:340-346 | the `Object.keys` order after storing under a hash: a new hash is listed last, an existing one keeps its place (insertion order; see "Left out" for integer-like keys) |
| `Registry.CommitsElements.CreateRef` | packages/gitgraph-react/src/GitgraphUI.tsx:301 | a fresh ref is created, and the registry is unchanged |
| `Registry.CommitsElements.EnsureEntry` | packages/gitgraph-react/src/GitgraphUI.tsx:303-305 | a missing entry is created empty, and an existing one is kept |
| `Registry.CommitsElements.CreateBranchLabelRef` | packages/gitgraph-react/src/GitgraphUI.tsx:298-310 | a fresh ref becomes the commit's branch label and replaces any earlier one; the tags, the message and the other commits are unchanged |
| `Registry.CommitsElements.CreateMessageRef` | packages/gitgraph-react/src/GitgraphUI.tsx:312-324 | a fresh ref becomes the commit's message and replaces any earlier one; everything else is unchanged |
| `Registry.CommitsElements.CreateTagRef` | packages/gitgraph-react/src/GitgraphUI.tsx:326-338 | a fresh ref is appended to the commit's tags; everything else is unchanged |
| `Registry.CommitsElements.CreateTagRefs` | packages/gitgraph-react/src/GitgraphUI.tsx:279-296 | `renderTags` appends one fresh ref per tag to the commit's tags, in tag order; its caller passes a count of 0 when the commit has no tags or the graph is horizontal (lines 280-281) |
| `Registry.TagsAppendedSnoc` | packages/gitgraph-react/src/GitgraphUI.tsx:335 | pushing one more tag ref onto appended refs is appending them all at once |
| `GitgraphUI.GetWithCommitOffset` | packages/gitgraph-react/src/GitgraphUI.tsx:122-124 | x is kept; y becomes the table's entry when that entry is truthy, and stays y when it is missing, 0 or NaN |
| `GitgraphUI.CorrectedCommitOffset` | packages/gitgraph-react/src/GitgraphUI.tsx:122-124 | the lookup as intended: any numeric entry for y is used, 0 included |
| `GitgraphUI.CorrectedLookupOfRow` | packages/gitgraph-react/src/GitgraphUI.tsx:122-124 | a commit looked up at the y a row was rendered at is drawn at that y plus the message heights of every row above it |
| `GitgraphUI.DrawnYs` | packages/gitgraph-react/src/GitgraphUI.tsx:215 | the y each commit is drawn at under the table in state: `getWithCommitOffset` of its own y |
| `GitgraphUI.NextTable` | packages/gitgraph-react/src/GitgraphUI.tsx:92-100 | the table the effect computes when `commits` changes: `computeOffsets` over rows read back at the ys they were drawn at under the table in state |
| `GitgraphUI.KeyedTable` | packages/gitgraph-react/src/GitgraphUI.tsx:92-100 | the table keyed by the commits' own ys, whatever table is in state |
| `GitgraphUI.FirstTableKeyed` | packages/gitgraph-react/src/GitgraphUI.tsx:67-100 | on the first render the state is `{}`, every commit is drawn at its own y, and the table computed is the keyed one |
| `GitgraphUI.KeyedLookup` | packages/gitgraph-react/src/GitgraphUI.tsx:92-124 | in the keyed table a commit's own y maps to that y plus the message heights of the commits before it, on every render |
| `GitgraphUI.StaleTableCounterexample` | packages/gitgraph-react/src/GitgraphUI.tsx:92-124 | rows 0 (50 tall) and 20 first give {0: 0, 20: 70}; when the commits change again the table is {0: 0, 70: 120} and the commit at 20 is drawn at 20, not at the keyed table's 70 |
| `GitgraphUI.LookupAgreesWithoutNegativeHeights` | packages/gitgraph-react/src/GitgraphUI.tsx:122-124 | with non-negative message heights and y ≥ 0, the lookup as written equals the intended one |
| `GitgraphUI.ZeroEntryIgnored` | packages/gitgraph-react/src/GitgraphUI.tsx:122-124 | a commit whose entry is 0 is still drawn at its own y |
| `GitgraphUI.ShouldRenderTooltip` | packages/gitgraph-react/src/GitgraphUI.tsx:217-220 | a commit shows its tooltip when it is the hovered one and the graph is horizontal, or compact with tooltips enabled in compact mode |
| `GitgraphUI.TooltipCommit` | packages/gitgraph-react/src/GitgraphUI.tsx:217-228 | `$tooltip` holds the last commit that passes the tooltip predicate, or nothing when none passes |
| `GitgraphUI.TooltipOfHovered` | packages/gitgraph-react/src/GitgraphUI.tsx:217-228 | with distinct commits, the tooltip is the hovered commit's exactly when the graph is horizontal, or compact with tooltips enabled in compact mode |
| `GitgraphUI.FindCommit` | packages/gitgraph-react/src/GitgraphUI.tsx:148-150 | `commits.find` gives the first commit with the hash, and nothing exactly when no commit has it |
| `GitgraphUI.ArrowOrigin` | packages/gitgraph-react/src/GitgraphUI.tsx:153-158 | the arrow starts at (radius, radius) from the commit, or at the parent's position plus the radius when arrows are reversed |
| `GitgraphUI.ArrowSlot` | packages/gitgraph-react/src/GitgraphUI.tsx:148-158 | the `map` callback for one parent hash: null when no commit has that hash, otherwise the arrow origin computed from the first commit that has it |
| `GitgraphUI.ArrowSlots` | packages/gitgraph-react/src/GitgraphUI.tsx:148-158 | `parents.map` gives one slot per parent hash, in order |
| `GitgraphUI.RenderArrows` | packages/gitgraph-react/src/GitgraphUI.tsx:145-158 | nothing is rendered unless the arrow size is truthy; otherwise each parent gets a slot that is null exactly when no commit has its hash, and else holds the origin for a commit with that hash |
| `GitgraphUI.BranchLabelShown` | packages/gitgraph-react/src/GitgraphUI.tsx:394-404 | the intended per-branch filter: the label is displayed, the commit is the branch's head unless labels go on every commit, and the commit displays this branch |
| `GitgraphUI.BranchLabelShownAsWritten` | packages/gitgraph-react/src/GitgraphUI.tsx:396-404 | the filter as written: the head hash is taken to be "asd" for every branch |
| `GitgraphUI.Head` | packages/gitgraph-react/src/GitgraphUI.tsx:397 | the head lookup `refs.getCommit(name)`, which the source leaves commented out: the branch's head hash when the branch has one |
| `GitgraphUI.RenderBranchLabels` | packages/gitgraph-react/src/GitgraphUI.tsx:389-404 | the intended filter: a branch's label is emitted exactly when it is displayed, the commit is the branch's head (unless labels go on every commit), and the commit displays this branch |
| `GitgraphUI.AtMostOneLabel` | packages/gitgraph-react/src/GitgraphUI.tsx:402-404 | with distinct branch names a commit gets at most one label, the one of the branch it displays |
| `GitgraphUI.LabelOnlyOnHead` | packages/gitgraph-react/src/GitgraphUI.tsx:396-400 | unless labels go on every commit, a label appears only on the head commit of its branch |
| `GitgraphUI.StubHidesLabels` | packages/gitgraph-react/src/GitgraphUI.tsx:396-400 | as written, without labels on every commit, no commit whose hash is not "asd" gets a label |
| `GitgraphUI.StubCounterexample` | packages/gitgraph-react/src/GitgraphUI.tsx:396-400 | the head commit of a displayed branch gets its label under the intended rule, but not under the rule as written |
| `GitgraphUI.CanvasSize` | packages/gitgraph-react/src/GitgraphUI.tsx:104-116 | the number written reads back as the content size plus both paddings |
| `GitgraphUI.SvgRoot.FitToContent` | packages/gitgraph-react/src/GitgraphUI.tsx:101-120 | the root `<svg>` gets width = bbox width + `Tooltip.padding` + `BranchLabel.paddingX`, and height = bbox height + `Tooltip.padding` + `BranchLabel.paddingY` |

## Left out

- Everything outside the layout correction is not part of this model: the JSX markup and the components (`Dot`, `Tooltip`, `Tag`, `BranchLabel`), the SVG path builders (`toSvgPath`, `arrowSvgPath`), the core graph engine, and the `Gitgraph` wrapper component.
- Measured sizes are integers. A fractional `getBoundingClientRect` height or `getBBox` size, and floating-point rounding, are not modelled. A computed margin is text and is parsed as the source parses it: `parseInt` stops at the dot (`Offsets.FractionalMarginTruncated`).
- `GitgraphUI.GetWithCommitOffset`: the graph's own coordinates are integers (commit x and y, dot sizes, `commitMessagesX`). With a fractional y such as 22.5 the source files the row under 22 (`Offsets.FractionalYTruncated`), then looks up 22.5, finds no entry and leaves the commit uncorrected. That lookup with a fractional y is not modelled.
- `Offsets.RenderedRowY`: stated for integer x and y only, for the same reason.
- DOM reads and writes are values. `getBoundingClientRect`, `getComputedStyle` and `getBBox` become inputs. The root `<svg>` and the rows and elements are records the methods update.
- `GitgraphUI.CorrectedLookupOfRow`: the lookup is keyed by the y a row was rendered at. That y is the commit's own y only on the first render (`GitgraphUI.FirstTableKeyed`). Later renders draw commits at corrected ys, and the next table is keyed by those (see "## Findings").
- React scheduling is not modelled: `useState`, `useEffect` and the re-render that follows `setCommitYWithOffsets`. The model proves each effect's body, not when it runs.
- Hover wiring is not modelled. The hovered commit is an input of the tooltip predicate. The mouse-out handler at GitgraphUI.tsx:206 sets the hover to its current value rather than clearing it.
- Only `CreateTagRefs` models a render function's ref creation, for `renderTags`. `renderBranchLabels` makes at most one `CreateBranchLabelRef` call per commit, for the one branch that passes the filter (`GitgraphUI.AtMostOneLabel`). `renderMessage` makes one `CreateMessageRef` call per commit, and only when `commit.style.message.display` is set (GitgraphUI.tsx:237). Those two call sites are not modelled.
- `Stacking.PositionCommitsElements`: keys are taken in insertion order. JavaScript lists array-index keys first, in ascending order: an abbreviated hash made only of digits and not starting with 0, such as "1234567", comes before every other key, while "0123456" keeps its insertion place. Each commit's moves depend only on its own entry and the widths measured before any move. When the registered refs are all different and no two refs are attached to the same element, no element is moved twice (`Stacking.PlanDistinctTargets`), and each moved element then ends as its own move leaves it (`Stacking.ApplyDistinctMoves`), whatever the key order. The model does not prove that the registry's refs are all different, and it does not prove the results of two key orders equal.
- `Stacking.MoveElement`: x is an integer, so a fractional x written as `translate(12.5,` is not modelled.
- `Registry.KeysAfterStore`: lists a new hash last, in insertion order. JavaScript's `Object.keys` lists array-index keys first, in ascending order: a hash made only of digits and not starting with 0, such as "1234567", comes first. That order is not modelled.
- `Transforms.MoveOverwrites`: stated only when the first move is to x ≥ 0. For a transform with a single `translate(`, such as the `translate(x, y)` this component renders, a move to a negative x leaves a first component the pattern no longer matches (`Transforms.NegativeStays`), so a later move leaves that transform as it is. In a transform with a further `translate(` after it, a later move rewrites that further one instead; the model does not state that case.
- `Transforms.MoveIdempotent`: stated only for x ≥ 0, for the same reason.
- `GitgraphUI.CanvasSize`: `toString()` of a fractional size is not modelled. Sizes are integers.

## Findings

| source | as written | input that shows it | evidently intended | confidence | as-written member | corrected member |
|---|---|---|---|---|---|---|
| packages/gitgraph-react/src/GitgraphUI.tsx:396-400 | the branch's head hash is the literal `'asd'` | branch "master", label displayed, head commit "9a8b7c" displaying master, labels not on every commit: no label is rendered | the label is rendered on the branch's head commit | medium (the real lookup is commented out beside it), not executed | `GitgraphUI.StubCounterexample` | `GitgraphUI.RenderBranchLabels` |
| packages/gitgraph-react/src/GitgraphUI.tsx:122-124 | `commitYWithOffsets[y] \|\| y` treats an entry of 0 as missing | rows y = 0 with message height −20 (a negative top margin), then y = 20: the entry for 20 is 0, but the commit is drawn at 20 | any numeric entry is used, so the commit is drawn at 0 | low (needs a negative margin), not executed | `GitgraphUI.ZeroEntryIgnored` | `GitgraphUI.CorrectedLookupOfRow` |
| packages/gitgraph-react/src/GitgraphUI.tsx:92-100 | `computeOffsets` reads each row's y back from the DOM, where it was drawn at the corrected y of the table in state, and the table is never reset | rows y = 0 (message 50 tall) and y = 20 give {0: 0, 20: 70}; when `commits` changes again with both in place the table becomes {0: 0, 70: 120}, and the commit at 20 is drawn at 20 | every table is keyed by the commits' own ys, so the commit at 20 stays at 70 | medium (any commits change after a first correction), not executed | `GitgraphUI.StaleTableCounterexample` | `GitgraphUI.KeyedLookup` |
