/** The selection as a value: its range list and its type, the transition that
    each script-visible operation makes, the scan that picks the first and the
    last range by document position, and the properties of all of these. */
module SelectionModel {
  import opened Wrappers
  import opened SimpleRanges

  /** The three values of `Selection.type`. */
  datatype SelectionType = TypeNone | TypeCaret | TypeRange

  /** The string `getType` reports for each selection type. */
  function TypeName(t: SelectionType): (name: string)
    ensures |name| > 0
  {
    match t
    case TypeNone => "None"
    case TypeCaret => "Caret"
    case TypeRange => "Range"
  }

  /** Distinct types are reported under distinct names. */
  lemma TypeNameInjective(s: SelectionType, t: SelectionType)
    ensures TypeName(s) == TypeName(t) <==> s == t
  {
  }

  /** The page's range list, in insertion order, and the selection type. */
  datatype SelectionState = SelectionState(ranges: seq<SimpleRange>, typ: SelectionType)

  // ---------------------------------------------------------------------------
  // First and last range by document position

  /** The scan of getFirstRange (`flag` = PRECEDING) and getLastRange (`flag` =
      FOLLOWING): walk the list from the front, take the first element as the
      candidate, and replace the candidate by a later element only when comparing
      the candidate's start container with that element's sets `flag`. The result
      is the candidate's position in the list. */
  function Scan(rs: seq<SimpleRange>, compare: CompareFn, flag: bv16): (p: Option<nat>)
    ensures p.None? <==> |rs| == 0
    ensures p.Some? ==> p.value < |rs|
    decreases |rs|
  {
    if |rs| == 0 then None
    else
      var last := |rs| - 1;
      match Scan(rs[..last], compare, flag)
      case None => Some(last)
      case Some(k) =>
        if Reports(compare, rs[k].startContainer, rs[last].startContainer, flag) then Some(last)
        else Some(k)
  }

  /** Position of the range getFirstRange returns, or None for an empty list. */
  function FirstRange(rs: seq<SimpleRange>, compare: CompareFn): (p: Option<nat>)
    ensures p.None? <==> |rs| == 0
    ensures p.Some? ==> p.value < |rs|
  {
    Scan(rs, compare, DocumentPositionPreceding)
  }

  /** Position of the range getLastRange returns, or None for an empty list. */
  function LastRange(rs: seq<SimpleRange>, compare: CompareFn): (p: Option<nat>)
    ensures p.None? <==> |rs| == 0
    ensures p.Some? ==> p.value < |rs|
  {
    Scan(rs, compare, DocumentPositionFollowing)
  }

  /** No range after the chosen one is reported (by `flag`) against it: a later
      range that the comparison leaves unrelated never displaces the candidate. */
  lemma {:induction false} ScanNotDisplacedLater(rs: seq<SimpleRange>, compare: CompareFn, flag: bv16)
    requires |rs| > 0
    ensures var k := Scan(rs, compare, flag).value;
      forall j :: k < j < |rs| ==> !Reports(compare, rs[k].startContainer, rs[j].startContainer, flag)
  {
    var last := |rs| - 1;
    if last > 0 {
      ScanNotDisplacedLater(rs[..last], compare, flag);
    }
  }

  /** The scan keeps the first range unless a later one is reported against the
      candidate of the moment: the chosen range, when it is not the first, was
      reported against the candidate chosen from the ranges before it. */
  lemma {:induction false} ScanMovesOnlyWhenReported(rs: seq<SimpleRange>, compare: CompareFn, flag: bv16)
    requires |rs| > 0
    ensures var k := Scan(rs, compare, flag).value;
      k > 0 ==> Reports(compare, rs[Scan(rs[..k], compare, flag).value].startContainer,
                        rs[k].startContainer, flag)
  {
    var last := |rs| - 1;
    if last > 0 {
      var init := rs[..last];
      ScanMovesOnlyWhenReported(init, compare, flag);
      var k' := Scan(init, compare, flag).value;
      if !Reports(compare, rs[k'].startContainer, rs[last].startContainer, flag) {
        assert init[..k'] == rs[..k'];
      } else {
        assert rs[..last] == init;
      }
    }
  }

  /** When no range is reported against an earlier one, the scan returns the
      first range of the list: incomparable ranges keep the earlier candidate. */
  lemma {:induction false} ScanPicksFrontWhenNothingReported(rs: seq<SimpleRange>, compare: CompareFn, flag: bv16)
    requires |rs| > 0
    requires forall i, j :: 0 <= i < j < |rs| ==>
      !Reports(compare, rs[i].startContainer, rs[j].startContainer, flag)
    ensures Scan(rs, compare, flag) == Some(0)
  {
    ScanMovesOnlyWhenReported(rs, compare, flag);
  }

  /** The comparison's `flag` reports behave as a strict order: no node is
      reported against itself, and reports chain. */
  ghost predicate StrictOrder(compare: CompareFn, flag: bv16)
  {
    && (forall a :: !Reports(compare, a, a, flag))
    && (forall a, b, c :: Reports(compare, a, b, flag) && Reports(compare, b, c, flag) ==>
          Reports(compare, a, c, flag))
  }

  /** When the reports form a strict order, no range at all is reported against
      the chosen one: getFirstRange picks a range that no other range precedes,
      and getLastRange one that no other range follows. */
  lemma {:induction false} ScanFindsExtreme(rs: seq<SimpleRange>, compare: CompareFn, flag: bv16)
    requires |rs| > 0
    requires StrictOrder(compare, flag)
    ensures var k := Scan(rs, compare, flag).value;
      forall j :: 0 <= j < |rs| ==> !Reports(compare, rs[k].startContainer, rs[j].startContainer, flag)
  {
    var last := |rs| - 1;
    if last > 0 {
      var init := rs[..last];
      ScanFindsExtreme(init, compare, flag);
      var k' := Scan(init, compare, flag).value;
      if Reports(compare, rs[k'].startContainer, rs[last].startContainer, flag) {
        forall j | 0 <= j < |rs|
          ensures !Reports(compare, rs[last].startContainer, rs[j].startContainer, flag)
        {
          if j < last {
            assert init[j] == rs[j];
          }
        }
      } else {
        forall j | 0 <= j < last
          ensures !Reports(compare, rs[k'].startContainer, rs[j].startContainer, flag)
        {
          assert init[j] == rs[j];
        }
      }
    }
  }

  /** The scan looks only at start containers: two lists whose ranges start in
      the same containers, position by position, give the same result. */
  lemma {:induction false} ScanReadsOnlyStarts(rs: seq<SimpleRange>, qs: seq<SimpleRange>,
                                               compare: CompareFn, flag: bv16)
    requires |rs| == |qs|
    requires forall i :: 0 <= i < |rs| ==> rs[i].startContainer == qs[i].startContainer
    ensures Scan(rs, compare, flag) == Scan(qs, compare, flag)
  {
    if |rs| > 0 {
      var last := |rs| - 1;
      ScanReadsOnlyStarts(rs[..last], qs[..last], compare, flag);
    }
  }

  // ---------------------------------------------------------------------------
  // Removing a range by equality

  /** Position of the first element equal to `r`. */
  function IndexOf(rs: seq<SimpleRange>, r: SimpleRange): (i: nat)
    requires r in rs
    ensures i < |rs| && rs[i] == r
    ensures r !in rs[..i]
  {
    if rs[0] == r then 0
    else
      var i' := IndexOf(rs[1..], r);
      assert rs[..i' + 1] == [rs[0]] + rs[1..][..i'];
      i' + 1
  }

  /** `List.remove(Object)`: drops the first element equal to `r`, keeping the
      order of the others; a list without `r` is returned unchanged. */
  function RemoveFirst(rs: seq<SimpleRange>, r: SimpleRange): (rest: seq<SimpleRange>)
    ensures r !in rs ==> rest == rs
    ensures r in rs ==> rest == rs[..IndexOf(rs, r)] + rs[IndexOf(rs, r) + 1..]
  {
    if |rs| == 0 then []
    else if rs[0] == r then
      assert rs == [r] + rs[1..];
      rs[1..]
    else
      var tail := RemoveFirst(rs[1..], r);
      assert rs == [rs[0]] + rs[1..];
      if r in rs then
        var i := IndexOf(rs[1..], r);
        assert IndexOf(rs, r) == i + 1;
        assert rs[..i + 1] == [rs[0]] + rs[1..][..i];
        assert rs[i + 2..] == rs[1..][i + 1..];
        [rs[0]] + tail
      else
        [rs[0]] + tail
  }

  // ---------------------------------------------------------------------------
  // Operations

  /** The script-visible operations of a selection. Those that need the first
      or last range carry the document-position comparison in force when they
      run; `maxOffset` is the child count (text length) of `node`. */
  datatype Op =
    | AddRange(range: SimpleRange)
    | RemoveRange(range: SimpleRange)
    | RemoveAllRanges
    | Empty
    | Collapse(node: NodeRef, offset: int)
    | CollapseToStart(compare: CompareFn)
    | CollapseToEnd(compare: CompareFn)
    | Extend(node: NodeRef, offset: int, compare: CompareFn)
    | SelectAllChildren(node: NodeRef, maxOffset: nat)

  /** The state after one operation. */
  function Apply(s: SelectionState, op: Op): SelectionState
  {
    match op
    case AddRange(r) =>
      SelectionState(s.ranges + [r],
                     if s.typ == TypeCaret && r.IsCollapsed() then TypeCaret else TypeRange)
    case RemoveRange(r) =>
      var rest := RemoveFirst(s.ranges, r);
      SelectionState(rest, if |rest| < 1 then TypeNone else s.typ)
    case RemoveAllRanges => SelectionState([], TypeNone)
    case Empty => SelectionState([], TypeNone)
    case Collapse(node, offset) => SelectionState([CaretAt(node, offset)], TypeCaret)
    case CollapseToStart(compare) =>
      (match FirstRange(s.ranges, compare)
       case None => SelectionState(s.ranges, TypeCaret)
       case Some(k) => SelectionState([s.ranges[k].Collapse(true)], TypeCaret))
    case CollapseToEnd(compare) =>
      (match LastRange(s.ranges, compare)
       case None => SelectionState(s.ranges, TypeCaret)
       case Some(k) => SelectionState([s.ranges[k].Collapse(false)], TypeCaret))
    case Extend(node, offset, compare) =>
      (match LastRange(s.ranges, compare)
       case None => s
       case Some(k) => SelectionState(s.ranges[k := s.ranges[k].SetEnd(node, offset)], TypeRange))
    case SelectAllChildren(node, maxOffset) =>
      var r := NodeContents(node, maxOffset);
      SelectionState([r], if r.IsCollapsed() then TypeCaret else TypeRange)
  }

  /** The state after a sequence of operations, applied from the front. */
  function Run(s: SelectionState, ops: seq<Op>): SelectionState
    decreases |ops|
  {
    if ops == [] then s else Run(Apply(s, ops[0]), ops[1..])
  }

  // ---------------------------------------------------------------------------
  // Queries

  /** `isCollapsed`: no range, or a single collapsed one. */
  predicate SelectionCollapsed(s: SelectionState)
  {
    |s.ranges| == 0 || (|s.ranges| == 1 && s.ranges[0].IsCollapsed())
  }

  /** `anchorNode`: start container of the last range, or null. */
  function AnchorNode(s: SelectionState, compare: CompareFn): Option<NodeRef>
  {
    match LastRange(s.ranges, compare)
    case None => None
    case Some(k) => Some(s.ranges[k].startContainer)
  }

  /** `anchorOffset`: start offset of the last range, or 0. */
  function AnchorOffset(s: SelectionState, compare: CompareFn): int
  {
    match LastRange(s.ranges, compare)
    case None => 0
    case Some(k) => s.ranges[k].startOffset
  }

  /** `focusNode`: end container of the last range, or null. */
  function FocusNode(s: SelectionState, compare: CompareFn): Option<NodeRef>
  {
    match LastRange(s.ranges, compare)
    case None => None
    case Some(k) => Some(s.ranges[k].endContainer)
  }

  /** `focusOffset`: end offset of the last range, or 0. */
  function FocusOffset(s: SelectionState, compare: CompareFn): int
  {
    match LastRange(s.ranges, compare)
    case None => 0
    case Some(k) => s.ranges[k].endOffset
  }

  // ---------------------------------------------------------------------------
  // Invariants over sequences of operations

  /** A selection of type None holds no range. */
  predicate NoneMeansEmpty(s: SelectionState)
  {
    s.typ == TypeNone ==> |s.ranges| == 0
  }

  /** The type is None exactly when there is no range. */
  predicate NoneIffEmpty(s: SelectionState)
  {
    s.typ == TypeNone <==> |s.ranges| == 0
  }

  /** Every operation keeps "None means no range"; all of them except
      removeRange and extend establish it whatever the state before. */
  lemma ApplyKeepsNoneMeansEmpty(s: SelectionState, op: Op)
    ensures NoneMeansEmpty(s) ==> NoneMeansEmpty(Apply(s, op))
    ensures !op.RemoveRange? && !op.Extend? ==> NoneMeansEmpty(Apply(s, op))
  {
  }

  /** "None means no range" holds after any sequence of operations that starts
      from a state where it holds. */
  lemma {:induction false} RunKeepsNoneMeansEmpty(s: SelectionState, ops: seq<Op>)
    requires NoneMeansEmpty(s)
    ensures NoneMeansEmpty(Run(s, ops))
    decreases |ops|
  {
    if ops != [] {
      ApplyKeepsNoneMeansEmpty(s, ops[0]);
      RunKeepsNoneMeansEmpty(Apply(s, ops[0]), ops[1..]);
    }
  }

  /** "None exactly when no range" survives every operation except
      collapseToStart and collapseToEnd on a selection without ranges. */
  lemma ApplyKeepsNoneIffEmpty(s: SelectionState, op: Op)
    requires NoneIffEmpty(s)
    requires (op.CollapseToStart? || op.CollapseToEnd?) ==> |s.ranges| > 0
    ensures NoneIffEmpty(Apply(s, op))
  {
  }

  /** Without collapseToStart and collapseToEnd, any sequence of operations
      keeps "None exactly when no range". */
  lemma {:induction false} RunKeepsNoneIffEmpty(s: SelectionState, ops: seq<Op>)
    requires NoneIffEmpty(s)
    requires forall i :: 0 <= i < |ops| ==> !ops[i].CollapseToStart? && !ops[i].CollapseToEnd?
    ensures NoneIffEmpty(Run(s, ops))
    decreases |ops|
  {
    if ops != [] {
      ApplyKeepsNoneIffEmpty(s, ops[0]);
      RunKeepsNoneIffEmpty(Apply(s, ops[0]), ops[1..]);
    }
  }

  /** collapseToStart on a selection without ranges sets Caret and leaves the
      list empty, so "no range implies None" is not an invariant. */
  lemma CollapseToStartOnNoRanges(compare: CompareFn)
    ensures var t := Apply(SelectionState([], TypeNone), CollapseToStart(compare));
      t.ranges == [] && t.typ == TypeCaret && !NoneIffEmpty(t)
  {
  }

  /** Removing ranges never produces Caret: after any number of removeRange
      calls the type is the one before, or None once the list is empty. */
  lemma {:induction false} RemovalsKeepType(s: SelectionState, ops: seq<Op>)
    requires forall i :: 0 <= i < |ops| ==> ops[i].RemoveRange?
    ensures Run(s, ops).typ == s.typ || (Run(s, ops).typ == TypeNone && |Run(s, ops).ranges| == 0)
    decreases |ops|
  {
    if ops != [] {
      var t := Apply(s, ops[0]);
      RemovalsKeepType(t, ops[1..]);
      if t.typ != s.typ {
        assert |t.ranges| == 0;
        RemovalsFromEmpty(t, ops[1..]);
      }
    }
  }

  /** Removing from a selection without ranges changes nothing. */
  lemma {:induction false} RemovalsFromEmpty(s: SelectionState, ops: seq<Op>)
    requires |s.ranges| == 0 && s.typ == TypeNone
    requires forall i :: 0 <= i < |ops| ==> ops[i].RemoveRange?
    ensures Run(s, ops) == s
    decreases |ops|
  {
    if ops != [] {
      assert Apply(s, ops[0]) == s;
      RemovalsFromEmpty(s, ops[1..]);
    }
  }

  // ---------------------------------------------------------------------------
  // Properties of single operations, stated through the queries

  /** addRange of a collapsed range onto a selection of type None gives Range,
      not Caret; adding a collapsed range to a Caret selection keeps Caret even
      though the selection then holds two ranges and is not collapsed. */
  lemma AddRangeTypeRule(r1: SimpleRange, r2: SimpleRange)
    requires r1.IsCollapsed() && r2.IsCollapsed()
    ensures Apply(SelectionState([], TypeNone), AddRange(r1)).typ == TypeRange
    ensures var t := Apply(SelectionState([r1], TypeCaret), AddRange(r2));
      t.typ == TypeCaret && |t.ranges| == 2 && !SelectionCollapsed(t)
  {
  }

  /** After collapse(node, offset), whatever came before: one collapsed range,
      type Caret, and anchor and focus both at (node, offset). */
  lemma CollapseLeavesCaret(s: SelectionState, node: NodeRef, offset: int, compare: CompareFn)
    ensures var t := Apply(s, Collapse(node, offset));
      && |t.ranges| == 1 && t.typ == TypeCaret && SelectionCollapsed(t)
      && AnchorNode(t, compare) == Some(node) && AnchorOffset(t, compare) == offset
      && FocusNode(t, compare) == Some(node) && FocusOffset(t, compare) == offset
  {
  }

  /** collapseToEnd on a non-empty selection moves the anchor onto the focus;
      the focus does not move. */
  lemma CollapseToEndKeepsFocus(s: SelectionState, compare: CompareFn)
    requires |s.ranges| > 0
    ensures var t := Apply(s, CollapseToEnd(compare));
      && |t.ranges| == 1 && SelectionCollapsed(t)
      && FocusNode(t, compare) == FocusNode(s, compare)
      && FocusOffset(t, compare) == FocusOffset(s, compare)
      && AnchorNode(t, compare) == FocusNode(s, compare)
      && AnchorOffset(t, compare) == FocusOffset(s, compare)
  {
  }

  /** collapseToStart on a non-empty selection keeps the start of the first
      range by document position as the only boundary point. With a single
      range that start is the anchor, which therefore does not move. */
  lemma CollapseToStartKeepsFirstStart(s: SelectionState, compare: CompareFn)
    requires |s.ranges| > 0
    ensures var f := s.ranges[FirstRange(s.ranges, compare).value];
      var t := Apply(s, CollapseToStart(compare));
      && |t.ranges| == 1 && SelectionCollapsed(t) && t.typ == TypeCaret
      && AnchorNode(t, compare) == Some(f.startContainer) && AnchorOffset(t, compare) == f.startOffset
      && FocusNode(t, compare) == Some(f.startContainer) && FocusOffset(t, compare) == f.startOffset
    ensures |s.ranges| == 1 ==>
      var t := Apply(s, CollapseToStart(compare));
      AnchorNode(t, compare) == AnchorNode(s, compare) && AnchorOffset(t, compare) == AnchorOffset(s, compare)
  {
  }

  /** collapseToStart and collapseToEnd are idempotent. */
  lemma CollapseToIdempotent(s: SelectionState, compare: CompareFn)
    ensures var t := Apply(s, CollapseToStart(compare));
      Apply(t, CollapseToStart(compare)) == t
    ensures var t := Apply(s, CollapseToEnd(compare));
      Apply(t, CollapseToEnd(compare)) == t
  {
  }

  /** extend on a non-empty selection moves the focus to (node, offset) and
      leaves the anchor where it was; the number of ranges does not change. */
  lemma ExtendMovesFocusOnly(s: SelectionState, node: NodeRef, offset: int, compare: CompareFn)
    requires |s.ranges| > 0
    ensures var t := Apply(s, Extend(node, offset, compare));
      && |t.ranges| == |s.ranges| && t.typ == TypeRange
      && AnchorNode(t, compare) == AnchorNode(s, compare)
      && AnchorOffset(t, compare) == AnchorOffset(s, compare)
      && FocusNode(t, compare) == Some(node) && FocusOffset(t, compare) == offset
  {
    var k := LastRange(s.ranges, compare).value;
    var moved := s.ranges[k := s.ranges[k].SetEnd(node, offset)];
    ScanReadsOnlyStarts(s.ranges, moved, compare, DocumentPositionFollowing);
  }

  /** After selectAllChildren the type is Caret exactly when the selection is
      collapsed, that is when the node has no children (no text). */
  lemma SelectAllChildrenCaretIffCollapsed(s: SelectionState, node: NodeRef, maxOffset: nat)
    ensures var t := Apply(s, SelectAllChildren(node, maxOffset));
      && |t.ranges| == 1
      && (t.typ == TypeCaret <==> SelectionCollapsed(t))
      && (t.typ == TypeCaret <==> maxOffset == 0)
      && (t.typ == TypeRange <==> maxOffset > 0)
  {
  }
}
