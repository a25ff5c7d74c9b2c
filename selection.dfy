/** The script host object `Selection`: the page's range list and the
    selection type, changed in place by the script-visible operations. */
module HostDom {
  import opened Wrappers
  import opened SimpleRanges
  import opened SelectionModel

  /** The DOM exception code for an index outside the valid range. */
  const IndexSizeErr: int := 1

  /** The exception `getRangeAt` raises: its DOM code and the rejected index. */
  datatype DomException = DomException(code: int, index: int)

  class Selection {
    /** The page's selection ranges, in insertion order. */
    var ranges: seq<SimpleRange>
    /** The selection type; None for a new selection. */
    var typ: SelectionType

    /** The abstract value of this selection. */
    function State(): SelectionState
      reads this
    {
      SelectionState(ranges, typ)
    }

    /** A selection over the page's current range list, of type None. */
    constructor (pageRanges: seq<SimpleRange>)
      ensures ranges == pageRanges && typ == TypeNone
    {
      ranges := pageRanges;
      typ := TypeNone;
    }

    // -------------------------------------------------------------------------
    // Helpers: the first and the last range by document position

    /** Scans a copy of the list from the front; a later range replaces the
        candidate only when it is reported as preceding it. */
    method GetFirstRange(compare: CompareFn) returns (first: Option<nat>)
      ensures first == FirstRange(ranges, compare)
      ensures first.None? <==> |ranges| == 0
      ensures first.Some? ==> first.value < |ranges|
    {
      var snapshot := ranges;
      first := None;
      for i := 0 to |snapshot|
        invariant first == Scan(snapshot[..i], compare, DocumentPositionPreceding)
      {
        assert snapshot[..i + 1][..i] == snapshot[..i];
        if first.None? {
          first := Some(i);
        } else if Reports(compare, snapshot[first.value].startContainer,
                          snapshot[i].startContainer, DocumentPositionPreceding) {
          first := Some(i);
        }
      }
      assert snapshot[..|snapshot|] == snapshot;
    }

    /** Scans a copy of the list from the front; a later range replaces the
        candidate only when it is reported as following it. */
    method GetLastRange(compare: CompareFn) returns (last: Option<nat>)
      ensures last == LastRange(ranges, compare)
      ensures last.None? <==> |ranges| == 0
      ensures last.Some? ==> last.value < |ranges|
    {
      var snapshot := ranges;
      last := None;
      for i := 0 to |snapshot|
        invariant last == Scan(snapshot[..i], compare, DocumentPositionFollowing)
      {
        assert snapshot[..i + 1][..i] == snapshot[..i];
        if last.None? {
          last := Some(i);
        } else if Reports(compare, snapshot[last.value].startContainer,
                          snapshot[i].startContainer, DocumentPositionFollowing) {
          last := Some(i);
        }
      }
      assert snapshot[..|snapshot|] == snapshot;
    }

    // -------------------------------------------------------------------------
    // Queries

    /** `anchorNode`: the start container of the last range, or null. */
    method GetAnchorNode(compare: CompareFn) returns (node: Option<NodeRef>)
      ensures node == AnchorNode(State(), compare)
      ensures node.None? <==> |ranges| == 0
    {
      var last := GetLastRange(compare);
      if last.None? {
        return None;
      }
      node := Some(ranges[last.value].startContainer);
    }

    /** `anchorOffset`: the start offset of the last range, or 0. */
    method GetAnchorOffset(compare: CompareFn) returns (offset: int)
      ensures offset == AnchorOffset(State(), compare)
      ensures |ranges| == 0 ==> offset == 0
    {
      var last := GetLastRange(compare);
      if last.None? {
        return 0;
      }
      offset := ranges[last.value].startOffset;
    }

    /** `focusNode`: the end container of the last range, or null. */
    method GetFocusNode(compare: CompareFn) returns (node: Option<NodeRef>)
      ensures node == FocusNode(State(), compare)
      ensures node.None? <==> |ranges| == 0
    {
      var last := GetLastRange(compare);
      if last.None? {
        return None;
      }
      node := Some(ranges[last.value].endContainer);
    }

    /** `focusOffset`: the end offset of the last range, or 0. */
    method GetFocusOffset(compare: CompareFn) returns (offset: int)
      ensures offset == FocusOffset(State(), compare)
      ensures |ranges| == 0 ==> offset == 0
    {
      var last := GetLastRange(compare);
      if last.None? {
        return 0;
      }
      offset := ranges[last.value].endOffset;
    }

    /** `isCollapsed`: true when there is no range, or a single collapsed one. */
    method IsIsCollapsed() returns (collapsed: bool)
      ensures collapsed <==> |ranges| == 0 || (|ranges| == 1 && ranges[0].IsCollapsed())
    {
      collapsed := |ranges| == 0 || (|ranges| == 1 && ranges[0].IsCollapsed());
    }

    /** `rangeCount`: the number of ranges in the list. */
    method GetRangeCount() returns (count: int)
      ensures count == |ranges|
    {
      count := |ranges|;
    }

    /** `type`: the name of the selection type. */
    method GetType() returns (name: string)
      ensures name == TypeName(typ)
    {
      name := TypeName(typ);
    }

    /** `getRangeAt(index)`: the range at that position, or an INDEX_SIZE_ERR
        exception for a negative index or one past the last range. */
    method GetRangeAt(index: int) returns (result: Result<SimpleRange, DomException>)
      ensures 0 <= index < |ranges| ==> result == Success(ranges[index])
      ensures index < 0 || index >= |ranges| ==> result == Failure(DomException(IndexSizeErr, index))
    {
      if index < 0 || index >= |ranges| {
        return Failure(DomException(IndexSizeErr, index));
      }
      result := Success(ranges[index]);
    }

    // -------------------------------------------------------------------------
    // Operations that change the selection

    /** `addRange`: appends the range; the type stays Caret only when it was
        Caret and the range is collapsed, and is Range otherwise. */
    method AddRange(range: SimpleRange)
      modifies this
      ensures ranges == old(ranges) + [range]
      ensures typ == (if old(typ) == TypeCaret && range.IsCollapsed() then TypeCaret else TypeRange)
      ensures State() == Apply(old(State()), Op.AddRange(range))
    {
      ranges := ranges + [range];
      if typ == TypeCaret && range.IsCollapsed() {
        return;
      }
      typ := TypeRange;
    }

    /** `removeRange`: removes the first range equal to the argument; the type
        becomes None when no range is left and is unchanged otherwise. */
    method RemoveRange(range: SimpleRange)
      modifies this
      ensures ranges == RemoveFirst(old(ranges), range)
      ensures typ == (if |ranges| == 0 then TypeNone else old(typ))
      ensures State() == Apply(old(State()), Op.RemoveRange(range))
    {
      ranges := RemoveFirst(ranges, range);
      var count := GetRangeCount();
      if count < 1 {
        typ := TypeNone;
      }
    }

    /** `removeAllRanges`: no range left, type None. */
    method RemoveAllRanges()
      modifies this
      ensures ranges == [] && typ == TypeNone
      ensures State() == Apply(old(State()), Op.RemoveAllRanges)
    {
      ranges := [];
      typ := TypeNone;
    }

    /** `empty`: the same as removeAllRanges. */
    method Empty()
      modifies this
      ensures ranges == [] && typ == TypeNone
      ensures State() == Apply(old(State()), Op.Empty)
    {
      RemoveAllRanges();
    }

    /** `collapse(node, offset)`: whatever the selection was, one caret range
        at (node, offset), type Caret. */
    method Collapse(node: NodeRef, offset: int)
      modifies this
      ensures ranges == [CaretAt(node, offset)] && typ == TypeCaret
      ensures State() == Apply(old(State()), Op.Collapse(node, offset))
    {
      ranges := [];
      ranges := ranges + [CaretAt(node, offset)];
      typ := TypeCaret;
    }

    /** `collapseToEnd`: keeps only the last range by document position,
        collapsed onto its end; with no range the list stays empty. The type
        becomes Caret in both cases. */
    method CollapseToEnd(compare: CompareFn)
      modifies this
      ensures old(ranges) == [] ==> ranges == []
      ensures old(ranges) != [] ==>
        ranges == [old(ranges)[LastRange(old(ranges), compare).value].Collapse(false)]
      ensures typ == TypeCaret
      ensures State() == Apply(old(State()), Op.CollapseToEnd(compare))
    {
      var last := GetLastRange(compare);
      if last.Some? {
        var range := ranges[last.value];
        ranges := [];
        ranges := ranges + [range.Collapse(false)];
      }
      typ := TypeCaret;
    }

    /** `collapseToStart`: keeps only the first range by document position,
        collapsed onto its start; with no range the list stays empty. The type
        becomes Caret in both cases. */
    method CollapseToStart(compare: CompareFn)
      modifies this
      ensures old(ranges) == [] ==> ranges == []
      ensures old(ranges) != [] ==>
        ranges == [old(ranges)[FirstRange(old(ranges), compare).value].Collapse(true)]
      ensures typ == TypeCaret
      ensures State() == Apply(old(State()), Op.CollapseToStart(compare))
    {
      var first := GetFirstRange(compare);
      if first.Some? {
        var range := ranges[first.value];
        ranges := [];
        ranges := ranges + [range.Collapse(true)];
      }
      typ := TypeCaret;
    }

    /** `extend(node, offset)`: with no range, nothing changes; otherwise the
        end of the last range by document position moves to (node, offset),
        every other range is kept, and the type becomes Range. */
    method Extend(node: NodeRef, offset: int, compare: CompareFn)
      modifies this
      ensures old(ranges) == [] ==> ranges == old(ranges) && typ == old(typ)
      ensures old(ranges) != [] ==>
        var k := LastRange(old(ranges), compare).value;
        && |ranges| == |old(ranges)|
        && ranges[k] == old(ranges)[k].SetEnd(node, offset)
        && (forall i :: 0 <= i < |ranges| && i != k ==> ranges[i] == old(ranges)[i])
        && typ == TypeRange
      ensures State() == Apply(old(State()), Op.Extend(node, offset, compare))
    {
      var last := GetLastRange(compare);
      if last.Some? {
        var k := last.value;
        ranges := ranges[k := ranges[k].SetEnd(node, offset)];
        typ := TypeRange;
      }
    }

    /** `selectAllChildren(node)`: one range over all of node's contents
        (`maxOffset` is its child count); the type is Caret when that range is
        collapsed and Range otherwise. */
    method SelectAllChildren(node: NodeRef, maxOffset: nat)
      modifies this
      ensures ranges == [NodeContents(node, maxOffset)]
      ensures typ == (if maxOffset == 0 then TypeCaret else TypeRange)
      ensures State() == Apply(old(State()), Op.SelectAllChildren(node, maxOffset))
    {
      ranges := [];
      var range := NodeContents(node, maxOffset);
      ranges := ranges + [range];
      if range.IsCollapsed() {
        typ := TypeCaret;
      } else {
        typ := TypeRange;
      }
    }
  }

  /** What a script can rely on, from the contracts above alone. */
  method SelectionClient(n1: NodeRef, n2: NodeRef, compare: CompareFn)
  {
    var sel := new Selection([]);
    sel.AddRange(SimpleRange(n1, 0, n1, 0));
    assert sel.typ == TypeRange;
    sel.AddRange(SimpleRange(n2, 0, n2, 3));
    var count := sel.GetRangeCount();
    assert count == 2 && sel.typ == TypeRange;
    var bad := sel.GetRangeAt(count);
    assert bad == Failure(DomException(IndexSizeErr, count));
    sel.RemoveAllRanges();
    sel.CollapseToStart(compare);
    assert sel.ranges == [] && sel.typ == TypeCaret;
    sel.Collapse(n2, 5);
    var collapsed := sel.IsIsCollapsed();
    assert collapsed && sel.typ == TypeCaret;
    sel.Extend(n1, 1, compare);
    var focus := sel.GetFocusNode(compare);
    assert focus == Some(n1) by {
      assert LastRange(sel.ranges, compare) == Some(0);
    }
    assert sel.typ == TypeRange;
  }
}
