/** Document nodes, the document-position comparison and the `SimpleRange`
    value that a selection is made of. */
module SimpleRanges {

  /** A node of the document tree, known only by its identity. */
  datatype NodeRef = NodeRef(id: nat)

  /** `compare(a, b)` is `a.compareDocumentPosition(b)`: a bit mask built from the
      constants below. Nothing is assumed about it: two nodes may be reported in
      no relation, or even in contradictory ones. */
  type CompareFn = (NodeRef, NodeRef) -> bv16

  const DocumentPositionDisconnected: bv16 := 0x01
  /** Set in `compare(a, b)` when `b` precedes `a`. */
  const DocumentPositionPreceding: bv16 := 0x02
  /** Set in `compare(a, b)` when `b` follows `a`. */
  const DocumentPositionFollowing: bv16 := 0x04
  const DocumentPositionContains: bv16 := 0x08
  const DocumentPositionContainedBy: bv16 := 0x10

  /** True when comparing `reference` with `other` sets `flag`. */
  predicate Reports(compare: CompareFn, reference: NodeRef, other: NodeRef, flag: bv16)
  {
    compare(reference, other) & flag != 0
  }

  /** A range between two boundary points (container node and offset). Offsets
      are Java `int`s and are not checked against their containers. */
  datatype SimpleRange = SimpleRange(startContainer: NodeRef, startOffset: int,
                                     endContainer: NodeRef, endOffset: int)
  {
    /** Start and end are the same boundary point. */
    predicate IsCollapsed()
    {
      startContainer == endContainer && startOffset == endOffset
    }

    /** `collapse(toStart)`: moves one boundary point onto the other. */
    function Collapse(toStart: bool): (r: SimpleRange)
      ensures r.IsCollapsed()
      ensures toStart ==> r.startContainer == startContainer && r.startOffset == startOffset
      ensures !toStart ==> r.endContainer == endContainer && r.endOffset == endOffset
      ensures IsCollapsed() ==> r == this
    {
      if toStart then SimpleRange(startContainer, startOffset, startContainer, startOffset)
      else SimpleRange(endContainer, endOffset, endContainer, endOffset)
    }

    /** `setEnd(node, offset)`: moves the end boundary point, keeping the start. */
    function SetEnd(node: NodeRef, offset: int): (r: SimpleRange)
      ensures r.startContainer == startContainer && r.startOffset == startOffset
      ensures r.endContainer == node && r.endOffset == offset
    {
      this.(endContainer := node, endOffset := offset)
    }
  }

  /** `new SimpleRange(node, offset)`: a caret at one boundary point. */
  function CaretAt(node: NodeRef, offset: int): (r: SimpleRange)
    ensures r.IsCollapsed()
    ensures r.startContainer == node && r.startOffset == offset
  {
    SimpleRange(node, offset, node, offset)
  }

  /** `new SimpleRange(node)`: the range over all of `node`'s contents, where
      `maxOffset` is the node's child count (its text length for a text node). */
  function NodeContents(node: NodeRef, maxOffset: nat): (r: SimpleRange)
    ensures r.startContainer == node && r.endContainer == node
    ensures r.startOffset == 0 && r.endOffset == maxOffset
    ensures r.IsCollapsed() <==> maxOffset == 0
  {
    SimpleRange(node, 0, node, maxOffset)
  }
}
