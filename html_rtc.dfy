/** The `<rtc>` (ruby text container) element and the rule that chooses its
    default CSS display. */
module Html {
  import opened Wrappers
  import opened SimpleRanges

  /** The display values this element can default to. */
  datatype DisplayStyle = Empty | Inline | RubyTextContainer

  class HtmlRtc {
    /** Set once the element has been created from script; never reset. */
    var createdByJavascript: bool

    /** An element as the parser creates it: not created by script. */
    constructor ()
      ensures !createdByJavascript
    {
      createdByJavascript := false;
    }

    /** `markAsCreatedByJavascript`: records that script created the element.
        Marking again changes nothing. */
    method MarkAsCreatedByJavascript()
      modifies this
      ensures createdByJavascript
      ensures old(createdByJavascript) ==> unchanged(this)
    {
      createdByJavascript := true;
    }

    /** `wasCreatedByJavascript`: whether the element was marked. */
    function WasCreatedByJavascript(): (created: bool)
      reads this
      ensures created <==> createdByJavascript
    {
      createdByJavascript
    }

    /** `getDefaultStyleDisplay`: the browser flag CSS_RT_DISPLAY_RUBY_TEXT_ALWAYS
        (`rubyTextAlways`) forces ruby-text-container whatever else holds; without
        it, an element created by script that has no parent is not displayed
        (Empty), and every other element is Inline. */
    function GetDefaultStyleDisplay(rubyTextAlways: bool, parentNode: Option<NodeRef>): (display: DisplayStyle)
      reads this
      ensures rubyTextAlways ==> display == RubyTextContainer
      ensures display == Empty <==> !rubyTextAlways && createdByJavascript && parentNode.None?
      ensures display == Inline <==> !rubyTextAlways && (!createdByJavascript || parentNode.Some?)
    {
      if rubyTextAlways then RubyTextContainer
      else if WasCreatedByJavascript() && parentNode.None? then Empty
      else Inline
    }

    /** The default display reads only the flag, the provenance and whether a
        parent exists: which node the parent is does not matter. */
    lemma DisplayIgnoresWhichParent(rubyTextAlways: bool, p: Option<NodeRef>, q: Option<NodeRef>)
      requires p.Some? == q.Some?
      ensures GetDefaultStyleDisplay(rubyTextAlways, p) == GetDefaultStyleDisplay(rubyTextAlways, q)
    {
    }
  }

  /** What a caller can rely on, from the contracts above alone: an element
      created by script is not displayed while detached and is Inline once it
      has a parent; the flag overrides both. */
  method RtcClient(parent: NodeRef)
  {
    var e := new HtmlRtc();
    assert e.GetDefaultStyleDisplay(false, None) == Inline;
    e.MarkAsCreatedByJavascript();
    e.MarkAsCreatedByJavascript();
    assert e.WasCreatedByJavascript();
    assert e.GetDefaultStyleDisplay(false, None) == Empty;
    assert e.GetDefaultStyleDisplay(false, Some(parent)) == Inline;
    assert e.GetDefaultStyleDisplay(true, None) == RubyTextContainer;
  }
}
