/** Which part of its page a plan entry's note holds (`execute_plan`): the
    entry's own fragment starts it, and the next entry's fragment ends it
    when the next entry is on the same page. Fetching the page and writing
    the note are left out; the page is a parameter. */
module Execute {
  import opened Wrappers
  import opened Strings
  import opened Dom
  import opened Ranges
  import Outline
  import Anchors

  /** The anchors of one note's range, and the note that follows it. */
  datatype Bounds = Bounds(page: string, startid: Option<string>, endid: Option<string>, next: Option<Outline.Path>)

  datatype ExecError =
    | NextHasNoFragment(href: string)   // the next entry shares the page but names no id
    | BadRange(error: RangeError)

  /** The text between the first and the second `#`, if there is a `#`. */
  function FragmentOf(href: string): (r: Option<string>)
    ensures r.Some? <==> '#' in href
    ensures r.Some? ==> '#' !in r.value && Anchors.Fragment(href) == r.value
    ensures r.None? ==> Anchors.Fragment(href) == "vinaya"
  {
    ContainsChar(href, '#');
    SplitHasTwoPiecesIff(href, "#");
    SplitPiecesAvoidChar(href, '#');
    if '#' in href then Some(Split(href, "#")[1]) else None
  }

  /** Lines 438-445: the page, the start id, and the end id taken from the
      next entry when its href starts with this entry's page. */
  function RangeOf(plan: seq<Outline.Entry>, i: nat): (r: Result<Bounds, ExecError>)
    requires i < |plan|
    ensures r.Success? ==> r.value.page == Anchors.Base(plan[i].href)
    ensures r.Success? ==> r.value.startid == FragmentOf(plan[i].href)
    ensures r.Success? ==> (r.value.next.Some? <==> i + 1 < |plan|)
    ensures r.Success? && i + 1 < |plan| ==> r.value.next == Some(plan[i + 1].path)
    ensures r.Failure? <==>
      i + 1 < |plan| && StartsWith(plan[i + 1].href, Anchors.Base(plan[i].href)) && '#' !in plan[i + 1].href
    ensures r.Success? ==>
      (r.value.endid.Some? <==> i + 1 < |plan| && StartsWith(plan[i + 1].href, Anchors.Base(plan[i].href)))
    ensures r.Success? && r.value.endid.Some? ==> r.value.endid == FragmentOf(plan[i + 1].href)
  {
    var base := Anchors.Base(plan[i].href);
    var next := if i + 1 < |plan| then Some(plan[i + 1].path) else None;
    if i + 1 < |plan| && StartsWith(plan[i + 1].href, base) then
      var endid := FragmentOf(plan[i + 1].href);
      if endid.None? then Failure(NextHasNoFragment(plan[i + 1].href))
      else Success(Bounds(base, FragmentOf(plan[i].href), endid, next))
    else Success(Bounds(base, FragmentOf(plan[i].href), None, next))
  }

  /** The HTML of entry `i`'s note, given the page it is cut from, with the
      range taken by position. */
  function Section(plan: seq<Outline.Entry>, i: nat, soup: Node, pr: Printer): (r: Result<string, ExecError>)
    requires i < |plan|
    ensures RangeOf(plan, i).Failure? ==> r == Failure(NextHasNoFragment(plan[i + 1].href))
    ensures RangeOf(plan, i).Success? && '#' !in plan[i].href && RangeOf(plan, i).value.endid.None? ==>
      r == Success(pr.show(soup))
  {
    var b :- RangeOf(plan, i);
    match HtmlRangeByPosition(soup, pr, b.startid, b.endid)
    case Success(html) => Success(html)
    case Failure(e) => Failure(BadRange(e))
  }

  /** A note that ends where the next note of its page begins: the end id
      of entry `i` is the start id of entry `i + 1`. */
  lemma NextStartsWhereThisEnds(plan: seq<Outline.Entry>, i: nat)
    requires i + 1 < |plan| && RangeOf(plan, i).Success? && RangeOf(plan, i).value.endid.Some?
    ensures RangeOf(plan, i + 1).Success? ==> RangeOf(plan, i + 1).value.startid == RangeOf(plan, i).value.endid
  {
  }

  /** A whole page of unfragmented plan entries is one note. */
  lemma WholePage(plan: seq<Outline.Entry>, i: nat, soup: Node, pr: Printer)
    requires i < |plan| && '#' !in plan[i].href
    requires i + 1 < |plan| ==> !StartsWith(plan[i + 1].href, Anchors.Base(plan[i].href))
    ensures Section(plan, i, soup, pr) == Success(pr.show(soup))
  {
  }

  /** The last two notes cut from one page together hold the page from the
      first one's id to the end of its siblings: the notes tile the page. */
  lemma LastTwoTile(plan: seq<Outline.Entry>, i: nat, soup: Node, pr: Printer)
    requires i + 1 < |plan|
    requires Anchors.Base(plan[i + 1].href) == Anchors.Base(plan[i].href)
    requires i + 2 < |plan| ==> !StartsWith(plan[i + 2].href, Anchors.Base(plan[i + 1].href))
    requires '#' in plan[i].href && '#' in plan[i + 1].href
    requires InOrder(soup, FragmentOf(plan[i].href).value, FragmentOf(plan[i + 1].href).value)
    ensures Section(plan, i, soup, pr).Success? && Section(plan, i + 1, soup, pr).Success?
    ensures Section(plan, i, soup, pr).value + Section(plan, i + 1, soup, pr).value
         == HtmlRangeByPosition(soup, pr, FragmentOf(plan[i].href), None).value
  {
    var a, b := FragmentOf(plan[i].href).value, FragmentOf(plan[i + 1].href).value;
    assert StartsWith(plan[i + 1].href, Anchors.Base(plan[i].href));
    assert RangeOf(plan, i).value.endid == Some(b);
    assert RangeOf(plan, i + 1).value.endid == None;
    ByPositionTailJoin(soup, pr, a, b);
  }
}
