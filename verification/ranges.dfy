/** The sibling-range extractor (`first_sibling`, `last_sibling`,
    `html_range`): the HTML of a run of siblings between two optional id
    anchors of a page. Serialisation is left abstract (`Printer`). */
module Ranges {
  import opened Wrappers
  import opened Dom

  /** `str` of a whole node, and `renderhtml` of one sibling (which also
      rewrites the links into the output folder relative to the note). */
  datatype Printer = Printer(show: Node -> string, render: Node -> string)

  datatype RangeError =
    | NoAnchorFound   // neither anchor was found: `first_sibling(None)` raises
    | NotSiblings     // the anchors have different parents and the end is not "Rules"
    | RanOffEnd       // `next_sibling` ran out before reaching the end

  /** Python's truthiness of an optional id: absent and empty are alike. */
  predicate Given(id: Option<string>) {
    id.Some? && id.value != ""
  }

  /** What `find(id=...)` can return: an element strictly below the soup. */
  predicate Found(soup: Node, loc: Loc) {
    |loc| > 0 && Valid(soup, loc) && NodeAt(soup, loc).Element?
  }

  /** The children of the parent of a found node. */
  function Siblings(soup: Node, loc: Loc): (cs: seq<Node>)
    requires Found(soup, loc)
    ensures Index(loc) < |cs| && cs[Index(loc)] == NodeAt(soup, loc)
  {
    ChildOfParent(soup, loc);
    Kids(NodeAt(soup, Parent(loc)))
  }

  function ParentNode(soup: Node, loc: Loc): Node
    requires Found(soup, loc)
  {
    ChildOfParent(soup, loc);
    NodeAt(soup, Parent(loc))
  }

  /** `find_previous_sibling()`: the nearest element before position `i`;
      text and comments are passed over. */
  function PrevElement(cs: seq<Node>, i: nat): (r: Option<nat>)
    requires i <= |cs|
    ensures r.Some? ==> r.value < i && cs[r.value].Element?
    ensures r.Some? ==> forall k :: r.value < k < i ==> !cs[k].Element?
    ensures r.None? ==> forall k :: 0 <= k < i ==> !cs[k].Element?
  {
    if i == 0 then None
    else if cs[i - 1].Element? then Some(i - 1)
    else PrevElement(cs, i - 1)
  }

  /** `find_next_sibling()`: the nearest element after position `i`. */
  function NextElement(cs: seq<Node>, i: nat): (r: Option<nat>)
    requires i < |cs|
    ensures r.Some? ==> i < r.value < |cs| && cs[r.value].Element?
    ensures r.Some? ==> forall k :: i < k < r.value ==> !cs[k].Element?
    ensures r.None? ==> forall k :: i < k < |cs| ==> !cs[k].Element?
    decreases |cs| - i
  {
    if i + 1 >= |cs| then None
    else if cs[i + 1].Element? then Some(i + 1)
    else NextElement(cs, i + 1)
  }

  /** `first_sibling`: stepping back over element siblings while there is
      one ends at the first element among the children. */
  function FirstSibling(cs: seq<Node>, i: nat): (j: nat)
    requires i < |cs| && cs[i].Element?
    ensures j <= i && cs[j].Element?
    ensures forall k :: 0 <= k < j ==> !cs[k].Element?
    decreases i
  {
    match PrevElement(cs, i)
    case None => i
    case Some(p) => FirstSibling(cs, p)
  }

  /** `last_sibling`: stepping forward ends at the last element. */
  function LastSibling(cs: seq<Node>, i: nat): (j: nat)
    requires i < |cs| && cs[i].Element?
    ensures i <= j < |cs| && cs[j].Element?
    ensures forall k :: j < k < |cs| ==> !cs[k].Element?
    decreases |cs| - i
  {
    match NextElement(cs, i)
    case None => i
    case Some(p) => LastSibling(cs, p)
  }

  /** The position of the sibling at index `j` of a found node. */
  function SiblingAt(soup: Node, loc: Loc, j: nat): (r: Loc)
    requires Found(soup, loc) && j < |Siblings(soup, loc)| && Siblings(soup, loc)[j].Element?
    ensures Found(soup, r) && Parent(r) == Parent(loc) && Index(r) == j
    ensures Siblings(soup, r) == Siblings(soup, loc) && NodeAt(soup, r) == Siblings(soup, loc)[j]
  {
    ChildOfParent(soup, loc);
    SiblingOf(soup, Parent(loc), j);
    var r := Parent(loc) + [j];
    assert Parent(r) == Parent(loc);
    r
  }

  function FirstOf(soup: Node, loc: Loc): (r: Loc)
    requires Found(soup, loc)
    ensures Found(soup, r) && Parent(r) == Parent(loc) && Index(r) <= Index(loc)
  {
    SiblingAt(soup, loc, FirstSibling(Siblings(soup, loc), Index(loc)))
  }

  function LastOf(soup: Node, loc: Loc): (r: Loc)
    requires Found(soup, loc)
    ensures Found(soup, r) && Parent(r) == Parent(loc) && Index(loc) <= Index(r)
    ensures forall k :: Index(r) < k < |Siblings(soup, loc)| ==> !Siblings(soup, loc)[k].Element?
  {
    SiblingAt(soup, loc, LastSibling(Siblings(soup, loc), Index(loc)))
  }

  /** The anchors the range runs between, and whether the end is emitted. */
  datatype Span = Span(start: Loc, end: Loc, inclusive: bool)

  predicate SpanIn(soup: Node, sp: Span) {
    Found(soup, sp.start) && Found(soup, sp.end)
  }

  /** The choice of anchors once `find` has run: a missing start becomes the
      first sibling of the end, a missing end the last sibling of the start
      (emitted too), and anchors that are `apart` fall back to the start's
      last sibling when the end's text is exactly "Rules". */
  function Choose(soup: Node, s0: Option<Loc>, e0: Option<Loc>, apart: bool): (r: Result<Span, RangeError>)
    requires s0.Some? ==> Found(soup, s0.value)
    requires e0.Some? ==> Found(soup, e0.value)
    ensures r.Success? ==> SpanIn(soup, r.value)
    ensures r.Success? && (r.value.inclusive || s0.None?) ==> Parent(r.value.start) == Parent(r.value.end)
    ensures r == Failure(NoAnchorFound) <==> s0.None? && e0.None?
    ensures r == Failure(NotSiblings) <==>
      s0.Some? && e0.Some? && apart && TextOf(NodeAt(soup, e0.value)) != "Rules"
    ensures r.Success? && r.value.inclusive ==> r.value.end == LastOf(soup, r.value.start)
    ensures s0.Some? ==> r.Success? ==> r.value.start == s0.value
    ensures e0.Some? ==> r.Success? && !r.value.inclusive ==> r.value.end == e0.value
  {
    if s0.None? && e0.None? then Failure(NoAnchorFound)
    else if s0.None? then Success(Span(FirstOf(soup, e0.value), e0.value, false))
    else if e0.None? then Success(Span(s0.value, LastOf(soup, s0.value), true))
    else if apart then
      if TextOf(NodeAt(soup, e0.value)) == "Rules" then Success(Span(s0.value, LastOf(soup, s0.value), true))
      else Failure(NotSiblings)
    else Success(Span(s0.value, e0.value, false))
  }

  function Lookup(soup: Node, id: Option<string>): (r: Option<Loc>)
    ensures r.Some? ==> Found(soup, r.value)
    ensures r.Some? ==> Given(id) && HasId(NodeAt(soup, r.value), id.value)
  {
    if Given(id) then Find(soup, id.value) else None
  }

  /** Beautiful Soup compares the two parents structurally. */
  predicate ApartByValue(soup: Node, s0: Option<Loc>, e0: Option<Loc>)
    requires s0.Some? ==> Found(soup, s0.value)
    requires e0.Some? ==> Found(soup, e0.value)
  {
    s0.Some? && e0.Some? && ParentNode(soup, s0.value) != ParentNode(soup, e0.value)
  }

  /** What a sibling contributes: comments nothing, anything else its
      rendering. */
  function Shown(n: Node, render: Node -> string): string {
    if n.Comment? then "" else render(n)
  }

  /** The reference: the contributions of `cs[a..b]`, in order. */
  function Collect(cs: seq<Node>, a: nat, b: nat, render: Node -> string): string
    requires a <= b <= |cs|
    decreases b - a
  {
    if a == b then "" else Shown(cs[a], render) + Collect(cs, a + 1, b, render)
  }

  lemma {:induction false} CollectSplit(cs: seq<Node>, a: nat, b: nat, c: nat, render: Node -> string)
    requires a <= b <= c <= |cs|
    ensures Collect(cs, a, c, render) == Collect(cs, a, b, render) + Collect(cs, b, c, render)
    decreases b - a
  {
    if a < b {
      CollectSplit(cs, a + 1, b, c, render);
    }
  }

  /** The walk of lines 356-359: from position `i`, emit siblings until one
      is structurally equal to `end`. */
  function Walk(cs: seq<Node>, i: nat, end: Node, render: Node -> string): (r: Result<string, RangeError>)
    decreases |cs| - i
    ensures r.Success? <==> exists b :: i <= b < |cs| && cs[b] == end
    ensures r.Failure? ==> r.error == RanOffEnd
  {
    if i >= |cs| then Failure(RanOffEnd)
    else if cs[i] == end then Success("")
    else
      var rest :- Walk(cs, i + 1, end, render);
      Success(Shown(cs[i], render) + rest)
  }

  /** The walk stops at the first sibling equal to `end`, whatever its
      position. */
  lemma {:induction false} WalkToFirstCopy(cs: seq<Node>, i: nat, b: nat, end: Node, render: Node -> string)
    requires i <= b < |cs| && cs[b] == end
    requires forall j :: i <= j < b ==> cs[j] != end
    ensures Walk(cs, i, end, render) == Success(Collect(cs, i, b, render))
    decreases b - i
  {
    if i < b {
      WalkToFirstCopy(cs, i + 1, b, end, render);
    }
  }

  function Emit(soup: Node, sp: Span, pr: Printer): Result<string, RangeError>
    requires SpanIn(soup, sp)
  {
    var endNode := NodeAt(soup, sp.end);
    var body :- Walk(Siblings(soup, sp.start), Index(sp.start), endNode, pr.render);
    Success(if sp.inclusive then body + pr.render(endNode) else body)
  }

  /** `html_range` as written. */
  function HtmlRange(soup: Node, pr: Printer, startid: Option<string>, endid: Option<string>): (r: Result<string, RangeError>)
    ensures !Given(startid) && !Given(endid) ==> r == Success(pr.show(soup))
    ensures (Given(startid) || Given(endid)) ==>
      (r == Failure(NoAnchorFound) <==> Lookup(soup, startid).None? && Lookup(soup, endid).None?)
  {
    if !(Given(startid) || Given(endid)) then Success(pr.show(soup))
    else
      var s0, e0 := Lookup(soup, startid), Lookup(soup, endid);
      var sp :- Choose(soup, s0, e0, ApartByValue(soup, s0, e0));
      Emit(soup, sp, pr)
  }

  /** The evident intent: parents and the end are compared by position, so
      the range runs exactly from the start's index to the end's index. */
  function EmitByPosition(soup: Node, sp: Span, pr: Printer): (r: Result<string, RangeError>)
    requires SpanIn(soup, sp) && Parent(sp.start) == Parent(sp.end)
    ensures r.Success? <==> Index(sp.start) <= Index(sp.end)
  {
    var cs := Siblings(soup, sp.start);
    assert Siblings(soup, sp.end) == cs;
    if Index(sp.start) <= Index(sp.end) then
      var body := Collect(cs, Index(sp.start), Index(sp.end), pr.render);
      Success(if sp.inclusive then body + pr.render(cs[Index(sp.end)]) else body)
    else Failure(RanOffEnd)
  }

  predicate ApartByPosition(s0: Option<Loc>, e0: Option<Loc>) {
    s0.Some? && e0.Some? && |s0.value| > 0 && |e0.value| > 0 && Parent(s0.value) != Parent(e0.value)
  }

  function HtmlRangeByPosition(soup: Node, pr: Printer, startid: Option<string>, endid: Option<string>): (r: Result<string, RangeError>)
    ensures !Given(startid) && !Given(endid) ==> r == Success(pr.show(soup))
  {
    if !(Given(startid) || Given(endid)) then Success(pr.show(soup))
    else
      var s0, e0 := Lookup(soup, startid), Lookup(soup, endid);
      var sp :- Choose(soup, s0, e0, ApartByPosition(s0, e0));
      EmitByPosition(soup, sp, pr)
  }

  /** With an end found by id, the structural walk stops exactly at the
      end: an earlier sibling equal to it would carry the same id and would
      have been found first. So a range ending at an id is the siblings from
      the start (or the first sibling) up to, not including, the end. */
  lemma ByIdAgrees(soup: Node, pr: Printer, startid: Option<string>, endid: Option<string>)
    requires Given(endid) && Lookup(soup, endid).Some?
    requires Lookup(soup, startid).None? ||
      (Parent(Lookup(soup, startid).value) == Parent(Lookup(soup, endid).value)
       && Index(Lookup(soup, startid).value) <= Index(Lookup(soup, endid).value))
    ensures var e := Lookup(soup, endid).value;
      var a := if Lookup(soup, startid).Some? then Index(Lookup(soup, startid).value)
               else FirstSibling(Siblings(soup, e), Index(e));
      HtmlRange(soup, pr, startid, endid) == Success(Collect(Siblings(soup, e), a, Index(e), pr.render))
    ensures HtmlRange(soup, pr, startid, endid) == HtmlRangeByPosition(soup, pr, startid, endid)
  {
    var s0, e0 := Lookup(soup, startid), Lookup(soup, endid);
    var e := e0.value;
    var cs := Siblings(soup, e);
    assert !ApartByValue(soup, s0, e0) && !ApartByPosition(s0, e0);
    var sp := Choose(soup, s0, e0, false).value;
    assert sp.end == e && !sp.inclusive;
    assert Siblings(soup, sp.start) == cs;
    FoundBeforeSiblings(soup, endid.value, e);
    forall j | Index(sp.start) <= j < Index(e)
      ensures cs[j] != NodeAt(soup, e)
    {
      assert !HasId(cs[j], endid.value);
    }
    WalkToFirstCopy(cs, Index(sp.start), Index(e), NodeAt(soup, e), pr.render);
  }

  /** Ids `a` and `b` name siblings, `a`'s at or before `b`'s. */
  predicate InOrder(soup: Node, a: string, b: string) {
    a != "" && b != "" && Find(soup, a).Some? && Find(soup, b).Some?
    && Parent(Find(soup, a).value) == Parent(Find(soup, b).value)
    && Index(Find(soup, a).value) <= Index(Find(soup, b).value)
  }

  /** Between two ids of one parent, in order, the range is exactly the
      siblings from the first up to, not including, the second. */
  lemma BetweenIds(soup: Node, pr: Printer, a: string, b: string) returns (cs: seq<Node>, i: nat, j: nat)
    requires InOrder(soup, a, b)
    ensures i == Index(Find(soup, a).value) && j == Index(Find(soup, b).value)
    ensures cs == Siblings(soup, Find(soup, a).value) && i <= j <= |cs|
    ensures HtmlRange(soup, pr, Some(a), Some(b)) == Success(Collect(cs, i, j, pr.render))
  {
    var la, lb := Find(soup, a).value, Find(soup, b).value;
    assert Lookup(soup, Some(a)) == Some(la) && Lookup(soup, Some(b)) == Some(lb);
    ByIdAgrees(soup, pr, Some(a), Some(b));
    cs, i, j := Siblings(soup, la), Index(la), Index(lb);
    assert Siblings(soup, lb) == cs;
  }

  /** Ranges between ids of one parent tile: `range(A, B) + range(B, C)`
      is `range(A, C)`. */
  lemma RangesJoin(soup: Node, pr: Printer, a: string, b: string, c: string)
    requires InOrder(soup, a, b) && InOrder(soup, b, c)
    ensures HtmlRange(soup, pr, Some(a), Some(b)).Success?
    ensures HtmlRange(soup, pr, Some(b), Some(c)).Success?
    ensures HtmlRange(soup, pr, Some(a), Some(c)).Success?
    ensures HtmlRange(soup, pr, Some(a), Some(b)).value + HtmlRange(soup, pr, Some(b), Some(c)).value
         == HtmlRange(soup, pr, Some(a), Some(c)).value
  {
    assert InOrder(soup, a, c);
    var cs, i, j := BetweenIds(soup, pr, a, b);
    var cs2, j2, k := BetweenIds(soup, pr, b, c);
    var cs3, i3, k3 := BetweenIds(soup, pr, a, c);
    assert cs2 == cs && cs3 == cs;
    CollectSplit(cs, i, j, k, pr.render);
  }

  /** An end in another parent whose text is exactly "Rules" is treated as
      no end at all; any other end in another parent is an error. */
  lemma RulesFallback(soup: Node, pr: Printer, a: string, b: string)
    requires a != "" && b != "" && Find(soup, a).Some? && Find(soup, b).Some?
    requires ParentNode(soup, Find(soup, a).value) != ParentNode(soup, Find(soup, b).value)
    ensures TextOf(NodeAt(soup, Find(soup, b).value)) == "Rules" ==>
      HtmlRange(soup, pr, Some(a), Some(b)) == HtmlRange(soup, pr, Some(a), None)
    ensures TextOf(NodeAt(soup, Find(soup, b).value)) != "Rules" ==>
      HtmlRange(soup, pr, Some(a), Some(b)) == Failure(NotSiblings)
  {
    var la, lb := Find(soup, a).value, Find(soup, b).value;
    assert Lookup(soup, Some(a)) == Some(la) && Lookup(soup, Some(b)) == Some(lb);
    assert Lookup(soup, None) == None;
    assert ApartByValue(soup, Some(la), Some(lb));
    if TextOf(NodeAt(soup, lb)) == "Rules" {
      var sp := Span(la, LastOf(soup, la), true);
      assert Choose(soup, Some(la), Some(lb), true) == Success(sp);
      assert Choose(soup, Some(la), None, false) == Success(sp);
      assert HtmlRange(soup, pr, Some(a), Some(b)) == Emit(soup, sp, pr);
      assert HtmlRange(soup, pr, Some(a), None) == Emit(soup, sp, pr);
    } else {
      assert Choose(soup, Some(la), Some(lb), true) == Failure(NotSiblings);
    }
  }

  /** All element siblings from `i` on end at the same last one. */
  lemma LastSiblingUnique(cs: seq<Node>, i: nat, k: nat)
    requires i <= k < |cs| && cs[i].Element? && cs[k].Element?
    ensures LastSibling(cs, i) == LastSibling(cs, k)
  {
    var a, b := LastSibling(cs, i), LastSibling(cs, k);
    assert cs[a].Element? && cs[b].Element?;
  }

  /** By position, the range between two ids in order is the siblings
      from the first up to, not including, the second. */
  lemma BetweenByPosition(soup: Node, pr: Printer, a: string, b: string) returns (cs: seq<Node>, i: nat, j: nat)
    requires InOrder(soup, a, b)
    ensures i == Index(Find(soup, a).value) && j == Index(Find(soup, b).value)
    ensures cs == Siblings(soup, Find(soup, a).value) && cs == Siblings(soup, Find(soup, b).value)
    ensures i <= j < |cs| && cs[i].Element? && cs[j].Element?
    ensures HtmlRangeByPosition(soup, pr, Some(a), Some(b)) == Success(Collect(cs, i, j, pr.render))
  {
    var la, lb := Find(soup, a).value, Find(soup, b).value;
    assert Lookup(soup, Some(a)) == Some(la) && Lookup(soup, Some(b)) == Some(lb);
    assert !ApartByPosition(Some(la), Some(lb));
    var sp := Choose(soup, Some(la), Some(lb), false).value;
    assert sp.start == la && sp.end == lb && !sp.inclusive;
    cs, i, j := Siblings(soup, la), Index(la), Index(lb);
    assert Siblings(soup, lb) == cs;
  }

  /** The pieces of `ByPositionTailJoin`, on the sibling list alone. */
  lemma JoinPieces(cs: seq<Node>, i: nat, j: nat, last: nat, last': nat, render: Node -> string)
    requires i <= j < |cs| && cs[i].Element? && cs[j].Element?
    requires last == LastSibling(cs, i) && last' == LastSibling(cs, j)
    ensures last' == last && j <= last < |cs|
    ensures Collect(cs, i, j, render) + (Collect(cs, j, last', render) + render(cs[last']))
         == Collect(cs, i, last, render) + render(cs[last])
  {
    LastSiblingUnique(cs, i, j);
    CollectSplit(cs, i, j, last, render);
    ConcatAssoc(Collect(cs, i, j, render), Collect(cs, j, last, render), render(cs[last]));
  }

  /** Regrouping a concatenation, kept apart so that the solver meets it
      without the sibling facts around it. */
  lemma ConcatAssoc(x: string, y: string, z: string)
    ensures x + (y + z) == (x + y) + z
  {
  }

  /** Positioned ranges with an open end: the range up to `B` followed by
      the range from `B` to the end of the siblings is the range from `A` to
      the end of the siblings, which emits the last element too. */
  lemma ByPositionTailJoin(soup: Node, pr: Printer, a: string, b: string)
    requires InOrder(soup, a, b)
    ensures HtmlRangeByPosition(soup, pr, Some(a), Some(b)).Success?
    ensures HtmlRangeByPosition(soup, pr, Some(b), None).Success?
    ensures HtmlRangeByPosition(soup, pr, Some(a), None).Success?
    ensures HtmlRangeByPosition(soup, pr, Some(a), Some(b)).value + HtmlRangeByPosition(soup, pr, Some(b), None).value
         == HtmlRangeByPosition(soup, pr, Some(a), None).value
  {
    var cs, ia, ib := BetweenByPosition(soup, pr, a, b);
    var _, _, last := ToEnd(soup, pr, a);
    var _, _, last' := ToEnd(soup, pr, b);
    JoinPieces(cs, ia, ib, last, last', pr.render);
  }

  /** By position, the range from an id with no end id runs to the last
      element among its siblings and includes it. */
  lemma ToEnd(soup: Node, pr: Printer, a: string) returns (cs: seq<Node>, i: nat, last: nat)
    requires a != "" && Find(soup, a).Some?
    ensures cs == Siblings(soup, Find(soup, a).value) && i == Index(Find(soup, a).value)
    ensures i <= last < |cs| && last == LastSibling(cs, i)
    ensures HtmlRangeByPosition(soup, pr, Some(a), None)
        == Success(Collect(cs, i, last, pr.render) + pr.render(cs[last]))
  {
    var la := Find(soup, a).value;
    assert Lookup(soup, Some(a)) == Some(la) && Lookup(soup, None) == None;
    var lz := LastOf(soup, la);
    assert Siblings(soup, lz) == Siblings(soup, la);
    cs, i := Siblings(soup, la), Index(la);
    last := LastSibling(cs, i);
  }

  /** The structural walk reaches the last sibling as long as no sibling
      between the start and it is an equal copy of it. */
  lemma TailAgrees(soup: Node, pr: Printer, a: string)
    requires a != "" && Find(soup, a).Some?
    requires var la := Find(soup, a).value;
      var cs := Siblings(soup, la);
      forall j :: Index(la) <= j < LastSibling(cs, Index(la)) ==> cs[j] != cs[LastSibling(cs, Index(la))]
    ensures HtmlRange(soup, pr, Some(a), None) == HtmlRangeByPosition(soup, pr, Some(a), None)
  {
    var la := Find(soup, a).value;
    assert Lookup(soup, Some(a)) == Some(la) && Lookup(soup, None) == None;
    var cs := Siblings(soup, la);
    var lz := LastOf(soup, la);
    assert Siblings(soup, lz) == cs;
    WalkToFirstCopy(cs, Index(la), Index(lz), NodeAt(soup, lz), pr.render);
  }

  /** A page whose last element has an equal copy earlier on: two `<hr/>`. */
  const Para1 := Element("p", map["id" := "s"], [Text("a")])
  const Rule := Element("hr", map[], [])
  const Para2 := Element("p", map[], [Text("b")])
  const TwoRules := Element("div", map[], [Para1, Rule, Para2, Rule])

  /** As written, the range from `s` to the end of the page stops at the
      first `<hr/>` and then emits the last one, losing the second paragraph
      and the `<hr/>` before it; by position it keeps all four siblings. */
  lemma EarlyCopyTruncates(pr: Printer)
    ensures HtmlRange(TwoRules, pr, Some("s"), None) == Success(pr.render(Para1) + pr.render(Rule))
    ensures HtmlRangeByPosition(TwoRules, pr, Some("s"), None)
      == Success(pr.render(Para1) + pr.render(Rule) + pr.render(Para2) + pr.render(Rule))
  {
    var cs := [Para1, Rule, Para2, Rule];
    assert HasId(Para1, "s");
    assert Find(TwoRules, "s") == Some([0]);
    assert Siblings(TwoRules, [0]) == cs;
    assert NextElement(cs, 0) == Some(1);
    assert NextElement(cs, 1) == Some(2);
    assert NextElement(cs, 2) == Some(3);
    assert LastSibling(cs, 0) == 3;
    assert LastOf(TwoRules, [0]) == [3];
    assert Walk(cs, 1, Rule, pr.render) == Success("");
    assert Para1 != Rule;
    assert Walk(cs, 0, Rule, pr.render) == Success(pr.render(Para1) + "");
    assert pr.render(Para1) + "" == pr.render(Para1);
    var _, _, _ := ToEnd(TwoRules, pr, "s");
    assert Collect(cs, 3, 3, pr.render) == "";
    assert Collect(cs, 2, 3, pr.render) == pr.render(Para2);
    assert Collect(cs, 1, 3, pr.render) == pr.render(Rule) + pr.render(Para2);
    assert Collect(cs, 0, 3, pr.render) == pr.render(Para1) + pr.render(Rule) + pr.render(Para2);
  }
}
