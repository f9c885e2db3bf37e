/** The parsed page the range extractor and the anchor index read: elements
    with attributes and children, text and comments. Nodes are values, so
    Dafny's `==` on them is the structural equality Beautiful Soup uses when
    it compares two tags. */
module Dom {
  import opened Wrappers

  datatype Node =
    | Element(name: string, attrs: map<string, string>, children: seq<Node>)
    | Text(text: string)
    | Comment(text: string)

  /** A position below a node: the child index taken at each level. */
  type Loc = seq<nat>

  function Kids(n: Node): seq<Node> {
    if n.Element? then n.children else []
  }

  predicate HasId(n: Node, x: string) {
    n.Element? && "id" in n.attrs && n.attrs["id"] == x
  }

  /** The id of `n` itself, as a list of zero or one ids. */
  function OwnId(n: Node): seq<string> {
    if n.Element? && "id" in n.attrs then [n.attrs["id"]] else []
  }

  predicate Valid(n: Node, loc: Loc)
    decreases |loc|
  {
    |loc| == 0 || (loc[0] < |Kids(n)| && Valid(Kids(n)[loc[0]], loc[1..]))
  }

  function NodeAt(n: Node, loc: Loc): Node
    requires Valid(n, loc)
    decreases |loc|
  {
    if |loc| == 0 then n else NodeAt(Kids(n)[loc[0]], loc[1..])
  }

  function Parent(loc: Loc): Loc
    requires |loc| > 0
  {
    loc[..|loc| - 1]
  }

  function Index(loc: Loc): nat
    requires |loc| > 0
  {
    loc[|loc| - 1]
  }

  /** A node at a valid position is the child of the node at its parent
      position, at its last index. */
  lemma {:induction false} ChildOfParent(n: Node, loc: Loc)
    requires |loc| > 0 && Valid(n, loc)
    ensures Valid(n, Parent(loc))
    ensures Index(loc) < |Kids(NodeAt(n, Parent(loc)))|
    ensures Kids(NodeAt(n, Parent(loc)))[Index(loc)] == NodeAt(n, loc)
  {
    if |loc| > 1 {
      var c := Kids(n)[loc[0]];
      ChildOfParent(c, loc[1..]);
      assert Parent(loc)[1..] == Parent(loc[1..]);
      assert Index(loc) == Index(loc[1..]);
    }
  }

  /** Extending the position of a node by one of its child indices. */
  lemma {:induction false} SiblingOf(n: Node, parent: Loc, j: nat)
    requires Valid(n, parent) && j < |Kids(NodeAt(n, parent))|
    ensures Valid(n, parent + [j])
    ensures NodeAt(n, parent + [j]) == Kids(NodeAt(n, parent))[j]
  {
    if |parent| > 0 {
      SiblingOf(Kids(n)[parent[0]], parent[1..], j);
      assert (parent + [j])[1..] == parent[1..] + [j];
    }
  }

  /** The ids carried by the children of `n` from position `i` on and by
      everything below them, in document order (`find_all(attrs={'id': True})`). */
  function IdsFrom(n: Node, i: nat): seq<string>
    decreases n, |Kids(n)| - i
  {
    match n
    case Element(_, _, cs) =>
      if i >= |cs| then [] else OwnId(cs[i]) + IdsFrom(cs[i], 0) + IdsFrom(n, i + 1)
    case _ => []
  }

  /** The ids of a node and of everything below it. */
  function Subtree(c: Node): seq<string> {
    OwnId(c) + IdsFrom(c, 0)
  }

  /** `loc` is where a search of the children of `n` from position `i` on
      finds id `x`: a valid position at or after child `i` of an element
      with that id, no earlier child's subtree having it, and one level
      deep exactly when the child itself has it. */
  predicate FoundAt(n: Node, i: nat, x: string, loc: Loc) {
    && |loc| > 0 && i <= loc[0] < |Kids(n)|
    && Valid(n, loc) && HasId(NodeAt(n, loc), x)
    && (forall j :: i <= j < loc[0] ==> x !in Subtree(Kids(n)[j]))
    && (|loc| == 1 <==> HasId(Kids(n)[loc[0]], x))
  }

  /** `find(id=x)` restricted to the children of `n` from position `i` on:
      the position of the first element in document order whose id is `x`. */
  function FindFrom(n: Node, i: nat, x: string): (r: Option<Loc>)
    decreases n, |Kids(n)| - i
    ensures r.None? <==> x !in IdsFrom(n, i)
    ensures r.Some? ==> FoundAt(n, i, x, r.value)
  {
    match n
    case Element(_, _, cs) =>
      if i >= |cs| then None
      else
        IdsFromStep(n, i);
        if HasId(cs[i], x) then
          FoundHere(n, i, x);
          Some([i])
        else
          (match FindFrom(cs[i], 0, x)
          case Some(p) =>
            FoundInside(n, i, x, p);
            Some([i] + p)
          case None =>
            var r := FindFrom(n, i + 1, x);
            if r.Some? then FoundLater(n, i, x, r.value); r else r)
    case _ => None
  }

  lemma FoundHere(n: Node, i: nat, x: string)
    requires i < |Kids(n)| && HasId(Kids(n)[i], x)
    ensures FoundAt(n, i, x, [i])
  {
    ChildPath(n, i, []);
    assert [i] + [] == [i];
  }

  lemma FoundInside(n: Node, i: nat, x: string, p: Loc)
    requires i < |Kids(n)| && !HasId(Kids(n)[i], x) && FoundAt(Kids(n)[i], 0, x, p)
    ensures FoundAt(n, i, x, [i] + p)
  {
    ChildPath(n, i, p);
  }

  lemma FoundLater(n: Node, i: nat, x: string, loc: Loc)
    requires i < |Kids(n)| && x !in Subtree(Kids(n)[i]) && FoundAt(n, i + 1, x, loc)
    ensures FoundAt(n, i, x, loc)
  {
  }

  /** The ids from child `i` on are those of the child's subtree, then
      those of the later children. */
  lemma IdsFromStep(n: Node, i: nat)
    requires n.Element? && i < |Kids(n)|
    ensures IdsFrom(n, i) == Subtree(Kids(n)[i]) + IdsFrom(n, i + 1)
  {
  }

  /** A position inside child `i` is a position inside `n`, one level down. */
  lemma ChildPath(n: Node, i: nat, p: Loc)
    requires i < |Kids(n)| && Valid(Kids(n)[i], p)
    ensures Valid(n, [i] + p) && NodeAt(n, [i] + p) == NodeAt(Kids(n)[i], p)
  {
    assert ([i] + p)[1..] == p;
  }

  function Find(n: Node, x: string): Option<Loc> {
    FindFrom(n, 0, x)
  }

  /** A position found below a child is the one the search inside that
      child finds. */
  lemma {:induction false} FoundInChild(n: Node, i: nat, x: string, loc: Loc)
    requires FindFrom(n, i, x) == Some(loc) && |loc| > 1
    ensures FindFrom(Kids(n)[loc[0]], 0, x) == Some(loc[1..])
    decreases |Kids(n)| - i
  {
    match n
    case Element(_, _, cs) =>
      if !HasId(cs[i], x) {
        match FindFrom(cs[i], 0, x)
        case Some(p) =>
          assert loc == [i] + p;
          assert loc[1..] == p;
        case None =>
          FoundInChild(n, i + 1, x, loc);
      }
  }

  /** `find(id=x)` returns the first of its siblings that carries `x`: no
      earlier child of the same parent has that id. */
  lemma {:induction false} FoundBeforeSiblings(n: Node, x: string, loc: Loc)
    requires Find(n, x) == Some(loc)
    ensures |loc| > 0 && Valid(n, Parent(loc)) && Index(loc) < |Kids(NodeAt(n, Parent(loc)))|
    ensures forall j :: 0 <= j < Index(loc) ==> !HasId(Kids(NodeAt(n, Parent(loc)))[j], x)
  {
    ChildOfParent(n, loc);
    if |loc| == 1 {
      assert Parent(loc) == [];
      forall j | 0 <= j < Index(loc)
        ensures !HasId(Kids(n)[j], x)
      {
        assert x !in Subtree(Kids(n)[j]);
      }
    } else {
      var c := Kids(n)[loc[0]];
      var rest := loc[1..];
      FoundInChild(n, 0, x, loc);
      FoundBeforeSiblings(c, x, rest);
      assert Parent(loc) == [loc[0]] + Parent(rest);
      assert Parent(loc)[1..] == Parent(rest);
      var siblings := Kids(NodeAt(c, Parent(rest)));
      assert Kids(NodeAt(n, Parent(loc))) == siblings;
      assert Index(loc) == Index(rest);
    }
  }

  /** The text of a node as Beautiful Soup's `.text` gives it: the text
      below it in document order, comments excluded. */
  function TextOf(n: Node): string
    decreases n, 1
  {
    match n
    case Text(s) => s
    case Comment(_) => ""
    case Element(_, _, _) => TextFrom(n, 0)
  }

  function TextFrom(n: Node, i: nat): string
    decreases n, 0, |Kids(n)| - i
  {
    match n
    case Element(_, _, cs) =>
      if i >= |cs| then "" else TextOf(cs[i]) + TextFrom(n, i + 1)
    case _ => ""
  }
}
