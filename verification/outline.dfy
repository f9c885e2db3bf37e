/** The table of contents compiler (`_build_plan_from_toc`).

    The parsed table of contents is seen as the sequence of its nodes in
    document order, so that bs4's `next_element` is the following index.
    Every token records the chain of `<ul>` lists enclosing it, innermost
    first, so that `find_parent('ul')` is the head of that chain. List
    identities are compared with `==`, as bs4 compares the lists. */
module Outline {
  import opened Wrappers
  import opened Strings
  import opened Labels

  datatype Kind = Tag(name: string) | Str | Comment

  /** One node of the table of contents: its kind, its `.text` (the string
      itself, or all text below an element), its `href` attribute and the
      lists enclosing it. */
  datatype Token = Token(kind: Kind, text: string, href: Option<string>, lists: seq<nat>)

  /** A file system path as the sequence of its parts. */
  type Path = seq<string>

  /** An entry of the build plan: the note to write and the href it comes from. */
  datatype Entry = Entry(path: Path, href: string)

  /** The walk's state carried from item to item. */
  datatype Walker = Walker(cwd: Path, prefix: string, category: Option<string>)

  datatype OutlineError =
    | NotAnItem(at: nat)                           // assert toc_element.name == 'li'
    | NotALink(at: nat)                            // assert link.name == 'a'
    | MissingHref(at: nat)                         // link['href'] raises KeyError
    | MissingSeparator(at: nat)                    // assert ....text == '\n'
    | Truncated(at: nat)                           // an attribute of None is read
    | WrongEndComment(text: string)
    | UnexpectedElement(at: nat)
    | LevelNotFound(at: nat)                       // more than 3 levels, or no list left
    | LevelMismatch(expected: nat, actual: nat)    // assert jumpcount == uplevels
    | UnexpectedEnd                                // the loop ran out of items
    | BadTitle(error: LabelError)

  const Vol1 := "BMCv1"
  const Vol2 := "BMCv2"
  const EndMarker := "end contents"
  const RulesFrom := "./Section0010.html"
  const RulesUntil := "./Section0028.html"

  // ---------------------------------------------------------------------------
  // paths

  /** `p.joinpath(name)`: an empty name or `.` leaves the path as it is. */
  function Child(p: Path, name: string): (r: Path)
    ensures name != "" && name != "." ==> r == p + [name]
    ensures name == "" || name == "." ==> r == p
  {
    if name == "" || name == "." then p else p + [name]
  }

  /** `p.name`. */
  function Name(p: Path): string {
    if |p| == 0 then "" else p[|p| - 1]
  }

  /** `k` applications of `p.parent`; the parent of the empty path is itself. */
  function Up(p: Path, k: nat): (r: Path)
    ensures k <= |p| ==> r == p[..|p| - k]
    ensures k >= |p| ==> r == []
  {
    if k == 0 || |p| == 0 then p else Up(p[..|p| - 1], k - 1)
  }

  // ---------------------------------------------------------------------------
  // list levels

  /** The `k`-th enclosing list of a chain, or None past its end. */
  function Get(chain: seq<nat>, k: nat): Option<nat> {
    if k < |chain| then Some(chain[k]) else None
  }

  /** Climbing `j` enclosing lists from an item whose lists are `chain`
      reaches `target` (the list of the next item) for the first time, within
      the bound of 3 and without running out of lists. */
  predicate Ascends(chain: seq<nat>, target: Option<nat>, j: nat) {
    && Get(chain, j) == target
    && (forall k :: 0 <= k < j ==> Get(chain, k) != target)
    && j <= 3
    && (j == 0 || j < |chain|)
  }

  /** The `while curul != nextul` loop: counts the lists climbed from the
      current item's list to the next item's list. */
  function Climb(chain: seq<nat>, target: Option<nat>, k: nat): (r: Result<nat, OutlineError>)
    requires k <= 3 && (k == 0 || k < |chain|)
    requires forall m :: 0 <= m < k ==> Get(chain, m) != target
    ensures r.Success? ==> Ascends(chain, target, r.value)
    ensures r.Failure? ==> forall j: nat :: !Ascends(chain, target, j)
    decreases 3 - k
  {
    if Get(chain, k) == target then Success(k)
    else if k >= |chain| then Failure(LevelNotFound(k))
    else if k + 1 > 3 || k + 1 >= |chain| then Failure(LevelNotFound(k + 1))
    else Climb(chain, target, k + 1)
  }

  /** The `while nextelement.text == '\n'` loop: the first token from `n` on
      that is not a newline. */
  function SkipNewlines(toks: seq<Token>, n: nat): (r: Result<nat, OutlineError>)
    ensures r.Success? ==> n <= r.value < |toks| && toks[r.value].text != "\n"
    ensures r.Success? ==> forall q :: n <= q < r.value ==> toks[q].text == "\n"
    ensures r.Failure? ==> r.error.Truncated? && forall q :: n <= q < |toks| ==> toks[q].text == "\n"
    decreases |toks| - n
  {
    if n >= |toks| then Failure(Truncated(n))
    else if toks[n].text != "\n" then Success(n)
    else SkipNewlines(toks, n + 1)
  }

  // ---------------------------------------------------------------------------
  // naming

  /** Python's `url >= "./Section0010.html" and url < "./Section0028.html"`:
      the Patimokkha rule chapters. */
  predicate InRuleRange(url: string) {
    !LexLess(url, RulesFrom) && LexLess(url, RulesUntil)
  }

  /** `f"{rule_category}"`: an unset category prints as `None`. */
  function CategoryText(c: Option<string>): string {
    match c
    case Some(s) => s
    case None => "None"
  }

  predicate Skipped(t: Tables, prefix: string, link: Link) {
    link.href in t.skip
    || (prefix == Vol2 && link.text == "Discussions" && link.href != "./Section0038.html#sigil_toc_id_51")
  }

  /** The file name of the note for an item, or None when the item is
      skipped; `w` is the state after the item's own sub-directory, if any,
      was entered. */
  function EntryName(t: Tables, w: Walker, link: Link, isRule: bool): (r: Result<Option<string>, LabelError>)
    ensures Skipped(t, w.prefix, link) ==> r == Success(None)
    ensures !Skipped(t, w.prefix, link) && isRule && IsDigits(link.text) ==>
      r == Success(Some(w.prefix + " " + CategoryText(w.category) + " " + link.text + ".md"))
    ensures r.Success? && r.value.Some? ==> StartsWith(r.value.value, w.prefix + " ") && EndsWith(r.value.value, ".md")
    ensures r.Failure? ==> NoteTitle(t, link).Failure?
    ensures !Skipped(t, w.prefix, link) && NoteTitle(t, link).Success? ==> r.Success? && r.value.Some?
  {
    if Skipped(t, w.prefix, link) then Success(None)
    else
      var stem :- EntryStem(t, w, link, isRule);
      NoteName(w.prefix, stem);
      assert isRule && IsDigits(link.text) ==>
        w.prefix + " " + stem + ".md" == w.prefix + " " + CategoryText(w.category) + " " + link.text + ".md";
      Success(Some(w.prefix + " " + stem + ".md"))
  }

  lemma NoteName(prefix: string, stem: string)
    ensures StartsWith(prefix + " " + stem + ".md", prefix + " ")
    ensures EndsWith(prefix + " " + stem + ".md", ".md")
  {
    var s := prefix + " " + stem + ".md";
    assert s == (prefix + " ") + (stem + ".md");
    StartsWithConcat(prefix + " ", stem + ".md", prefix + " ");
    assert s[|s| - 3..] == ".md";
  }

  /** What goes between the volume prefix and `.md` in a note's file name. */
  function EntryStem(t: Tables, w: Walker, link: Link, isRule: bool): (r: Result<string, LabelError>)
    ensures r.Failure? ==> NoteTitle(t, link).Failure?
    ensures NoteTitle(t, link).Success? ==> r.Success?
    ensures isRule && IsDigits(link.text) ==> r == Success(CategoryText(w.category) + " " + link.text)
  {
    var text := link.text;
    if isRule then
      if IsDigits(text) then Success(CategoryText(w.category) + " " + text)
      else
        var title :- NoteTitle(t, link);
        Success(title + (if '#' !in link.href then " Introduction" else ""))
    else if w.prefix == Vol2 && text == "Rules" then
      var name :=
        if link.href == "./Section0052.html#sigil_toc_id_154" then "Community Transaction"
        else if link.href == "./Section0038.html#sigil_toc_id_50" then "The Khandhaka"
        else Name(w.cwd);
      Success(name + " Rules")
    else if w.prefix == Vol2 && Name(w.cwd) == "General Transaction Statements" then
      Success("Transaction Statements Regarding " + Replace(Drop(text, 3), "&", "and"))
    else if w.prefix == Vol2 && Name(w.cwd) == "Going-forth and Acceptance" then
      Success("Transaction Statements for " + Replace(Drop(text, 3), ":", ""))
    else if w.prefix == Vol2 && Name(w.cwd) == "Disciplinary Transactions" then
      Success("Transaction Statements for " + Drop(text, 3))
    else if w.prefix == Vol2 && Name(w.cwd) == "Technical Terms" then
      var term := if text == "D. An\U{101}m\U{101}sa" then "D. An\U{101}m\U{101}sa: Not to be Touched" else text;
      Success(Replace(Replace(Drop(term, 3), "&", "and"), ": ", " (") + ")")
    else
      var title :- NoteTitle(t, link);
      Success(title)
  }

  // ---------------------------------------------------------------------------
  // one item

  /** An item as the walk meets it: its position, its link, whether it is
      a Patimokkha rule, and the state once its header has been read. */
  datatype Item = Item(at: nat, link: Link, isRule: bool, walker: Walker)

  /** How the walk goes on after an item: it finished at the end comment at
      `at`, descended into the list whose first item is at `at`, or jumped
      `levels` lists up to the item at `at`. */
  datatype After = Finished(at: nat) | Descend(at: nat) | Jump(at: nat, levels: nat)

  datatype Step = Step(next: Walker, after: After)

  /** The link of the item at `i` (its `<a>` is the next token). */
  function LinkAt(toks: seq<Token>, i: nat): Link
    requires i + 1 < |toks| && toks[i + 1].href.Some?
  {
    Link(toks[i + 1].href.value, toks[i + 1].text)
  }

  /** The state once the header of the item at `i` has been read: the rule
      category it may set, and the sub-directory it opens when a `<ul>`
      follows its header (switching to the second volume on `vol2`). */
  function Entered(t: Tables, toks: seq<Token>, i: nat, w: Walker): (r: Walker)
    requires i + 4 < |toks| && toks[i + 1].href.Some?
    ensures toks[i + 4].kind != Tag("ul") ==> r.cwd == w.cwd && r.prefix == w.prefix
    ensures toks[i + 4].kind == Tag("ul") ==> r.cwd == Child(w.cwd, SubdirName(t, LinkAt(toks, i)))
    ensures r.prefix == Vol2 <==>
      w.prefix == Vol2 || (toks[i + 4].kind == Tag("ul") && SubdirName(t, LinkAt(toks, i)) == "vol2")
    // a rule chapter's heading (no fragment, no `:`) names the category;
    // any other item keeps the one in force
    ensures var l := LinkAt(toks, i);
      r.category == if InRuleRange(l.href) && '#' !in l.href && ':' !in l.text then Some(t.translit(l.text)) else w.category
  {
    var link := LinkAt(toks, i);
    var category :=
      if InRuleRange(link.href) && !('#' in link.href || ':' in link.text) then Some(t.translit(link.text))
      else w.category;
    if toks[i + 4].kind == Tag("ul") then
      var subdir := SubdirName(t, link);
      Walker(Child(w.cwd, subdir), if subdir == "vol2" then Vol2 else w.prefix, category)
    else
      Walker(w.cwd, w.prefix, category)
  }

  /** The header of the item at `i`: `<li>`, then `<a href=..>`, one more
      node and a newline, and the node after them. */
  function Header(t: Tables, toks: seq<Token>, i: nat, w: Walker): (r: Result<Item, OutlineError>)
    requires i < |toks|
    ensures r.Success? <==>
      && i + 4 < |toks|
      && toks[i].kind == Tag("li")
      && toks[i + 1].kind == Tag("a") && toks[i + 1].href.Some?
      && toks[i + 3].text == "\n"
    ensures r.Success? ==> r.value.at == i && r.value.link == LinkAt(toks, i) && r.value.walker == Entered(t, toks, i, w)
    ensures r.Success? ==> (r.value.isRule <==> InRuleRange(r.value.link.href))
    ensures toks[i].kind != Tag("li") ==> r == Failure(NotAnItem(i))
  {
    var isItem := toks[i].kind == Tag("li");
    :- Need(isItem, NotAnItem(i));
    :- Need(i + 1 < |toks|, Truncated(i + 1));
    :- Need(toks[i + 1].kind == Tag("a"), NotALink(i + 1));
    :- Need(toks[i + 1].href.Some?, MissingHref(i + 1));
    :- Need(i + 3 < |toks|, Truncated(i + 3));
    :- Need(toks[i + 3].text == "\n", MissingSeparator(i + 3));
    :- Need(i + 4 < |toks|, Truncated(i + 4));
    var link := LinkAt(toks, i);
    Success(Item(i, link, InRuleRange(link.href), Entered(t, toks, i, w)))
  }

  /** What follows the header of the item at `i`, read with the state
      `entered`: newlines, then the end comment, a sublist or the next
      item. */
  function Tail(toks: seq<Token>, i: nat, entered: Walker): (r: Result<Step, OutlineError>)
    requires i + 4 < |toks|
    ensures r.Success? ==> i < r.value.after.at
    // the walk ends only at the comment "end contents", after newlines only
    ensures r.Success? && r.value.after.Finished? ==> Closes(toks, i, r.value.after.at)
    // descending: a <ul> and a newline, then the first item of the sublist
    ensures r.Success? && r.value.after.Descend? ==>
      var p := r.value.after.at;
      && i + 6 <= p <= |toks|
      && toks[p - 2].kind == Tag("ul") && toks[p - 1].text == "\n"
      && (forall q :: i + 4 <= q < p - 2 ==> toks[q].text == "\n")
      && r.value.next == entered
    // jumping: the newlines counted equal the lists climbed, and the
    // directory loses one part per list climbed
    ensures r.Success? && r.value.after.Jump? ==>
      var p := r.value.after.at;
      var levels := r.value.after.levels;
      && i + 4 <= p < |toks|
      && toks[p].kind == Tag("li")
      && levels == p - (i + 4)
      && (forall q :: i + 4 <= q < p ==> toks[q].text == "\n")
      && Ascends(toks[i].lists, Get(toks[p].lists, 0), levels)
      && r.value.next == entered.(cwd := Up(entered.cwd, levels))
    // the newlines disagree with the lists climbed
    ensures r.Failure? && r.error.LevelMismatch? ==> r.error.expected != r.error.actual
  {
    var n := i + 4;
    var p :- SkipNewlines(toks, n);
    var next := toks[p];
    if next.kind == Comment then
      if next.text == EndMarker then Success(Step(entered, Finished(p)))
      else Failure(WrongEndComment(next.text))
    else if next.kind == Tag("ul") then
      :- Need(p + 1 < |toks|, Truncated(p + 1));
      :- Need(toks[p + 1].text == "\n", MissingSeparator(p + 1));
      Success(Step(entered, Descend(p + 2)))
    else if next.kind == Tag("li") then
      var levels :- Climb(toks[i].lists, Get(next.lists, 0), 0);
      :- Need(levels == p - n, LevelMismatch(p - n, levels));
      Success(Step(entered.(cwd := Up(entered.cwd, levels)), Jump(p, levels)))
    else Failure(UnexpectedElement(p))
  }

  /** The lists climbed are determined by the chain and the target. */
  lemma AscendsUnique(chain: seq<nat>, target: Option<nat>, j: nat, k: nat)
    requires Ascends(chain, target, j) && Ascends(chain, target, k)
    ensures j == k
  {
    assert j < k ==> Get(chain, j) != target;
    assert k < j ==> Get(chain, k) != target;
  }

  /** Newlines from `n` up to a token at `p` that is not one: the skip
      stops at `p`. */
  lemma {:induction false} SkipNewlinesTo(toks: seq<Token>, n: nat, p: nat)
    requires n <= p < |toks| && toks[p].text != "\n"
    requires forall q :: n <= q < p ==> toks[q].text == "\n"
    ensures SkipNewlines(toks, n) == Success(p)
    decreases p - n
  {
    if n < p {
      SkipNewlinesTo(toks, n + 1, p);
    }
  }

  /** What follows the newlines after the header of the item at `i`
      decides the tail: the end comment finishes, a `<ul>` and a newline
      descend, and a next `<li>` that is `j` lists up jumps there exactly
      when `j` newlines were counted, and is a level mismatch otherwise. */
  lemma TailAt(toks: seq<Token>, i: nat, entered: Walker, p: nat)
    requires i + 4 <= p < |toks| && toks[p].text != "\n"
    requires forall q :: i + 4 <= q < p ==> toks[q].text == "\n"
    ensures toks[p].kind == Comment ==>
      Tail(toks, i, entered) == if toks[p].text == EndMarker then Success(Step(entered, Finished(p)))
                                else Failure(WrongEndComment(toks[p].text))
    ensures toks[p].kind == Tag("ul") && p + 1 < |toks| && toks[p + 1].text == "\n" ==>
      Tail(toks, i, entered) == Success(Step(entered, Descend(p + 2)))
    ensures forall j: nat :: toks[p].kind == Tag("li") && Ascends(toks[i].lists, Get(toks[p].lists, 0), j) ==>
      Tail(toks, i, entered) ==
        if j == p - (i + 4) then Success(Step(entered.(cwd := Up(entered.cwd, j)), Jump(p, j)))
        else Failure(LevelMismatch(p - (i + 4), j))
    ensures toks[p].kind == Tag("li") && (forall j: nat :: !Ascends(toks[i].lists, Get(toks[p].lists, 0), j)) ==>
      Tail(toks, i, entered).Failure? && Tail(toks, i, entered).error.LevelNotFound?
  {
    var n := i + 4;
    SkipNewlinesTo(toks, n, p);
    if toks[p].kind == Tag("li") {
      var target := Get(toks[p].lists, 0);
      var climb := Climb(toks[i].lists, target, 0);
      forall j: nat | Ascends(toks[i].lists, target, j)
        ensures climb == Success(j)
      {
        AscendsUnique(toks[i].lists, target, climb.value, j);
      }
    }
  }

  /** The table of contents closes at `p`, after the item at `i`: only
      newlines, then the comment "end contents". */
  predicate Closes(toks: seq<Token>, i: nat, p: nat) {
    && i + 4 <= p < |toks|
    && toks[p].kind == Comment && toks[p].text == EndMarker
    && (forall q :: i + 4 <= q < p ==> toks[q].text == "\n")
  }

  /** Some closing comment follows the item at `i`. */
  predicate ClosedAfter(toks: seq<Token>, i: nat) {
    exists p: nat | p < |toks| :: Closes(toks, i, p)
  }

  // ---------------------------------------------------------------------------
  // the whole walk

  /** The items a walk met, and how it ended: `Pass` at the end comment, or
      the error that stopped it after those items. */
  datatype Walked = Walked(items: seq<Item>, end: Outcome<OutlineError>)

  /** `items` are items met from position `i` on, in document order. */
  predicate Visits(toks: seq<Token>, i: nat, items: seq<Item>) {
    && (forall a, b :: 0 <= a < b < |items| ==> items[a].at < items[b].at)
    && (forall k :: 0 <= k < |items| ==>
         && i <= items[k].at && items[k].at + 1 < |toks|
         && toks[items[k].at].kind == Tag("li")
         && toks[items[k].at + 1].href == Some(items[k].link.href))
  }

  lemma VisitsCons(toks: seq<Token>, i: nat, j: nat, item: Item, rest: seq<Item>)
    requires i < j && Visits(toks, i, [item]) && item.at == i && Visits(toks, j, rest)
    ensures Visits(toks, i, [item] + rest)
  {
  }

  /** The walk from the item at `i` until the end comment or an error. A
      walk that passes met at least one item and closed after the last. */
  function Run(t: Tables, toks: seq<Token>, i: nat, w: Walker): (r: Walked)
    ensures Visits(toks, i, r.items)
    ensures r.end.Pass? ==> |r.items| > 0 && ClosedAfter(toks, r.items[|r.items| - 1].at)
    decreases |toks| - i
  {
    if i >= |toks| then Walked([], Fail(UnexpectedEnd))
    else
      match Header(t, toks, i, w)
      case Failure(e) => Walked([], Fail(e))
      case Success(item) =>
        assert Visits(toks, i, [item]);
        match Tail(toks, i, item.walker)
        case Failure(e) => Walked([item], Fail(e))
        case Success(step) =>
          if step.after.Finished? then
            assert Closes(toks, i, step.after.at);
            Walked([item], Pass)
          else
            var rest := Run(t, toks, step.after.at, step.next);
            VisitsCons(toks, i, step.after.at, item, rest.items);
            assert rest.end.Pass? ==> ([item] + rest.items)[|rest.items|] == rest.items[|rest.items| - 1];
            Walked([item] + rest.items, rest.end)
  }

  /** One item read, the walk goes on from where its tail leads. */
  lemma RunCons(t: Tables, toks: seq<Token>, i: nat, w: Walker, item: Item, step: Step)
    requires i < |toks| && Header(t, toks, i, w) == Success(item)
    requires Tail(toks, i, item.walker) == Success(step) && !step.after.Finished?
    ensures Run(t, toks, i, w) ==
      Walked([item] + Run(t, toks, step.after.at, step.next).items, Run(t, toks, step.after.at, step.next).end)
  {
  }

  /** One item read, and its tail closes the table of contents. */
  lemma RunLast(t: Tables, toks: seq<Token>, i: nat, w: Walker, item: Item, step: Step)
    requires i < |toks| && Header(t, toks, i, w) == Success(item)
    requires Tail(toks, i, item.walker) == Success(step) && step.after.Finished?
    ensures Run(t, toks, i, w) == Walked([item], Pass)
  {
  }

  // ---------------------------------------------------------------------------
  // naming the items

  /** The plan entry for one item, None when it is skipped. Python names
      each item before reading on, so a naming error is raised first. */
  function NoteOf(t: Tables, item: Item): (r: Result<Option<Entry>, OutlineError>)
    ensures Skipped(t, item.walker.prefix, item.link) ==> r == Success(None)
    ensures r.Failure? ==> !Skipped(t, item.walker.prefix, item.link) && NoteTitle(t, item.link).Failure?
    ensures !Skipped(t, item.walker.prefix, item.link) && NoteTitle(t, item.link).Success? ==> r.Success? && r.value.Some?
    ensures r.Success? && r.value.Some? ==>
      && r.value.value.href == item.link.href
      && r.value.value.path == item.walker.cwd + [Name(r.value.value.path)]
      && StartsWith(Name(r.value.value.path), item.walker.prefix + " ")
      && EndsWith(Name(r.value.value.path), ".md")
  {
    match EntryName(t, item.walker, item.link, item.isRule)
    case Failure(e) => Failure(BadTitle(e))
    case Success(None) => Success(None)
    case Success(Some(name)) => Success(Some(Entry(item.walker.cwd + [name], item.link.href)))
  }

  /** The hrefs of the items that are not skipped, in order. */
  function KeptHrefs(t: Tables, items: seq<Item>): seq<string> {
    if |items| == 0 then []
    else
      (if Skipped(t, items[0].walker.prefix, items[0].link) then [] else [items[0].link.href])
      + KeptHrefs(t, items[1..])
  }

  function PlanHrefs(plan: seq<Entry>): (r: seq<string>)
    ensures |r| == |plan| && forall k :: 0 <= k < |plan| ==> r[k] == plan[k].href
  {
    if |plan| == 0 then [] else [plan[0].href] + PlanHrefs(plan[1..])
  }

  /** The note of every item, in order. */
  function Notes(t: Tables, items: seq<Item>): (r: seq<Result<Option<Entry>, OutlineError>>)
    ensures |r| == |items| && forall k :: 0 <= k < |items| ==> r[k] == NoteOf(t, items[k])
  {
    if |items| == 0 then [] else [NoteOf(t, items[0])] + Notes(t, items[1..])
  }

  /** The entries of the notes that are present. */
  function Present(notes: seq<Result<Option<Entry>, OutlineError>>): seq<Entry> {
    if |notes| == 0 then []
    else (if notes[0].Success? && notes[0].value.Some? then [notes[0].value.value] else []) + Present(notes[1..])
  }

  /** Collects the notes in order: the first error, if any, is the result. */
  function Gather(notes: seq<Result<Option<Entry>, OutlineError>>): (r: Result<seq<Entry>, OutlineError>)
    ensures r.Success? <==> forall k :: 0 <= k < |notes| ==> notes[k].Success?
    ensures r.Failure? ==>
      exists k :: 0 <= k < |notes| && notes[k] == Failure(r.error)
        && (forall j :: 0 <= j < k ==> notes[j].Success?)
    ensures r.Success? ==> r.value == Present(notes)
  {
    if |notes| == 0 then Success([])
    else
      var note :- notes[0];
      var rest :- Gather(notes[1..]);
      Success((if note.Some? then [note.value] else []) + rest)
  }

  lemma PlanHrefsConcat(a: seq<Entry>, b: seq<Entry>)
    ensures PlanHrefs(a + b) == PlanHrefs(a) + PlanHrefs(b)
  {
  }

  /** The first note's contribution to the plan's hrefs is the first
      item's contribution to the kept hrefs. */
  lemma HeadHref(t: Tables, item: Item)
    requires NoteOf(t, item).Success?
    ensures PlanHrefs(if NoteOf(t, item).value.Some? then [NoteOf(t, item).value.value] else [])
         == (if Skipped(t, item.walker.prefix, item.link) then [] else [item.link.href])
  {
  }

  /** When every item can be named, the plan's hrefs are those of the
      items that are not skipped. */
  lemma {:induction false} PresentHrefs(t: Tables, items: seq<Item>)
    requires forall k :: 0 <= k < |items| ==> NoteOf(t, items[k]).Success?
    ensures PlanHrefs(Present(Notes(t, items))) == KeptHrefs(t, items)
  {
    if |items| > 0 {
      PresentHrefs(t, items[1..]);
      var notes := Notes(t, items);
      assert notes[1..] == Notes(t, items[1..]);
      var here := if notes[0].value.Some? then [notes[0].value.value] else [];
      assert Present(notes) == here + Present(notes[1..]);
      PlanHrefsConcat(here, Present(notes[1..]));
      HeadHref(t, items[0]);
    }
  }

  /** No note is planned for an href the tables skip. */
  lemma {:induction false} PresentNotSkipped(t: Tables, items: seq<Item>)
    ensures forall e :: e in Present(Notes(t, items)) ==> e.href !in t.skip
  {
    if |items| > 0 {
      PresentNotSkipped(t, items[1..]);
      var notes := Notes(t, items);
      assert notes[1..] == Notes(t, items[1..]);
    }
  }

  /** Notes of items read in one directory are files directly in it. */
  lemma {:induction false} PresentPaths(t: Tables, items: seq<Item>, cwd: Path)
    requires forall item :: item in items ==> item.walker.cwd == cwd
    ensures forall e :: e in Present(Notes(t, items)) ==> e.path == cwd + [Name(e.path)]
  {
    if |items| > 0 {
      PresentPaths(t, items[1..], cwd);
      var notes := Notes(t, items);
      assert notes[1..] == Notes(t, items[1..]);
    }
  }

  /** `_build_plan_from_toc`: the build plan for the table of contents whose
      first item is at `start`, writing under `root`. It succeeds exactly
      when the walk reaches the end comment and every item can be named. */
  function Compile(t: Tables, toks: seq<Token>, start: nat, root: Path): (r: Result<seq<Entry>, OutlineError>)
    ensures r.Success? <==>
      Run(t, toks, start, Walker(root, Vol1, None)).end.Pass?
      && AllNamed(t, Run(t, toks, start, Walker(root, Vol1, None)).items)
    ensures r.Success? ==> r.value == Present(Notes(t, Run(t, toks, start, Walker(root, Vol1, None)).items))
  {
    var walked := Run(t, toks, start, Walker(root, Vol1, None));
    var plan :- Gather(Notes(t, walked.items));
    if walked.end.Fail? then Failure(walked.end.error)
    else Success(plan)
  }

  predicate AllNamed(t: Tables, items: seq<Item>) {
    forall k :: 0 <= k < |items| ==> NoteOf(t, items[k]).Success?
  }

  /** A compiled plan has one entry per item that is not skipped, in
      order, none for a skipped href, and no more entries than tokens. */
  lemma CompilePlan(t: Tables, toks: seq<Token>, start: nat, root: Path)
    requires Compile(t, toks, start, root).Success?
    ensures PlanHrefs(Compile(t, toks, start, root).value) == KeptHrefs(t, Run(t, toks, start, Walker(root, Vol1, None)).items)
    ensures forall e :: e in Compile(t, toks, start, root).value ==> e.href !in t.skip
    ensures |Compile(t, toks, start, root).value| <= |toks|
  {
    var walked := Run(t, toks, start, Walker(root, Vol1, None));
    PlanOfWalk(t, toks, start, walked.items, Compile(t, toks, start, root).value);
  }

  /** What a walk's gathered notes are: the present entries, one per kept
      href, none skipped, and no more than there are tokens. */
  lemma PlanOfWalk(t: Tables, toks: seq<Token>, start: nat, items: seq<Item>, plan: seq<Entry>)
    requires Visits(toks, start, items)
    requires Gather(Notes(t, items)) == Success(plan)
    ensures plan == Present(Notes(t, items))
    ensures PlanHrefs(plan) == KeptHrefs(t, items)
    ensures forall e :: e in plan ==> e.href !in t.skip
    ensures |plan| <= |toks|
  {
    PresentHrefs(t, items);
    PresentNotSkipped(t, items);
    IncreasingIsShort(items, start, |toks|);
    KeptIsShort(t, items);
  }

  lemma {:induction false} KeptIsShort(t: Tables, items: seq<Item>)
    ensures |KeptHrefs(t, items)| <= |items|
  {
    if |items| > 0 {
      KeptIsShort(t, items[1..]);
    }
  }

  lemma {:induction false} IncreasingIsShort(items: seq<Item>, lo: nat, hi: nat)
    requires forall a, b :: 0 <= a < b < |items| ==> items[a].at < items[b].at
    requires forall k :: 0 <= k < |items| ==> lo <= items[k].at < hi
    ensures |items| == 0 || lo + |items| <= hi
  {
    if |items| > 0 {
      IncreasingIsShort(items[1..], items[0].at + 1, hi);
    }
  }

  // ---------------------------------------------------------------------------
  // properties

  /** For an href of the form `./SectionNNNN.html...`, the rule range is the
      sections 10 to 27. */
  lemma RuleRangeBySection(ds: string, rest: string)
    requires |ds| == 4 && IsDigits(ds)
    requires StartsWith(rest, ".html")
    ensures InRuleRange("./Section" + ds + rest) <==> 10 <= DigitsValue(ds) < 28
  {
    var head := "./Section";
    RuleBounds();
    assert head + ds + rest == head + (ds + rest);
    LexLessCommonPrefix(head, ds + rest, "0010" + ".html");
    LexLessCommonPrefix(head, ds + rest, "0028" + ".html");
    SectionBound(ds, rest, "0010");
    SectionBound(ds, rest, "0028");
  }

  /** The bounds of the rule range, as a section prefix and a number. */
  lemma RuleBounds()
    ensures RulesFrom == "./Section" + ("0010" + ".html") && RulesUntil == "./Section" + ("0028" + ".html")
    ensures IsDigits("0010") && IsDigits("0028")
    ensures DigitsValue("0010") == 10 && DigitsValue("0028") == 28
  {
    assert "0010"[..3] == "001" && "001"[..2] == "00" && "00"[..1] == "0" && "0"[..0] == "";
    assert "0028"[..3] == "002" && "002"[..2] == "00";
  }

  /** A four-digit section number followed by `.html...` compares with a
      bound `NNNN.html` as the numbers compare. */
  lemma SectionBound(ds: string, rest: string, bound: string)
    requires |ds| == 4 && IsDigits(ds) && |bound| == 4 && IsDigits(bound)
    requires StartsWith(rest, ".html")
    ensures LexLess(ds + rest, bound + ".html") <==> DigitsValue(ds) < DigitsValue(bound)
  {
    if ds == bound {
      NotLessThanPrefix(rest, ".html");
      LexLessCommonPrefix(ds, rest, ".html");
    } else {
      DigitsOrder(ds, bound);
      LexLessDifferingPrefix(ds, bound, rest, ".html");
    }
  }

  // ---------------------------------------------------------------------------
  // a flat table of contents

  /** The `m`-th token of one item of a flat list,
      `<li><a href=..>text</a></li>` followed by a newline. */
  function FlatItem(l: Link, m: nat): Token {
    if m == 0 then Token(Tag("li"), l.text, None, [0])
    else if m == 1 then Token(Tag("a"), l.text, Some(l.href), [0])
    else if m == 2 then Token(Str, l.text, None, [0])
    else Token(Str, "\n", None, [0])
  }

  /** A table of contents that is one flat list closed by the end comment. */
  function FlatToc(links: seq<Link>): (r: seq<Token>)
    ensures |r| == 4 * |links| + 1
  {
    seq(4 * |links| + 1, p requires 0 <= p < 4 * |links| + 1 =>
      if p < 4 * |links| then FlatItem(links[p / 4], p % 4) else Token(Comment, EndMarker, None, []))
  }

  /** The tokens at `i` are an item of a flat list (list 0) followed by
      the next item or by the end comment. */
  predicate FlatItemAt(toks: seq<Token>, i: nat, l: Link, last: bool) {
    && i + 4 < |toks|
    && toks[i] == Token(Tag("li"), l.text, None, [0])
    && toks[i + 1] == Token(Tag("a"), l.text, Some(l.href), [0])
    && toks[i + 3].text == "\n"
    && (if last then toks[i + 4] == Token(Comment, EndMarker, None, [])
        else toks[i + 4].kind == Tag("li") && toks[i + 4].lists == [0] && toks[i + 4].text != "\n")
  }

  /** The `k`-th link is laid out flat at position `4 * k`. */
  predicate FlatItemNo(toks: seq<Token>, links: seq<Link>, k: nat)
    requires k < |links|
  {
    FlatItemAt(toks, 4 * k, links[k], k + 1 == |links|)
  }

  lemma FlatTocItem(links: seq<Link>, k: nat)
    requires k < |links|
    requires forall j :: 0 <= j < |links| ==> links[j].text != "\n"
    ensures FlatItemNo(FlatToc(links), links, k)
  {
    var toks := FlatToc(links);
    var i := 4 * k;
    assert i / 4 == k && (i + 1) / 4 == k && (i + 3) / 4 == k && (i + 4) / 4 == k + 1;
    assert (i + 1) % 4 == 1 && (i + 3) % 4 == 3 && (i + 4) % 4 == 0;
    assert toks[i] == FlatItem(links[k], 0);
    assert toks[i + 1] == FlatItem(links[k], 1);
    assert toks[i + 3] == FlatItem(links[k], 3);
    if k + 1 < |links| {
      assert toks[i + 4] == FlatItem(links[k + 1], 0);
    }
  }

  /** One item of a flat list: read in the current directory, followed by
      the next item at the same level or by the end. */
  lemma FlatStep(t: Tables, toks: seq<Token>, i: nat, l: Link, last: bool, w: Walker)
    returns (item: Item, step: Step)
    requires FlatItemAt(toks, i, l, last)
    ensures Header(t, toks, i, w) == Success(item)
    ensures item.link == l && item.walker.cwd == w.cwd && item.walker.prefix == w.prefix
    ensures Tail(toks, i, item.walker) == Success(step)
    ensures step.next == item.walker
    ensures step.after == if last then Finished(i + 4) else Jump(i + 4, 0)
  {
    item := Header(t, toks, i, w).value;
    assert SkipNewlines(toks, i + 4) == Success(i + 4);
    assert Climb([0], Some(0), 0) == Success(0);
    step := Tail(toks, i, item.walker).value;
  }

  /** The links of a sequence of items. */
  function LinksOf(items: seq<Item>): (r: seq<Link>)
    ensures |r| == |items| && forall k :: 0 <= k < |items| ==> r[k] == items[k].link
  {
    if |items| == 0 then [] else [items[0].link] + LinksOf(items[1..])
  }

  lemma DropCons<T>(s: seq<T>, k: nat)
    requires k < |s|
    ensures s[k..] == [s[k]] + s[k + 1..]
  {
  }

  lemma LinksOfCons(item: Item, rest: seq<Item>)
    ensures LinksOf([item] + rest) == [item.link] + LinksOf(rest)
  {
  }

  /** All items read where `w` reads, in its directory and volume. */
  predicate SameDir(items: seq<Item>, w: Walker) {
    forall item :: item in items ==> item.walker.cwd == w.cwd && item.walker.prefix == w.prefix
  }

  lemma SameDirCons(item: Item, rest: seq<Item>, w: Walker)
    requires item.walker.cwd == w.cwd && item.walker.prefix == w.prefix
    requires SameDir(rest, w)
    ensures SameDir([item] + rest, w)
  {
  }

  /** Walking a flat list from its `k`-th item meets every later item, in
      order, all in the starting directory, and reaches the end. */
  lemma {:induction false} FlatRun(t: Tables, toks: seq<Token>, links: seq<Link>, k: nat, w: Walker)
    requires k < |links|
    requires forall j {:trigger FlatItemNo(toks, links, j)} :: 0 <= j < |links| ==> FlatItemNo(toks, links, j)
    ensures Run(t, toks, 4 * k, w).end.Pass?
    ensures LinksOf(Run(t, toks, 4 * k, w).items) == links[k..]
    ensures SameDir(Run(t, toks, 4 * k, w).items, w)
    decreases |links| - k
  {
    assert FlatItemNo(toks, links, k);
    var item, step := FlatStep(t, toks, 4 * k, links[k], k + 1 == |links|, w);
    if k + 1 < |links| {
      FlatRun(t, toks, links, k + 1, step.next);
      var rest := Run(t, toks, 4 * (k + 1), step.next);
      assert step.after.at == 4 * (k + 1);
      RunCons(t, toks, 4 * k, w, item, step);
      LinksOfCons(item, rest.items);
      SameDirCons(item, rest.items, w);
      DropCons(links, k);
    } else {
      RunLast(t, toks, 4 * k, w, item, step);
      DropCons(links, k);
    }
  }

  /** The hrefs of a list of links that are not in the skip set. */
  function KeptLinks(t: Tables, links: seq<Link>): seq<string> {
    if |links| == 0 then []
    else (if links[0].href in t.skip then [] else [links[0].href]) + KeptLinks(t, links[1..])
  }

  lemma {:induction false} KeptOfLinks(t: Tables, items: seq<Item>, links: seq<Link>)
    requires |items| == |links|
    requires LinksOf(items) == links
    requires forall item :: item in items ==> item.walker.prefix == Vol1
    ensures KeptHrefs(t, items) == KeptLinks(t, links)
  {
    if |items| > 0 {
      assert items[0] in items;
      assert LinksOf(items[1..]) == links[1..];
      KeptOfLinks(t, items[1..], links[1..]);
    }
  }

  /** Every item of a flat list can be named when every link's title can. */
  lemma NamedItems(t: Tables, items: seq<Item>, links: seq<Link>)
    requires LinksOf(items) == links
    requires forall k :: 0 <= k < |links| ==> NoteTitle(t, links[k]).Success?
    ensures forall k :: 0 <= k < |items| ==> NoteOf(t, items[k]).Success?
  {
    forall k | 0 <= k < |items|
      ensures NoteOf(t, items[k]).Success?
    {
      assert items[k].link == links[k];
    }
  }

  /** The walk of a flat list: every link once, in order, in the root. */
  lemma FlatItems(t: Tables, links: seq<Link>, w: Walker) returns (items: seq<Item>)
    requires |links| > 0
    requires forall k :: 0 <= k < |links| ==> links[k].text != "\n"
    ensures Run(t, FlatToc(links), 0, w) == Walked(items, Pass)
    ensures LinksOf(items) == links && SameDir(items, w)
  {
    var toks := FlatToc(links);
    forall k | 0 <= k < |links|
      ensures FlatItemNo(toks, links, k)
    {
      FlatTocItem(links, k);
    }
    FlatRun(t, toks, links, 0, w);
    items := Run(t, toks, 0, w).items;
  }

  /** A well-formed flat list compiles to exactly one note per link that is
      not skipped, in the order of the list, each directly under the root. */
  lemma FlatOutline(t: Tables, links: seq<Link>, root: Path)
    requires |links| > 0
    requires forall k :: 0 <= k < |links| ==> links[k].text != "\n" && NoteTitle(t, links[k]).Success?
    ensures Compile(t, FlatToc(links), 0, root).Success?
    ensures PlanHrefs(Compile(t, FlatToc(links), 0, root).value) == KeptLinks(t, links)
    ensures forall e :: e in Compile(t, FlatToc(links), 0, root).value ==> e.path == root + [Name(e.path)]
  {
    var w := Walker(root, Vol1, None);
    var items := FlatItems(t, links, w);
    NamedItems(t, items, links);
    CompilePlan(t, FlatToc(links), 0, root);
    KeptOfLinks(t, items, links);
    PresentPaths(t, items, root);
  }

  // ---------------------------------------------------------------------------
  // a nested table of contents

  /** `<li><a href="./A.html">A</a>\n<ul>\n<li><a href="./B.html">B</a></li>\n</ul></li>`
      then `gap` newlines, `<li><a href="./C.html">C</a></li>\n</ul>` and
      the end comment; list 0 is the outer list, list 1 the inner one. */
  function Nested(gap: nat): seq<Token> {
    [ Token(Tag("li"), "A\nB\n", None, [0]),
      Token(Tag("a"), "A", Some("./A.html"), [0]),
      Token(Str, "A", None, [0]),
      Token(Str, "\n", None, [0]),
      Token(Tag("ul"), "\nB\n", None, [0]),
      Token(Str, "\n", None, [1, 0]),
      Token(Tag("li"), "B", None, [1, 0]),
      Token(Tag("a"), "B", Some("./B.html"), [1, 0]),
      Token(Str, "B", None, [1, 0]),
      Token(Str, "\n", None, [1, 0]) ]
    + seq(gap, _ => Token(Str, "\n", None, [0]))
    + [ Token(Tag("li"), "C", None, [0]),
        Token(Tag("a"), "C", Some("./C.html"), [0]),
        Token(Str, "C", None, [0]),
        Token(Str, "\n", None, [0]),
        Token(Comment, EndMarker, None, []) ]
  }

  const NestedTables := Tables(map["./A.html" := "A"], {}, map[], s => s)

  /** A opens its sub-directory and descends into the inner list. */
  lemma NestedA(gap: nat, w: Walker) returns (a: Item, sa: Step)
    ensures Header(NestedTables, Nested(gap), 0, w) == Success(a)
    ensures a.walker.cwd == w.cwd + ["A"] && a.link == Link("./A.html", "A")
    ensures Tail(Nested(gap), 0, a.walker) == Success(sa) && sa == Step(a.walker, Descend(6))
  {
    var toks := Nested(gap);
    assert LinkAt(toks, 0) == Link("./A.html", "A");
    NestedADir();
    a := Header(NestedTables, toks, 0, w).value;
    NestedATail(gap, a.walker);
    sa := Step(a.walker, Descend(6));
  }

  /** A's directory comes from the table. */
  lemma NestedADir()
    ensures SubdirName(NestedTables, Link("./A.html", "A")) == "A"
  {
  }

  /** After A's header a `<ul>` and a newline open the inner list. */
  lemma NestedATail(gap: nat, v: Walker)
    ensures Tail(Nested(gap), 0, v) == Success(Step(v, Descend(6)))
  {
    var toks := Nested(gap);
    assert toks[4].kind == Tag("ul") && toks[4].text != "\n" && toks[5].text == "\n";
    assert SkipNewlines(toks, 4) == Success(4);
  }

  /** B is read in the directory it is met in; after it, `gap` newlines lead
      to C, one list up. */
  lemma NestedB(gap: nat, w: Walker) returns (b: Item)
    requires gap == 1 || gap == 2
    ensures Header(NestedTables, Nested(gap), 6, w) == Success(b)
    ensures b.walker.cwd == w.cwd && b.link == Link("./B.html", "B")
    ensures gap == 1 ==> Tail(Nested(gap), 6, b.walker) == Success(Step(b.walker.(cwd := Up(w.cwd, 1)), Jump(11, 1)))
    ensures gap == 2 ==> Tail(Nested(gap), 6, b.walker) == Failure(LevelMismatch(2, 1))
  {
    var toks := Nested(gap);
    assert LinkAt(toks, 6) == Link("./B.html", "B") && toks[10].kind != Tag("ul");
    b := Header(NestedTables, toks, 6, w).value;
    NestedBTail(gap, b.walker);
  }

  /** The newlines after B: one climbs back to C's list, two promise a
      climb the lists do not make. */
  lemma NestedBTail(gap: nat, v: Walker)
    requires gap == 1 || gap == 2
    ensures gap == 1 ==> Tail(Nested(gap), 6, v) == Success(Step(v.(cwd := Up(v.cwd, 1)), Jump(11, 1)))
    ensures gap == 2 ==> Tail(Nested(gap), 6, v) == Failure(LevelMismatch(2, 1))
  {
    var toks := Nested(gap);
    var p := 10 + gap;
    assert toks[10].text == "\n" && toks[p - 1].text == "\n";
    assert toks[p].kind == Tag("li") && toks[p].text != "\n" && toks[p].lists == [0];
    assert SkipNewlines(toks, p) == Success(p);
    assert SkipNewlines(toks, 10) == Success(p);
    assert Climb([1, 0], Some(0), 0) == Success(1);
  }

  /** C is the last item: the end comment follows it. */
  lemma NestedC(w: Walker) returns (c: Item)
    ensures Header(NestedTables, Nested(1), 11, w) == Success(c)
    ensures c.walker.cwd == w.cwd && c.link == Link("./C.html", "C")
    ensures Tail(Nested(1), 11, c.walker) == Success(Step(c.walker, Finished(15)))
  {
    var toks := Nested(1);
    c := Header(NestedTables, toks, 11, w).value;
    assert toks[15] == Token(Comment, EndMarker, None, []);
    assert SkipNewlines(toks, 15) == Success(15);
  }

  /** From B on, with one newline before C: B, then C one list up. */
  lemma NestedFromB(w: Walker) returns (b: Item, c: Item)
    ensures Run(NestedTables, Nested(1), 6, w) == Walked([b, c], Pass)
    ensures b.link == Link("./B.html", "B") && b.walker.cwd == w.cwd
    ensures c.link == Link("./C.html", "C") && c.walker.cwd == Up(w.cwd, 1)
  {
    var toks := Nested(1);
    b := NestedB(1, w);
    var sb := Tail(toks, 6, b.walker).value;
    RunCons(NestedTables, toks, 6, w, b, sb);
    c := NestedC(sb.next);
    RunLast(NestedTables, toks, 11, sb.next, c, Step(c.walker, Finished(15)));
    assert [b] + [c] == [b, c];
  }

  /** Leaving the inner list after one newline climbs one list: the walk
      reaches the end having read A and B in A's directory and C back in
      the root. */
  lemma NestedWalk(root: Path) returns (a: Item, b: Item, c: Item)
    ensures Run(NestedTables, Nested(1), 0, Walker(root, Vol1, None)) == Walked([a, b, c], Pass)
    ensures a.link == Link("./A.html", "A") && b.link == Link("./B.html", "B") && c.link == Link("./C.html", "C")
    ensures a.walker.cwd == root + ["A"] && b.walker.cwd == root + ["A"] && c.walker.cwd == root
  {
    var w0 := Walker(root, Vol1, None);
    var sa;
    a, sa := NestedA(1, w0);
    b, c := NestedFromB(sa.next);
    assert Up(root + ["A"], 1) == root;
    RunCons(NestedTables, Nested(1), 0, w0, a, sa);
  }

  /** One newline too many before C: the separators promise two levels
      while the lists climb one, and the walk stops after B. */
  lemma NestedMismatch(root: Path) returns (a: Item, b: Item)
    ensures Run(NestedTables, Nested(2), 0, Walker(root, Vol1, None)) == Walked([a, b], Fail(LevelMismatch(2, 1)))
    ensures a.link == Link("./A.html", "A") && b.link == Link("./B.html", "B")
  {
    var toks := Nested(2);
    var w0 := Walker(root, Vol1, None);
    var sa;
    a, sa := NestedA(2, w0);
    b := NestedB(2, sa.next);
    assert Run(NestedTables, toks, 6, sa.next) == Walked([b], Fail(LevelMismatch(2, 1)));
    RunCons(NestedTables, toks, 0, w0, a, sa);
  }

  // ---------------------------------------------------------------------------
  // a rule chapter

  /** A rule chapter's heading, a link into the rule range with no
      fragment and no `:`, followed in the same list by a numbered rule of
      the chapter. */
  predicate ChapterPair(t: Tables, heading: Link, rule: Link) {
    && InRuleRange(heading.href) && '#' !in heading.href && ':' !in heading.text && heading.text != "\n"
    && InRuleRange(rule.href) && '#' in rule.href && IsDigits(rule.text) && rule.href !in t.skip
  }

  /** The chapter heading sets the rule category, and the numbered rule
      after it is named `{prefix} {category} {n}.md` in the same
      directory. */
  lemma RuleChapter(t: Tables, heading: Link, rule: Link, root: Path) returns (a: Item, b: Item)
    requires ChapterPair(t, heading, rule)
    ensures Run(t, FlatToc([heading, rule]), 0, Walker(root, Vol1, None)) == Walked([a, b], Pass)
    ensures a.walker.category == Some(t.translit(heading.text)) && b.walker.category == a.walker.category
    ensures NoteOf(t, b) == Success(Some(Entry(root + [Vol1 + " " + t.translit(heading.text) + " " + rule.text + ".md"], rule.href)))
  {
    var links := [heading, rule];
    assert rule.text != "\n" by { assert rule.text[0] != '\n'; }
    FlatTocItem(links, 0);
    FlatTocItem(links, 1);
    a, b := ChapterWalk(t, FlatToc(links), heading, rule, Walker(root, Vol1, None));
    RuleNote(t, b, t.translit(heading.text));
  }

  /** The walk over a chapter heading followed by one numbered rule. */
  lemma ChapterWalk(t: Tables, toks: seq<Token>, heading: Link, rule: Link, w: Walker) returns (a: Item, b: Item)
    requires ChapterPair(t, heading, rule)
    requires FlatItemAt(toks, 0, heading, false) && FlatItemAt(toks, 4, rule, true)
    ensures Run(t, toks, 0, w) == Walked([a, b], Pass)
    ensures a.walker.category == Some(t.translit(heading.text)) && b.walker.category == a.walker.category
    ensures b.link == rule && b.isRule && b.walker.cwd == w.cwd && b.walker.prefix == w.prefix
  {
    var sa, sb;
    a, sa := FlatStep(t, toks, 0, heading, false, w);
    assert LinkAt(toks, 0) == heading && a.walker == Entered(t, toks, 0, w);
    b, sb := FlatStep(t, toks, 4, rule, true, sa.next);
    assert LinkAt(toks, 4) == rule && b.walker == Entered(t, toks, 4, a.walker);
    RunTwo(t, toks, 0, w, a, sa, b, sb);
  }

  /** Two items read, the second closing the table of contents. */
  lemma RunTwo(t: Tables, toks: seq<Token>, i: nat, w: Walker, a: Item, sa: Step, b: Item, sb: Step)
    requires i < |toks| && Header(t, toks, i, w) == Success(a)
    requires Tail(toks, i, a.walker) == Success(sa) && !sa.after.Finished? && sa.after.at < |toks|
    requires Header(t, toks, sa.after.at, sa.next) == Success(b)
    requires Tail(toks, sa.after.at, b.walker) == Success(sb) && sb.after.Finished?
    ensures Run(t, toks, i, w) == Walked([a, b], Pass)
  {
    RunLast(t, toks, sa.after.at, sa.next, b, sb);
    RunCons(t, toks, i, w, a, sa);
    assert [a] + [b] == [a, b];
  }

  /** A numbered rule that is not skipped is the note
      `{prefix} {category} {n}.md` in the current directory. */
  lemma RuleNote(t: Tables, item: Item, category: string)
    requires item.isRule && IsDigits(item.link.text) && !Skipped(t, item.walker.prefix, item.link)
    requires item.walker.category == Some(category)
    ensures NoteOf(t, item) == Success(Some(Entry(
      item.walker.cwd + [item.walker.prefix + " " + category + " " + item.link.text + ".md"], item.link.href)))
  {
  }
}
