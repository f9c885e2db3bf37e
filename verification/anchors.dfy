/** The anchor index (`build_internal_link_map`): for every page the plan
    draws from, where a link to the page, or to an id on it, should point.
    Fetching a page is a parameter: `fetch` maps a URI to the page's
    `#vinaya` element, or to None when the page has none. */
module Anchors {
  import opened Wrappers
  import opened Strings
  import opened Hrefs
  import opened Dom
  import Outline

  /** A link target: the path of a planned note, or a web URI. */
  datatype Target = Note(path: Outline.Path) | Web(uri: string)

  datatype AnchorError =
    | AlreadyBuilt                 // the index may be built only once
    | BadPage(error: HrefError)    // the page href has no URI
    | NoVinaya(page: string)       // the fetched page has no `#vinaya` element

  type LinkMap = map<string, Target>

  /** The page an href points into: the text before the first `#`. */
  function Base(href: string): (p: string)
    ensures '#' !in p
    ensures StartsWith(href, p)
  {
    SplitPiecesAvoidChar(href, '#');
    FirstPieceIsPrefix(href, "#");
    Split(href, "#")[0]
  }

  /** The fragment an href names, `vinaya` standing for none; with several
      `#`, only the text between the first two. */
  function Fragment(href: string): (f: string)
    ensures '#' !in f
    ensures '#' !in href ==> f == "vinaya"
  {
    SplitPiecesAvoidChar(href, '#');
    SplitHasTwoPiecesIff(href, "#");
    ContainsChar(href, '#');
    var s := Split(href, "#");
    if |s| > 1 then s[1] else "vinaya"
  }

  /** What `split("#")` makes of an href: the page is the whole href when
      it has no `#`, and otherwise the text before its first `#`; the
      fragment is then the text after that `#` up to the next one or the
      end. */
  lemma PageAndFragment(href: string)
    ensures '#' !in href ==> Base(href) == href
    ensures '#' in href ==> |Base(href)| < |href| && href[|Base(href)|] == '#'
    ensures '#' in href ==>
      var rest := href[|Base(href)| + 1..];
      var f := Fragment(href);
      StartsWith(rest, f) && (|f| == |rest| || rest[|f|] == '#')
  {
    SplitAtChar(href, '#');
    var s := Split(href, "#");
    if |s| > 1 {
      assert href[|s[0]| + 1..] == Join(s[1..], "#");
      assert s[1..][0] == s[1];
    }
  }

  /** The pages of a plan, each once: the keys of the `defaultdict`. The
      order they are merged in does not matter, since two pages never
      write the same key (`OneOwner`). */
  function Pages(plan: seq<Outline.Entry>): (ps: seq<string>)
    ensures forall j :: 0 <= j < |plan| ==> Base(plan[j].href) in ps
    ensures forall k :: 0 <= k < |ps| ==> exists j :: 0 <= j < |plan| && Base(plan[j].href) == ps[k]
    ensures forall a, b :: 0 <= a < b < |ps| ==> ps[a] != ps[b]
  {
    if |plan| == 0 then []
    else
      var ps := Pages(plan[..|plan| - 1]);
      var p := Base(plan[|plan| - 1].href);
      assert forall j :: 0 <= j < |plan| - 1 ==> plan[..|plan| - 1][j] == plan[j];
      if p in ps then ps
      else
        assert Base(plan[|plan| - 1].href) == (ps + [p])[|ps|];
        ps + [p]
  }

  /** An entry of `plan` for `page` with fragment `f`. */
  predicate Names(plan: seq<Outline.Entry>, j: nat, page: string, f: string)
    requires j < |plan|
  {
    Base(plan[j].href) == page && Fragment(plan[j].href) == f
  }

  /** The plan entries of one page, keyed by fragment; a later entry for
      the same fragment replaces an earlier one. */
  function DocFor(plan: seq<Outline.Entry>, page: string): (d: map<string, Outline.Path>)
    ensures forall f :: f in d <==> exists j :: 0 <= j < |plan| && Names(plan, j, page, f)
  {
    if |plan| == 0 then map[]
    else
      var init := plan[..|plan| - 1];
      var e := plan[|plan| - 1];
      var d := DocFor(init, page);
      var r := if Base(e.href) == page then d[Fragment(e.href) := e.path] else d;
      DocForStep(plan, init, page, d, r);
      r
  }

  lemma DocForStep(plan: seq<Outline.Entry>, init: seq<Outline.Entry>, page: string, d: map<string, Outline.Path>, r: map<string, Outline.Path>)
    requires |plan| > 0 && init == plan[..|plan| - 1]
    requires forall f :: f in d <==> exists j :: 0 <= j < |init| && Names(init, j, page, f)
    requires var e := plan[|plan| - 1];
      r == if Base(e.href) == page then d[Fragment(e.href) := e.path] else d
    ensures forall f :: f in r <==> exists j :: 0 <= j < |plan| && Names(plan, j, page, f)
  {
    var e := plan[|plan| - 1];
    forall f
      ensures f in r <==> exists j :: 0 <= j < |plan| && Names(plan, j, page, f)
    {
      if f in r {
        if f in d {
          var j :| 0 <= j < |init| && Names(init, j, page, f);
          assert init[j] == plan[j];
          assert Names(plan, j, page, f);
        } else {
          assert Names(plan, |init|, page, f);
        }
      }
      if exists j :: 0 <= j < |plan| && Names(plan, j, page, f) {
        var j :| 0 <= j < |plan| && Names(plan, j, page, f);
        if j < |init| {
          assert init[j] == plan[j];
          assert Names(init, j, page, f);
        }
      }
    }
  }

  /** The last entry for a fragment is the one kept. */
  lemma {:induction false} DocForLastWins(plan: seq<Outline.Entry>, page: string, j: nat)
    requires j < |plan| && Base(plan[j].href) == page
    requires forall k :: j < k < |plan| ==> !Names(plan, k, page, Fragment(plan[j].href))
    ensures Fragment(plan[j].href) in DocFor(plan, page)
    ensures DocFor(plan, page)[Fragment(plan[j].href)] == plan[j].path
  {
    var init := plan[..|plan| - 1];
    if j < |plan| - 1 {
      assert init[j] == plan[j];
      forall k | j < k < |init|
        ensures !Names(init, k, page, Fragment(init[j].href))
      {
        assert init[k] == plan[k];
        assert !Names(plan, k, page, Fragment(plan[j].href));
      }
      DocForLastWins(init, page, j);
      assert !Names(plan, |plan| - 1, page, Fragment(plan[j].href));
    }
  }

  /** The reference for the scan: the target of the last fragment of the
      plan among `ids`, or `bare` if none of them is one. */
  function Latest(ids: seq<string>, doc: map<string, Outline.Path>, bare: Target): (t: Target)
    ensures t == bare || exists m :: 0 <= m < |ids| && ids[m] in doc && t == Note(doc[ids[m]])
  {
    if |ids| == 0 then bare
    else if ids[|ids| - 1] in doc then Note(doc[ids[|ids| - 1]])
    else Latest(ids[..|ids| - 1], doc, bare)
  }

  /** The key a link to id `x` on `page` is looked up under. */
  function Key(page: string, x: string): string {
    page + "#" + x
  }

  /** The keys written for `page`: its own href and `page#id`. */
  predicate OwnedBy(key: string, page: string) {
    key == page || StartsWith(key, page + "#")
  }

  lemma HashAfter(key: string, p: string)
    requires StartsWith(key, p + "#")
    ensures |p| < |key| && key[|p|] == '#' && key[..|p|] == p
  {
    assert key[..|p| + 1] == p + "#";
    assert key[|p|] == (p + "#")[|p|];
    assert key[..|p|] == key[..|p| + 1][..|p|];
  }

  /** Pages have no `#`, so a key has one owner. */
  lemma OneOwner(key: string, p: string, q: string)
    requires '#' !in p && '#' !in q && OwnedBy(key, p) && OwnedBy(key, q)
    ensures p == q
  {
    if p != q {
      if key == p {
        HashAfter(key, q);
      } else if key == q {
        HashAfter(key, p);
      } else {
        HashAfter(key, p);
        HashAfter(key, q);
      }
    }
  }

  lemma KeysDiffer(page: string, x: string, y: string)
    requires x != y
    ensures Key(page, x) != Key(page, y)
  {
    assert Key(page, x)[|page| + 1..] == x;
    assert Key(page, y)[|page| + 1..] == y;
  }

  /** The loop over the ids of one page (lines 432-435): `cur` is the
      target of the latest fragment seen, and every id gets it. */
  function Scan(page: string, ids: seq<string>, i: nat, doc: map<string, Outline.Path>, cur: Target, acc: LinkMap): (r: LinkMap)
    requires i <= |ids|
    decreases |ids| - i
    ensures forall key :: key in r <==> key in acc || exists j :: i <= j < |ids| && key == Key(page, ids[j])
    ensures forall key :: key in acc && (forall j :: i <= j < |ids| ==> key != Key(page, ids[j])) ==> r[key] == acc[key]
  {
    if i == |ids| then acc
    else
      var next := if ids[i] in doc then Note(doc[ids[i]]) else cur;
      Scan(page, ids, i + 1, doc, next, acc[Key(page, ids[i]) := next])
  }

  /** Each id's key ends up with the target of the latest fragment at or
      before its last occurrence, as `Latest` computes it backwards. */
  lemma {:induction false} ScanFindsLatest(page: string, ids: seq<string>, i: nat, doc: map<string, Outline.Path>, bare: Target, acc: LinkMap)
    requires i <= |ids|
    requires forall j :: 0 <= j < i && ids[j] !in ids[j + 1..] ==>
      Key(page, ids[j]) in acc && acc[Key(page, ids[j])] == Latest(ids[..j + 1], doc, bare)
    ensures var r := Scan(page, ids, i, doc, Latest(ids[..i], doc, bare), acc);
      forall j :: 0 <= j < |ids| && ids[j] !in ids[j + 1..] ==>
        Key(page, ids[j]) in r && r[Key(page, ids[j])] == Latest(ids[..j + 1], doc, bare)
    decreases |ids| - i
  {
    if i < |ids| {
      var cur := Latest(ids[..i], doc, bare);
      assert ids[..i + 1][..i] == ids[..i];
      var next := if ids[i] in doc then Note(doc[ids[i]]) else cur;
      assert next == Latest(ids[..i + 1], doc, bare);
      var acc' := acc[Key(page, ids[i]) := next];
      forall j | 0 <= j < i + 1 && ids[j] !in ids[j + 1..]
        ensures Key(page, ids[j]) in acc' && acc'[Key(page, ids[j])] == Latest(ids[..j + 1], doc, bare)
      {
        if j < i {
          assert ids[i] in ids[j + 1..];
          KeysDiffer(page, ids[j], ids[i]);
        }
      }
      ScanFindsLatest(page, ids, i + 1, doc, bare, acc');
    }
  }

  /** The page has a URI and the fetched page a `#vinaya` element. */
  predicate Reachable(page: string, fetch: string -> Option<Node>) {
    HrefToUri(page).Success? && fetch(HrefToUri(page).value).Some?
  }

  /** What one page contributes (lines 428-435): its href maps to the
      plan's unfragmented entry for it, or to its URI; then its ids in
      document order. */
  function PageLinks(plan: seq<Outline.Entry>, page: string, fetch: string -> Option<Node>): (r: Result<LinkMap, AnchorError>)
    ensures r.Success? <==> Reachable(page, fetch)
    ensures r.Success? ==> forall key :: key in r.value ==> OwnedBy(key, page)
  {
    var uri :- (match HrefToUri(page) case Success(u) => Success(u) case Failure(e) => Failure(BadPage(e)));
    var soup :- (match fetch(uri) case Some(s) => Success(s) case None => Failure(NoVinaya(page)));
    var doc := DocFor(plan, page);
    var bare := if "vinaya" in doc then Note(doc["vinaya"]) else Web(uri);
    var ids := IdsFrom(soup, 0);
    var r := Scan(page, ids, 0, doc, bare, map[page := bare]);
    ScanOwned(page, ids, doc, bare, r);
    Success(r)
  }

  lemma KeyOwned(page: string, x: string)
    ensures OwnedBy(Key(page, x), page)
  {
    assert Key(page, x)[..|page| + 1] == page + "#";
  }

  /** Every key one page's scan writes belongs to that page. */
  lemma ScanOwned(page: string, ids: seq<string>, doc: map<string, Outline.Path>, bare: Target, r: LinkMap)
    requires r == Scan(page, ids, 0, doc, bare, map[page := bare])
    ensures forall key :: key in r ==> OwnedBy(key, page)
  {
    forall key | key in r
      ensures OwnedBy(key, page)
    {
      if key != page {
        var j :| 0 <= j < |ids| && key == Key(page, ids[j]);
        KeyOwned(page, ids[j]);
      }
    }
  }

  /** The ids of a fetched page, in document order. */
  function PageIds(page: string, fetch: string -> Option<Node>): seq<string>
    requires Reachable(page, fetch)
  {
    IdsFrom(fetch(HrefToUri(page).value).value, 0)
  }

  /** `key` is one the index writes for `page`: the page's own href, or
      `page#x` for an id `x` of the fetched page. */
  predicate Indexed(page: string, fetch: string -> Option<Node>, key: string) {
    Reachable(page, fetch) && (key == page || exists x :: x in PageIds(page, fetch) && key == Key(page, x))
  }

  /** `key` is indexed for one of `pages[i..]`. */
  predicate InPages(pages: seq<string>, i: nat, fetch: string -> Option<Node>, key: string) {
    exists k :: i <= k < |pages| && Indexed(pages[k], fetch, key)
  }

  /** `key` is indexed for the page of one of the plan's entries. */
  predicate InPlan(plan: seq<Outline.Entry>, fetch: string -> Option<Node>, key: string) {
    exists j :: 0 <= j < |plan| && Indexed(Base(plan[j].href), fetch, key)
  }

  /** One page contributes exactly its own href and `page#x` for its ids. */
  lemma PageKeys(plan: seq<Outline.Entry>, page: string, fetch: string -> Option<Node>)
    requires PageLinks(plan, page, fetch).Success?
    ensures forall key :: key in PageLinks(plan, page, fetch).value <==> Indexed(page, fetch, key)
  {
    var ids := PageIds(page, fetch);
    var m := PageLinks(plan, page, fetch).value;
    forall key
      ensures key in m <==> Indexed(page, fetch, key)
    {
      if key != page && key in m {
        var j :| 0 <= j < |ids| && key == Key(page, ids[j]);
        assert ids[j] in ids;
      }
      if key != page && Indexed(page, fetch, key) {
        var x :| x in ids && key == Key(page, x);
        var j :| 0 <= j < |ids| && ids[j] == x;
      }
    }
  }

  /** The target a bare link to the page gets. */
  function Bare(plan: seq<Outline.Entry>, page: string): Target
    requires HrefToUri(page).Success?
  {
    var doc := DocFor(plan, page);
    if "vinaya" in doc then Note(doc["vinaya"]) else Web(HrefToUri(page).value)
  }

  /** The contents of one page's contribution. */
  lemma PageLinksResolve(plan: seq<Outline.Entry>, page: string, fetch: string -> Option<Node>)
    requires PageLinks(plan, page, fetch).Success?
    ensures var m := PageLinks(plan, page, fetch).value;
      var ids := PageIds(page, fetch);
      && page in m && m[page] == Bare(plan, page)
      && (forall j :: 0 <= j < |ids| && ids[j] !in ids[j + 1..] ==>
            Key(page, ids[j]) in m && m[Key(page, ids[j])] == Latest(ids[..j + 1], DocFor(plan, page), Bare(plan, page)))
  {
    var ids := PageIds(page, fetch);
    var doc := DocFor(plan, page);
    var bare := Bare(plan, page);
    assert ids[..0] == [];
    ScanFindsLatest(page, ids, 0, doc, bare, map[page := bare]);
    forall j | 0 <= j < |ids|
      ensures page != Key(page, ids[j])
    {
      assert |Key(page, ids[j])| > |page|;
    }
  }

  /** The pages from position `i` on, each merged over what came before. */
  function AddPages(plan: seq<Outline.Entry>, pages: seq<string>, i: nat, fetch: string -> Option<Node>, acc: LinkMap): (r: Result<LinkMap, AnchorError>)
    requires i <= |pages|
    decreases |pages| - i
    ensures r.Success? <==> forall k :: i <= k < |pages| ==> Reachable(pages[k], fetch)
  {
    if i == |pages| then Success(acc)
    else
      var links :- PageLinks(plan, pages[i], fetch);
      AddPages(plan, pages, i + 1, fetch, acc + links)
  }

  /** The merged index holds what it started with and the keys of the
      remaining pages, and nothing else. */
  lemma {:induction false} AddPagesDomain(plan: seq<Outline.Entry>, pages: seq<string>, i: nat, fetch: string -> Option<Node>, acc: LinkMap)
    requires i <= |pages| && AddPages(plan, pages, i, fetch, acc).Success?
    ensures forall key :: key in AddPages(plan, pages, i, fetch, acc).value <==>
      key in acc || InPages(pages, i, fetch, key)
    decreases |pages| - i
  {
    if i < |pages| {
      var links := PageLinks(plan, pages[i], fetch).value;
      PageKeys(plan, pages[i], fetch);
      AddPagesDomain(plan, pages, i + 1, fetch, acc + links);
      var r := AddPages(plan, pages, i, fetch, acc).value;
      assert r == AddPages(plan, pages, i + 1, fetch, acc + links).value;
      forall key
        ensures key in r <==> key in acc || InPages(pages, i, fetch, key)
      {
        if key in r && key !in acc && key in links {
          assert Indexed(pages[i], fetch, key);
        }
        if InPages(pages, i, fetch, key) {
          var k :| i <= k < |pages| && Indexed(pages[k], fetch, key);
          if k == i {
            assert key in links;
          }
        }
      }
    }
  }

  /** A later page never overwrites the keys of an earlier one. */
  lemma {:induction false} AddPagesKeeps(plan: seq<Outline.Entry>, pages: seq<string>, i: nat, fetch: string -> Option<Node>, acc: LinkMap)
    requires i <= |pages| && AddPages(plan, pages, i, fetch, acc).Success?
    requires forall a, b :: 0 <= a < b < |pages| ==> pages[a] != pages[b]
    requires forall k :: 0 <= k < |pages| ==> '#' !in pages[k]
    ensures var r := AddPages(plan, pages, i, fetch, acc).value;
      forall k :: i <= k < |pages| ==>
        forall key :: key in PageLinks(plan, pages[k], fetch).value ==>
          key in r && r[key] == PageLinks(plan, pages[k], fetch).value[key]
    decreases |pages| - i
  {
    if i < |pages| {
      var links := PageLinks(plan, pages[i], fetch).value;
      var acc' := acc + links;
      assert AddPages(plan, pages, i, fetch, acc) == AddPages(plan, pages, i + 1, fetch, acc');
      AddPagesKeeps(plan, pages, i + 1, fetch, acc');
      forall k | i < k < |pages|
        ensures '#' !in pages[k] && pages[k] != pages[i]
      {
      }
      AddPagesKeepsAcc(plan, pages, i + 1, fetch, acc', pages[i]);
      forall key | key in links
        ensures key in acc' && OwnedBy(key, pages[i]) && acc'[key] == links[key]
      {
      }
    }
  }

  /** Keys owned by a page outside `pages[i..]` keep their value. */
  lemma {:induction false} AddPagesKeepsAcc(plan: seq<Outline.Entry>, pages: seq<string>, i: nat, fetch: string -> Option<Node>, acc: LinkMap, owner: string)
    requires i <= |pages| && AddPages(plan, pages, i, fetch, acc).Success?
    requires '#' !in owner && forall k :: i <= k < |pages| ==> '#' !in pages[k] && pages[k] != owner
    ensures forall key :: key in acc && OwnedBy(key, owner) ==>
      key in AddPages(plan, pages, i, fetch, acc).value && AddPages(plan, pages, i, fetch, acc).value[key] == acc[key]
    decreases |pages| - i
  {
    if i < |pages| {
      var links := PageLinks(plan, pages[i], fetch).value;
      forall key | key in acc && OwnedBy(key, owner)
        ensures key !in links
      {
        if key in links {
          OneOwner(key, owner, pages[i]);
        }
      }
      AddPagesKeepsAcc(plan, pages, i + 1, fetch, acc + links, owner);
    }
  }

  lemma PageListed(plan: seq<Outline.Entry>, j: nat) returns (k: nat)
    requires j < |plan|
    ensures k < |Pages(plan)| && Pages(plan)[k] == Base(plan[j].href)
  {
    var pages := Pages(plan);
    assert Base(plan[j].href) in pages;
    k :| 0 <= k < |pages| && pages[k] == Base(plan[j].href);
  }

  lemma PageOfEntry(plan: seq<Outline.Entry>, k: nat) returns (j: nat)
    requires k < |Pages(plan)|
    ensures j < |plan| && Pages(plan)[k] == Base(plan[j].href)
  {
    j :| 0 <= j < |plan| && Base(plan[j].href) == Pages(plan)[k];
  }

  /** Every page of the plan is reachable exactly when every entry's page is. */
  lemma PagesAgree(plan: seq<Outline.Entry>, fetch: string -> Option<Node>)
    ensures (forall k :: 0 <= k < |Pages(plan)| ==> Reachable(Pages(plan)[k], fetch))
        <==> (forall j :: 0 <= j < |plan| ==> Reachable(Base(plan[j].href), fetch))
  {
    var pages := Pages(plan);
    if forall k :: 0 <= k < |pages| ==> Reachable(pages[k], fetch) {
      forall j | 0 <= j < |plan|
        ensures Reachable(Base(plan[j].href), fetch)
      {
        var k := PageListed(plan, j);
      }
    } else {
      var k :| 0 <= k < |pages| && !Reachable(pages[k], fetch);
      var j := PageOfEntry(plan, k);
    }
  }

  /** `build_internal_link_map`: refuses a second build, then merges the
      contributions of the plan's pages in order. */
  function BuildLinkMap(plan: seq<Outline.Entry>, existing: LinkMap, fetch: string -> Option<Node>): (r: Result<LinkMap, AnchorError>)
    ensures |existing| > 0 ==> r == Failure(AlreadyBuilt)
    ensures |existing| == 0 ==>
      (r.Success? <==> forall j :: 0 <= j < |plan| ==> Reachable(Base(plan[j].href), fetch))
  {
    if |existing| > 0 then Failure(AlreadyBuilt)
    else
      var pages := Pages(plan);
      PagesAgree(plan, fetch);
      AddPages(plan, pages, 0, fetch, map[])
  }

  /** Every page of the plan gets an entry for its bare href, and every id
      on it the target of the latest plan fragment at or before the id. */
  lemma LinkMapResolves(plan: seq<Outline.Entry>, fetch: string -> Option<Node>, m: LinkMap, j: nat)
    requires BuildLinkMap(plan, map[], fetch) == Success(m) && j < |plan|
    ensures Reachable(Base(plan[j].href), fetch)
    ensures var page := Base(plan[j].href);
      var ids := PageIds(page, fetch);
      && page in m && m[page] == Bare(plan, page)
      && (forall k :: 0 <= k < |ids| && ids[k] !in ids[k + 1..] ==>
            Key(page, ids[k]) in m && m[Key(page, ids[k])] == Latest(ids[..k + 1], DocFor(plan, page), Bare(plan, page)))
  {
    var pages := Pages(plan);
    var page := Base(plan[j].href);
    var k :| 0 <= k < |pages| && pages[k] == page;
    forall k' | 0 <= k' < |pages|
      ensures '#' !in pages[k']
    {
      var j' :| 0 <= j' < |plan| && Base(plan[j'].href) == pages[k'];
    }
    AddPagesKeeps(plan, pages, 0, fetch, map[]);
    PageLinksResolve(plan, page, fetch);
  }

  /** The index holds exactly the hrefs of the plan's pages and `page#x`
      for the ids `x` on them: no key comes from anywhere else. */
  lemma LinkMapKeys(plan: seq<Outline.Entry>, fetch: string -> Option<Node>, m: LinkMap)
    requires BuildLinkMap(plan, map[], fetch) == Success(m)
    ensures forall key :: key in m <==> InPlan(plan, fetch, key)
  {
    BuiltByPages(plan, fetch, m);
    AddPagesDomain(plan, Pages(plan), 0, fetch, map[]);
    PagesIndexed(plan, fetch);
  }

  /** A first build is the merge of the plan's pages. */
  lemma BuiltByPages(plan: seq<Outline.Entry>, fetch: string -> Option<Node>, m: LinkMap)
    requires BuildLinkMap(plan, map[], fetch) == Success(m)
    ensures AddPages(plan, Pages(plan), 0, fetch, map[]) == Success(m)
  {
  }

  /** A key is indexed for some listed page exactly when it is for the page
      of some entry. */
  lemma PagesIndexed(plan: seq<Outline.Entry>, fetch: string -> Option<Node>)
    ensures forall key :: InPages(Pages(plan), 0, fetch, key) <==> InPlan(plan, fetch, key)
  {
    forall key
      ensures InPages(Pages(plan), 0, fetch, key) <==> InPlan(plan, fetch, key)
    {
      PageOfKey(plan, fetch, key);
    }
  }

  lemma PageOfKey(plan: seq<Outline.Entry>, fetch: string -> Option<Node>, key: string)
    ensures InPages(Pages(plan), 0, fetch, key) <==> InPlan(plan, fetch, key)
  {
    var pages := Pages(plan);
    if exists k :: 0 <= k < |pages| && Indexed(pages[k], fetch, key) {
      var k :| 0 <= k < |pages| && Indexed(pages[k], fetch, key);
      var j := PageOfEntry(plan, k);
    }
    if exists j :: 0 <= j < |plan| && Indexed(Base(plan[j].href), fetch, key) {
      var j :| 0 <= j < |plan| && Indexed(Base(plan[j].href), fetch, key);
      var k := PageListed(plan, j);
    }
  }

  /** At an id that is a fragment of the plan, the latest fragment is that id. */
  lemma LatestAtFragment(ids: seq<string>, k: nat, doc: map<string, Outline.Path>, bare: Target)
    requires k < |ids| && ids[k] in doc
    ensures Latest(ids[..k + 1], doc, bare) == Note(doc[ids[k]])
  {
    assert ids[..k + 1][k] == ids[k];
  }

  /** A link to the id a planned note starts at leads to that note, when
      the note is the plan's last for that id and the id is the page's
      last with that name. */
  lemma SectionLinkLeadsToNote(plan: seq<Outline.Entry>, fetch: string -> Option<Node>, m: LinkMap, j: nat, k: nat)
    requires BuildLinkMap(plan, map[], fetch) == Success(m) && j < |plan|
    requires forall i :: j < i < |plan| ==> !Names(plan, i, Base(plan[j].href), Fragment(plan[j].href))
    requires Reachable(Base(plan[j].href), fetch)
    requires var ids := PageIds(Base(plan[j].href), fetch);
      k < |ids| && ids[k] == Fragment(plan[j].href) && ids[k] !in ids[k + 1..]
    ensures Key(Base(plan[j].href), Fragment(plan[j].href)) in m
    ensures m[Key(Base(plan[j].href), Fragment(plan[j].href))] == Note(plan[j].path)
  {
    var page, f := Base(plan[j].href), Fragment(plan[j].href);
    var doc := DocFor(plan, page);
    var ids := PageIds(page, fetch);
    LinkMapResolves(plan, fetch, m, j);
    DocForLastWins(plan, page, j);
    LatestAtFragment(ids, k, doc, Bare(plan, page));
  }

  /** Once built from a non-empty plan, the index refuses to be built again. */
  lemma SecondBuildFails(plan: seq<Outline.Entry>, fetch: string -> Option<Node>, m: LinkMap)
    requires |plan| > 0 && BuildLinkMap(plan, map[], fetch) == Success(m)
    ensures BuildLinkMap(plan, m, fetch) == Failure(AlreadyBuilt)
  {
    LinkMapResolves(plan, fetch, m, 0);
  }
}
