# A model of the BMC downloader's core

`bmc.py` turns the online edition of *The Buddhist Monastic Code* into a
tree of Markdown notes. This project models its core in Dafny and proves
properties of that model. The core has four parts:

- **the table of contents compiler** (`_build_plan_from_toc`). It walks the
  nested `<ul>`/`<li>` outline and produces the build plan, a sequence of
  (note path, href) entries. Module `Outline`, with the naming rules in
  `Labels`.
- **the sibling-range extractor** (`first_sibling`, `last_sibling`,
  `html_range`). It cuts the HTML between two id anchors out of a page.
  Modules `Dom` and `Ranges`.
- **the anchor index** (`build_internal_link_map`). It maps every page
  href and every `page#id` of the plan's pages to the note that holds it.
  Module `Anchors`.
- **the helpers around them**: the rule-link parser (`get_rule_link`, module
  `RuleLinks`), the href resolver (`bmc_href_to_uri`, module `Hrefs`), and
  the choice of a note's start and end ids in `execute_plan` (module
  `Execute`).

Python's string operations that these depend on are modelled in `Strings`:
`split`, `join`, `replace`, `strip`, `isdigit`, `in`, and `<` on strings.
`Wrappers` holds the `Option`, `Result` and `Outcome` types.

How the model represents things:

- A parsed page is a value of the datatype `Dom.Node`. Dafny's `==` on
  nodes therefore stands for Beautiful Soup's structural equality of tags.
- The table of contents is the sequence of its nodes in document order, so
  `next_element` is the next index. Each token carries its `.text`, its
  `href`, and the chain of `<ul>` lists enclosing it, innermost first.
- Every Python `assert` and `raise` in the core becomes an error value of
  the operation's `Result`.
- The hand-written tables (`TOC_URL_TO_SUBDIR`, `TOC_URLS_TO_SKIP`,
  `URL_TITLE_OVERRIDES`) and `unidecode` are parameters (`Labels.Tables`).
  So are the SuttaCentral segment table and the page fetcher.

## Model

| member | source | states |
|---|---|---|
| Hrefs.HrefToUri | bmc.py:186-195 | an href resolves exactly when it starts with `./`, `http` or `/`; every result starts with `http`; `./x` becomes the table of contents directory plus `x`, `http...` is kept, `/x` gets the site prepended; a `#` href fails with the in-page error and any other href with the unknown-href error |
| Hrefs.HrefToUriIdempotent | bmc.py:186-190 | resolving a resolved URI again gives the same URI |
| Hrefs.SiteRootedRoundTrip | bmc.py:191-192 | a site-rooted href is recovered from its URI by removing the site |
| Labels.IndexOf | bmc.py:159-162 | `list.index`: the result is a position holding the word, no earlier position holds it, and there is none exactly when the word is absent |
| Labels.SubdirName | bmc.py:150-164 | a table entry for the href wins; any computed name has no `:`; a label without `:` comes out without `&`; a label whose head before `:` is the n-th English digit word gives a name starting `Ch{n}_ ` |
| Labels.SubdirNameValue | bmc.py:155-162 | with no table entry: a label without `:` gives the label with every `&` replaced by `and`; a label `head:seg...` whose head is no English digit word gives `Strip(seg)`, the `str.strip` of the segment up to the next `:` |
| Labels.ColonDirTitle | bmc.py:158-162 | a label with a colon is its head, the first `:`, the colon-free segment and a rest that is empty or starts with `:`; under a non-digit head the name is `Strip(seg)` |
| Labels.ColonPieces | bmc.py:158 | `split(':')` of a label with a colon has a first piece (the head) and a second piece (the segment up to the next `:`), and the label is head, `:`, segment and the rest |
| Labels.ColonDirChapter | bmc.py:158-164 | for a label with a colon whose head is the English word for `n`, the name starts `Ch{n}_ ` |
| Labels.DigitIndex | bmc.py:160 | `ENGLISH_DIGITS.index` finds each digit word at its own position, so the chapter number is the word's value |
| Labels.ChapterDir | bmc.py:163-164 | a chapter directory starts `Ch{n}_ ` and has no `:` |
| Labels.SekhiyaPair | bmc.py:173-177 | a dual Sekhiya label fails exactly when it has no ` [`; otherwise the title starts `Sekhiya ` |
| Labels.PlainTitle | bmc.py:181-184 | the title has no `:`, and has no `&` when the label had no `:` |
| Labels.PlainTitleValue | bmc.py:181-184 | a label without `:` gives the label with every `&` replaced by `and`; a label `head:seg...` gives `Strip(seg)`, the `str.strip` of the segment up to the next `:` |
| Labels.NoteTitle | bmc.py:166-184 | an override for the href wins; the title fails exactly for a `]`-terminated label with no ` [`; a dual Sekhiya title starts `Sekhiya `; a rule-index href gets the label plus ` Rules`; any other title has no `:`, and has no `&` when the label had no `:` |
| Labels.NoteTitleValue | bmc.py:166-184 | outside the overrides, the dual Sekhiya labels and the rule index: a label without `:` gives the label with `&` replaced by `and`; a label `head:seg...` gives `Strip(seg)`, the `str.strip` of the segment up to the next `:` |
| Strings.JoinSplit | bmc.py:425-426 | joining the pieces of `s.split(sep)` with `sep` gives back `s` |
| Strings.SplitAtChar | bmc.py:425-426 | splitting at a character gives one piece, the whole string, exactly when the character is absent; otherwise the first piece, the character and the other pieces joined give the string back |
| Strings.SplitHasTwoPiecesIff | bmc.py:425-426 | `split` gives more than one piece exactly when the separator occurs |
| Strings.SplitPiecesAvoidSep | bmc.py:158-162 | no piece of a split contains the separator |
| Strings.ReplaceIsJoinOfSplit | bmc.py:157 | `replace` is the split pieces joined with the replacement |
| Strings.ReplaceRemovesChar | bmc.py:157 | replacing a character with text that lacks it removes it |
| Strings.Strip | bmc.py:155 | the result is the input with white space removed at the front and at the back only, has no white space at either end, and is empty only when the input is all white space |
| Strings.StripIdempotent | bmc.py:155 | stripping twice is stripping once |
| Strings.NatToString | bmc.py:376 | the decimal numeral of `n` is all digits, denotes `n`, and has no leading zero |
| Strings.DigitsOrder | bmc.py:210 | equal-length digit strings compare as strings the way their values compare |
| RuleLinks.ParseCode | bmc.py:366 | the rule class is recognised exactly when the first two characters spell it |
| RuleLinks.Parse | bmc.py:366-368 | only an href starting `./Section` can name a rule |
| RuleLinks.ParseSound | bmc.py:366-371 | an href names a rule only when it is `./Section`, digits, `.htm` or `.html`, `#`, the class, digits and a tail not starting with a digit, with the section and rule number read from those digits; with `ParseRuleHref`, `re.match` succeeds exactly on these hrefs |
| RuleLinks.ParseRuleHref | bmc.py:366-371 | every well-formed rule href, with `.htm` or `.html` and with any tail that does not start with a digit, parses back to its section, class and rule number |
| RuleLinks.NotARuleLink | bmc.py:366-368 | an href not starting `./Section` gives no link |
| RuleLinks.RuleLink | bmc.py:364-397 | no rule means no link; a class outside its sections is an error exactly then; a link found is the table's entry for the rule's key, and one is found whenever the key is in the table |
| RuleLinks.RuleKeyInjective | bmc.py:372-394 | distinct rules have distinct segment keys |
| RuleLinks.SectionsPartition | bmc.py:373-394 | each section from 10 to 26 admits exactly one rule class, and no other section admits any |
| Outline.Child | bmc.py:220 | a name without `/` is appended as one part; an empty name or `.` leaves the path unchanged |
| Outline.Up | bmc.py:273 | `k` steps to the parent drop the last `k` parts, down to the empty path |
| Outline.Climb | bmc.py:269-277 | the count of lists climbed is the first level at which the next item's list is met, within 3 levels and without running out of lists; a failure means no such level exists |
| Outline.SkipNewlines | bmc.py:255-257 | stops at the first token that is not a newline, after newlines only; fails only when newlines run to the end |
| Outline.Entered | bmc.py:207-223 | a link into the rule range with no `#` in its href and no `:` in its text sets the rule category to its transliterated text, and any other item keeps the category; only a following `<ul>` changes the directory, to the child named by the sub-directory name; the volume becomes `BMCv2` exactly when it already was, or a sub-directory named `vol2` is opened |
| Outline.Header | bmc.py:205-217 | an item header is read exactly when it is `<li>`, `<a href>`, one node and a newline, with a node after them; it is a rule item exactly when its href lies in the rule range |
| Outline.Tail | bmc.py:254-283 | the walk finishes only at the comment "end contents" after newlines; it descends only through `<ul>` and a newline; a jump needs as many newlines as lists climbed and removes that many directory parts; a mismatch reports two different counts |
| Outline.TailAt | bmc.py:254-283 | what follows the newlines decides the tail: the end comment finishes and any other comment is an error; `<ul>` and a newline descend; a next `<li>` whose list is met after `j` climbs jumps there, one directory part up per list, exactly when `j` newlines were counted, and is a level mismatch of those two counts otherwise; a next `<li>` whose list is never met is a level error |
| Outline.SkipNewlinesTo | bmc.py:255-257 | the skip over newlines stops at the first token that is not a newline |
| Outline.AscendsUnique | bmc.py:269-277 | the number of lists climbed is determined by the item's lists and the next item's list |
| Outline.EntryName | bmc.py:224-253 | a skipped item has no note; a numbered rule item's note is `{prefix} {category} {n}.md`; every note name starts with the volume prefix and ends `.md`; naming fails only when the title does |
| Outline.EntryStem | bmc.py:225-253 | a numbered rule's stem is the category and number; the stem fails exactly when it needs a title that fails |
| Outline.Run | bmc.py:204-284 | the items met are in document order, each an `<li>` with its link's href; a walk that passes met an item and closed after the last one |
| Outline.NoteOf | bmc.py:224-253 | a skipped item gives nothing; a note keeps the item's href and lies directly in the item's directory, named with the volume prefix and `.md` |
| Outline.Gather | bmc.py:203-253 | the notes are collected exactly when none failed; otherwise the first failure is the result |
| Outline.PresentNotSkipped | bmc.py:224 | no planned note has a skipped href |
| Outline.Compile | bmc.py:199-284 | the plan exists exactly when the walk reaches the end comment and every item can be named, and it is then the notes of the items in order |
| Outline.CompilePlan | bmc.py:224-253 | a compiled plan holds one entry per item that is not skipped, in order, none with a skipped href, and no more entries than tokens |
| Outline.RuleRangeBySection | bmc.py:210-211 | for `./SectionNNNN.html...` the rule range is exactly sections 10 to 27 |
| Outline.FlatOutline | bmc.py:199-284 | a flat list closed by the end comment compiles to one note per href that is not skipped, in list order, each directly in the root |
| Outline.NestedWalk | bmc.py:263-281 | a nested list: A opens its directory, B is written in it, and one newline before C climbs back to the root |
| Outline.NestedMismatch | bmc.py:279-281 | one newline too many before C stops the walk after B with a level mismatch of 2 against 1 |
| Outline.RuleNote | bmc.py:226-227 | a numbered rule that is not skipped is the note `{prefix} {category} {n}.md` in the current directory |
| Outline.ChapterWalk | bmc.py:210-213 | a chapter heading followed by a numbered rule: the walk reads both, the heading sets the category and the rule keeps it, in the same directory |
| Outline.RuleChapter | bmc.py:210-227 | in a flat list, a rule chapter's heading sets the category and its numbered rule is named `BMCv1 {category} {n}.md` in the root |
| Dom.FindFrom | bmc.py:342-344 | `find(id=)` finds nothing exactly when no descendant carries the id; otherwise the first match in document order, with no earlier sibling subtree holding the id |
| Dom.FoundInChild | bmc.py:342-344 | a match found below a child is the match the search inside that child finds, so the first-match property holds at every depth |
| Dom.FoundBeforeSiblings | bmc.py:342-344 | no earlier sibling of the found element carries the id |
| Ranges.PrevElement | bmc.py:320-321 | `find_previous_sibling()`: the nearest earlier element, passing over text and comments |
| Ranges.NextElement | bmc.py:326-327 | `find_next_sibling()`: the nearest later element |
| Ranges.FirstSibling | bmc.py:318-322 | the first element among the siblings |
| Ranges.LastSibling | bmc.py:324-328 | the last element among the siblings |
| Ranges.LastSiblingUnique | bmc.py:324-328 | every element of a sibling run reaches the same last sibling |
| Ranges.Lookup | bmc.py:341-344 | an anchor is looked up only when its id is truthy, and is an element carrying that id |
| Ranges.Choose | bmc.py:345-355 | no anchor found is an error; a missing start is the end's first sibling; a missing end is the start's last sibling, emitted too; anchors in different parents fall back the same way exactly when the end's text is "Rules" and are an error otherwise |
| Ranges.Walk | bmc.py:356-359 | the walk succeeds exactly when some later sibling equals the end node |
| Ranges.WalkToFirstCopy | bmc.py:356-359 | the walk stops at the first sibling structurally equal to the end, wherever the end itself is |
| Ranges.HtmlRange | bmc.py:330-362 | with no truthy id the whole soup is returned; with one, the no-anchor error happens exactly when neither id is found |
| Ranges.ByIdAgrees | bmc.py:342-359 | with the end found by id, the range is the siblings from the start, or the first sibling, up to the end, and equals the positional range |
| Ranges.BetweenIds | bmc.py:356-359 | between two ids of one parent, in order, the range is the siblings from the first up to the second |
| Ranges.RangesJoin | bmc.py:330-362 | ranges A to B and B to C concatenate to range A to C |
| Ranges.RulesFallback | bmc.py:350-355 | anchors in different parents: an end whose text is "Rules" gives the range with no end id, any other end the not-siblings error |
| Ranges.TailAgrees | bmc.py:345-361 | the range to the end of the siblings is right whenever no earlier sibling equals the last one |
| Ranges.EarlyCopyTruncates | bmc.py:356-361 | see Findings: a page ending in a second `<hr/>` loses its tail |
| Ranges.EmitByPosition | bmc.py:356-361 | the positional walk succeeds exactly when the start is at or before the end |
| Ranges.HtmlRangeByPosition | bmc.py:337-338 | with no truthy id the whole soup is returned |
| Ranges.BetweenByPosition | bmc.py:356-359 | by position, the range between two ids in order is the siblings from the first up to the second |
| Ranges.ToEnd | bmc.py:345-349 | by position, a range with no end runs to the last element of the siblings and emits it |
| Ranges.ByPositionTailJoin | bmc.py:345-361 | the range A to B followed by the range from B to the end is the range from A to the end |
| Anchors.Base | bmc.py:425 | the page of an href has no `#` and is a prefix of the href |
| Anchors.Fragment | bmc.py:425-426 | the fragment has no `#`, and is `vinaya` when the href has none |
| Anchors.PageAndFragment | bmc.py:425-426 | the page of an href is the whole href when it has no `#`, and otherwise the prefix ending just before its first `#`; the fragment is then the text after that `#` up to the next `#` or the end |
| Anchors.Pages | bmc.py:423-428 | every entry's page is listed, every listed page is an entry's, and none twice |
| Anchors.DocFor | bmc.py:423-427 | a fragment is a key exactly when some entry names it on the page |
| Anchors.DocForLastWins | bmc.py:427 | the last entry for a fragment is the one kept |
| Anchors.Scan | bmc.py:432-435 | the keys written are those already present plus `page#id` for each id; other keys keep their value |
| Anchors.ScanFindsLatest | bmc.py:430-435 | each id's key gets the target of the latest plan fragment at or before its last occurrence |
| Anchors.PageLinks | bmc.py:428-435 | a page contributes exactly when it has a URI and a `#vinaya` element, and every key it writes belongs to it |
| Anchors.PageLinksResolve | bmc.py:428-435 | a page's bare href maps to its unfragmented note or its URI, and every id to the latest fragment's note |
| Anchors.OneOwner | bmc.py:431-435 | a key belongs to one page only, since pages have no `#` |
| Anchors.AddPages | bmc.py:428-435 | merging the pages succeeds exactly when every page is reachable |
| Anchors.AddPagesKeeps | bmc.py:428-435 | a later page never overwrites the keys of an earlier one |
| Anchors.PageKeys | bmc.py:429-435 | one page contributes exactly its own href and `page#x` for each id `x` on it |
| Anchors.AddPagesDomain | bmc.py:428-435 | merging pages adds exactly their keys to what was there, and nothing else |
| Anchors.BuildLinkMap | bmc.py:419-435 | a second build is refused; a first build succeeds exactly when every entry's page is reachable |
| Anchors.LinkMapResolves | bmc.py:419-435 | every page of the plan maps to its bare target, and every id on it to the latest fragment's note |
| Anchors.LinkMapKeys | bmc.py:419-435 | the index holds exactly the hrefs of the plan's pages and `page#x` for the ids `x` on them, so no other link is rewritten |
| Anchors.SectionLinkLeadsToNote | bmc.py:423-435 | a link to the id a note starts at leads to that note |
| Anchors.SecondBuildFails | bmc.py:421-422 | once built from a non-empty plan, the index refuses another build |
| Execute.FragmentOf | bmc.py:442-443 | the start id exists exactly when the href has a `#`, and agrees with the anchor index's fragment |
| Execute.RangeOf | bmc.py:437-446 | the page and start id come from the entry; the end id exists exactly when the next entry's href starts with the page; a next entry on the page without `#` is an error exactly then |
| Execute.Section | bmc.py:437-448 | a next entry on the page without `#` is an error; an unfragmented entry with no next entry on its page is the whole page |
| Execute.NextStartsWhereThisEnds | bmc.py:442-446 | the end id of one note is the start id of the next |
| Execute.WholePage | bmc.py:437-448 | a page with a single unfragmented entry is one note holding the whole page |
| Execute.LastTwoTile | bmc.py:437-448 | the last two notes cut from one page together hold the page from the first one's id to the end of its siblings |

## Left out

- Fetching and caching pages (`cached_get`, `cached_soup`) is not modelled. The fetched `#vinaya` element is the parameter `fetch`.
- `cooked_soup` is not modelled. It rewrites the links of a page through the anchor index before the range is cut.
- `forumlate_plan` is not modelled. It locates the first `<li>` after `#contents`; the compiler takes that position as `start`.
- Writing notes is not modelled: `write_dhammatalks_html_to_md_file`, `markdownify`, `mkdir`, and the argument parsing of the main block.
- `renderhtml` and `str(element)` are not modelled. They are the abstract functions of `Ranges.Printer`, and their `os.path.relpath` link rewriting is not modelled either. Both `cooked_soup` (bmc.py:305-316) and `renderhtml` (bmc.py:330-335) rewrite `href`s in place on the tree that the `@cache`d `cached_soup`/`cooked_soup` return, so the rewritten links persist into later calls for the same page. The model treats each page as an immutable tree and does not represent that sharing.
- Hrefs.HrefToUri: `urljoin` is modelled only for the `./name` form the site uses. It becomes the table of contents directory plus `name`; `../` and query strings are not normalised.
- Labels.ChapterDir: for a digit-word label, only the `Ch{n}_ ` prefix of the name is stated, not the title after it. `Labels.SubdirName` inherits this.
- Labels.SekhiyaPair: for a dual Sekhiya label, only the `Sekhiya ` prefix is stated, not the two rule names after it. `Labels.NoteTitle` inherits this.
- Labels.SubdirName: `unidecode` is the abstract `translit` of the tables.
- RuleLinks.Parse: `\d` and `str.isdigit` are modelled on ASCII digits only. Python also accepts other Unicode digits.
- RuleLinks.RuleLink: `SCUID_SEGMENT_PATHS` is a parameter, with segment paths as strings.
- Outline.Child: `Path.joinpath` splits a name at `/` into several parts, and an absolute name replaces the whole path. The model appends the name as one part. A sub-directory name or transliterated label containing `/` (`unidecode` turns `½` into `1/2`) therefore gives a directory whose later climbs differ from the source's.
- Outline.NoteOf: the note path is the directory plus the file name as one part, so a file name containing `/` is not split into sub-directories as `joinpath` would split it.
- Outline.Run: each token's `.text` is given, not computed from its subtree. Lists are compared by an identity number standing for Beautiful Soup's structural comparison of `<ul>` elements.
- Outline.Compile: distinctness of the planned note paths is not proved. It depends on the contents of the real table of contents.
- Ranges.Walk: comments and text are different node kinds. Beautiful Soup would compare a comment equal to a text node with the same characters.
- Execute.Section: its range is cut by `Ranges.HtmlRangeByPosition`, the corrected range of the finding below, not by `Ranges.HtmlRange` as written.

## Findings

| source | as written | input that shows it | evidently intended | confidence | as-written member | corrected member |
|---|---|---|---|---|---|---|
| bmc.py:356-361 | the walk stops at the first sibling that is structurally equal (`!=` on tags) to the end node | a page `<div><p id="s">a</p><hr/><p>b</p><hr/></div>` with start id `s` and no end id: the walk stops at the first `<hr/>` and then emits the last one, so `<p>b</p>` and one `<hr/>` are lost | the walk runs by position, from the start's index to the end's index, emitting the end when it is included | not executed; proved on the model | Ranges.EarlyCopyTruncates | Ranges.ByPositionTailJoin |
