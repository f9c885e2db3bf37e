/** Names derived from a table of contents link: the sub-directory an
    entry with children opens (`link_to_subdir_name`) and the title of a
    note (`link_to_note_title`). Link text is passed through the
    transliteration function of the tables, standing for `unidecode`. */
module Labels {
  import opened Wrappers
  import opened Strings

  /** The hand-written naming tables, keyed by table of contents href, and
      the transliteration applied to link text. */
  datatype Tables = Tables(
    subdirFor: map<string, string>,   // TOC_URL_TO_SUBDIR
    skip: set<string>,                // TOC_URLS_TO_SKIP
    titleFor: map<string, string>,    // URL_TITLE_OVERRIDES
    translit: string -> string)       // unidecode

  /** An `<a>` element of the table of contents: its href and its text. */
  datatype Link = Link(href: string, text: string)

  datatype LabelError = NoSecondSekhiya(text: string)

  const EnglishDigits: seq<string> := ["One", "Two", "Three", "Four", "Five", "Six", "Seven", "Eight", "Nine"]

  /** Python's `list.index`: the first position of `x`, if any. */
  function IndexOf(xs: seq<string>, x: string): (r: Option<nat>)
    ensures r.Some? ==> r.value < |xs| && xs[r.value] == x
    ensures r.Some? ==> forall j :: 0 <= j < r.value ==> xs[j] != x
    ensures r.None? <==> x !in xs
  {
    if |xs| == 0 then None
    else if xs[0] == x then Some(0)
    else match IndexOf(xs[1..], x)
      case None => None
      case Some(i) => Some(i + 1)
  }

  /** The stripped, transliterated link text both naming functions start from. */
  function Label(t: Tables, link: Link): string {
    t.translit(Strip(link.text))
  }

  /** The sub-directory name for an entry that has children: the table entry
      for its href if there is one; otherwise the label, where a label of
      the form `Three: The ... Chapter` becomes `Ch3_ ...` and any other
      `head: title` keeps only the title. A computed name never holds a
      colon. */
  function SubdirName(t: Tables, link: Link): (r: string)
    ensures link.href in t.subdirFor ==> r == t.subdirFor[link.href]
    ensures link.href !in t.subdirFor ==> ':' !in r
    ensures link.href !in t.subdirFor && ':' !in Label(t, link) ==> '&' !in r
    ensures link.href !in t.subdirFor && ':' in Label(t, link) ==>
      forall n :: 0 <= n < 9 && Split(Label(t, link), ":")[0] == EnglishDigits[n] ==>
        StartsWith(r, "Ch" + NatToString(n + 1) + "_ ")
  {
    if link.href in t.subdirFor then t.subdirFor[link.href]
    else
      var ret := Label(t, link);
      if ':' !in ret then
        ReplaceRemovesChar(ret, '&', "and");
        NoColonAfterReplace(ret, "&", "and");
        Replace(ret, "&", "and")
      else
        ColonDirChapter(ret);
        ColonDir(ret)
  }

  /** The computed sub-directory name: without a colon, the label with `&`
      spelled `and`; with one and a head that is no English digit word, the
      segment after the first colon, white space stripped. */
  lemma SubdirNameValue(t: Tables, link: Link) returns (h: string, seg: string, tail: string)
    ensures link.href !in t.subdirFor && ':' !in Label(t, link) ==>
      SubdirName(t, link) == Replace(Label(t, link), "&", "and")
    ensures link.href !in t.subdirFor && ':' in Label(t, link) ==>
      && Label(t, link) == h + ":" + seg + tail
      && ':' !in h && ':' !in seg && (|tail| == 0 || tail[0] == ':')
      && (h !in EnglishDigits ==> SubdirName(t, link) == Strip(seg))
      && (h !in EnglishDigits ==> exists a: nat, b: nat :: TrimmedBy(seg, SubdirName(t, link), a, b))
  {
    h, seg, tail := "", "", "";
    var ret := Label(t, link);
    if link.href !in t.subdirFor && ':' in ret {
      h, seg, tail := ColonDirTitle(ret);
      assert SubdirName(t, link) == ColonDir(ret);
    }
  }

  /** The sub-directory name for a label with a colon: `Ch<n>_ ...` when the
      head is an English digit (`ColonDirChapter`), otherwise the stripped
      title. */
  function ColonDir(name: string): (r: string)
    requires ':' in name
    ensures ':' !in r
  {
    var words := Split(name, ":");
    ContainsChar(name, ':');
    SplitHasTwoPiecesIff(name, ":");
    SplitPiecesAvoidChar(name, ':');
    assert ':' !in words[1];
    match IndexOf(EnglishDigits, words[0])
    case None =>
      NoColonAfterStrip(words[1]);
      Strip(words[1])
    case Some(i) => ChapterDir(i + 1, words[1])
  }

  /** A head that is the English word for `n + 1` gives `Ch<n + 1>_ ...`. */
  lemma ColonDirChapter(name: string)
    requires ':' in name
    ensures forall n :: 0 <= n < 9 && Split(name, ":")[0] == EnglishDigits[n] ==>
      StartsWith(ColonDir(name), "Ch" + NatToString(n + 1) + "_ ")
  {
    var words := Split(name, ":");
    ContainsChar(name, ':');
    SplitHasTwoPiecesIff(name, ":");
    SplitPiecesAvoidChar(name, ':');
    DigitIndex();
    forall n | 0 <= n < 9 && words[0] == EnglishDigits[n]
      ensures StartsWith(ColonDir(name), "Ch" + NatToString(n + 1) + "_ ")
    {
      assert IndexOf(EnglishDigits, words[0]) == Some(n);
      assert ColonDir(name) == ChapterDir(n + 1, words[1]);
    }
  }

  /** A label with a colon is its head, the first colon, the segment up to
      the next colon, and the rest (empty, or from that next colon on): the
      first two pieces of `split(':')`. */
  lemma ColonPieces(s: string) returns (h: string, seg: string, tail: string)
    requires ':' in s
    ensures s == h + ":" + seg + tail
    ensures ':' !in h && ':' !in seg && (|tail| == 0 || tail[0] == ':')
    ensures |Split(s, ":")| > 1 && Split(s, ":")[0] == h && Split(s, ":")[1] == seg
  {
    assert ":" == [':'];
    SplitAtChar(s, ':');
    SplitPiecesAvoidChar(s, ':');
    var p := Split(s, ":");
    h, seg := p[0], p[1];
    var rest := p[1..];
    tail := if |rest| == 1 then "" else ":" + Join(rest[1..], ":");
    assert rest[0] == seg;
    assert Join(rest, ":") == seg + tail;
  }

  /** Under a head that is no English digit word, the name is the segment
      after the first colon with white space stripped. */
  lemma ColonDirTitle(name: string) returns (h: string, seg: string, tail: string)
    requires ':' in name
    ensures name == h + ":" + seg + tail
    ensures ':' !in h && ':' !in seg && (|tail| == 0 || tail[0] == ':')
    ensures h !in EnglishDigits ==> ColonDir(name) == Strip(seg)
    ensures h !in EnglishDigits ==> exists a: nat, b: nat :: TrimmedBy(seg, ColonDir(name), a, b)
  {
    h, seg, tail := ColonPieces(name);
    if h !in EnglishDigits {
      assert IndexOf(EnglishDigits, h).None?;
      assert ColonDir(name) == Strip(seg);
    }
  }

  lemma EnglishDigitsDistinct()
    ensures forall m, n :: 0 <= m < n < |EnglishDigits| ==> EnglishDigits[m] != EnglishDigits[n]
  {
  }

  /** Each English digit word is found at its own position. */
  lemma DigitIndex()
    ensures forall n :: 0 <= n < |EnglishDigits| ==> IndexOf(EnglishDigits, EnglishDigits[n]) == Some(n)
  {
    EnglishDigitsDistinct();
  }

  /** `f"Ch{n}_ {title}"` with ` Chapter` and ` The ` removed from the title. */
  function ChapterDir(n: nat, words: string): (r: string)
    requires ':' !in words
    ensures StartsWith(r, "Ch" + NatToString(n) + "_ ")
    ensures ':' !in r
  {
    var title := Strip(Replace(Replace(words, " Chapter", ""), " The ", ""));
    NoColonAfterReplace(words, " Chapter", "");
    NoColonAfterReplace(Replace(words, " Chapter", ""), " The ", "");
    NoColonAfterStrip(Replace(Replace(words, " Chapter", ""), " The ", ""));
    var head := "Ch" + NatToString(n) + "_ ";
    StartsWithConcat(head, title, head);
    assert ':' !in head;
    head + title
  }

  lemma NoColonAfterReplace(s: string, pat: string, repl: string)
    requires |pat| > 0 && ':' !in s && ':' !in repl
    ensures ':' !in Replace(s, pat, repl)
  {
    if ':' in Replace(s, pat, repl) {
      ReplaceChars(s, pat, repl, ':');
    }
  }

  lemma NoColonAfterStrip(s: string)
    requires ':' !in s
    ensures ':' !in Strip(s)
  {
    if ':' in Strip(s) {
      StripKeepsChars(s, ':');
    }
  }

  /** A dual Sekhiya label `A [B]` (its trailing `]` removed) becomes
      `Sekhiya A and B`; without ` [` there is no second rule. */
  function SekhiyaPair(inner: string): (r: Result<string, LabelError>)
    ensures r.Failure? <==> !Contains(inner, " [")
    ensures r.Success? ==> StartsWith(r.value, "Sekhiya ")
  {
    var parts := Split(inner, " [");
    SplitHasTwoPiecesIff(inner, " [");
    if |parts| < 2 then Failure(NoSecondSekhiya(inner + "]"))
    else
      StartsWithConcat("Sekhiya ", parts[0] + " and " + parts[1], "Sekhiya ");
      assert "Sekhiya " + parts[0] + " and " + parts[1] == "Sekhiya " + (parts[0] + " and " + parts[1]);
      Success("Sekhiya " + parts[0] + " and " + parts[1])
  }

  /** A label outside the rule index: `&` spelled `and` when there is no
      colon, else the stripped text after the first colon. */
  function PlainTitle(shown: string): (r: string)
    ensures ':' !in r && (':' !in shown ==> '&' !in r)
  {
    if ':' !in shown then
      ReplaceRemovesChar(shown, '&', "and");
      NoColonAfterReplace(shown, "&", "and");
      Replace(shown, "&", "and")
    else
      ContainsChar(shown, ':');
      SplitHasTwoPiecesIff(shown, ":");
      SplitPiecesAvoidChar(shown, ':');
      NoColonAfterStrip(Split(shown, ":")[1]);
      Strip(Split(shown, ":")[1])
  }

  /** Without a colon the title is the label with `&` spelled `and`; with
      one it is the segment after the first colon, white space stripped. */
  lemma PlainTitleValue(shown: string) returns (h: string, seg: string, tail: string)
    ensures ':' !in shown ==> PlainTitle(shown) == Replace(shown, "&", "and")
    ensures ':' in shown ==>
      && shown == h + ":" + seg + tail
      && ':' !in h && ':' !in seg && (|tail| == 0 || tail[0] == ':')
      && PlainTitle(shown) == Strip(seg)
      && exists a: nat, b: nat :: TrimmedBy(seg, PlainTitle(shown), a, b)
  {
    h, seg, tail := "", "", "";
    if ':' in shown {
      h, seg, tail := ColonPieces(shown);
      assert PlainTitle(shown) == Strip(seg);
    }
  }

  /** The title of a note: the override for its href if there is one;
      otherwise a dual Sekhiya label `A [B]` becomes `Sekhiya A and B`, a
      rule index entry (href under `./Section0030.html`) gets ` Rules`
      appended, a label without a colon has `&` spelled `and`, and any other
      `head: title` keeps the stripped title. A dual Sekhiya label without
      ` [` is an error (the source's IndexError). */
  function NoteTitle(t: Tables, link: Link): (r: Result<string, LabelError>)
    ensures link.href in t.titleFor ==> r == Success(t.titleFor[link.href])
    ensures r.Failure? <==>
      link.href !in t.titleFor && EndsWith(Label(t, link), "]")
      && !Contains(Label(t, link)[..|Label(t, link)| - 1], " [")
    ensures r.Success? && link.href !in t.titleFor && EndsWith(Label(t, link), "]") ==>
      StartsWith(r.value, "Sekhiya ")
    ensures link.href !in t.titleFor && !EndsWith(Label(t, link), "]") && StartsWith(link.href, "./Section0030.html") ==>
      r == Success(Label(t, link) + " Rules")
    ensures link.href !in t.titleFor && !EndsWith(Label(t, link), "]") && !StartsWith(link.href, "./Section0030.html") ==>
      r.Success? && ':' !in r.value && (':' !in Label(t, link) ==> '&' !in r.value)
  {
    if link.href in t.titleFor then Success(t.titleFor[link.href])
    else
      var ret := Label(t, link);
      if EndsWith(ret, "]") then SekhiyaPair(ret[..|ret| - 1])
      else if StartsWith(link.href, "./Section0030.html") then Success(ret + " Rules")
      else Success(PlainTitle(ret))
  }

  /** The title of a note outside the overrides, the Sekhiya pairs and the
      rule index: the label with `&` spelled `and` when it has no colon,
      otherwise the segment after the first colon, white space stripped. */
  lemma NoteTitleValue(t: Tables, link: Link) returns (h: string, seg: string, tail: string)
    ensures
      var ret := Label(t, link);
      link.href !in t.titleFor && !EndsWith(ret, "]") && !StartsWith(link.href, "./Section0030.html") ==>
        && (':' !in ret ==> NoteTitle(t, link) == Success(Replace(ret, "&", "and")))
        && (':' in ret ==>
          && ret == h + ":" + seg + tail
          && ':' !in h && ':' !in seg && (|tail| == 0 || tail[0] == ':')
          && NoteTitle(t, link) == Success(Strip(seg))
          && exists a: nat, b: nat :: TrimmedBy(seg, NoteTitle(t, link).value, a, b))
  {
    var ret := Label(t, link);
    h, seg, tail := PlainTitleValue(ret);
  }

}
