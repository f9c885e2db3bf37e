/** The rule-link parser (`get_rule_link`): a link into one of the rule
    sections of the book names a Patimokkha rule, whose SuttaCentral
    segment key is looked up in an external table (`segments`). */
module RuleLinks {
  import opened Wrappers
  import opened Strings

  /** The rule classes a link's fragment can name. */
  datatype Code = Pr | Sg | Ay | NP | Pc | Pd | Sk

  /** How the class is spelt in the fragment. */
  function CodeText(c: Code): (s: string)
    ensures |s| == 2
  {
    match c
    case Pr => "Pr"
    case Sg => "Sg"
    case Ay => "Ay"
    case NP => "NP"
    case Pc => "Pc"
    case Pd => "Pd"
    case Sk => "Sk"
  }

  /** How the class is spelt in a segment key. */
  function KeyPart(c: Code): (s: string)
    ensures |s| == 2 && 'a' <= s[0] <= 'z' && 'a' <= s[1] <= 'z'
  {
    match c
    case Pr => "pj"
    case Sg => "ss"
    case Ay => "ay"
    case NP => "np"
    case Pc => "pc"
    case Pd => "pd"
    case Sk => "sk"
  }

  /** The sections each class of rule is discussed in. */
  predicate SectionFits(c: Code, section: nat) {
    match c
    case Pr => section == 10
    case Sg => section == 11
    case Ay => section == 12
    case NP => 13 <= section <= 15
    case Pc => 16 <= section <= 24
    case Pd => section == 25
    case Sk => section == 26
  }

  /** What the pattern captures: section number, rule class, rule number. */
  datatype RuleRef = RuleRef(section: nat, code: Code, number: nat)

  datatype RuleError = SectionMismatch(code: Code, section: nat)

  /** The class named by the first two characters, if any. */
  function ParseCode(s: string): (r: Option<Code>)
    ensures r.Some? ==> |s| >= 2 && s[..2] == CodeText(r.value)
    ensures forall c :: |s| >= 2 && s[..2] == CodeText(c) ==> r == Some(c)
  {
    if |s| < 2 then None
    else if s[..2] == "Pr" then Some(Pr)
    else if s[..2] == "Sg" then Some(Sg)
    else if s[..2] == "Ay" then Some(Ay)
    else if s[..2] == "NP" then Some(NP)
    else if s[..2] == "Pc" then Some(Pc)
    else if s[..2] == "Pd" then Some(Pd)
    else if s[..2] == "Sk" then Some(Sk)
    else None
  }

  /** The digits at the head of `s` and what follows them. */
  function Digits(s: string): (r: (string, string))
    ensures r.0 + r.1 == s && |r.0| == DigitRun(s)
    ensures forall i :: 0 <= i < |r.0| ==> IsDigit(r.0[i])
    ensures |r.1| == 0 || !IsDigit(r.1[0])
  {
    (s[..DigitRun(s)], s[DigitRun(s)..])
  }

  /** After `.htm`: an optional `l`, then `#`; the fragment that follows. */
  function Anchor(s: string): (r: Option<string>)
    ensures r.Some? ==> |r.value| < |s|
  {
    if StartsWith(s, "l#") then Some(s[2..])
    else if StartsWith(s, "#") then Some(s[1..])
    else None
  }

  /** `(Pr|Sg|Ay|NP|Pc|Pd|Sk)(\d+)` at the head of a fragment. */
  function ParseRule(frag: string): Option<(Code, nat)> {
    match ParseCode(frag)
    case None => None
    case Some(c) =>
      var (num, _) := Digits(frag[2..]);
      if |num| == 0 then None else Some((c, DigitsValue(num)))
  }

  /** What follows `./Section`: digits, `.htm`, the anchor and the rule. */
  function ParseSection(s: string): Option<RuleRef> {
    var (sec, after) := Digits(s);
    if |sec| == 0 || !StartsWith(after, ".htm") then None
    else match Anchor(after[4..])
      case None => None
      case Some(frag) =>
        match ParseRule(frag)
        case None => None
        case Some((c, n)) => Some(RuleRef(DigitsValue(sec), c, n))
  }

  /** `re.match(r'\./Section(\d+)\.html?#(Pr|Sg|Ay|NP|Pc|Pd|Sk)(\d+)', href)`:
      anchored at the start only, with ASCII digits. */
  function Parse(href: string): (r: Option<RuleRef>)
    ensures r.Some? ==> StartsWith(href, "./Section")
  {
    if !StartsWith(href, "./Section") then None else ParseSection(href[9..])
  }

  /** The SuttaCentral segment key of a rule. */
  function RuleKey(c: Code, n: nat): string {
    "pli-tv-bu-pm-" + KeyPart(c) + NatToString(n)
  }

  /** `get_rule_link`: None unless the href names a rule; a rule class
      named in a section not its own is an error; otherwise the table's
      entry for the rule's key, if any. */
  function RuleLink(href: string, segments: map<string, string>): (r: Result<Option<string>, RuleError>)
    ensures Parse(href).None? ==> r == Success(None)
    ensures Parse(href).Some? ==>
      (r.Failure? <==> !SectionFits(Parse(href).value.code, Parse(href).value.section))
    ensures r.Success? && r.value.Some? ==>
      var key := RuleKey(Parse(href).value.code, Parse(href).value.number);
      key in segments && r.value.value == segments[key]
    ensures r.Success? && Parse(href).Some? && RuleKey(Parse(href).value.code, Parse(href).value.number) in segments ==>
      r.value.Some?
  {
    match Parse(href)
    case None => Success(None)
    case Some(RuleRef(section, c, n)) =>
      if !SectionFits(c, section) then Failure(SectionMismatch(c, section))
      else
        var key := RuleKey(c, n);
        if key in segments then Success(Some(segments[key])) else Success(None)
  }

  /** The link text a rule is written as, with `l` in `.html` optional and
      anything after the rule number that is not a digit. */
  function RuleHref(sec: string, html: bool, c: Code, num: string, rest: string): string {
    "./Section" + sec + (if html then ".html#" else ".htm#") + CodeText(c) + num + rest
  }

  /** A rule link is `./Section`, the section part and the fragment. */
  lemma RuleHrefParts(sec: string, html: bool, c: Code, num: string, rest: string)
    ensures RuleHref(sec, html, c, num, rest)
      == "./Section" + (sec + (if html then ".html#" else ".htm#") + (CodeText(c) + num + rest))
  {
  }

  lemma ParseRuleOf(c: Code, num: string, rest: string)
    requires IsDigits(num) && (|rest| == 0 || !IsDigit(rest[0]))
    ensures ParseRule(CodeText(c) + num + rest) == Some((c, DigitsValue(num)))
  {
    var frag := CodeText(c) + num + rest;
    assert frag[..2] == CodeText(c);
    assert frag[2..] == num + rest;
    DigitRunOfNumeral(num, rest);
  }

  lemma AnchorOf(html: bool, tail: string)
    ensures Anchor((if html then ".html#" else ".htm#")[4..] + tail) == Some(tail)
  {
    var anchor := (if html then ".html#" else ".htm#")[4..] + tail;
    if html {
      assert anchor == "l#" + tail && anchor[..2] == "l#";
    } else {
      assert anchor == "#" + tail && anchor[0] == '#' && anchor[..1] == "#";
    }
  }

  /** Cutting a concatenation inside its first part. */
  lemma CutConcat(a: string, b: string, n: nat)
    requires n <= |a|
    ensures (a + b)[..n] == a[..n] && (a + b)[n..] == a[n..] + b
  {
  }

  lemma ParseSectionOf(sec: string, html: bool, tail: string)
    requires IsDigits(sec) && ParseRule(tail).Some?
    ensures ParseSection(sec + (if html then ".html#" else ".htm#") + tail)
      == Some(RuleRef(DigitsValue(sec), ParseRule(tail).value.0, ParseRule(tail).value.1))
  {
    var dot := if html then ".html#" else ".htm#";
    var s := sec + dot + tail;
    assert s == sec + (dot + tail);
    DigitRunOfNumeral(sec, dot + tail);
    assert Digits(s) == (sec, dot + tail);
    assert dot[..4] == ".htm";
    CutConcat(dot, tail, 4);
    AnchorOf(html, tail);
  }

  /** Every well-formed rule link parses back to its parts; leading zeros
      in either number do not matter. */
  lemma ParseRuleHref(sec: string, html: bool, c: Code, num: string, rest: string)
    requires IsDigits(sec) && IsDigits(num)
    requires |rest| == 0 || !IsDigit(rest[0])
    ensures Parse(RuleHref(sec, html, c, num, rest)) == Some(RuleRef(DigitsValue(sec), c, DigitsValue(num)))
  {
    var dot := if html then ".html#" else ".htm#";
    var tail := CodeText(c) + num + rest;
    var href := RuleHref(sec, html, c, num, rest);
    RuleHrefParts(sec, html, c, num, rest);
    assert href[..9] == "./Section";
    assert href[9..] == sec + dot + tail;
    ParseRuleOf(c, num, rest);
    ParseSectionOf(sec, html, tail);
  }

  /** The pieces of a fragment that names a rule. */
  lemma RuleParts(frag: string, c: Code, n: nat) returns (num: string, rest: string)
    requires ParseRule(frag) == Some((c, n))
    ensures IsDigits(num) && (|rest| == 0 || !IsDigit(rest[0]))
    ensures frag == CodeText(c) + num + rest && n == DigitsValue(num)
  {
    num, rest := Digits(frag[2..]).0, Digits(frag[2..]).1;
    assert frag == frag[..2] + frag[2..];
  }

  /** What `Anchor` accepts is the rest of `.htm#` or `.html#` and the fragment. */
  lemma AnchorParts(t: string, frag: string) returns (html: bool)
    requires Anchor(t) == Some(frag)
    ensures t == (if html then ".html#" else ".htm#")[4..] + frag
  {
    html := StartsWith(t, "l#");
    if html {
      assert t == t[..2] + t[2..];
    } else {
      assert t == t[..1] + t[1..];
    }
  }

  /** The pieces after `./Section` of a link that names a rule. */
  lemma SectionParts(s: string, rule: RuleRef) returns (sec: string, html: bool, frag: string)
    requires ParseSection(s) == Some(rule)
    ensures IsDigits(sec) && rule.section == DigitsValue(sec)
    ensures s == sec + (if html then ".html#" else ".htm#") + frag
    ensures ParseRule(frag) == Some((rule.code, rule.number))
  {
    var after;
    sec, after := Digits(s).0, Digits(s).1;
    var t := after[4..];
    frag := Anchor(t).value;
    html := AnchorParts(t, frag);
    var dot := if html then ".html#" else ".htm#";
    assert after == after[..4] + t;
    assert after == dot[..4] + dot[4..] + frag;
    assert dot == dot[..4] + dot[4..];
  }

  /** Only a well-formed rule link parses: whatever names a rule is
      `./Section`, digits, `.htm` or `.html`, `#`, the class, digits and a
      tail that does not start with a digit, and the rule is read off those
      parts. With `ParseRuleHref` this characterises the pattern. */
  lemma ParseSound(href: string, rule: RuleRef)
    requires Parse(href) == Some(rule)
    ensures exists sec, html, num, rest ::
      && IsDigits(sec) && IsDigits(num) && (|rest| == 0 || !IsDigit(rest[0]))
      && href == RuleHref(sec, html, rule.code, num, rest)
      && rule.section == DigitsValue(sec) && rule.number == DigitsValue(num)
  {
    var sec, html, frag := SectionParts(href[9..], rule);
    var num, rest := RuleParts(frag, rule.code, rule.number);
    var dot := if html then ".html#" else ".htm#";
    assert href == "./Section" + href[9..];
    RuleHrefParts(sec, html, rule.code, num, rest);
  }

  /** A link that does not start `./Section` names no rule. */
  lemma NotARuleLink(href: string, segments: map<string, string>)
    requires !StartsWith(href, "./Section")
    ensures RuleLink(href, segments) == Success(None)
  {
  }

  lemma KeyPartInjective(c: Code, d: Code)
    requires KeyPart(c) == KeyPart(d)
    ensures c == d
  {
    assert KeyPart(c)[0] == KeyPart(d)[0] && KeyPart(c)[1] == KeyPart(d)[1];
  }

  /** Distinct rules have distinct keys. */
  lemma RuleKeyInjective(c: Code, n: nat, d: Code, m: nat)
    requires RuleKey(c, n) == RuleKey(d, m)
    ensures c == d && n == m
  {
    var p := "pli-tv-bu-pm-";
    var u, v := KeyPart(c) + NatToString(n), KeyPart(d) + NatToString(m);
    assert RuleKey(c, n) == p + u && RuleKey(d, m) == p + v;
    assert u == v by {
      assert (p + u)[|p|..] == u;
      assert (p + v)[|p|..] == v;
    }
    assert KeyPart(c) == u[..2] && KeyPart(d) == v[..2];
    KeyPartInjective(c, d);
    assert NatToString(n) == u[2..] && NatToString(m) == v[2..];
  }

  /** Each rule section from 10 to 26 admits exactly one class, and no
      other section admits any. */
  lemma SectionsPartition(section: nat)
    ensures 10 <= section <= 26 ==> exists c :: SectionFits(c, section)
    ensures forall c, d :: SectionFits(c, section) && SectionFits(d, section) ==> c == d
    ensures forall c :: SectionFits(c, section) ==> 10 <= section <= 26
  {
    if 10 <= section <= 26 {
      if section == 10 { assert SectionFits(Pr, section); }
      else if section == 11 { assert SectionFits(Sg, section); }
      else if section == 12 { assert SectionFits(Ay, section); }
      else if section <= 15 { assert SectionFits(NP, section); }
      else if section <= 24 { assert SectionFits(Pc, section); }
      else if section == 25 { assert SectionFits(Pd, section); }
      else { assert SectionFits(Sk, section); }
    }
  }
}
