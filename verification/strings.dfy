/** The few Python `str` operations the converter relies on, with the
    semantics CPython gives them: `startswith`, `in`, `split`, `join`,
    `replace`, `strip`, `isdigit`, `int`/`str` on decimal numerals, slicing
    past the end, and the `<` comparison of strings. */
module Strings {

  predicate StartsWith(s: string, prefix: string) {
    |prefix| <= |s| && s[..|prefix|] == prefix
  }

  lemma StartsWithConcat(a: string, b: string, prefix: string)
    requires StartsWith(a, prefix)
    ensures StartsWith(a + b, prefix)
  {
    assert (a + b)[..|prefix|] == a[..|prefix|];
  }

  /** Prefixes that begin with different characters exclude each other. */
  lemma DistinctHeads(s: string, p: string, q: string)
    requires StartsWith(s, p) && |p| > 0 && |q| > 0 && p[0] != q[0]
    ensures !StartsWith(s, q)
  {
    assert s[0] == s[..|p|][0];
  }

  predicate EndsWith(s: string, suffix: string) {
    |suffix| <= |s| && s[|s| - |suffix|..] == suffix
  }

  /** `sub` occurs in `s` at position `i`. */
  predicate OccursAt(s: string, sub: string, i: nat) {
    i + |sub| <= |s| && s[i..i + |sub|] == sub
  }

  /** Python's `sub in s`. */
  predicate Contains(s: string, sub: string) {
    exists i: nat | i <= |s| :: OccursAt(s, sub, i)
  }

  lemma ContainsChar(s: string, c: char)
    ensures Contains(s, [c]) <==> c in s
  {
    var sub := [c];
    if c in s {
      var i :| 0 <= i < |s| && s[i] == c;
      assert s[i..i + 1] == sub;
      assert OccursAt(s, sub, i);
    }
    if Contains(s, sub) {
      var i: nat :| i <= |s| && OccursAt(s, sub, i);
      assert s[i..i + 1][0] == s[i];
    }
  }

  /** Every character of a substring is a character of the whole. */
  lemma ContainsKeepsChars(s: string, sub: string, c: char)
    requires Contains(s, sub) && c in sub
    ensures c in s
  {
    var i: nat :| i <= |s| && OccursAt(s, sub, i);
    var k :| 0 <= k < |sub| && sub[k] == c;
    assert s[i + k] == sub[k];
  }

  /** Python's `s[n:]`: slicing past the end gives the empty string. */
  function Drop(s: string, n: nat): (r: string)
    ensures n <= |s| ==> |r| == |s| - n && r == s[n..]
    ensures n >= |s| ==> r == ""
  {
    if n <= |s| then s[n..] else ""
  }

  // ---------------------------------------------------------------------------
  // split and join

  /** Python's `s.split(sep)` for a non-empty separator: the pieces between
      the non-overlapping occurrences of `sep`, scanning left to right. */
  function Split(s: string, sep: string): (r: seq<string>)
    requires |sep| > 0
    ensures |r| >= 1
    decreases |s|
  {
    if StartsWith(s, sep) then [""] + Split(s[|sep|..], sep)
    else if |s| == 0 then [""]
    else
      var rest := Split(s[1..], sep);
      [[s[0]] + rest[0]] + rest[1..]
  }

  /** Python's `sep.join(pieces)`. */
  function Join(pieces: seq<string>, sep: string): string
  {
    if |pieces| == 0 then ""
    else if |pieces| == 1 then pieces[0]
    else pieces[0] + sep + Join(pieces[1..], sep)
  }

  lemma JoinConsChar(c: char, rest: seq<string>, sep: string)
    requires |rest| >= 1
    ensures Join([[c] + rest[0]] + rest[1..], sep) == [c] + Join(rest, sep)
  {
    var pieces := [[c] + rest[0]] + rest[1..];
    if |rest| > 1 {
      assert pieces[1..] == rest[1..];
    }
  }

  /** Joining the pieces of a split with the same separator gives the
      original string back. */
  lemma {:induction false} JoinSplit(s: string, sep: string)
    requires |sep| > 0
    ensures Join(Split(s, sep), sep) == s
    decreases |s|
  {
    if StartsWith(s, sep) {
      JoinSplit(s[|sep|..], sep);
      JoinSplitAtSep(s, sep);
    } else if |s| > 0 {
      JoinSplit(s[1..], sep);
      JoinSplitAtChar(s, sep);
    }
  }

  /** One step of `JoinSplit` where `s` starts with the separator. */
  lemma JoinSplitAtSep(s: string, sep: string)
    requires |sep| > 0 && StartsWith(s, sep)
    requires Join(Split(s[|sep|..], sep), sep) == s[|sep|..]
    ensures Join(Split(s, sep), sep) == s
  {
    var tail := s[|sep|..];
    assert Split(s, sep) == [""] + Split(tail, sep);
    JoinConsEmpty(Split(tail, sep), sep);
    assert s == s[..|sep|] + tail;
  }

  lemma JoinConsEmpty(rest: seq<string>, sep: string)
    requires |rest| >= 1
    ensures Join([""] + rest, sep) == sep + Join(rest, sep)
  {
    assert ([""] + rest)[1..] == rest;
    assert "" + sep == sep;
  }

  /** One step of `JoinSplit` where `s` starts with an ordinary character. */
  lemma JoinSplitAtChar(s: string, sep: string)
    requires |sep| > 0 && !StartsWith(s, sep) && |s| > 0
    requires Join(Split(s[1..], sep), sep) == s[1..]
    ensures Join(Split(s, sep), sep) == s
  {
    var rest := Split(s[1..], sep);
    assert Split(s, sep) == [[s[0]] + rest[0]] + rest[1..];
    JoinConsChar(s[0], rest, sep);
    assert s == [s[0]] + s[1..];
  }

  /** The first piece of a split is a prefix of the string. */
  lemma FirstPieceIsPrefix(s: string, sep: string)
    requires |sep| > 0
    ensures StartsWith(s, Split(s, sep)[0])
  {
    var r := Split(s, sep);
    JoinSplit(s, sep);
    if |r| > 1 {
      assert s == r[0] + (sep + Join(r[1..], sep));
    }
  }

  /** No piece of a split contains the separator. */
  lemma {:induction false} SplitPiecesAvoidSep(s: string, sep: string)
    requires |sep| > 0
    ensures forall k :: 0 <= k < |Split(s, sep)| ==> !Contains(Split(s, sep)[k], sep)
    decreases |s|
  {
    var r := Split(s, sep);
    if StartsWith(s, sep) {
      SplitPiecesAvoidSep(s[|sep|..], sep);
      var rest := Split(s[|sep|..], sep);
      assert r == [""] + rest;
      forall k | 0 <= k < |r|
        ensures !Contains(r[k], sep)
      {
        if k > 0 {
          assert r[k] == rest[k - 1];
        }
      }
    } else if |s| == 0 {
    } else {
      var rest := Split(s[1..], sep);
      SplitPiecesAvoidSep(s[1..], sep);
      FirstPieceIsPrefix(s[1..], sep);
      var head := [s[0]] + rest[0];
      assert r == [head] + rest[1..];
      forall k | 0 <= k < |r|
        ensures !Contains(r[k], sep)
      {
        if k == 0 {
          ConsAvoidsSep(s, sep, rest[0]);
        } else {
          assert r[k] == rest[k];
        }
      }
    }
  }

  /** A character that does not start the separator, followed by a prefix
      of the rest that avoids it, avoids it too. */
  lemma ConsAvoidsSep(s: string, sep: string, piece: string)
    requires |sep| > 0 && |s| > 0 && !StartsWith(s, sep)
    requires StartsWith(s[1..], piece) && !Contains(piece, sep)
    ensures !Contains([s[0]] + piece, sep)
  {
    var head := [s[0]] + piece;
    assert head == s[..|head|];
    forall i: nat | i <= |head|
      ensures !OccursAt(head, sep, i)
    {
      if i == 0 {
        if |sep| <= |head| {
          assert head[..|sep|] == s[..|sep|];
        }
      } else {
        assert !OccursAt(piece, sep, i - 1);
        if i + |sep| <= |head| {
          assert head[1..] == piece;
          assert head[i..i + |sep|] == head[1..][i - 1..i - 1 + |sep|];
        }
      }
    }
  }

  lemma SplitPiecesAvoidChar(s: string, c: char)
    ensures forall k :: 0 <= k < |Split(s, [c])| ==> c !in Split(s, [c])[k]
  {
    SplitPiecesAvoidSep(s, [c]);
    forall k | 0 <= k < |Split(s, [c])|
      ensures c !in Split(s, [c])[k]
    {
      ContainsChar(Split(s, [c])[k], c);
    }
  }

  /** Splitting at a character: one piece exactly when the character does
      not occur; otherwise the first piece, the character and the rest
      joined back. */
  lemma SplitAtChar(s: string, c: char)
    ensures |Split(s, [c])| == 1 <==> c !in s
    ensures |Split(s, [c])| == 1 ==> Split(s, [c])[0] == s
    ensures |Split(s, [c])| > 1 ==> s == Split(s, [c])[0] + [c] + Join(Split(s, [c])[1..], [c])
  {
    SplitHasTwoPiecesIff(s, [c]);
    ContainsChar(s, c);
    JoinSplit(s, [c]);
  }

  /** A split has more than one piece exactly when the separator occurs. */
  lemma SplitHasTwoPiecesIff(s: string, sep: string)
    requires |sep| > 0
    ensures |Split(s, sep)| > 1 <==> Contains(s, sep)
  {
    var r := Split(s, sep);
    JoinSplit(s, sep);
    if |r| > 1 {
      assert s == r[0] + sep + Join(r[1..], sep);
      assert OccursAt(s, sep, |r[0]|);
    } else {
      SplitPiecesAvoidSep(s, sep);
      assert r[0] == s;
    }
  }

  // ---------------------------------------------------------------------------
  // replace

  /** Python's `s.replace(pat, repl)` for a non-empty `pat`: every
      non-overlapping occurrence, leftmost first, is replaced. */
  function Replace(s: string, pat: string, repl: string): string
    requires |pat| > 0
    decreases |s|
  {
    if StartsWith(s, pat) then repl + Replace(s[|pat|..], pat, repl)
    else if |s| == 0 then ""
    else [s[0]] + Replace(s[1..], pat, repl)
  }

  /** The identity `s.replace(o, n) == n.join(s.split(o))`: replace is the
      join of the split with the repl text. */
  lemma {:induction false} ReplaceIsJoinOfSplit(s: string, pat: string, repl: string)
    requires |pat| > 0
    ensures Replace(s, pat, repl) == Join(Split(s, pat), repl)
    decreases |s|
  {
    if StartsWith(s, pat) {
      var rest := Split(s[|pat|..], pat);
      ReplaceIsJoinOfSplit(s[|pat|..], pat, repl);
      assert ([""] + rest)[1..] == rest;
    } else if |s| == 0 {
    } else {
      ReplaceIsJoinOfSplit(s[1..], pat, repl);
      JoinConsChar(s[0], Split(s[1..], pat), repl);
    }
  }

  /** Replace leaves a string without the pattern unchanged. */
  lemma ReplaceAbsent(s: string, pat: string, repl: string)
    requires |pat| > 0 && !Contains(s, pat)
    ensures Replace(s, pat, repl) == s
  {
    ReplaceIsJoinOfSplit(s, pat, repl);
    SplitHasTwoPiecesIff(s, pat);
    JoinSplit(s, pat);
  }

  /** Replace only introduces characters of the replacement text. */
  lemma {:induction false} ReplaceChars(s: string, pat: string, repl: string, c: char)
    requires |pat| > 0
    requires c in Replace(s, pat, repl)
    ensures c in s || c in repl
    decreases |s|
  {
    if StartsWith(s, pat) {
      var tail := Replace(s[|pat|..], pat, repl);
      if c !in repl {
        assert c in tail;
        ReplaceChars(s[|pat|..], pat, repl, c);
      }
    } else if |s| == 0 {
    } else {
      var tail := Replace(s[1..], pat, repl);
      if c != s[0] {
        assert c in tail;
        ReplaceChars(s[1..], pat, repl, c);
      }
    }
  }

  /** Replacing a single character by text that lacks it removes it. */
  lemma ReplaceRemovesChar(s: string, c: char, repl: string)
    requires c !in repl
    ensures c !in Replace(s, [c], repl)
  {
    var r := Replace(s, [c], repl);
    ReplaceIsJoinOfSplit(s, [c], repl);
    SplitPiecesAvoidChar(s, c);
    JoinAvoidsChar(Split(s, [c]), repl, c);
  }

  lemma {:induction false} JoinAvoidsChar(pieces: seq<string>, sep: string, c: char)
    requires c !in sep
    requires forall k :: 0 <= k < |pieces| ==> c !in pieces[k]
    ensures c !in Join(pieces, sep)
  {
    if |pieces| > 1 {
      JoinAvoidsChar(pieces[1..], sep, c);
    }
  }

  // ---------------------------------------------------------------------------
  // strip

  /** Python's `str.isspace` for one character. */
  predicate IsSpace(c: char) {
    ('\t' <= c <= '\r') || ('\U{1C}' <= c <= '\U{1F}') || c == ' ' || c == '\U{85}' || c == '\U{A0}'
    || c == '\U{1680}' || ('\U{2000}' <= c <= '\U{200A}') || c == '\U{2028}' || c == '\U{2029}'
    || c == '\U{202F}' || c == '\U{205F}' || c == '\U{3000}'
  }

  function LeadingSpaces(s: string): (n: nat)
    ensures n <= |s|
    ensures forall j :: 0 <= j < n ==> IsSpace(s[j])
    ensures n < |s| ==> !IsSpace(s[n])
  {
    if |s| > 0 && IsSpace(s[0]) then 1 + LeadingSpaces(s[1..]) else 0
  }

  function TrailingSpaces(s: string): (n: nat)
    ensures n <= |s|
    ensures forall j :: |s| - n <= j < |s| ==> IsSpace(s[j])
    ensures n < |s| ==> !IsSpace(s[|s| - 1 - n])
  {
    if |s| > 0 && IsSpace(s[|s| - 1]) then 1 + TrailingSpaces(s[..|s| - 1]) else 0
  }

  /** `r` is `s` with `a` white-space characters removed at the front and
      `b` at the back. */
  predicate TrimmedBy(s: string, r: string, a: nat, b: nat) {
    && a + b <= |s| && r == s[a..|s| - b]
    && (forall k :: 0 <= k < a ==> IsSpace(s[k]))
    && (forall k :: |s| - b <= k < |s| ==> IsSpace(s[k]))
  }

  /** Python's `s.strip()`: the longest infix of `s` that neither starts nor
      ends with white space, obtained by removing only white space. */
  function Strip(s: string): (r: string)
    ensures Contains(s, r)
    ensures |r| > 0 ==> !IsSpace(r[0]) && !IsSpace(r[|r| - 1])
    ensures forall j :: 0 <= j < |s| && !IsSpace(s[j]) ==> |r| > 0
    // only white space is removed, and only at the two ends
    ensures exists a: nat, b: nat :: TrimmedBy(s, r, a, b)
  {
    var a := LeadingSpaces(s);
    var b := TrailingSpaces(s[a..]);
    var r := s[a..|s| - b];
    assert OccursAt(s, r, a);
    SpaceEnds(s, a, b);
    r
  }

  /** The white space `Strip` removes: `a` characters at the front and `b`
      at the back. */
  lemma SpaceEnds(s: string, a: nat, b: nat)
    requires a == LeadingSpaces(s) && b == TrailingSpaces(s[a..])
    ensures TrimmedBy(s, s[a..|s| - b], a, b)
  {
    TrailingOfDrop(s, a);
  }

  /** The white space trailing a suffix of `s` trails `s` itself. */
  lemma TrailingOfDrop(s: string, a: nat)
    requires a <= |s|
    ensures forall k :: |s| - TrailingSpaces(s[a..]) <= k < |s| ==> IsSpace(s[k])
  {
    var t := s[a..];
    forall k | |s| - TrailingSpaces(t) <= k < |s|
      ensures IsSpace(s[k])
    {
      assert s[k] == t[k - a];
    }
  }

  lemma StripKeepsChars(s: string, c: char)
    requires c in Strip(s)
    ensures c in s
  {
    ContainsKeepsChars(s, Strip(s), c);
  }

  lemma StripIdempotent(s: string)
    ensures Strip(Strip(s)) == Strip(s)
  {
    var r := Strip(s);
    assert LeadingSpaces(r) == 0;
    assert TrailingSpaces(r) == 0;
  }

  // ---------------------------------------------------------------------------
  // decimal numerals

  predicate IsDigit(c: char) {
    '0' <= c <= '9'
  }

  /** Python's `s.isdigit()` restricted to ASCII: non-empty, all digits. */
  predicate IsDigits(s: string) {
    |s| > 0 && forall i :: 0 <= i < |s| ==> IsDigit(s[i])
  }

  /** The number of leading decimal digits of `s` (what a greedy `\d+`
      consumes). */
  function DigitRun(s: string): (n: nat)
    ensures n <= |s|
    ensures forall i :: 0 <= i < n ==> IsDigit(s[i])
    ensures n < |s| ==> !IsDigit(s[n])
  {
    if |s| > 0 && IsDigit(s[0]) then 1 + DigitRun(s[1..]) else 0
  }

  /** Python's `int(s)` on a string of ASCII digits. */
  function DigitsValue(s: string): nat
    requires forall i :: 0 <= i < |s| ==> IsDigit(s[i])
  {
    if |s| == 0 then 0
    else 10 * DigitsValue(s[..|s| - 1]) + DigitValue(s[|s| - 1])
  }

  function DigitValue(c: char): (d: nat)
    requires IsDigit(c)
    ensures d < 10
  {
    c as int - '0' as int
  }

  function DigitChar(d: nat): (c: char)
    requires d < 10
    ensures IsDigit(c) && DigitValue(c) == d
  {
    (d + '0' as int) as char
  }

  /** Python's `str(n)` (or an f-string) for a natural number. */
  function NatToString(n: nat): (s: string)
    ensures IsDigits(s)
    ensures DigitsValue(s) == n
    ensures |s| > 1 ==> s[0] != '0'
  {
    if n < 10 then [DigitChar(n)]
    else
      var s := NatToString(n / 10) + [DigitChar(n % 10)];
      assert s[..|s| - 1] == NatToString(n / 10);
      s
  }

  /** A run of digits followed by a non-digit: the run is all a greedy
      digit match takes. */
  lemma DigitRunOfNumeral(ds: string, rest: string)
    requires IsDigits(ds)
    requires |rest| == 0 || !IsDigit(rest[0])
    ensures DigitRun(ds + rest) == |ds|
  {
    var s := ds + rest;
    assert forall i :: 0 <= i < |ds| ==> s[i] == ds[i];
    assert |rest| > 0 ==> s[|ds|] == rest[0];
  }

  /** Two different digit strings of the same length compare
      lexicographically as their numeric values compare. */
  lemma {:induction false} DigitsOrder(x: string, y: string)
    requires |x| == |y| && x != y
    requires forall i :: 0 <= i < |x| ==> IsDigit(x[i])
    requires forall i :: 0 <= i < |y| ==> IsDigit(y[i])
    ensures LexLess(x, y) <==> DigitsValue(x) < DigitsValue(y)
    decreases |x|
  {
    DropFirstDigitValue(x);
    DropFirstDigitValue(y);
    if x[0] == y[0] {
      DigitsOrder(x[1..], y[1..]);
    } else {
      ValueBelowPower(x[1..]);
      ValueBelowPower(y[1..]);
      LeadingDigitDecides(DigitValue(x[0]), DigitValue(y[0]), Pow10(|x| - 1),
        DigitsValue(x[1..]), DigitsValue(y[1..]));
    }
  }

  lemma LeadingDigitDecides(dx: nat, dy: nat, p: nat, rx: nat, ry: nat)
    requires dx != dy && rx < p && ry < p
    ensures dx < dy <==> dx * p + rx < dy * p + ry
  {
    if dx < dy {
      assert (dx + 1) * p <= dy * p;
    } else {
      assert (dy + 1) * p <= dx * p;
    }
  }

  function Pow10(k: nat): (p: nat)
    ensures p >= 1
  {
    if k == 0 then 1 else 10 * Pow10(k - 1)
  }

  lemma {:induction false} ValueBelowPower(s: string)
    requires forall i :: 0 <= i < |s| ==> IsDigit(s[i])
    ensures DigitsValue(s) < Pow10(|s|)
  {
    if |s| > 0 {
      ValueBelowPower(s[..|s| - 1]);
    }
  }

  /** Non-linear regrouping, kept apart from the numeral facts. */
  lemma TimesTen(d: nat, p: nat)
    ensures 10 * (d * p) == d * (10 * p)
  {
    calc {
      10 * (d * p);
      (10 * d) * p;
      (d * 10) * p;
      d * (10 * p);
    }
  }

  /** The value of a numeral is its leading digit times a power of ten plus
      the value of the rest. */
  lemma {:induction false} DropFirstDigitValue(s: string)
    requires |s| > 0
    requires forall i :: 0 <= i < |s| ==> IsDigit(s[i])
    ensures DigitsValue(s) == DigitValue(s[0]) * Pow10(|s| - 1) + DigitsValue(s[1..])
  {
    if |s| > 1 {
      var t, u := s[..|s| - 1], s[1..];
      DropFirstDigitValue(t);
      assert t[1..] == u[..|u| - 1] && t[0] == s[0] && u[|u| - 1] == s[|s| - 1];
      var d, p, last := DigitValue(s[0]), Pow10(|s| - 2), DigitValue(s[|s| - 1]);
      assert DigitsValue(s) == 10 * DigitsValue(t) + last;
      assert DigitsValue(u) == 10 * DigitsValue(t[1..]) + last;
      assert Pow10(|s| - 1) == 10 * p;
      TimesTen(d, p);
    }
  }

  // ---------------------------------------------------------------------------
  // ordering

  /** Python's `a < b` on strings: lexicographic by code point, a proper
      prefix being smaller. */
  predicate LexLess(a: string, b: string) {
    if |a| == 0 then |b| > 0
    else if |b| == 0 then false
    else if a[0] == b[0] then LexLess(a[1..], b[1..])
    else a[0] < b[0]
  }

  /** Comparing two strings with a common prefix compares what follows it. */
  lemma {:induction false} LexLessCommonPrefix(p: string, a: string, b: string)
    ensures LexLess(p + a, p + b) <==> LexLess(a, b)
  {
    if |p| > 0 {
      assert (p + a)[0] == (p + b)[0];
      assert (p + a)[1..] == p[1..] + a;
      assert (p + b)[1..] == p[1..] + b;
      LexLessCommonPrefix(p[1..], a, b);
    } else {
      assert p + a == a && p + b == b;
    }
  }

  /** Comparing strings that differ in an equal-length prefix is decided by
      those prefixes alone. */
  lemma {:induction false} LexLessDifferingPrefix(x: string, y: string, a: string, b: string)
    requires |x| == |y| && x != y
    ensures LexLess(x + a, y + b) <==> LexLess(x, y)
  {
    assert (x + a)[0] == x[0] && (y + b)[0] == y[0];
    if x[0] == y[0] {
      assert (x + a)[1..] == x[1..] + a;
      assert (y + b)[1..] == y[1..] + b;
      LexLessDifferingPrefix(x[1..], y[1..], a, b);
    }
  }

  /** A string is never smaller than its own prefix. */
  lemma {:induction false} NotLessThanPrefix(a: string, b: string)
    requires StartsWith(a, b)
    ensures !LexLess(a, b)
  {
    if |a| > 0 && |b| > 0 {
      assert a[0] == b[0];
      assert StartsWith(a[1..], b[1..]) by {
        assert a[1..][..|b| - 1] == a[..|b|][1..];
      }
      NotLessThanPrefix(a[1..], b[1..]);
    }
  }
}
