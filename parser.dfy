/**
 * The lecture-reply parser of llama.py: `clean_whitespace` (lines 75-82)
 * and `parse_lecture` (lines 84-104), with each regular expression they
 * use written out as a function over `seq<char>`.
 */
module LectureParser {
  import opened Common
  import opened PyText
  import opened Analysis

  // ---------------------------------------------------------------------------
  // Line normalisation: the three steps of clean_whitespace's loop body
  // ---------------------------------------------------------------------------

  /** No whitespace character other than the plain space U+0020. */
  predicate OnlyPlainSpaces(s: string) {
    forall k :: 0 <= k < |s| && IsSpace(s[k]) ==> s[k] == ' '
  }

  /** No two whitespace characters in a row. */
  predicate SingleSpaced(s: string) {
    forall k :: 0 <= k < |s| - 1 ==> !IsSpace(s[k]) || !IsSpace(s[k + 1])
  }

  /** A line as clean_whitespace emits it. */
  predicate IsClean(s: string) {
    (s == [] || (!IsSpace(s[0]) && !IsSpace(s[|s| - 1]))) && OnlyPlainSpaces(s) && SingleSpaced(s)
  }

  /** `re.sub(r'\s+', ' ', s)`: every maximal whitespace run becomes one plain space. */
  function CollapseSpaces(s: string): string
    decreases |s|
  {
    if s == [] then []
    else if IsSpace(s[0]) then [' '] + CollapseSpaces(TrimStart(s[1..]))
    else [s[0]] + CollapseSpaces(s[1..])
  }

  /** `r` is empty exactly when `s` is, and starts (ends) with whitespace exactly when `s` does. */
  predicate KeepsEnds(s: string, r: string) {
    (r == [] <==> s == []) &&
    (r != [] ==> (IsSpace(r[0]) <==> IsSpace(s[0])) && (IsSpace(r[|r| - 1]) <==> IsSpace(s[|s| - 1])))
  }

  /** Collapsing keeps the text empty, or starting and ending with whitespace, exactly when the input is or does. */
  lemma {:induction false} CollapseEnds(s: string)
    ensures KeepsEnds(s, CollapseSpaces(s))
    decreases |s|
  {
    if s != [] {
      if IsSpace(s[0]) {
        var t := TrimStart(s[1..]);
        CollapseEnds(t);
        CollapseEndsSpace(s);
      } else {
        CollapseEnds(s[1..]);
      }
    }
  }

  /** The whitespace case of CollapseEnds, given its claim for the rest after the run. */
  lemma CollapseEndsSpace(s: string)
    requires s != [] && IsSpace(s[0])
    requires KeepsEnds(TrimStart(s[1..]), CollapseSpaces(TrimStart(s[1..])))
    ensures KeepsEnds(s, CollapseSpaces(s))
  {
    var t := TrimStart(s[1..]);
    var r := CollapseSpaces(t);
    var c := [' '] + r;
    assert CollapseSpaces(s) == c;
    if r == [] {
      RunToEnd(s);
    } else {
      TailLast(s);
      assert c[|c| - 1] == r[|r| - 1];
    }
  }

  /** A text whose whitespace run reaches its end ends in whitespace. */
  lemma RunToEnd(s: string)
    requires s != [] && IsSpace(s[0]) && TrimStart(s[1..]) == []
    ensures IsSpace(s[|s| - 1])
  {
    TrimStartLast(s[1..]);
    if |s| > 1 {
      assert s[1..][|s| - 2] == s[|s| - 1];
    }
  }

  /** What is left after the leading run of `s[1..]` ends where `s` does. */
  lemma TailLast(s: string)
    requires s != [] && TrimStart(s[1..]) != []
    ensures var t := TrimStart(s[1..]); t[|t| - 1] == s[|s| - 1]
  {
    TrimStartLast(s[1..]);
  }

  /** Trimming the front leaves nothing of a text that ends in whitespace only when it is all whitespace, and keeps the last character otherwise. */
  lemma TrimStartLast(u: string)
    ensures var t := TrimStart(u);
      (t == [] ==> u == [] || IsSpace(u[|u| - 1])) && (t != [] ==> t[|t| - 1] == u[|u| - 1])
  {
    LeadingSpacesSpec(u);
  }

  /** A plain space before a non-space, or a non-space before anything, keeps a line single-spaced. */
  lemma SpacedCons(c: char, r: string)
    requires OnlyPlainSpaces(r) && SingleSpaced(r)
    requires !IsSpace(c) || (c == ' ' && (r == [] || !IsSpace(r[0])))
    ensures OnlyPlainSpaces([c] + r) && SingleSpaced([c] + r)
  {
    var s := [c] + r;
    assert forall k :: 1 <= k < |s| ==> s[k] == r[k - 1];
  }

  /** After collapsing, the only whitespace is single plain spaces. */
  lemma {:induction false} CollapseSpec(s: string)
    ensures OnlyPlainSpaces(CollapseSpaces(s)) && SingleSpaced(CollapseSpaces(s))
    decreases |s|
  {
    if s != [] {
      if IsSpace(s[0]) {
        var t := TrimStart(s[1..]);
        LeadingSpacesSpec(s[1..]);
        CollapseSpec(t);
        CollapseEnds(t);
        SpacedCons(' ', CollapseSpaces(t));
      } else {
        CollapseSpec(s[1..]);
        SpacedCons(s[0], CollapseSpaces(s[1..]));
      }
    }
  }

  /** Collapsing adds no character other than the plain space. */
  lemma {:induction false} CollapseChars(s: string)
    ensures forall c :: c in CollapseSpaces(s) ==> c in s || c == ' '
    decreases |s|
  {
    if s != [] {
      if IsSpace(s[0]) {
        var t := TrimStart(s[1..]);
        assert t == s[1 + LeadingSpaces(s[1..])..];
        CollapseChars(t);
      } else {
        CollapseChars(s[1..]);
      }
    }
  }

  lemma TrimStartKeepsVisible(s: string)
    ensures Visible(TrimStart(s)) == Visible(s)
  {
    var n := LeadingSpaces(s);
    LeadingSpacesSpec(s);
    assert s == s[..n] + s[n..] + [];
    VisibleInPadding(s[..n], s[n..], []);
  }

  /** Collapsing whitespace changes whitespace only. */
  lemma {:induction false} CollapseKeepsVisible(s: string)
    ensures Visible(CollapseSpaces(s)) == Visible(s)
    decreases |s|
  {
    if s != [] {
      if IsSpace(s[0]) {
        var t := TrimStart(s[1..]);
        CollapseKeepsVisible(t);
        TrimStartKeepsVisible(s[1..]);
        VisibleAppend([' '], CollapseSpaces(t));
      } else {
        CollapseKeepsVisible(s[1..]);
        VisibleAppend([s[0]], CollapseSpaces(s[1..]));
      }
    }
  }

  /** A string that ends in a visible character has a visible character after its leading run. */
  lemma {:induction false} VisibleAfterRun(u: string)
    requires u != [] && !IsSpace(u[|u| - 1])
    ensures LeadingSpaces(u) < |u|
  {
    if IsSpace(u[0]) {
      VisibleAfterRun(u[1..]);
    }
  }

  /** Text appended after a visible character does not lengthen the leading run. */
  lemma {:induction false} LeadingSpacesAppend(u: string, b: string)
    requires LeadingSpaces(u) < |u|
    ensures LeadingSpaces(u + b) == LeadingSpaces(u)
    ensures TrimStart(u + b) == TrimStart(u) + b
  {
    if IsSpace(u[0]) {
      assert (u + b)[1..] == u[1..] + b;
      LeadingSpacesAppend(u[1..], b);
    }
  }

  /** A whitespace run followed by a visible character (or nothing) is the whole leading run. */
  lemma {:induction false} LeadingSpacesPastRun(w: string, b: string)
    requires AllSpace(w)
    requires b == [] || !IsSpace(b[0])
    ensures LeadingSpaces(w + b) == |w|
    ensures TrimStart(w + b) == b
  {
    if w == [] {
      assert w + b == b;
    } else {
      assert w[0] == (w + b)[0];
      assert (w + b)[1..] == w[1..] + b;
      assert forall k :: 0 <= k < |w| - 1 ==> w[1..][k] == w[k + 1];
      LeadingSpacesPastRun(w[1..], b);
    }
  }

  /**
   * Collapsing distributes over a concatenation whose left part ends in a
   * visible character: no whitespace run straddles the seam.
   */
  lemma {:induction false} CollapseAppend(a: string, b: string)
    requires a == [] || !IsSpace(a[|a| - 1])
    ensures CollapseSpaces(a + b) == CollapseSpaces(a) + CollapseSpaces(b)
    decreases |a|
  {
    if a == [] {
      assert a + b == b;
    } else if IsSpace(a[0]) {
      SpaceJoin(a, b);
      CollapseAppend(TrimStart(a[1..]), b);
    } else {
      VisibleJoin(a, b);
      CollapseAppend(a[1..], b);
    }
  }

  /** CollapseAppend for `a` follows from CollapseAppend for what is left after its leading run. */
  lemma SpaceJoin(a: string, b: string)
    requires a != [] && IsSpace(a[0]) && !IsSpace(a[|a| - 1])
    ensures var t := TrimStart(a[1..]);
      |t| < |a| && t != [] && !IsSpace(t[|t| - 1]) &&
      (CollapseSpaces(t + b) == CollapseSpaces(t) + CollapseSpaces(b) ==>
       CollapseSpaces(a + b) == CollapseSpaces(a) + CollapseSpaces(b))
  {
    var t := TrimStart(a[1..]);
    SpaceStep(a, b);
    if CollapseSpaces(t + b) == CollapseSpaces(t) + CollapseSpaces(b) {
      ConsJoin(' ', CollapseSpaces(t), CollapseSpaces(b), CollapseSpaces(t + b));
    }
  }

  /** CollapseAppend for `a` follows from CollapseAppend for `a` without its visible first character. */
  lemma VisibleJoin(a: string, b: string)
    requires a != [] && !IsSpace(a[0]) && !IsSpace(a[|a| - 1])
    ensures var u := a[1..];
      (u == [] || !IsSpace(u[|u| - 1])) &&
      (CollapseSpaces(u + b) == CollapseSpaces(u) + CollapseSpaces(b) ==>
       CollapseSpaces(a + b) == CollapseSpaces(a) + CollapseSpaces(b))
  {
    var u := a[1..];
    VisibleStep(a, b);
    if CollapseSpaces(u + b) == CollapseSpaces(u) + CollapseSpaces(b) {
      ConsJoin(a[0], CollapseSpaces(u), CollapseSpaces(b), CollapseSpaces(u + b));
    }
  }

  /** Putting one element in front of a concatenation. */
  lemma ConsJoin<T>(c: T, x: seq<T>, y: seq<T>, xy: seq<T>)
    requires xy == x + y
    ensures [c] + xy == ([c] + x) + y
  {
  }

  /** One step of CollapseAppend at a leading whitespace run of `a`. */
  lemma SpaceStep(a: string, b: string)
    requires a != [] && IsSpace(a[0]) && !IsSpace(a[|a| - 1])
    ensures var t := TrimStart(a[1..]);
      |t| < |a| && t != [] && !IsSpace(t[|t| - 1]) &&
      CollapseSpaces(a) == [' '] + CollapseSpaces(t) &&
      CollapseSpaces(a + b) == [' '] + CollapseSpaces(t + b)
  {
    var u := a[1..];
    assert (a + b)[0] == a[0];
    assert (a + b)[1..] == u + b;
    VisibleAfterRun(u);
    LeadingSpacesAppend(u, b);
    var t := TrimStart(u);
    assert t[|t| - 1] == a[|a| - 1];
  }

  /** One step of CollapseAppend at a leading visible character of `a`. */
  lemma VisibleStep(a: string, b: string)
    requires a != [] && !IsSpace(a[0]) && !IsSpace(a[|a| - 1])
    ensures var u := a[1..];
      (u == [] || !IsSpace(u[|u| - 1])) &&
      CollapseSpaces(a) == [a[0]] + CollapseSpaces(u) &&
      CollapseSpaces(a + b) == [a[0]] + CollapseSpaces(u + b)
  {
    var u := a[1..];
    assert (a + b)[0] == a[0];
    assert (a + b)[1..] == u + b;
    assert u == [] || u[|u| - 1] == a[|a| - 1];
  }

  /**
   * A whitespace run between two visible characters (or the ends of the
   * string) becomes exactly one space.
   */
  lemma {:induction false} CollapseGap(a: string, w: string, b: string)
    requires a == [] || !IsSpace(a[|a| - 1])
    requires w != [] && AllSpace(w)
    requires b == [] || !IsSpace(b[0])
    ensures CollapseSpaces(a + w + b) == CollapseSpaces(a) + " " + CollapseSpaces(b)
  {
    assert a + w + b == a + (w + b);
    CollapseAppend(a, w + b);
    CollapseRunBefore(w, b);
  }

  /** A leading whitespace run, up to a visible character or the end, becomes one space. */
  lemma CollapseRunBefore(w: string, b: string)
    requires w != [] && AllSpace(w)
    requires b == [] || !IsSpace(b[0])
    ensures CollapseSpaces(w + b) == " " + CollapseSpaces(b)
  {
    assert (w + b)[0] == w[0];
    assert (w + b)[1..] == w[1..] + b;
    assert forall k :: 0 <= k < |w| - 1 ==> w[1..][k] == w[k + 1];
    LeadingSpacesPastRun(w[1..], b);
  }

  /** A string made only of whitespace collapses to a single space. */
  lemma CollapseRun(w: string)
    requires w != [] && AllSpace(w)
    ensures CollapseSpaces(w) == " "
  {
    CollapseRunBefore(w, []);
    assert w + [] == w;
  }

  /** Two blanks between words become one: `"a  b"` collapses to `"a b"`. */
  lemma CollapseTwoBlanks()
    ensures CollapseSpaces("a  b") == "a b"
  {
    CollapseGap("a", "  ", "b");
    assert "a" + "  " + "b" == "a  b";
  }

  /** The first non-whitespace character of `s` is a dash. */
  predicate BulletLed(s: string) {
    LeadingSpaces(s) < |s| && s[LeadingSpaces(s)] == '-'
  }

  /**
   * `re.sub(r'^\s*-\s*', '', s)`: without MULTILINE, `^` matches only at the
   * start, so at most one dash goes, with the whitespace before and after it.
   */
  function RemoveBullet(s: string): string {
    var d := LeadingSpaces(s);
    if d < |s| && s[d] == '-' then
      var t := s[d + 1..];
      t[LeadingSpaces(t)..]
    else s
  }

  /**
   * The bullet step leaves a suffix: all of `s` when `s` does not start with a
   * dash after whitespace; otherwise what follows that dash and the whitespace
   * around it, so the removed part is whitespace except for the one dash.
   */
  lemma RemoveBulletSpec(s: string)
    ensures var r := RemoveBullet(s);
      |r| <= |s| && r == s[|s| - |r|..] &&
      (!BulletLed(s) ==> r == s) &&
      (BulletLed(s) ==>
        var d, cut := LeadingSpaces(s), |s| - |r|;
        d < cut && s[d] == '-' && (forall k :: 0 <= k < cut && k != d ==> IsSpace(s[k])) &&
        (r == [] || !IsSpace(r[0])))
  {
    if BulletLed(s) {
      BulletCut(s);
    }
  }

  /** Dropping `a` characters and then `b` more drops `a + b`. */
  lemma DropDrop(s: string, a: nat, b: nat)
    requires a + b <= |s|
    ensures s[a..][b..] == s[a + b..]
  {
  }

  /** The bullet case: the cut ends after the dash and the whitespace that follows it. */
  lemma BulletCut(s: string)
    requires BulletLed(s)
    ensures var r, d := RemoveBullet(s), LeadingSpaces(s);
      var cut := |s| - |r|;
      d < cut <= |s| && r == s[cut..] &&
      (forall k :: 0 <= k < cut && k != d ==> IsSpace(s[k])) &&
      (r == [] || !IsSpace(r[0]))
  {
    BulletRest(s);
    BulletGap(s);
  }

  /** What the bullet step leaves: the text after the dash and the whitespace after it. */
  lemma BulletRest(s: string)
    requires BulletLed(s)
    ensures var r, d := RemoveBullet(s), LeadingSpaces(s);
      var t := s[d + 1..];
      |s| - |r| == d + 1 + LeadingSpaces(t) && r == s[|s| - |r|..] && (r == [] || !IsSpace(r[0]))
  {
    var d := LeadingSpaces(s);
    var t := s[d + 1..];
    DropDrop(s, d + 1, LeadingSpaces(t));
    DropRun(t);
  }

  /** Dropping the whitespace run leaves a text that does not start with whitespace. */
  lemma DropRun(t: string)
    ensures var r := TrimStart(t); r == [] || !IsSpace(r[0])
  {
    LeadingSpacesSpec(t);
  }

  /** What the bullet step removes, apart from the dash, is whitespace. */
  lemma BulletGap(s: string)
    requires BulletLed(s)
    ensures var d := LeadingSpaces(s);
      var m := LeadingSpaces(s[d + 1..]);
      forall k :: 0 <= k < d + 1 + m && k != d ==> IsSpace(s[k])
  {
    LeadingSpacesSpec(s);
    var d := LeadingSpaces(s);
    var t := s[d + 1..];
    LeadingSpacesSpec(t);
    SpacesAfter(s, d + 1, LeadingSpaces(t));
  }

  /** The whitespace run at the front of `s[a..]` is whitespace of `s`. */
  lemma SpacesAfter(s: string, a: nat, m: nat)
    requires a + m <= |s| && forall k :: 0 <= k < m ==> IsSpace(s[a..][k])
    ensures forall k :: a <= k < a + m ==> IsSpace(s[k])
  {
    assert forall k :: a <= k < a + m ==> s[k] == s[a..][k - a];
  }

  /** Dropping a leading part that ends before a non-space keeps a clean line clean. */
  lemma CleanSuffix(c: string, n: nat)
    requires IsClean(c) && n <= |c|
    requires n == |c| || !IsSpace(c[n])
    ensures IsClean(c[n..])
  {
  }

  /** The bullet step of a line: how its result relates to the collapsed, stripped line. */
  predicate LostAtMostOneBullet(c: string, r: string) {
    (r == c <==> (c == [] || c[0] != '-')) &&
    (r != c ==> c[0] == '-' && (c[1..] == r || c[1..] == [' '] + r))
  }

  /** How the bullet step acts on a line that is already collapsed and stripped. */
  lemma BulletStep(c: string)
    requires IsClean(c)
    ensures var r := Strip(RemoveBullet(c));
      IsClean(r) && r == c[|c| - |r|..] && LostAtMostOneBullet(c, r)
  {
    var b := RemoveBullet(c);
    RemoveBulletSpec(c);
    if c != [] && c[0] == '-' {
      assert LeadingSpaces(c) == 0;
      var cut := |c| - |b|;
      assert |c| >= 3 ==> !IsSpace(c[1]) || !IsSpace(c[2]);
      assert cut <= 2;
      CleanSuffix(c, cut);
      StripFixes(b);
      assert cut == 2 ==> c[1..] == [' '] + b;
    } else {
      assert c != [] ==> LeadingSpaces(c) == 0;
      StripFixes(c);
    }
  }

  /** A line clean_whitespace emits has no line break in it. */
  lemma PlainHasNoNewline(s: string)
    requires OnlyPlainSpaces(s)
    ensures '\n' !in s
  {
    assert forall k :: 0 <= k < |s| ==> s[k] != '\n';
  }

  /** One line of clean_whitespace's loop (llama.py:79-81). */
  function CleanLine(line: string): string {
    Strip(RemoveBullet(CollapseSpaces(Strip(line))))
  }

  /**
   * Each emitted line is clean (no whitespace at its ends, no whitespace run,
   * no line break) and differs from the collapsed line by at most one leading
   * dash and the space after it.
   */
  lemma CleanLineSpec(line: string)
    ensures var r := CleanLine(line);
      IsClean(r) && '\n' !in r && LostAtMostOneBullet(CollapseSpaces(Strip(line)), r)
  {
    StripSpec(line);
    CollapseSpec(Strip(line));
    CollapseEnds(Strip(line));
    BulletStep(CollapseSpaces(Strip(line)));
    PlainHasNoNewline(CleanLine(line));
  }

  function CleanLines(lines: seq<string>): seq<string> {
    seq(|lines|, k requires 0 <= k < |lines| => CleanLine(lines[k]))
  }

  /** What clean_whitespace computes: each line cleaned, lines rejoined with '\n'. */
  function CleanText(text: string): string {
    Join(CleanLines(Split(text, '\n')), '\n')
  }

  /** clean_whitespace keeps the lines: the i-th output line is the i-th input line, cleaned. */
  lemma CleanTextLines(text: string)
    ensures Split(CleanText(text), '\n') == CleanLines(Split(text, '\n'))
  {
    var lines := CleanLines(Split(text, '\n'));
    forall k | 0 <= k < |lines|
      ensures '\n' !in lines[k]
    {
      CleanLineSpec(Split(text, '\n')[k]);
    }
    SplitJoin(lines, '\n');
  }

  lemma CleanedAll(lines: seq<string>, cleaned: seq<string>)
    requires |cleaned| == |lines|
    requires forall k :: 0 <= k < |lines| ==> cleaned[k] == CleanLine(lines[k])
    ensures cleaned == CleanLines(lines)
  {
  }

  /**
   * The line-by-line loop of clean_whitespace (llama.py:75-82): one output
   * line per input line, in order, each one cleaned.
   */
  method CleanWhitespace(text: string) returns (r: string)
    ensures r == CleanText(text)
    ensures Split(r, '\n') == CleanLines(Split(text, '\n'))
  {
    var lines := Split(text, '\n');
    var cleaned: seq<string> := [];
    for i := 0 to |lines|
      invariant |cleaned| == i
      invariant forall k :: 0 <= k < i ==> cleaned[k] == CleanLine(lines[k])
    {
      var line := CollapseSpaces(Strip(lines[i]));
      line := RemoveBullet(line);
      cleaned := cleaned + [Strip(line)];
    }
    CleanedAll(lines, cleaned);
    r := Join(cleaned, '\n');
    CleanTextLines(text);
  }

  // ---------------------------------------------------------------------------
  // Block clean-up: the re.sub calls of parse_lecture (llama.py:97, 99)
  // ---------------------------------------------------------------------------

  predicate IsMarkup(c: char) {
    c == '*' || c == '#'
  }

  predicate NoMarkup(s: string) {
    '*' !in s && '#' !in s
  }

  /** `re.sub(r"[*#]+", "", s)`. */
  function RemoveMarkup(s: string): string {
    if s == [] then []
    else (if IsMarkup(s[0]) then [] else [s[0]]) + RemoveMarkup(s[1..])
  }

  /** Every `*` and `#` is removed and every other character is kept, as often as it occurs. */
  lemma {:induction false} RemoveMarkupSpec(s: string)
    ensures NoMarkup(RemoveMarkup(s))
    ensures forall c :: multiset(RemoveMarkup(s))[c] == if IsMarkup(c) then 0 else multiset(s)[c]
  {
    if s != [] {
      RemoveMarkupSpec(s[1..]);
      assert s == [s[0]] + s[1..];
    }
  }

  /** Removing markup keeps only characters of the input. */
  lemma RemoveMarkupChars(s: string)
    ensures CharsFrom(RemoveMarkup(s), s)
  {
    RemoveMarkupSpec(s);
    forall c | c in RemoveMarkup(s)
      ensures c in s
    {
      assert multiset(RemoveMarkup(s))[c] > 0;
    }
  }

  /** Text without `*` and `#` is left alone. */
  lemma {:induction false} RemoveMarkupFixes(s: string)
    requires NoMarkup(s)
    ensures RemoveMarkup(s) == s
  {
    if s != [] {
      assert s == [s[0]] + s[1..];
      RemoveMarkupFixes(s[1..]);
    }
  }

  /**
   * Markup goes character by character, so removal distributes over
   * concatenation: every other character stays, in its place.
   */
  lemma {:induction false} RemoveMarkupAppend(a: string, b: string)
    ensures RemoveMarkup(a + b) == RemoveMarkup(a) + RemoveMarkup(b)
  {
    if a == [] {
      assert a + b == b;
    } else {
      assert (a + b)[0] == a[0];
      assert (a + b)[1..] == a[1..] + b;
      RemoveMarkupAppend(a[1..], b);
    }
  }

  /** `"*ab"` loses its asterisk and keeps the rest in order. */
  lemma RemoveMarkupExample()
    ensures RemoveMarkup("*ab") == "ab"
  {
    RemoveMarkupAppend("*", "ab");
    assert "*" + "ab" == "*ab";
  }

  /** One past the last '\n' of `w`, or 0 when `w` has none. */
  function AfterLastNewline(w: string): (n: nat)
    ensures n <= |w|
  {
    if w == [] then 0
    else if w[|w| - 1] == '\n' then |w|
    else AfterLastNewline(w[..|w| - 1])
  }

  /**
   * Length of the match of `\n\s*\n` at the front of `s`, 0 when there is none.
   * The greedy `\s*` backs off to the last '\n' of the whitespace run.
   */
  function BlankLinesMatch(s: string): (n: nat)
    ensures n <= |s|
  {
    if s == [] || s[0] != '\n' then 0
    else
      var run := s[1..][..LeadingSpaces(s[1..])];
      var k := AfterLastNewline(run);
      if k == 0 then 0 else 1 + k
  }

  /** `re.sub(r"\n\s*\n", "\n", s)`: every blank-line gap becomes a single line break. */
  function SqueezeBlankLines(s: string): string
    decreases |s|
  {
    if s == [] then []
    else
      var n := BlankLinesMatch(s);
      if n > 0 then "\n" + SqueezeBlankLines(s[n..])
      else [s[0]] + SqueezeBlankLines(s[1..])
  }

  lemma {:induction false} AfterLastNewlineSpec(w: string)
    ensures var n := AfterLastNewline(w);
      (n > 0 ==> w[n - 1] == '\n') && forall k :: n <= k < |w| ==> w[k] != '\n'
  {
    if w != [] && w[|w| - 1] != '\n' {
      AfterLastNewlineSpec(w[..|w| - 1]);
    }
  }

  /** The whitespace run that starts `t`. */
  function LeadRun(t: string): string {
    t[..LeadingSpaces(t)]
  }

  /**
   * `\n\s*\n` matches at the front of `s` exactly when `s` starts with a line
   * break and the whitespace after it holds another one; the match is all
   * whitespace, runs from a '\n' to a '\n', and the whitespace left after it
   * holds no further line break.
   */
  lemma BlankLinesSpec(s: string)
    ensures var n := BlankLinesMatch(s);
      (n > 0 <==> s != [] && s[0] == '\n' && '\n' in LeadRun(s[1..])) &&
      (n > 0 ==> 2 <= n && s[n - 1] == '\n' && AllSpace(s[..n]) && '\n' !in LeadRun(s[n..]))
  {
    if s != [] && s[0] == '\n' {
      var run := LeadRun(s[1..]);
      AfterLastNewlineSpec(run);
      if AfterLastNewline(run) > 0 {
        GapFound(s);
      } else {
        assert forall j :: 0 <= j < |run| ==> run[j] != '\n';
      }
    }
  }

  /** When the whitespace after a leading line break holds another one, the match ends at the last of them. */
  lemma GapFound(s: string)
    requires s != [] && s[0] == '\n' && AfterLastNewline(LeadRun(s[1..])) > 0
    ensures var n := BlankLinesMatch(s);
      '\n' in LeadRun(s[1..]) && 2 <= n && s[n - 1] == '\n' && AllSpace(s[..n]) && '\n' !in LeadRun(s[n..])
  {
    GapMatch(s);
    GapAfter(s);
  }

  lemma GapMatch(s: string)
    requires s != [] && s[0] == '\n' && AfterLastNewline(LeadRun(s[1..])) > 0
    ensures var n := BlankLinesMatch(s);
      '\n' in LeadRun(s[1..]) && 2 <= n && s[n - 1] == '\n' && AllSpace(s[..n])
  {
    var t := s[1..];
    var run := LeadRun(t);
    var n := 1 + AfterLastNewline(run);
    AfterLastNewlineSpec(run);
    LeadingSpacesSpec(t);
    assert forall j :: 1 <= j < n ==> s[j] == run[j - 1];
  }

  lemma GapAfter(s: string)
    requires s != [] && s[0] == '\n' && AfterLastNewline(LeadRun(s[1..])) > 0
    ensures '\n' !in LeadRun(s[BlankLinesMatch(s)..])
  {
    var t := s[1..];
    var run := LeadRun(t);
    var k := AfterLastNewline(run);
    var L := LeadingSpaces(t);
    AfterLastNewlineSpec(run);
    LeadingSpacesSpec(t);
    var u := s[1 + k..];
    LeadingSpacesSpec(u);
    assert forall j :: 0 <= j < L - k ==> u[j] == run[k + j];
    assert 1 + L < |s| ==> u[L - k] == t[L];
    assert LeadingSpaces(u) <= L - k;
    assert forall j :: 0 <= j < LeadingSpaces(u) ==> LeadRun(u)[j] != '\n';
  }

  /** SqueezeBlankLines removes only whitespace and adds no new character. */
  lemma {:induction false} SqueezeSpec(s: string)
    ensures CharsFrom(SqueezeBlankLines(s), s)
    ensures Visible(SqueezeBlankLines(s)) == Visible(s)
    decreases |s|
  {
    if s != [] {
      var n := BlankLinesMatch(s);
      BlankLinesSpec(s);
      if n > 0 {
        SqueezeSpec(s[n..]);
        assert s == s[..n] + s[n..];
        assert forall c :: c in s[n..] ==> c in s;
        VisibleAppend(s[..n], s[n..]);
        VisibleOfSpaces(s[..n]);
        VisibleAppend("\n", SqueezeBlankLines(s[n..]));
      } else {
        SqueezeSpec(s[1..]);
        assert s == [s[0]] + s[1..];
        assert forall c :: c in s[1..] ==> c in s;
        VisibleAppend([s[0]], s[1..]);
        VisibleAppend([s[0]], SqueezeBlankLines(s[1..]));
      }
    }
  }

  /** No line break followed by whitespace and another line break anywhere in `s`. */
  predicate NoBlankLines(s: string) {
    forall i :: 0 <= i < |s| ==> BlankLinesMatch(s[i..]) == 0
  }

  lemma NoBlankLinesCons(c: char, r: string)
    ensures NoBlankLines([c] + r) <==> BlankLinesMatch([c] + r) == 0 && NoBlankLines(r)
  {
    var s := [c] + r;
    assert s[0..] == s;
    if NoBlankLines(s) {
      forall i | 0 <= i < |r|
        ensures BlankLinesMatch(r[i..]) == 0
      {
        assert s[i + 1..] == r[i..];
      }
    }
    if BlankLinesMatch(s) == 0 && NoBlankLines(r) {
      forall i | 0 <= i < |s|
        ensures BlankLinesMatch(s[i..]) == 0
      {
        if i > 0 {
          assert s[i..] == r[i - 1..];
        }
      }
    }
  }

  /** A line break followed by whitespace without another line break starts no match. */
  lemma BreakWithoutGap(r: string)
    requires '\n' !in LeadRun(r)
    ensures BlankLinesMatch("\n" + r) == 0
  {
    assert ("\n" + r)[1..] == r;
    BlankLinesSpec("\n" + r);
  }

  /** Squeezing keeps a leading whitespace run free of line breaks. */
  lemma {:induction false} SqueezeLead(s: string)
    requires '\n' !in LeadRun(s)
    ensures '\n' !in LeadRun(SqueezeBlankLines(s))
    decreases |s|
  {
    if s != [] && IsSpace(s[0]) {
      assert s[0] == LeadRun(s)[0];
      assert LeadRun(s[1..]) == LeadRun(s)[1..];
      SqueezeLead(s[1..]);
      var r := SqueezeBlankLines(s[1..]);
      assert ([s[0]] + r)[1..] == r;
      assert LeadRun([s[0]] + r) == [s[0]] + LeadRun(r);
    }
  }

  /** After SqueezeBlankLines, no blank-line gap is left. */
  lemma {:induction false} SqueezeLeavesNoBlankLines(s: string)
    ensures NoBlankLines(SqueezeBlankLines(s))
    decreases |s|
  {
    if s != [] {
      var n := BlankLinesMatch(s);
      BlankLinesSpec(s);
      if n > 0 {
        var r := SqueezeBlankLines(s[n..]);
        SqueezeLeavesNoBlankLines(s[n..]);
        SqueezeLead(s[n..]);
        BreakWithoutGap(r);
        NoBlankLinesCons('\n', r);
      } else {
        var r := SqueezeBlankLines(s[1..]);
        SqueezeLeavesNoBlankLines(s[1..]);
        if s[0] == '\n' {
          SqueezeLead(s[1..]);
          BreakWithoutGap(r);
        }
        NoBlankLinesCons(s[0], r);
      }
    }
  }

  /** Text without blank-line gaps is left alone. */
  lemma {:induction false} SqueezeFixes(s: string)
    requires NoBlankLines(s)
    ensures SqueezeBlankLines(s) == s
    decreases |s|
  {
    if s != [] {
      NoBlankLinesCons(s[0], s[1..]);
      assert [s[0]] + s[1..] == s;
      SqueezeFixes(s[1..]);
    }
  }

  /** The lines of `ps` that hold something other than whitespace, in order. */
  function NonBlankLines(ps: seq<string>): seq<string> {
    if ps == [] then []
    else (if AllSpace(ps[0]) then [] else [ps[0]]) + NonBlankLines(ps[1..])
  }

  /** Every line kept is a line of `ps` that is not whitespace only. */
  lemma {:induction false} NonBlankFrom(ps: seq<string>)
    ensures forall i :: 0 <= i < |NonBlankLines(ps)| ==>
      NonBlankLines(ps)[i] in ps && !AllSpace(NonBlankLines(ps)[i])
  {
    if ps != [] {
      NonBlankFrom(ps[1..]);
      var r, rest := NonBlankLines(ps), NonBlankLines(ps[1..]);
      assert forall x :: x in ps[1..] ==> x in ps;
      if AllSpace(ps[0]) {
        assert r == rest;
      } else {
        assert r == [ps[0]] + rest;
        forall i | 0 <= i < |r|
          ensures r[i] in ps && !AllSpace(r[i])
        {
          if i > 0 {
            assert r[i] == rest[i - 1];
          }
        }
      }
    }
  }

  lemma {:induction false} NonBlankAppend(a: seq<string>, b: seq<string>)
    ensures NonBlankLines(a + b) == NonBlankLines(a) + NonBlankLines(b)
  {
    if a != [] {
      assert (a + b)[0] == a[0] && (a + b)[1..] == a[1..] + b;
      NonBlankAppend(a[1..], b);
    } else {
      assert a + b == b;
    }
  }

  lemma {:induction false} NonBlankOfBlank(a: seq<string>)
    requires forall k :: 0 <= k < |a| ==> AllSpace(a[k])
    ensures NonBlankLines(a) == []
  {
    if a != [] {
      NonBlankOfBlank(a[1..]);
    }
  }

  /**
   * The lines left by `re.sub(r"\n\s*\n", "\n", s)`, given the lines of `s`:
   * the first and the last line stay; of the lines between them, the
   * whitespace-only ones go and the others stay, in order.
   */
  function SqueezedLines(ps: seq<string>): seq<string>
    requires |ps| >= 1
  {
    if |ps| == 1 then ps else [ps[0]] + NonBlankLines(ps[1..|ps| - 1]) + [ps[|ps| - 1]]
  }

  lemma NonBlankSingle(x: string)
    requires !AllSpace(x)
    ensures NonBlankLines([x]) == [x]
  {
    assert [x][1..] == [];
  }

  lemma SliceEnds<T>(ps: seq<T>)
    requires |ps| > 1
    ensures ps == [ps[0]] + (ps[1..|ps| - 1] + [ps[|ps| - 1]])
  {
  }

  /** When neither the first nor the last line is blank, exactly the non-blank lines are left. */
  lemma SqueezedNonBlankEnds(ps: seq<string>)
    requires |ps| >= 1 && !AllSpace(ps[0]) && !AllSpace(ps[|ps| - 1])
    ensures SqueezedLines(ps) == NonBlankLines(ps)
  {
    NonBlankSingle(ps[0]);
    if |ps| == 1 {
      assert ps == [ps[0]];
    } else {
      var mid, last := ps[1..|ps| - 1], ps[|ps| - 1];
      SliceEnds(ps);
      NonBlankAppend([ps[0]], mid + [last]);
      NonBlankAppend(mid, [last]);
      NonBlankSingle(last);
    }
  }

  /** When the whitespace run at the front holds no line break, the first line is not blank unless it is the only one. */
  lemma {:induction false} FirstLineNotBlank(t: string)
    requires '\n' !in LeadRun(t)
    ensures var ps := Split(t, '\n');
      |ps| == 1 || !AllSpace(ps[0])
  {
    if t != [] && t[0] != '\n' && IsSpace(t[0]) {
      assert LeadRun(t[1..]) == LeadRun(t)[1..];
      FirstLineNotBlank(t[1..]);
      var rest := Split(t[1..], '\n');
      assert ([t[0]] + rest[0])[1..] == rest[0];
    } else if t != [] && !IsSpace(t[0]) {
      assert Split(t, '\n')[0][0] == t[0];
    }
  }

  lemma KeptAfterBreak(qs: seq<string>)
    requires |qs| >= 1 && (|qs| == 1 || !AllSpace(qs[0]))
    ensures SqueezedLines(qs) == NonBlankLines(qs[..|qs| - 1]) + [qs[|qs| - 1]]
  {
    if |qs| > 1 {
      assert qs[..|qs| - 1] == [qs[0]] + qs[1..|qs| - 1];
      NonBlankAppend([qs[0]], qs[1..|qs| - 1]);
    }
  }

  lemma MiddleOf<T>(x: T, b: seq<T>, r: seq<T>)
    requires |r| >= 1
    ensures var ps := [x] + b + r;
      ps[0] == x && ps[1..|ps| - 1] == b + r[..|r| - 1] && ps[|ps| - 1] == r[|r| - 1]
  {
  }

  /** Blank lines right after a line break vanish when the line after them is not blank (or is the last). */
  lemma SqueezedAfterBreak(b: seq<string>, r: seq<string>)
    requires forall k :: 0 <= k < |b| ==> AllSpace(b[k])
    requires |r| >= 1 && (|r| == 1 || !AllSpace(r[0]))
    ensures SqueezedLines([[]] + b + r) == [[]] + SqueezedLines(r)
  {
    var front, last := r[..|r| - 1], r[|r| - 1];
    MiddleOf([], b, r);
    NonBlankAppend(b, front);
    NonBlankOfBlank(b);
    KeptAfterBreak(r);
    assert SqueezedLines([[]] + b + r) == [[]] + NonBlankLines(front) + [last];
  }

  lemma ReplaceFirst<T>(y: T, ps: seq<T>)
    requires |ps| > 1
    ensures var cs := [y] + ps[1..];
      |cs| == |ps| && cs[0] == y && cs[1..|cs| - 1] == ps[1..|ps| - 1] && cs[|cs| - 1] == ps[|ps| - 1]
  {
  }

  /** A character put in front of the first line stays in front of the first line. */
  lemma SqueezedCons(c: char, ps: seq<string>)
    requires |ps| >= 1
    ensures var qs := SqueezedLines(ps);
      SqueezedLines([[c] + ps[0]] + ps[1..]) == [[c] + qs[0]] + qs[1..]
  {
    if |ps| == 1 {
      assert ps[1..] == [];
    } else {
      var mid, last := NonBlankLines(ps[1..|ps| - 1]), ps[|ps| - 1];
      ReplaceFirst([c] + ps[0], ps);
      NewHead([c] + ps[0], ps[0], mid, last);
    }
  }

  lemma NewHead<T>(y: T, h: T, mid: seq<T>, last: T)
    ensures var q := [h] + mid + [last];
      q[0] == h && [y] + mid + [last] == [y] + q[1..]
  {
    var q := [h] + mid + [last];
    assert q[1..] == mid + [last];
  }

  /**
   * `re.sub(r"\n\s*\n", "\n", s)` on the lines of `s`: it keeps the first and
   * the last line and every line between them that is not whitespace only,
   * each unchanged and in order, and drops the whitespace-only lines between
   * them; each gap collapses to a single line break.
   */
  lemma {:induction false} SqueezeLines(s: string)
    ensures Split(SqueezeBlankLines(s), '\n') == SqueezedLines(Split(s, '\n'))
    decreases |s|
  {
    if s != [] {
      var n := BlankLinesMatch(s);
      if n > 0 {
        SqueezeLines(s[n..]);
        GapLines(s);
      } else {
        SqueezeLines(s[1..]);
        if s[0] == '\n' {
          BreakLines(s);
        } else {
          CharLines(s);
        }
      }
    }
  }

  /** A blank-line gap at the front: its whitespace-only lines go and one line break stays. */
  lemma GapLines(s: string)
    requires BlankLinesMatch(s) > 0
    requires var rest := s[BlankLinesMatch(s)..];
      Split(SqueezeBlankLines(rest), '\n') == SqueezedLines(Split(rest, '\n'))
    ensures Split(SqueezeBlankLines(s), '\n') == SqueezedLines(Split(s, '\n'))
  {
    var n := BlankLinesMatch(s);
    BlankLinesSpec(s);
    var m, rest := s[1..n - 1], s[n..];
    GapShape(s, n);
    FirstLineNotBlank(rest);
    SplitAllSpace(m, '\n');
    SplitConcat([] + "\n" + m, rest, '\n');
    SplitConcat([], m, '\n');
    assert ("\n" + SqueezeBlankLines(rest))[1..] == SqueezeBlankLines(rest);
    SqueezedAfterBreak(Split(m, '\n'), Split(rest, '\n'));
  }

  /** A gap is a line break, whitespace, and a line break. */
  lemma GapShape(s: string, n: nat)
    requires 2 <= n <= |s| && s[0] == '\n' && s[n - 1] == '\n' && AllSpace(s[..n])
    ensures AllSpace(s[1..n - 1]) && s == ([] + "\n" + s[1..n - 1]) + "\n" + s[n..]
  {
    var m := s[1..n - 1];
    assert forall k :: 0 <= k < |m| ==> m[k] == s[..n][k + 1];
  }

  /** A line break that starts no gap stays, and the line after it is kept. */
  lemma BreakLines(s: string)
    requires s != [] && s[0] == '\n' && BlankLinesMatch(s) == 0
    requires Split(SqueezeBlankLines(s[1..]), '\n') == SqueezedLines(Split(s[1..], '\n'))
    ensures Split(SqueezeBlankLines(s), '\n') == SqueezedLines(Split(s, '\n'))
  {
    BlankLinesSpec(s);
    FirstLineNotBlank(s[1..]);
    assert ([s[0]] + SqueezeBlankLines(s[1..]))[1..] == SqueezeBlankLines(s[1..]);
    assert [[]] + [] + Split(s[1..], '\n') == [[]] + Split(s[1..], '\n');
    SqueezedAfterBreak([], Split(s[1..], '\n'));
  }

  /** Any other character stays at the front of the first line. */
  lemma CharLines(s: string)
    requires s != [] && s[0] != '\n'
    requires Split(SqueezeBlankLines(s[1..]), '\n') == SqueezedLines(Split(s[1..], '\n'))
    ensures Split(SqueezeBlankLines(s), '\n') == SqueezedLines(Split(s, '\n'))
  {
    assert BlankLinesMatch(s) == 0;
    assert ([s[0]] + SqueezeBlankLines(s[1..]))[1..] == SqueezeBlankLines(s[1..]);
    SqueezedCons(s[0], Split(s[1..], '\n'));
  }

  // ---------------------------------------------------------------------------
  // Section extraction: re.search(header + r"([\s\S]*?)(?=stop|stop|\Z)", text)
  // ---------------------------------------------------------------------------

  const SummaryHeader: string := "Краткое содержание:"
  const ConclusionsHeader: string := "Выводы лекции:"
  const ThesesHeader: string := "Тезисы лекции:"
  /** The summary header without its colon: it is what ends the conclusions and theses blocks. */
  const SummaryMention: string := "Краткое содержание"

  /** One entry of the `patterns` dict (llama.py:86-90): the header and the lookahead's alternatives. */
  datatype Pattern = Pattern(key: Key, header: string, stops: seq<string>)

  function PatternFor(k: Key): Pattern {
    match k
    case Summary => Pattern(Summary, SummaryHeader, [ConclusionsHeader, ThesesHeader])
    case Conclusions => Pattern(Conclusions, ConclusionsHeader, [ThesesHeader, SummaryMention])
    case Theses => Pattern(Theses, ThesesHeader, [SummaryMention, ConclusionsHeader])
  }

  /** The keys of the `patterns` dict in insertion order, which is the order the loop visits them. */
  const Order: seq<Key> := [Summary, Conclusions, Theses]

  predicate IsAt(text: string, i: nat, w: string) {
    i + |w| <= |text| && forall j :: 0 <= j < |w| ==> text[i + j] == w[j]
  }

  /** Some alternative of the lookahead matches at `i`. */
  predicate StopAt(text: string, i: nat, stops: seq<string>) {
    exists j :: 0 <= j < |stops| && IsAt(text, i, stops[j])
  }

  predicate FirstOccurrence(text: string, w: string, i: nat) {
    IsAt(text, i, w) && forall m: nat :: m < i ==> !IsAt(text, m, w)
  }

  /** `e` is the first position from `from` on where a stop matches, or the end of the text (`\Z`). */
  predicate EarliestStop(text: string, stops: seq<string>, from: nat, e: nat) {
    from <= e <= |text| && (e == |text| || StopAt(text, e, stops)) &&
    forall m: nat :: from <= m < e ==> !StopAt(text, m, stops)
  }

  /**
   * Where the match of a pattern lies: its header first occurs at `i`, and
   * its group ends at `e`, the earliest stop after the header.
   */
  predicate GroupSpan(text: string, p: Pattern, i: nat, e: nat) {
    FirstOccurrence(text, p.header, i) && EarliestStop(text, p.stops, i + |p.header|, e)
  }

  /** The first position from `i` on where `w` occurs. */
  function FindFrom(text: string, w: string, i: nat): (r: Option<nat>)
    requires i <= |text|
    ensures r.Some? ==> IsAt(text, r.value, w)
    decreases |text| - i
  {
    if IsAt(text, i, w) then Some(i)
    else if i == |text| then None
    else FindFrom(text, w, i + 1)
  }

  lemma {:induction false} FindFromSpec(text: string, w: string, i: nat)
    requires i <= |text|
    ensures var r := FindFrom(text, w, i);
      (r.Some? ==> i <= r.value && forall m: nat :: i <= m < r.value ==> !IsAt(text, m, w)) &&
      (r.None? ==> forall m: nat :: i <= m ==> !IsAt(text, m, w))
    decreases |text| - i
  {
    if !IsAt(text, i, w) && i < |text| {
      FindFromSpec(text, w, i + 1);
    }
  }

  /** The first position from `i` on where a stop or the end of the text follows. */
  function StopFrom(text: string, stops: seq<string>, i: nat): (e: nat)
    requires i <= |text|
    ensures i <= e <= |text|
    decreases |text| - i
  {
    if i == |text| || StopAt(text, i, stops) then i else StopFrom(text, stops, i + 1)
  }

  lemma {:induction false} StopFromSpec(text: string, stops: seq<string>, i: nat)
    requires i <= |text|
    ensures EarliestStop(text, stops, i, StopFrom(text, stops, i))
    decreases |text| - i
  {
    if i < |text| && !StopAt(text, i, stops) {
      StopFromSpec(text, stops, i + 1);
    }
  }

  /**
   * `match.group(1)` of `re.search`, or None. The search succeeds at the first
   * occurrence of the header, because the `\Z` alternative always matches
   * eventually, and the lazy group stops at the earliest position from which
   * a stop marker or the end of the text follows.
   */
  function Search(text: string, p: Pattern): Option<string> {
    match FindFrom(text, p.header, 0)
    case None => None
    case Some(i) => Some(text[i + |p.header|..StopFrom(text, p.stops, i + |p.header|)])
  }

  lemma FirstOccurrenceUnique(text: string, w: string, i: nat, j: nat)
    requires FirstOccurrence(text, w, i) && FirstOccurrence(text, w, j)
    ensures i == j
  {
  }

  lemma EarliestStopUnique(text: string, stops: seq<string>, from: nat, e: nat, f: nat)
    requires EarliestStop(text, stops, from, e) && EarliestStop(text, stops, from, f)
    ensures e == f
  {
  }

  /** FindFrom from 0 finds the first occurrence, if there is one. */
  lemma FindFirst(text: string, w: string)
    ensures FindFrom(text, w, 0).None? <==> forall i: nat :: !IsAt(text, i, w)
    ensures FindFrom(text, w, 0).Some? ==> FirstOccurrence(text, w, FindFrom(text, w, 0).value)
  {
    FindFromSpec(text, w, 0);
  }

  /** The search fails exactly when the header does not occur. */
  lemma SearchFails(text: string, p: Pattern)
    ensures Search(text, p).None? <==> forall i: nat :: !IsAt(text, i, p.header)
  {
    FindFirst(text, p.header);
  }

  /**
   * When the header occurs, the group runs from just after its first
   * occurrence to the earliest position from there on where a stop or the
   * end of the text follows.
   */
  lemma SearchGroup(text: string, p: Pattern, i: nat, e: nat)
    requires GroupSpan(text, p, i, e)
    ensures Search(text, p) == Some(text[i + |p.header|..e])
  {
    var h := p.header;
    FindFirst(text, h);
    var i' := FindFrom(text, h, 0).value;
    FirstOccurrenceUnique(text, h, i, i');
    StopFromSpec(text, p.stops, i + |h|);
    EarliestStopUnique(text, p.stops, i + |h|, e, StopFrom(text, p.stops, i + |h|));
  }

  // ---------------------------------------------------------------------------
  // parse_lecture
  // ---------------------------------------------------------------------------

  /** The block after llama.py:94-99, from the group the search found, if any. */
  function Block(g: Option<string>): string {
    var raw := match g case Some(s) => Strip(s) case None => "";
    Strip(SqueezeBlankLines(RemoveMarkup(raw)))
  }

  /** The value stored under a key (llama.py:100-103), from the group the search found, if any. */
  function FieldOf(key: Key, g: Option<string>): Field {
    var cleaned := CleanText(Block(g));
    if key == Summary then Text(cleaned) else Items(Split(cleaned, '\n'))
  }

  /** The dict parse_lecture returns. */
  function Parse(text: string): Lecture {
    map k | k in AllKeys :: FieldOf(k, Search(text, PatternFor(k)))
  }

  /** The body of parse_lecture's loop for one pattern (llama.py:93-103). */
  method ParseField(text: string, p: Pattern) returns (f: Field)
    ensures f == FieldOf(p.key, Search(text, p))
  {
    var m := Search(text, p);
    var block := if m.Some? then Strip(m.value) else "";
    block := RemoveMarkup(block);
    block := Strip(SqueezeBlankLines(block));
    var cleaned := CleanWhitespace(block);
    if p.key == Summary {
      f := Text(cleaned);
    } else {
      f := Items(Split(cleaned, '\n'));
    }
  }

  /** parse_lecture always returns the three keys, a string under summary and non-empty lists under the others. */
  lemma ParseWellFormed(text: string)
    ensures WellFormed(Parse(text))
    ensures |Parse(text)[Conclusions].items| >= 1 && |Parse(text)[Theses].items| >= 1
  {
  }

  /** The dict after the loop has visited the first `n` keys. */
  function ParsedSoFar(text: string, n: nat): Lecture
    requires n <= |Order|
  {
    map k | k in Order[..n] :: FieldOf(k, Search(text, PatternFor(k)))
  }

  lemma ParsedStep(text: string, n: nat, f: Field)
    requires n < |Order| && f == FieldOf(Order[n], Search(text, PatternFor(Order[n])))
    ensures ParsedSoFar(text, n)[Order[n] := f] == ParsedSoFar(text, n + 1)
  {
    assert Order[..n + 1] == Order[..n] + [Order[n]];
  }

  lemma ParsedAll(text: string)
    ensures ParsedSoFar(text, |Order|) == Parse(text)
  {
    assert Order[..|Order|] == Order;
  }

  /**
   * The loop of parse_lecture over the three patterns (llama.py:84-104). It
   * never fails and always fills all three keys.
   */
  method ParseLecture(text: string) returns (result: Lecture)
    ensures result == Parse(text)
    ensures WellFormed(result)
    ensures |result[Conclusions].items| >= 1 && |result[Theses].items| >= 1
  {
    result := map[];
    for i := 0 to |Order|
      invariant result == ParsedSoFar(text, i)
    {
      var f := ParseField(text, PatternFor(Order[i]));
      ParsedStep(text, i, f);
      result := result[Order[i] := f];
    }
    ParsedAll(text);
    ParseWellFormed(text);
  }
}
