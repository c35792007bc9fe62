/**
 * Properties of the lecture-reply parser of llama.py as a whole: which lines
 * clean_whitespace leaves alone, that no markup survives parse_lecture, what
 * a missing header gives, and where each section's boundaries fall.
 */
module LectureFacts {
  import opened Common
  import opened PyText
  import opened Analysis
  import opened LectureParser

  // ---------------------------------------------------------------------------
  // Fixed points of the line steps
  // ---------------------------------------------------------------------------

  /** `\s+ -> ' '` leaves a line alone exactly when its whitespace is already single plain spaces. */
  lemma {:induction false} CollapseFixes(s: string)
    ensures CollapseSpaces(s) == s <==> OnlyPlainSpaces(s) && SingleSpaced(s)
    decreases |s|
  {
    CollapseSpec(s);
    if s != [] && OnlyPlainSpaces(s) && SingleSpaced(s) {
      assert forall k :: 0 <= k < |s| - 1 ==> s[1..][k] == s[k + 1];
      if IsSpace(s[0]) {
        assert LeadingSpaces(s[1..]) == 0;
        assert TrimStart(s[1..]) == s[1..];
      }
      CollapseFixes(s[1..]);
      assert [s[0]] + s[1..] == s;
    }
  }

  /** A line comes out of clean_whitespace unchanged exactly when it is clean and does not start with a dash. */
  lemma CleanLineFixes(s: string)
    ensures CleanLine(s) == s <==> IsClean(s) && (s == [] || s[0] != '-')
  {
    CleanLineSpec(s);
    if IsClean(s) {
      StripFixes(s);
      CollapseFixes(s);
      BulletStep(s);
    }
  }

  /** A clean line with a "- " bullet in front is still clean. */
  lemma BulletedIsClean(s: string)
    requires IsClean(s) && s != []
    ensures IsClean("- " + s)
  {
    var c := "- " + s;
    assert forall k :: 2 <= k < |c| ==> c[k] == s[k - 2];
    assert OnlyPlainSpaces(c);
    assert SingleSpaced(c) by {
      assert !IsSpace(c[2]);
    }
  }

  /** The bullet step turns `"- " + s` into `s` when `s` starts with a non-whitespace character. */
  lemma RemoveBulletOfBulleted(s: string)
    requires s != [] && !IsSpace(s[0])
    ensures RemoveBullet("- " + s) == s
  {
    var c := "- " + s;
    assert LeadingSpaces(c) == 0;
    var t := c[1..];
    assert t == [' '] + s;
    assert t[1..] == s;
    assert LeadingSpaces(t) == 1;
  }

  /** One leading "- " bullet is removed from a clean line. */
  lemma CleanLineBullet(s: string)
    requires IsClean(s) && s != []
    ensures CleanLine("- " + s) == s
  {
    var c := "- " + s;
    BulletedIsClean(s);
    StripFixes(c);
    CollapseFixes(c);
    assert CollapseSpaces(Strip(c)) == c;
    RemoveBulletOfBulleted(s);
    StripFixes(s);
  }

  /** Only one bullet goes per line: a doubled bullet leaves the second one in place. */
  lemma OneBulletPerLine()
    ensures CleanLine("- - a") == "- a"
  {
    DashItemClean();
    CleanLineBullet("- a");
    assert "- " + "- a" == "- - a";
  }

  lemma DashItemClean()
    ensures IsClean("- a")
  {
    var s := "- a";
    assert forall k :: 0 <= k < |s| ==> s[k] == '-' || s[k] == ' ' || s[k] == 'a';
  }

  // ---------------------------------------------------------------------------
  // The lines of each field
  // ---------------------------------------------------------------------------

  /** The lines of a field: the summary split at '\n', or the list itself. */
  function Lines(f: Field): seq<string> {
    match f
    case Text(t) => Split(t, '\n')
    case Items(items) => items
  }

  /**
   * Each field holds the lines of its block, cleaned one by one: as many
   * lines as the block has, each clean, with no line break, and having lost
   * at most one leading bullet.
   */
  lemma FieldLines(text: string, k: Key)
    ensures var lines, block := Lines(Parse(text)[k]), Split(Block(Search(text, PatternFor(k))), '\n');
      lines == CleanLines(block) && |lines| == |block| &&
      forall n :: 0 <= n < |lines| ==>
        IsClean(lines[n]) && '\n' !in lines[n] &&
        LostAtMostOneBullet(CollapseSpaces(Strip(block[n])), lines[n])
  {
    var block := Split(Block(Search(text, PatternFor(k))), '\n');
    CleanTextLines(Block(Search(text, PatternFor(k))));
    forall n | 0 <= n < |block|
      ensures IsClean(CleanLine(block[n])) && '\n' !in CleanLine(block[n]) &&
        LostAtMostOneBullet(CollapseSpaces(Strip(block[n])), CleanLine(block[n]))
    {
      CleanLineSpec(block[n]);
    }
  }

  // ---------------------------------------------------------------------------
  // No markup survives
  // ---------------------------------------------------------------------------

  lemma CleanLineAvoids(line: string, c: char)
    requires c != ' ' && c !in line
    ensures c !in CleanLine(line)
  {
    StripAvoids(line, c);
    CollapseChars(Strip(line));
    RemoveBulletSpec(CollapseSpaces(Strip(line)));
    StripAvoids(RemoveBullet(CollapseSpaces(Strip(line))), c);
  }

  lemma CleanTextAvoids(text: string, c: char)
    requires c != ' ' && c != '\n' && c !in text
    ensures c !in CleanText(text)
  {
    var lines := Split(text, '\n');
    SplitAvoids(text, '\n', c);
    forall k | 0 <= k < |lines|
      ensures c !in CleanLines(lines)[k]
    {
      CleanLineAvoids(lines[k], c);
    }
    JoinAvoids(CleanLines(lines), '\n', c);
  }

  lemma BlockHasNoMarkup(g: Option<string>)
    ensures NoMarkup(Block(g))
  {
    var raw := match g case Some(s) => Strip(s) case None => "";
    var m := RemoveMarkup(raw);
    RemoveMarkupSpec(raw);
    SqueezeSpec(m);
    StripAvoids(SqueezeBlankLines(m), '*');
    StripAvoids(SqueezeBlankLines(m), '#');
  }

  /** No `*` or `#` is left in the summary or in any conclusion or thesis. */
  lemma ParseHasNoMarkup(text: string)
    ensures NoMarkup(Parse(text)[Summary].text)
    ensures forall n :: 0 <= n < |Parse(text)[Conclusions].items| ==> NoMarkup(Parse(text)[Conclusions].items[n])
    ensures forall n :: 0 <= n < |Parse(text)[Theses].items| ==> NoMarkup(Parse(text)[Theses].items[n])
  {
    forall k | k in AllKeys
      ensures NoMarkup(CleanText(Block(Search(text, PatternFor(k)))))
    {
      BlockHasNoMarkup(Search(text, PatternFor(k)));
      CleanTextAvoids(Block(Search(text, PatternFor(k))), '*');
      CleanTextAvoids(Block(Search(text, PatternFor(k))), '#');
    }
    SplitAvoids(CleanText(Block(Search(text, PatternFor(Conclusions)))), '\n', '*');
    SplitAvoids(CleanText(Block(Search(text, PatternFor(Conclusions)))), '\n', '#');
    SplitAvoids(CleanText(Block(Search(text, PatternFor(Theses)))), '\n', '*');
    SplitAvoids(CleanText(Block(Search(text, PatternFor(Theses)))), '\n', '#');
  }

  // ---------------------------------------------------------------------------
  // Missing headers
  // ---------------------------------------------------------------------------

  /** A section whose header does not occur gives "" for the summary and [""] for a list. */
  lemma MissingHeader(text: string, k: Key)
    requires forall i: nat :: !IsAt(text, i, PatternFor(k).header)
    ensures Parse(text)[k] == if k == Summary then Text("") else Items([""])
  {
    SearchFails(text, PatternFor(k));
    assert Block(Search(text, PatternFor(k))) == "";
    assert CleanLine("") == "";
    assert CleanLines([""]) == [""];
  }

  // ---------------------------------------------------------------------------
  // Section boundaries
  // ---------------------------------------------------------------------------

  /** The capital letters the headers start with. */
  predicate Initial(c: char) {
    c == 'К' || c == 'В' || c == 'Т'
  }

  /** Starts with one of those capitals and has none after that. */
  predicate Shaped(w: string) {
    |w| >= 1 && Initial(w[0]) && forall m :: 1 <= m < |w| ==> !Initial(w[m])
  }

  /** Every string the three patterns look for. */
  const Markers: seq<string> := [SummaryHeader, ConclusionsHeader, ThesesHeader, SummaryMention]

  lemma MarkersShaped()
    ensures forall w :: w in Markers ==> Shaped(w)
  {
    assert Shaped(SummaryHeader);
    assert Shaped(ConclusionsHeader);
    assert Shaped(ThesesHeader);
    assert Shaped(SummaryMention);
  }

  lemma PatternMarkers(k: Key)
    ensures PatternFor(k).header in Markers
    ensures forall j :: 0 <= j < |PatternFor(k).stops| ==> PatternFor(k).stops[j] in Markers
  {
  }

  /** No header or stop marker occurs anywhere in `x`. */
  predicate MarkerFree(x: string) {
    forall i: nat, w :: i <= |x| && w in Markers ==> !IsAt(x, i, w)
  }

  lemma IsAtChar(text: string, i: nat, w: string, j: nat)
    requires IsAt(text, i, w) && j < |w|
    ensures text[i + j] == w[j]
  {
    assert text[i..i + |w|][j] == w[j];
  }

  lemma StartsWith(text: string, i: nat, w: string)
    requires |w| >= 1
    ensures IsAt(text, i, w) ==> i < |text| && text[i] == w[0]
  {
    if IsAt(text, i, w) {
      IsAtChar(text, i, w, 0);
    }
  }

  /** Headers of different sections start with different letters. */
  lemma HeadersDiffer(k: Key, k': Key)
    requires k != k'
    ensures PatternFor(k).header[0] != PatternFor(k').header[0]
  {
  }

  /** A block never stops at a repeat of its own header: none of its stops starts with that header's letter. */
  lemma OwnHeaderNeverStops(text: string, k: Key, i: nat)
    requires IsAt(text, i, PatternFor(k).header)
    ensures !StopAt(text, i, PatternFor(k).stops)
  {
    var p := PatternFor(k);
    IsAtChar(text, i, PatternFor(k).header, 0);
    forall j | 0 <= j < |p.stops|
      ensures !IsAt(text, i, p.stops[j])
    {
      assert p.stops[j][0] != PatternFor(k).header[0];
      StartsWith(text, i, p.stops[j]);
    }
  }

  /** The header of any other section ends a block: the summary header, through its colonless mention. */
  lemma OtherHeaderStops(k: Key, k': Key, t: string)
    requires k != k' && IsAt(t, 0, PatternFor(k').header)
    ensures StopAt(t, 0, PatternFor(k).stops)
  {
    var stops := PatternFor(k).stops;
    if k' == Summary {
      assert forall j :: 0 <= j < |SummaryMention| ==> SummaryMention[j] == SummaryHeader[j];
      assert IsAt(t, 0, stops[if k == Conclusions then 1 else 0]);
    } else {
      assert IsAt(t, 0, stops[if k == Summary then (if k' == Conclusions then 0 else 1) else if k == Conclusions then 0 else 1]);
    }
  }

  lemma IsAtInside(h: string, x: string, rest: string, m: nat, w: string)
    requires |h| <= m && m + |w| <= |h| + |x|
    ensures IsAt(h + x + rest, m, w) ==> IsAt(x, m - |h|, w)
  {
    var text := h + x + rest;
    assert text[m..m + |w|] == x[m - |h|..m - |h| + |w|];
  }

  lemma IsAtCovers(text: string, m: nat, w: string, q: nat)
    requires m <= q < m + |w|
    ensures IsAt(text, m, w) ==> q < |text| && text[q] == w[q - m]
  {
    if IsAt(text, m, w) {
      IsAtChar(text, m, w, q - m);
    }
  }

  /** No marker occurs strictly inside a header or anywhere in a marker-free section body after it. */
  lemma SectionClear(h: string, x: string, rest: string, m: nat, w: string)
    requires Shaped(h) && Shaped(w) && w in Markers && MarkerFree(x)
    requires rest == [] || Initial(rest[0])
    requires 0 < m < |h| + |x|
    ensures !IsAt(h + x + rest, m, w)
  {
    var text := h + x + rest;
    var end := |h| + |x|;
    StartsWith(text, m, w);
    if m < |h| {
      assert text[m] == h[m];
    } else if m + |w| <= end {
      IsAtInside(h, x, rest, m, w);
    } else {
      IsAtCovers(text, m, w, end);
      assert end < |text| ==> text[end] == rest[0];
    }
  }

  lemma IsAtShift(pre: string, rest: string, m: nat, w: string)
    ensures IsAt(pre + rest, |pre| + m, w) <==> IsAt(rest, m, w)
  {
    var text := pre + rest;
    if |pre| + m + |w| <= |text| {
      assert text[|pre| + m..|pre| + m + |w|] == rest[m..m + |w|];
    }
  }

  lemma StopAtShift(pre: string, rest: string, m: nat, stops: seq<string>)
    ensures StopAt(pre + rest, |pre| + m, stops) <==> StopAt(rest, m, stops)
  {
    forall j | 0 <= j < |stops|
      ensures IsAt(pre + rest, |pre| + m, stops[j]) <==> IsAt(rest, m, stops[j])
    {
      IsAtShift(pre, rest, m, stops[j]);
    }
  }

  lemma FirstOccurrenceShift(pre: string, rest: string, w: string, i: nat)
    requires forall m: nat :: m < |pre| ==> !IsAt(pre + rest, m, w)
    requires FirstOccurrence(rest, w, i)
    ensures FirstOccurrence(pre + rest, w, |pre| + i)
  {
    IsAtShift(pre, rest, i, w);
    forall m: nat | |pre| <= m < |pre| + i
      ensures !IsAt(pre + rest, m, w)
    {
      IsAtShift(pre, rest, m - |pre|, w);
    }
  }

  lemma EarliestStopShift(pre: string, rest: string, stops: seq<string>, from: nat, e: nat)
    requires EarliestStop(rest, stops, from, e)
    ensures EarliestStop(pre + rest, stops, |pre| + from, |pre| + e)
  {
    StopAtShift(pre, rest, e, stops);
    forall m: nat | |pre| + from <= m < |pre| + e
      ensures !StopAt(pre + rest, m, stops)
    {
      StopAtShift(pre, rest, m - |pre|, stops);
    }
  }

  lemma NoneShift(pre: string, rest: string, w: string)
    requires forall m: nat :: m < |pre| ==> !IsAt(pre + rest, m, w)
    requires forall m: nat :: !IsAt(rest, m, w)
    ensures forall m: nat :: !IsAt(pre + rest, m, w)
  {
    forall m: nat | |pre| <= m
      ensures !IsAt(pre + rest, m, w)
    {
      IsAtShift(pre, rest, m - |pre|, w);
    }
  }

  lemma GroupSpanShift(pre: string, rest: string, p: Pattern, i: nat, e: nat)
    requires forall m: nat :: m < |pre| ==> !IsAt(pre + rest, m, p.header)
    requires GroupSpan(rest, p, i, e)
    ensures GroupSpan(pre + rest, p, |pre| + i, |pre| + e)
  {
    FirstOccurrenceShift(pre, rest, p.header, i);
    EarliestStopShift(pre, rest, p.stops, i + |p.header|, e);
  }

  /** A prefix in which the header does not start leaves the search's group unchanged. */
  lemma ShiftSearch(pre: string, rest: string, p: Pattern)
    requires forall m: nat :: m < |pre| ==> !IsAt(pre + rest, m, p.header)
    ensures Search(pre + rest, p) == Search(rest, p)
  {
    var h := p.header;
    FindFirst(rest, h);
    if FindFrom(rest, h, 0).None? {
      SearchFails(rest, p);
      NoneShift(pre, rest, h);
      SearchFails(pre + rest, p);
    } else {
      var i := FindFrom(rest, h, 0).value;
      StopFromSpec(rest, p.stops, i + |h|);
      ShiftGroup(pre, rest, p, i, StopFrom(rest, p.stops, i + |h|));
    }
  }

  lemma ShiftGroup(pre: string, rest: string, p: Pattern, i: nat, e: nat)
    requires forall m: nat :: m < |pre| ==> !IsAt(pre + rest, m, p.header)
    requires GroupSpan(rest, p, i, e)
    ensures Search(pre + rest, p) == Search(rest, p)
  {
    GroupSpanShift(pre, rest, p, i, e);
    ShiftedSearch(pre, rest, p, i, e);
    SearchGroup(rest, p, i, e);
  }

  lemma ShiftedSearch(pre: string, rest: string, p: Pattern, i: nat, e: nat)
    requires i + |p.header| <= e <= |rest|
    requires GroupSpan(pre + rest, p, |pre| + i, |pre| + e)
    ensures Search(pre + rest, p) == Some(rest[i + |p.header|..e])
  {
    SearchGroup(pre + rest, p, |pre| + i, |pre| + e);
    SliceShift(pre, rest, i + |p.header|, e);
  }

  lemma SliceShift(pre: string, rest: string, a: nat, b: nat)
    requires a <= b <= |rest|
    ensures (pre + rest)[|pre| + a..|pre| + b] == rest[a..b]
  {
  }

  /**
   * A section's block ends where its body does: at the next section's
   * header, whichever section that is, or at the end of the reply.
   */
  lemma SectionGroup(k: Key, x: string, rest: string, next: Key)
    requires MarkerFree(x)
    requires rest == [] || (next != k && IsAt(rest, 0, PatternFor(next).header))
    ensures Search(PatternFor(k).header + x + rest, PatternFor(k)) == Some(x)
  {
    var p, h := PatternFor(k), PatternFor(k).header;
    var text, e := h + x + rest, |h| + |x|;
    MarkersShaped();
    PatternMarkers(k);
    PatternMarkers(next);
    assert IsAt(text, 0, h);
    forall m: nat | |h| <= m < e
      ensures !StopAt(text, m, p.stops)
    {
      forall j | 0 <= j < |p.stops|
        ensures !IsAt(text, m, p.stops[j])
      {
        SectionClear(h, x, rest, m, p.stops[j]);
      }
    }
    if rest != [] {
      OtherHeaderStops(k, next, rest);
      assert text == (h + x) + rest;
      StopAtShift(h + x, rest, 0, p.stops);
    }
    assert GroupSpan(text, p, 0, e);
    SearchGroup(text, p, 0, e);
    assert text[|h|..e] == x;
  }

  /** Another section's header does not start anywhere in a section, so the search skips it. */
  lemma SectionSkipped(k0: Key, x: string, rest: string, k: Key, m: nat)
    requires MarkerFree(x) && k != k0 && (rest == [] || Initial(rest[0]))
    requires m < |PatternFor(k0).header| + |x|
    ensures !IsAt(PatternFor(k0).header + x + rest, m, PatternFor(k).header)
  {
    var h := PatternFor(k0).header;
    MarkersShaped();
    PatternMarkers(k);
    PatternMarkers(k0);
    HeadersDiffer(k, k0);
    if m == 0 {
      StartsWith(h + x + rest, 0, PatternFor(k).header);
    } else {
      SectionClear(h, x, rest, m, PatternFor(k).header);
    }
  }

  /** A reply made of the given sections, in the given order, each a header followed by its body. */
  function Layout(keys: seq<Key>, bodies: seq<string>): string
    requires |keys| == |bodies|
  {
    if keys == [] then [] else PatternFor(keys[0]).header + bodies[0] + Layout(keys[1..], bodies[1..])
  }

  lemma LayoutHead(keys: seq<Key>, bodies: seq<string>)
    requires |keys| == |bodies|
    ensures Layout(keys, bodies) == [] || Initial(Layout(keys, bodies)[0])
    ensures keys != [] ==> IsAt(Layout(keys, bodies), 0, PatternFor(keys[0]).header)
  {
    if keys != [] {
      MarkersShaped();
      PatternMarkers(keys[0]);
    }
  }

  predicate Distinct(keys: seq<Key>) {
    forall i, j :: 0 <= i < j < |keys| ==> keys[i] != keys[j]
  }

  lemma DistinctTail(keys: seq<Key>)
    requires keys != [] && Distinct(keys)
    ensures Distinct(keys[1..]) && keys[0] !in keys[1..]
  {
    forall i, j | 0 <= i < j < |keys| - 1
      ensures keys[1..][i] != keys[1..][j]
    {
      assert keys[1..][i] == keys[i + 1] && keys[1..][j] == keys[j + 1];
    }
  }

  /**
   * Whatever the order of the sections, and whether or not some are missing,
   * each block ends at the next section's header or at the end of the reply,
   * as long as no header or stop marker occurs inside a body.
   */
  lemma {:induction false} LayoutSearch(keys: seq<Key>, bodies: seq<string>, n: nat)
    requires |keys| == |bodies| && Distinct(keys)
    requires forall j :: 0 <= j < |bodies| ==> MarkerFree(bodies[j])
    requires n < |keys|
    ensures Search(Layout(keys, bodies), PatternFor(keys[n])) == Some(bodies[n])
  {
    var rest := Layout(keys[1..], bodies[1..]);
    var pre := PatternFor(keys[0]).header + bodies[0];
    LayoutHead(keys[1..], bodies[1..]);
    if n == 0 {
      SectionGroup(keys[0], bodies[0], rest, if |keys| > 1 then keys[1] else keys[0]);
    } else {
      DistinctTail(keys);
      assert bodies[1..][n - 1] == bodies[n];
      LayoutSearch(keys[1..], bodies[1..], n - 1);
      forall m: nat | m < |pre|
        ensures !IsAt(pre + rest, m, PatternFor(keys[n]).header)
      {
        SectionSkipped(keys[0], bodies[0], rest, keys[n], m);
      }
      ShiftSearch(pre, rest, PatternFor(keys[n]));
    }
  }

  /** The header of a section that is not in the reply occurs nowhere in it. */
  lemma {:induction false} LayoutWithout(keys: seq<Key>, bodies: seq<string>, k: Key)
    requires |keys| == |bodies| && k !in keys
    requires forall j :: 0 <= j < |bodies| ==> MarkerFree(bodies[j])
    ensures forall i: nat :: !IsAt(Layout(keys, bodies), i, PatternFor(k).header)
  {
    if keys != [] {
      var rest := Layout(keys[1..], bodies[1..]);
      var pre := PatternFor(keys[0]).header + bodies[0];
      LayoutHead(keys[1..], bodies[1..]);
      assert k !in keys[1..];
      LayoutWithout(keys[1..], bodies[1..], k);
      forall i: nat
        ensures !IsAt(pre + rest, i, PatternFor(k).header)
      {
        if i < |pre| {
          SectionSkipped(keys[0], bodies[0], rest, k, i);
        } else {
          IsAtShift(pre, rest, i - |pre|, PatternFor(k).header);
        }
      }
    }
  }

  /** The search for a section that is not in the reply fails. */
  lemma LayoutAbsent(keys: seq<Key>, bodies: seq<string>, k: Key)
    requires |keys| == |bodies| && k !in keys
    requires forall j :: 0 <= j < |bodies| ==> MarkerFree(bodies[j])
    ensures Search(Layout(keys, bodies), PatternFor(k)) == None
  {
    LayoutWithout(keys, bodies, k);
    SearchNone(Layout(keys, bodies), PatternFor(k));
  }

  lemma SearchNone(text: string, p: Pattern)
    requires forall i: nat :: !IsAt(text, i, p.header)
    ensures Search(text, p) == None
  {
    SearchFails(text, p);
  }

  // ---------------------------------------------------------------------------
  // A reply worked through
  // ---------------------------------------------------------------------------

  /** Every marker is at least 14 characters long, so a shorter body holds none. */
  lemma ShortIsMarkerFree(x: string)
    requires |x| < 14
    ensures MarkerFree(x)
  {
  }

  lemma NoBreakNoBlankLines(s: string)
    requires '\n' !in s
    ensures NoBlankLines(s)
  {
    forall i | 0 <= i < |s|
      ensures BlankLinesMatch(s[i..]) == 0
    {
      assert s[i..][0] == s[i];
    }
  }

  /** The processed block of one padded line without markup is the line itself. */
  lemma PaddedBlock(p: string, core: string, q: string)
    requires AllSpace(p) && AllSpace(q) && NoMarkup(core) && '\n' !in core
    requires core == [] || (!IsSpace(core[0]) && !IsSpace(core[|core| - 1]))
    ensures Block(Some(p + core + q)) == core
  {
    StripPadded(p, core, q);
    RemoveMarkupFixes(core);
    NoBreakNoBlankLines(core);
    SqueezeFixes(core);
    StripFixes(core);
  }

  /**
   * The field a one-line body gives: the body is stripped, has no markup and
   * no blank line, so only clean_whitespace changes it.
   */
  lemma OneLineField(k: Key, p: string, core: string, q: string)
    requires AllSpace(p) && AllSpace(q) && NoMarkup(core) && '\n' !in core
    requires core == [] || (!IsSpace(core[0]) && !IsSpace(core[|core| - 1]))
    ensures FieldOf(k, Some(p + core + q)) == if k == Summary then Text(CleanLine(core)) else Items([CleanLine(core)])
  {
    PaddedBlock(p, core, q);
    SplitWithout(core, '\n');
    assert CleanLines([core]) == [CleanLine(core)];
    CleanLineSpec(core);
    SplitWithout(CleanLine(core), '\n');
  }

  /** A body holding one plain line between two line breaks gives that line. */
  lemma PlainLineField(k: Key, line: string)
    requires IsClean(line) && line != [] && line[0] != '-' && NoMarkup(line) && '\n' !in line
    ensures FieldOf(k, Some("\n" + line + "\n")) == if k == Summary then Text(line) else Items([line])
  {
    CleanLineFixes(line);
    OneLineField(k, "\n", line, "\n");
  }

  /** A bullet in front of a line adds no markup, no line break and no whitespace at the ends. */
  lemma BulletedAvoids(item: string)
    requires item != [] && !IsSpace(item[|item| - 1]) && NoMarkup(item) && '\n' !in item
    ensures var core := "- " + item;
      NoMarkup(core) && '\n' !in core && !IsSpace(core[0]) && !IsSpace(core[|core| - 1])
  {
    var core := "- " + item;
    assert core[|core| - 1] == item[|item| - 1];
    assert forall c :: c in core ==> c == '-' || c == ' ' || c in item;
  }

  /** A body holding one bulleted line gives that line without its bullet. */
  lemma BulletLineField(k: Key, item: string, q: string)
    requires IsClean(item) && item != [] && NoMarkup(item) && '\n' !in item && AllSpace(q)
    ensures FieldOf(k, Some("\n" + ("- " + item) + q)) == if k == Summary then Text(item) else Items([item])
  {
    BulletedAvoids(item);
    CleanLineBullet(item);
    OneLineField(k, "\n", "- " + item, q);
  }

  /** A body whose ends are lines with no whitespace at their outer ends, and no markup anywhere. */
  predicate ListBody(lines: seq<string>) {
    |lines| >= 1 &&
    (forall i :: 0 <= i < |lines| ==> '\n' !in lines[i] && NoMarkup(lines[i])) &&
    lines[0] != [] && !IsSpace(lines[0][0]) &&
    lines[|lines| - 1] != [] && !IsSpace(lines[|lines| - 1][|lines[|lines| - 1]| - 1])
  }

  /** Stripping the padding and removing markup leave such a body as it is. */
  lemma ListRaw(p: string, lines: seq<string>, q: string)
    requires AllSpace(p) && AllSpace(q) && ListBody(lines)
    ensures RemoveMarkup(Strip(p + Join(lines, '\n') + q)) == Join(lines, '\n')
  {
    var body := Join(lines, '\n');
    JoinEnds(lines, '\n');
    StripPadded(p, body, q);
    JoinAvoids(lines, '\n', '*');
    JoinAvoids(lines, '\n', '#');
    RemoveMarkupFixes(body);
  }

  /** Squeezing such a body drops exactly its blank lines. */
  lemma ListSqueeze(lines: seq<string>)
    requires ListBody(lines)
    ensures SqueezeBlankLines(Join(lines, '\n')) == Join(NonBlankLines(lines), '\n')
  {
    var body := Join(lines, '\n');
    SqueezeLines(body);
    SplitJoin(lines, '\n');
    var last := lines[|lines| - 1];
    assert lines[0][0] in lines[0] && last[|last| - 1] in last;
    SqueezedNonBlankEnds(lines);
    JoinSplit(SqueezeBlankLines(body), '\n');
  }

  /** The kept lines rejoined have no whitespace at their ends and split back into themselves. */
  lemma ListKept(lines: seq<string>)
    requires ListBody(lines)
    ensures var kept := NonBlankLines(lines);
      Strip(Join(kept, '\n')) == Join(kept, '\n') && Split(Join(kept, '\n'), '\n') == kept
  {
    ListKeptEnds(lines);
    ListKeptSplit(lines);
  }

  lemma ListKeptEnds(lines: seq<string>)
    requires ListBody(lines)
    ensures Strip(Join(NonBlankLines(lines), '\n')) == Join(NonBlankLines(lines), '\n')
  {
    var last := lines[|lines| - 1];
    assert lines[0][0] in lines[0] && last[|last| - 1] in last;
    SqueezedNonBlankEnds(lines);
    var kept := NonBlankLines(lines);
    assert kept[0] == lines[0] && kept[|kept| - 1] == last;
    JoinEnds(kept, '\n');
    StripFixes(Join(kept, '\n'));
  }

  lemma ListKeptSplit(lines: seq<string>)
    requires ListBody(lines)
    ensures Split(Join(NonBlankLines(lines), '\n'), '\n') == NonBlankLines(lines)
  {
    var last := lines[|lines| - 1];
    assert lines[0][0] in lines[0] && last[|last| - 1] in last;
    SqueezedNonBlankEnds(lines);
    var kept := NonBlankLines(lines);
    assert |kept| >= 1;
    NonBlankFrom(lines);
    forall i | 0 <= i < |kept|
      ensures '\n' !in kept[i]
    {
      var j :| 0 <= j < |lines| && lines[j] == kept[i];
    }
    SplitJoin(kept, '\n');
  }

  /**
   * The processed block of a body made of lines, some of them blank: the
   * blank lines between the first and the last line are gone and the other
   * lines are kept, unchanged and in order.
   */
  lemma ListBlock(p: string, lines: seq<string>, q: string)
    requires AllSpace(p) && AllSpace(q) && ListBody(lines)
    ensures var kept := NonBlankLines(lines);
      Block(Some(p + Join(lines, '\n') + q)) == Join(kept, '\n') && Split(Join(kept, '\n'), '\n') == kept
  {
    ListRaw(p, lines, q);
    ListSqueeze(lines);
    ListKept(lines);
  }

  /**
   * A section body of several lines gives one list item per line that is not
   * blank, each cleaned, in order; blank lines between them give no item.
   * The summary is those cleaned lines joined by line breaks.
   */
  lemma ListField(k: Key, p: string, lines: seq<string>, q: string)
    requires AllSpace(p) && AllSpace(q) && ListBody(lines)
    ensures var items := CleanLines(NonBlankLines(lines));
      FieldOf(k, Some(p + Join(lines, '\n') + q)) == if k == Summary then Text(Join(items, '\n')) else Items(items)
  {
    ListBlock(p, lines, q);
    CleanTextLines(Join(NonBlankLines(lines), '\n'));
  }

  /** The text of two lines with an empty line between them, as a body ListField takes. */
  lemma ThreeLines(lx: string, ly: string)
    ensures "\n" + lx + "\n" + "\n" + ly == "\n" + Join([lx, "", ly], '\n') + ""
  {
    var lines := [lx, "", ly];
    assert lines[1..] == ["", ly] && lines[1..][1..] == [ly];
    assert Join(lines[1..][1..], '\n') == ly;
    assert Join(lines[1..], '\n') == "" + "\n" + ly;
  }

  /** Of two non-blank lines around an empty one, the two non-blank lines are kept. */
  lemma KeptAroundEmpty(lx: string, ly: string)
    requires !AllSpace(lx) && !AllSpace(ly)
    ensures NonBlankLines([lx, "", ly]) == [lx, ly]
  {
    var lines := [lx, "", ly];
    assert lines[1..] == ["", ly] && lines[1..][1..] == [ly];
    assert AllSpace("");
    assert NonBlankLines(lines[1..][1..]) == [ly];
  }

  lemma BulletsAroundEmpty(x: string, y: string)
    requires x != [] && !IsSpace(x[|x| - 1]) && NoMarkup(x) && '\n' !in x
    requires y != [] && !IsSpace(y[|y| - 1]) && NoMarkup(y) && '\n' !in y
    ensures ListBody(["- " + x, "", "- " + y]) && !AllSpace("- " + x) && !AllSpace("- " + y)
  {
    BulletedAvoids(x);
    BulletedAvoids(y);
  }

  /** Two bulleted lines with a blank line between them give two items, without their bullets. */
  lemma BlankLineBetweenItems(k: Key, x: string, y: string)
    requires k != Summary
    requires IsClean(x) && x != [] && NoMarkup(x) && '\n' !in x
    requires IsClean(y) && y != [] && NoMarkup(y) && '\n' !in y
    ensures FieldOf(k, Some("\n" + ("- " + x) + "\n" + "\n" + ("- " + y))) == Items([x, y])
  {
    var lx, ly := "- " + x, "- " + y;
    BulletsAroundEmpty(x, y);
    ThreeLines(lx, ly);
    KeptAroundEmpty(lx, ly);
    ListField(k, "\n", [lx, "", ly], "");
    CleanTwoBullets(x, y);
  }

  lemma CleanTwoBullets(x: string, y: string)
    requires IsClean(x) && x != [] && IsClean(y) && y != []
    ensures CleanLines(["- " + x, "- " + y]) == [x, y]
  {
    CleanLineBullet(x);
    CleanLineBullet(y);
  }

  /** The three sections of the worked reply, in order, with the text after each header. */
  lemma ExampleLayout(b0: string, b1: string, b2: string)
    ensures Layout([Summary, Conclusions, Theses], [b0, b1, b2]) ==
      SummaryHeader + b0 + ConclusionsHeader + b1 + ThesesHeader + b2
  {
    var keys, bodies := [Summary, Conclusions, Theses], [b0, b1, b2];
    assert Layout(keys[3..], bodies[3..]) == [];
    assert Layout(keys[2..], bodies[2..]) == ThesesHeader + b2;
    assert Layout(keys[1..], bodies[1..]) == ConclusionsHeader + b1 + (ThesesHeader + b2);
  }

  lemma ExampleSearches(b0: string, b1: string, b2: string)
    requires |b0| < 14 && |b1| < 14 && |b2| < 14
    ensures Search(SummaryHeader + b0 + ConclusionsHeader + b1 + ThesesHeader + b2, PatternFor(Summary)) == Some(b0)
    ensures Search(SummaryHeader + b0 + ConclusionsHeader + b1 + ThesesHeader + b2, PatternFor(Conclusions)) == Some(b1)
    ensures Search(SummaryHeader + b0 + ConclusionsHeader + b1 + ThesesHeader + b2, PatternFor(Theses)) == Some(b2)
  {
    var keys, bodies := [Summary, Conclusions, Theses], [b0, b1, b2];
    ExampleLayout(b0, b1, b2);
    ShortIsMarkerFree(b0);
    ShortIsMarkerFree(b1);
    ShortIsMarkerFree(b2);
    LayoutSearch(keys, bodies, 0);
    LayoutSearch(keys, bodies, 1);
    LayoutSearch(keys, bodies, 2);
  }

  /** Parse is determined by the three fields it computes. */
  lemma ParseFrom(text: string, summary: Field, conclusions: Field, theses: Field)
    requires FieldOf(Summary, Search(text, PatternFor(Summary))) == summary
    requires FieldOf(Conclusions, Search(text, PatternFor(Conclusions))) == conclusions
    requires FieldOf(Theses, Search(text, PatternFor(Theses))) == theses
    ensures Parse(text) == map[Summary := summary, Conclusions := conclusions, Theses := theses]
  {
    var r := Parse(text);
    assert r.Keys == AllKeys;
    MapOfFields(r, summary, conclusions, theses);
  }

  lemma MapOfFields(r: map<Key, Field>, summary: Field, conclusions: Field, theses: Field)
    requires r.Keys == AllKeys
    requires Summary in r && r[Summary] == summary
    requires Conclusions in r && r[Conclusions] == conclusions
    requires Theses in r && r[Theses] == theses
    ensures r == map[Summary := summary, Conclusions := conclusions, Theses := theses]
  {
    var m := map[Summary := summary, Conclusions := conclusions, Theses := theses];
    assert r.Keys == m.Keys;
  }

  /** The text of a reply with one line in each section, the two lists bulleted. */
  function OneLineReply(summary: string, conclusion: string, thesis: string): string {
    SummaryHeader + "\n" + summary + "\n" + ConclusionsHeader + "\n- " + conclusion + "\n" + ThesesHeader + "\n- " + thesis
  }

  /** A short line that clean_whitespace leaves as it is, and that holds no markup. */
  predicate ShortLine(s: string) {
    IsClean(s) && s != [] && |s| < 10 && NoMarkup(s) && '\n' !in s
  }

  /**
   * A reply with one line per section, in the order the prompt asks for: the
   * summary line is kept, and each list gets one item, the line without its bullet.
   */
  lemma OneLineReplyParses(summary: string, conclusion: string, thesis: string)
    requires ShortLine(summary) && ShortLine(conclusion) && ShortLine(thesis) && summary[0] != '-'
    ensures Parse(OneLineReply(summary, conclusion, thesis)) ==
      map[Summary := Text(summary), Conclusions := Items([conclusion]), Theses := Items([thesis])]
  {
    OneLineLayout(summary, conclusion, thesis);
    OneLineFields(summary, conclusion, thesis);
    ParseFrom(OneLineReply(summary, conclusion, thesis), Text(summary), Items([conclusion]), Items([thesis]));
  }

  lemma OneLineLayout(summary: string, conclusion: string, thesis: string)
    ensures OneLineReply(summary, conclusion, thesis) ==
      SummaryHeader + ("\n" + summary + "\n") + ConclusionsHeader + ("\n" + ("- " + conclusion) + "\n") +
      ThesesHeader + ("\n" + ("- " + thesis) + "")
  {
  }

  /** Each section of a one-line reply gives its line, the list lines without their bullets. */
  lemma OneLineFields(summary: string, conclusion: string, thesis: string)
    requires ShortLine(summary) && ShortLine(conclusion) && ShortLine(thesis) && summary[0] != '-'
    requires OneLineReply(summary, conclusion, thesis) ==
      SummaryHeader + ("\n" + summary + "\n") + ConclusionsHeader + ("\n" + ("- " + conclusion) + "\n") +
      ThesesHeader + ("\n" + ("- " + thesis) + "")
    ensures var text := OneLineReply(summary, conclusion, thesis);
      FieldOf(Summary, Search(text, PatternFor(Summary))) == Text(summary) &&
      FieldOf(Conclusions, Search(text, PatternFor(Conclusions))) == Items([conclusion]) &&
      FieldOf(Theses, Search(text, PatternFor(Theses))) == Items([thesis])
  {
    var b0, b1, b2 := "\n" + summary + "\n", "\n" + ("- " + conclusion) + "\n", "\n" + ("- " + thesis) + "";
    ExampleSearches(b0, b1, b2);
    PlainLineField(Summary, summary);
    BulletLineField(Conclusions, conclusion, "\n");
    BulletLineField(Theses, thesis, "");
  }

  lemma ExampleSummaryLine()
    ensures ShortLine("О теме X.")
  {
  }

  lemma ExampleConclusionLine()
    ensures ShortLine("Вывод А")
  {
  }

  lemma ExampleThesisLine()
    ensures ShortLine("Тезис Б")
  {
  }

  /**
   * The reply "Краткое содержание:\nО теме X.\nВыводы лекции:\n- Вывод А\nТезисы лекции:\n- Тезис Б"
   * parses to the summary "О теме X.", the conclusions ["Вывод А"] and the theses ["Тезис Б"].
   */
  lemma WorkedExample()
    ensures Parse(OneLineReply("О теме X.", "Вывод А", "Тезис Б")) ==
      map[Summary := Text("О теме X."), Conclusions := Items(["Вывод А"]), Theses := Items(["Тезис Б"])]
  {
    ExampleSummaryLine();
    ExampleConclusionLine();
    ExampleThesisLine();
    OneLineReplyParses("О теме X.", "Вывод А", "Тезис Б");
  }
}
