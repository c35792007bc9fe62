/**
 * The Python `str` built-ins the lecture parser relies on: `str.isspace`
 * (which also decides what `\s` matches in a `str` pattern of `re`),
 * `lstrip`, `strip`, `split(sep)` and `sep.join`.
 */
module PyText {

  /** CPython's `str.isspace`: exactly these 29 code points. */
  predicate IsSpace(c: char) {
    c == '\t' || c == '\n' || c == '\U{000B}' || c == '\U{000C}' || c == '\r' ||
    ('\U{001C}' <= c <= '\U{001F}') || c == ' ' || c == '\U{0085}' || c == '\U{00A0}' ||
    c == '\U{1680}' || ('\U{2000}' <= c <= '\U{200A}') || c == '\U{2028}' ||
    c == '\U{2029}' || c == '\U{202F}' || c == '\U{205F}' || c == '\U{3000}'
  }

  predicate AllSpace(s: string) {
    forall k :: 0 <= k < |s| ==> IsSpace(s[k])
  }

  /** Every character of `r` occurs in `s`. */
  predicate CharsFrom(r: string, s: string) {
    forall c :: c in r ==> c in s
  }

  /** The non-whitespace characters of `s`, in order. */
  function Visible(s: string): string {
    if s == [] then [] else (if IsSpace(s[0]) then [] else [s[0]]) + Visible(s[1..])
  }

  lemma {:induction false} VisibleAppend(a: string, b: string)
    ensures Visible(a + b) == Visible(a) + Visible(b)
  {
    if a != [] {
      assert (a + b)[1..] == a[1..] + b;
      VisibleAppend(a[1..], b);
    } else {
      assert a + b == b;
    }
  }

  lemma {:induction false} VisibleOfSpaces(s: string)
    requires AllSpace(s)
    ensures Visible(s) == []
  {
    if s != [] {
      VisibleOfSpaces(s[1..]);
    }
  }

  lemma VisibleInPadding(a: string, r: string, b: string)
    requires AllSpace(a) && AllSpace(b)
    ensures Visible(a + r + b) == Visible(r)
  {
    VisibleAppend(a, r);
    VisibleAppend(a + r, b);
    VisibleOfSpaces(a);
    VisibleOfSpaces(b);
  }

  /** How many whitespace characters `s` starts with. */
  function LeadingSpaces(s: string): (n: nat)
    ensures n <= |s|
  {
    if s == [] || !IsSpace(s[0]) then 0 else 1 + LeadingSpaces(s[1..])
  }

  /** LeadingSpaces is the index of the first non-whitespace character, or the length when there is none. */
  lemma {:induction false} LeadingSpacesSpec(s: string)
    ensures forall k :: 0 <= k < LeadingSpaces(s) ==> IsSpace(s[k])
    ensures LeadingSpaces(s) < |s| ==> !IsSpace(s[LeadingSpaces(s)])
  {
    if s != [] && IsSpace(s[0]) {
      LeadingSpacesSpec(s[1..]);
      assert forall k :: 1 <= k < |s| ==> s[k] == s[1..][k - 1];
    }
  }

  /** The length of `s` without its trailing whitespace. */
  function ContentEnd(s: string): (n: nat)
    ensures n <= |s|
  {
    if s == [] || !IsSpace(s[|s| - 1]) then |s| else ContentEnd(s[..|s| - 1])
  }

  /** ContentEnd is one past the last non-whitespace character, or 0 when there is none. */
  lemma {:induction false} ContentEndSpec(s: string)
    ensures forall k :: ContentEnd(s) <= k < |s| ==> IsSpace(s[k])
    ensures ContentEnd(s) > 0 ==> !IsSpace(s[ContentEnd(s) - 1])
  {
    if s != [] && IsSpace(s[|s| - 1]) {
      ContentEndSpec(s[..|s| - 1]);
    }
  }

  /** `s.lstrip()`. */
  function TrimStart(s: string): string {
    s[LeadingSpaces(s)..]
  }

  /** `s.strip()`: the slice from the first to the last non-whitespace character. */
  function Strip(s: string): string {
    var lo, hi := LeadingSpaces(s), ContentEnd(s);
    if lo < hi then s[lo..hi] else []
  }

  /**
   * `s.strip()` splits `s` into whitespace, a part with no whitespace at
   * either end, and whitespace; empty exactly when `s` is all whitespace.
   */
  lemma StripSpec(s: string)
    ensures var r, lo := Strip(s), LeadingSpaces(s);
      (r == [] || (!IsSpace(r[0]) && !IsSpace(r[|r| - 1]))) &&
      (r == [] <==> AllSpace(s)) &&
      lo + |r| <= |s| && r == s[lo..lo + |r|] &&
      AllSpace(s[..lo]) && AllSpace(s[lo + |r|..])
  {
    if LeadingSpaces(s) < ContentEnd(s) {
      StripNonEmpty(s);
    } else {
      StripEmpty(s);
      assert s[..|s|] == s;
    }
  }

  /** When no non-whitespace character lies between the two ends, `s` is all whitespace and strips to nothing. */
  lemma StripEmpty(s: string)
    requires LeadingSpaces(s) >= ContentEnd(s)
    ensures Strip(s) == [] && AllSpace(s) && LeadingSpaces(s) == |s|
  {
    LeadingSpacesSpec(s);
    ContentEndSpec(s);
  }

  /** Otherwise the stripped part runs from the first to the last non-whitespace character. */
  lemma StripNonEmpty(s: string)
    requires LeadingSpaces(s) < ContentEnd(s)
    ensures var r, lo := Strip(s), LeadingSpaces(s);
      r != [] && !IsSpace(r[0]) && !IsSpace(r[|r| - 1]) && !AllSpace(s) &&
      lo + |r| <= |s| && r == s[lo..lo + |r|] &&
      AllSpace(s[..lo]) && AllSpace(s[lo + |r|..])
  {
    StripInner(s);
    StripPadding(s);
  }

  lemma StripInner(s: string)
    requires LeadingSpaces(s) < ContentEnd(s)
    ensures var r := Strip(s);
      r == s[LeadingSpaces(s)..ContentEnd(s)] && r != [] && !IsSpace(r[0]) && !IsSpace(r[|r| - 1]) && !AllSpace(s)
  {
    LeadingSpacesSpec(s);
    ContentEndSpec(s);
    SliceBounds(s, LeadingSpaces(s), ContentEnd(s));
  }

  lemma StripPadding(s: string)
    requires LeadingSpaces(s) < ContentEnd(s)
    ensures AllSpace(s[..LeadingSpaces(s)]) && AllSpace(s[ContentEnd(s)..])
  {
    LeadingSpacesSpec(s);
    ContentEndSpec(s);
    PrefixAllSpace(s, LeadingSpaces(s));
    SuffixAllSpace(s, ContentEnd(s));
  }

  lemma SliceBounds(s: string, lo: nat, hi: nat)
    requires lo < hi <= |s|
    ensures var r := s[lo..hi]; |r| == hi - lo && r[0] == s[lo] && r[|r| - 1] == s[hi - 1]
  {
  }

  lemma PrefixAllSpace(s: string, n: nat)
    requires n <= |s| && forall k :: 0 <= k < n ==> IsSpace(s[k])
    ensures AllSpace(s[..n])
  {
    assert forall k :: 0 <= k < n ==> s[..n][k] == s[k];
  }

  lemma SuffixAllSpace(s: string, n: nat)
    requires n <= |s| && forall k :: n <= k < |s| ==> IsSpace(s[k])
    ensures AllSpace(s[n..])
  {
    assert forall k :: 0 <= k < |s| - n ==> s[n..][k] == s[n + k];
  }

  /** Strip loses whitespace only. */
  lemma StripKeepsVisible(s: string)
    ensures Visible(Strip(s)) == Visible(s)
  {
    StripSpec(s);
    var r, lo := Strip(s), LeadingSpaces(s);
    assert s == s[..lo] + r + s[lo + |r|..];
    VisibleInPadding(s[..lo], r, s[lo + |r|..]);
  }

  /** Strip leaves a string alone exactly when it has no whitespace at either end. */
  lemma StripFixes(s: string)
    ensures Strip(s) == s <==> (s == [] || (!IsSpace(s[0]) && !IsSpace(s[|s| - 1])))
  {
    StripSpec(s);
  }

  /** Stripping whitespace padding off a string with no whitespace at its own ends gives that string. */
  lemma StripPadded(p: string, core: string, q: string)
    requires AllSpace(p) && AllSpace(q)
    requires core == [] || (!IsSpace(core[0]) && !IsSpace(core[|core| - 1]))
    ensures Strip(p + core + q) == core
  {
    var s := p + core + q;
    StripSpec(s);
    if core == [] {
      assert AllSpace(s);
    } else {
      LeadingSpacesSpec(s);
      ContentEndSpec(s);
      assert s[|p|] == core[0] && s[|p| + |core| - 1] == core[|core| - 1];
      assert LeadingSpaces(s) == |p|;
      assert ContentEnd(s) == |p| + |core|;
      assert s[|p|..|p| + |core|] == core;
    }
  }

  /** Strip adds no character. */
  lemma StripAvoids(s: string, c: char)
    requires c !in s
    ensures c !in Strip(s)
  {
    StripSpec(s);
  }

  /** Python's `s.split(sep)`: the pieces between separators; never empty. */
  function Split(s: string, sep: char): (parts: seq<string>)
    ensures |parts| >= 1
  {
    if s == [] then [[]]
    else
      var rest := Split(s[1..], sep);
      if s[0] == sep then [[]] + rest
      else [[s[0]] + rest[0]] + rest[1..]
  }

  /** The pieces hold no separator, and there is one more piece than there are separators. */
  lemma {:induction false} SplitSpec(s: string, sep: char)
    ensures |Split(s, sep)| == multiset(s)[sep] + 1
    ensures forall k :: 0 <= k < |Split(s, sep)| ==> sep !in Split(s, sep)[k]
  {
    if s != [] {
      SplitSpec(s[1..], sep);
      assert s == [s[0]] + s[1..];
    }
  }

  /** Python's `sep.join(parts)`. */
  function Join(parts: seq<string>, sep: char): string {
    if |parts| == 0 then []
    else if |parts| == 1 then parts[0]
    else parts[0] + [sep] + Join(parts[1..], sep)
  }

  lemma JoinCons(c: char, parts: seq<string>, sep: char)
    requires |parts| >= 1
    ensures Join([[c] + parts[0]] + parts[1..], sep) == [c] + Join(parts, sep)
  {
    var ps := [[c] + parts[0]] + parts[1..];
    assert ps[1..] == parts[1..];
  }

  /** Joining the pieces of a split gives the original text back. */
  lemma {:induction false} JoinSplit(s: string, sep: char)
    ensures Join(Split(s, sep), sep) == s
  {
    if s != [] {
      var rest := Split(s[1..], sep);
      JoinSplit(s[1..], sep);
      if s[0] == sep {
        assert ([[]] + rest)[1..] == rest;
      } else {
        JoinCons(s[0], rest, sep);
      }
    }
  }

  lemma {:induction false} SplitWithout(s: string, sep: char)
    requires sep !in s
    ensures Split(s, sep) == [s]
  {
    if s != [] {
      SplitWithout(s[1..], sep);
      assert [s[0]] + s[1..] == s;
    }
  }

  lemma {:induction false} SplitAfter(a: string, t: string, sep: char)
    requires sep !in a
    ensures Split(a + [sep] + t, sep) == [a] + Split(t, sep)
  {
    var s := a + [sep] + t;
    if a == [] {
      assert s[1..] == t;
    } else {
      assert s[1..] == a[1..] + [sep] + t;
      SplitAfter(a[1..], t, sep);
      assert [a[0]] + a[1..] == a;
    }
  }

  /** Splitting at a separator at index `i` splits the text before it and the text after it independently. */
  lemma {:induction false} SplitAt(s: string, i: nat, sep: char)
    requires i < |s| && s[i] == sep
    ensures Split(s, sep) == Split(s[..i], sep) + Split(s[i + 1..], sep)
    decreases i
  {
    if i > 0 {
      SplitAt(s[1..], i - 1, sep);
      assert s[1..][..i - 1] == s[..i][1..];
      assert s[1..][i..] == s[i + 1..];
      if s[0] != sep {
        ConsFirstAppend(s[0], Split(s[..i][1..], sep), Split(s[i + 1..], sep));
      }
    }
  }

  /** Splitting at one separator splits the two sides independently. */
  lemma SplitConcat(a: string, t: string, sep: char)
    ensures Split(a + [sep] + t, sep) == Split(a, sep) + Split(t, sep)
  {
    var s := a + [sep] + t;
    SplitAt(s, |a|, sep);
    assert s[..|a|] == a && s[|a| + 1..] == t;
  }

  /** Putting a character in front of the first piece commutes with appending more pieces. */
  lemma ConsFirstAppend(c: char, ru: seq<string>, rt: seq<string>)
    requires |ru| >= 1
    ensures [[c] + (ru + rt)[0]] + (ru + rt)[1..] == ([[c] + ru[0]] + ru[1..]) + rt
  {
    assert (ru + rt)[0] == ru[0] && (ru + rt)[1..] == ru[1..] + rt;
  }

  /** Every piece of a whitespace-only text is whitespace only. */
  lemma {:induction false} SplitAllSpace(s: string, sep: char)
    requires AllSpace(s)
    ensures forall k :: 0 <= k < |Split(s, sep)| ==> AllSpace(Split(s, sep)[k])
  {
    if s != [] {
      SplitAllSpace(s[1..], sep);
      var rest := Split(s[1..], sep);
      if s[0] != sep {
        assert AllSpace([s[0]] + rest[0]) by {
          assert forall k :: 1 <= k < |rest[0]| + 1 ==> ([s[0]] + rest[0])[k] == rest[0][k - 1];
        }
      }
    }
  }

  /** A join of pieces whose first and last pieces are non-empty starts and ends with their characters. */
  lemma JoinEnds(parts: seq<string>, sep: char)
    requires |parts| >= 1 && parts[0] != [] && parts[|parts| - 1] != []
    ensures var j, last := Join(parts, sep), parts[|parts| - 1];
      j != [] && j[0] == parts[0][0] && j[|j| - 1] == last[|last| - 1]
  {
    JoinLast(parts, sep);
  }

  lemma {:induction false} JoinLast(parts: seq<string>, sep: char)
    requires |parts| >= 1 && parts[|parts| - 1] != []
    ensures var j, last := Join(parts, sep), parts[|parts| - 1];
      j != [] && j[|j| - 1] == last[|last| - 1]
  {
    if |parts| > 1 {
      JoinLast(parts[1..], sep);
    }
  }

  /** Splitting a join of separator-free pieces gives the pieces back. */
  lemma {:induction false} SplitJoin(parts: seq<string>, sep: char)
    requires |parts| >= 1
    requires forall k :: 0 <= k < |parts| ==> sep !in parts[k]
    ensures Split(Join(parts, sep), sep) == parts
  {
    if |parts| == 1 {
      SplitWithout(parts[0], sep);
    } else {
      SplitAfter(parts[0], Join(parts[1..], sep), sep);
      SplitJoin(parts[1..], sep);
      assert [parts[0]] + parts[1..] == parts;
    }
  }

  lemma {:induction false} SplitAvoids(s: string, sep: char, c: char)
    requires c !in s
    ensures forall k :: 0 <= k < |Split(s, sep)| ==> c !in Split(s, sep)[k]
  {
    if s != [] {
      assert s == [s[0]] + s[1..];
      SplitAvoids(s[1..], sep, c);
    }
  }

  lemma {:induction false} JoinAvoids(parts: seq<string>, sep: char, c: char)
    requires c != sep
    requires forall k :: 0 <= k < |parts| ==> c !in parts[k]
    ensures c !in Join(parts, sep)
  {
    if |parts| > 1 {
      JoinAvoids(parts[1..], sep, c);
    }
  }
}
