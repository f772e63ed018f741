/** Optional values, used where the source returns `None`. */
module Wrappers {
  datatype Option<+T> = None | Some(value: T)
}

/**
 * The handful of Python string operations the chat parsers rely on:
 * `str.isspace`, `str.strip`, `str.split`, `str.lower`, the substring test
 * `a in b` and the negative slice `s[-n:]`.
 *
 * Characters are restricted to ASCII: whitespace is the set of ASCII
 * characters for which `str.isspace` (and the regex class `\s`) holds, and
 * letters and case conversion cover `A`-`Z` and `a`-`z` only.
 */
module Text {

  /** ASCII whitespace: tab, line feed, vertical tab, form feed, carriage
      return, the four separators 0x1c-0x1f, and space. */
  predicate IsSpace(c: char) {
    c == ' ' || (9 <= c as int <= 13) || (28 <= c as int <= 31)
  }

  predicate IsAsciiLetter(c: char) {
    ('A' <= c <= 'Z') || ('a' <= c <= 'z')
  }

  predicate AllSpace(s: string) {
    forall k :: 0 <= k < |s| ==> IsSpace(s[k])
  }

  /** Length of the longest all-whitespace prefix of `s`. */
  function LeadingSpaces(s: string): (n: nat)
    ensures n <= |s|
    ensures forall k :: 0 <= k < n ==> IsSpace(s[k])
    ensures n < |s| ==> !IsSpace(s[n])
  {
    if s == [] || !IsSpace(s[0]) then 0 else 1 + LeadingSpaces(s[1..])
  }

  /** Length of the longest all-whitespace suffix of `s`. */
  function TrailingSpaces(s: string): (n: nat)
    ensures n <= |s|
    ensures forall k :: |s| - n <= k < |s| ==> IsSpace(s[k])
    ensures n < |s| ==> !IsSpace(s[|s| - 1 - n])
  {
    if s == [] || !IsSpace(s[|s| - 1]) then 0 else 1 + TrailingSpaces(s[..|s| - 1])
  }

  /** `r` occurs in `s` at position `i`, with only whitespace around it. */
  predicate FlankedBySpace(s: string, r: string, i: int) {
    0 <= i <= |s| - |r| && s[i..i + |r|] == r && AllSpace(s[..i]) && AllSpace(s[i + |r|..])
  }

  /** Python's `s.strip()`: `s` with its leading and trailing whitespace removed. */
  function Strip(s: string): (r: string)
    ensures r == [] <==> AllSpace(s)
    ensures r != [] ==> !IsSpace(r[0]) && !IsSpace(r[|r| - 1])
    ensures exists i :: FlankedBySpace(s, r, i)
  {
    var l := LeadingSpaces(s);
    if l == |s| then
      assert FlankedBySpace(s, [], 0);
      []
    else
      var t := TrailingSpaces(s);
      assert l < |s| - t;
      var r := s[l..|s| - t];
      assert FlankedBySpace(s, r, l);
      r
  }

  /** A string that has nothing to strip is its own `strip()`. */
  lemma StripUnchanged(s: string)
    requires s != [] && !IsSpace(s[0]) && !IsSpace(s[|s| - 1])
    ensures Strip(s) == s
  {
  }

  /** `strip()` removes exactly the whitespace padding around a text whose
      ends are not whitespace. */
  lemma StripPadded(pre: string, r: string, post: string)
    requires AllSpace(pre) && AllSpace(post)
    requires r != [] && !IsSpace(r[0]) && !IsSpace(r[|r| - 1])
    ensures Strip(pre + r + post) == r
  {
    var s := pre + r + post;
    assert s[|pre|] == r[0];
    assert s[|s| - 1 - |post|] == r[|r| - 1];
    assert LeadingSpaces(s) == |pre|;
    assert TrailingSpaces(s) == |post|;
    assert s[|pre|..|s| - |post|] == r;
  }

  /** Index of the first `c` in `s`, or `|s|` when `c` does not occur. */
  function IndexOf(s: string, c: char): (i: nat)
    ensures i <= |s|
    ensures i < |s| ==> s[i] == c
    ensures forall j :: 0 <= j < i ==> s[j] != c
  {
    if s == [] || s[0] == c then 0 else 1 + IndexOf(s[1..], c)
  }

  /** `sep.join(parts)` for a one-character separator. */
  function Join(parts: seq<string>, sep: char): string
  {
    if parts == [] then []
    else if |parts| == 1 then parts[0]
    else parts[0] + [sep] + Join(parts[1..], sep)
  }

  /** No piece contains the separator. */
  predicate NoneContain(parts: seq<string>, sep: char) {
    forall k :: 0 <= k < |parts| ==> sep !in parts[k]
  }

  /** Python's `s.split(sep)` for a one-character separator: the pieces
      between separators, always at least one (`"".split(sep) == [""]`). */
  function Split(s: string, sep: char): (parts: seq<string>)
    ensures |parts| >= 1
    ensures NoneContain(parts, sep)
    ensures Join(parts, sep) == s
    decreases |s|
  {
    var i := IndexOf(s, sep);
    if i == |s| then
      [s]
    else
      assert s == s[..i] + [sep] + s[i + 1..];
      [s[..i]] + Split(s[i + 1..], sep)
  }

  /** The first piece of a split is the text before the first separator. */
  lemma SplitFirst(s: string, sep: char)
    ensures Split(s, sep)[0] == s[..IndexOf(s, sep)]
  {
  }

  /** Splitting undoes joining pieces that do not contain the separator. */
  lemma {:induction false} SplitJoin(parts: seq<string>, sep: char)
    requires parts != []
    requires NoneContain(parts, sep)
    ensures Split(Join(parts, sep), sep) == parts
    decreases |parts|
  {
    var s := Join(parts, sep);
    var p := parts[0];
    if |parts| == 1 {
      assert IndexOf(p, sep) == |p|;
    } else {
      var rest := Join(parts[1..], sep);
      assert s == p + [sep] + rest;
      assert s[|p|] == sep;
      assert forall j :: 0 <= j < |p| ==> s[j] == p[j];
      assert IndexOf(s, sep) == |p|;
      assert s[..|p|] == p;
      assert s[|p| + 1..] == rest;
      SplitJoin(parts[1..], sep);
    }
  }

  /** Splitting at an inserted separator splits both sides independently. */
  lemma {:induction false} SplitAppend(a: string, b: string, sep: char)
    ensures Split(a + [sep] + b, sep) == Split(a, sep) + Split(b, sep)
    decreases |a|
  {
    var s := a + [sep] + b;
    var i := IndexOf(a, sep);
    assert forall j :: 0 <= j < |a| ==> s[j] == a[j];
    assert s[|a|] == sep;
    if i == |a| {
      assert IndexOf(s, sep) == |a|;
      assert s[..|a|] == a && s[|a| + 1..] == b;
    } else {
      assert IndexOf(s, sep) == i;
      assert s[..i] == a[..i];
      assert s[i + 1..] == a[i + 1..] + [sep] + b;
      SplitAppend(a[i + 1..], b, sep);
    }
  }

  /** A text without the separator is a single piece. */
  lemma SplitWithout(s: string, sep: char)
    requires sep !in s
    ensures Split(s, sep) == [s]
  {
    assert IndexOf(s, sep) == |s|;
  }

  /** ASCII `c.lower()`. */
  function LowerChar(c: char): (d: char)
    ensures !('A' <= d <= 'Z')
  {
    if 'A' <= c <= 'Z' then (c as int - 'A' as int + 'a' as int) as char else c
  }

  /** ASCII `s.lower()`. */
  function Lower(s: string): (r: string)
    ensures |r| == |s|
    ensures forall k :: 0 <= k < |s| ==> r[k] == LowerChar(s[k])
  {
    if s == [] then [] else [LowerChar(s[0])] + Lower(s[1..])
  }

  predicate StartsWith(s: string, prefix: string) {
    |prefix| <= |s| && s[..|prefix|] == prefix
  }

  /** Python's `needle in hay` on strings, scanning start positions left to right. */
  predicate Contains(hay: string, needle: string): (r: bool)
    ensures needle == [] ==> r
    ensures r ==> |needle| <= |hay|
    decreases |hay|
  {
    StartsWith(hay, needle) || (hay != [] && Contains(hay[1..], needle))
  }

  predicate OccursAt(hay: string, needle: string, i: int) {
    0 <= i <= |hay| - |needle| && hay[i..i + |needle|] == needle
  }

  /** `needle in hay` holds exactly when `needle` occurs at some position of `hay`. */
  lemma {:induction false} ContainsOccurs(hay: string, needle: string)
    ensures Contains(hay, needle) <==> exists i :: OccursAt(hay, needle, i)
    decreases |hay|
  {
    if StartsWith(hay, needle) {
      assert OccursAt(hay, needle, 0);
    } else if hay != [] {
      ContainsOccurs(hay[1..], needle);
      if Contains(hay[1..], needle) {
        var i :| OccursAt(hay[1..], needle, i);
        assert hay[i + 1..i + 1 + |needle|] == hay[1..][i..i + |needle|];
        assert OccursAt(hay, needle, i + 1);
      }
      if exists i :: OccursAt(hay, needle, i) {
        var i :| OccursAt(hay, needle, i);
        assert i != 0;
        assert hay[1..][i - 1..i - 1 + |needle|] == hay[i..i + |needle|];
        assert OccursAt(hay[1..], needle, i - 1);
      }
    }
  }

  /** Python's `s[-n:]` for a positive `n`: the last `n` characters, or all
      of `s` when shorter. (At `n == 0` Python's slice is all of `s`; the
      model needs only positive windows.) */
  function Tail(s: string, n: nat): (r: string)
    requires n > 0
    ensures |r| == if |s| < n then |s| else n
    ensures s == s[..|s| - |r|] + r
  {
    if |s| <= n then s else s[|s| - n..]
  }

  /** `[p.strip() for p in parts if p.strip()]`. */
  function KeepNonBlank(parts: seq<string>): (lines: seq<string>)
    ensures |lines| <= |parts|
    ensures forall k :: 0 <= k < |lines| ==>
              lines[k] != [] && !IsSpace(lines[k][0]) && !IsSpace(lines[k][|lines[k]| - 1])
  {
    if parts == [] then []
    else if Strip(parts[0]) == [] then KeepNonBlank(parts[1..])
    else [Strip(parts[0])] + KeepNonBlank(parts[1..])
  }

  lemma {:induction false} KeepNonBlankAppend(p: seq<string>, q: seq<string>)
    ensures KeepNonBlank(p + q) == KeepNonBlank(p) + KeepNonBlank(q)
    decreases |p|
  {
    if p != [] {
      assert (p + q)[0] == p[0];
      assert (p + q)[1..] == p[1..] + q;
      KeepNonBlankAppend(p[1..], q);
    } else {
      assert p + q == q;
    }
  }

  /** Pieces that are already trimmed and non-empty are all kept, unchanged. */
  lemma {:induction false} KeepNonBlankTrimmed(parts: seq<string>)
    requires forall k :: 0 <= k < |parts| ==>
               parts[k] != [] && !IsSpace(parts[k][0]) && !IsSpace(parts[k][|parts[k]| - 1])
    ensures KeepNonBlank(parts) == parts
    decreases |parts|
  {
    if parts != [] {
      StripUnchanged(parts[0]);
      KeepNonBlankTrimmed(parts[1..]);
    }
  }

  lemma ConcatAssoc<T>(a: seq<T>, b: seq<T>, c: seq<T>)
    ensures (a + b) + c == a + (b + c)
  {
  }

  /** The trimmed, non-empty lines of a chat transcript:
      `[line.strip() for line in text.split("\n") if line.strip()]`. */
  function NonEmptyLines(text: string): (lines: seq<string>)
    ensures forall k :: 0 <= k < |lines| ==>
              lines[k] != [] && !IsSpace(lines[k][0]) && !IsSpace(lines[k][|lines[k]| - 1])
  {
    KeepNonBlank(Split(text, '\n'))
  }

  /** The lines of two texts glued by a line break are the lines of each. */
  lemma NonEmptyLinesAppend(a: string, b: string)
    ensures NonEmptyLines(a + "\n" + b) == NonEmptyLines(a) + NonEmptyLines(b)
  {
    assert a + "\n" + b == a + ['\n'] + b;
    SplitAppend(a, b, '\n');
    KeepNonBlankAppend(Split(a, '\n'), Split(b, '\n'));
  }

  /** A text without a line break is one line, dropped when blank. */
  lemma OneLine(s: string)
    requires '\n' !in s
    ensures NonEmptyLines(s) == if AllSpace(s) then [] else [Strip(s)]
  {
    SplitWithout(s, '\n');
    assert KeepNonBlank([s]) == (if Strip(s) == [] then [] else [Strip(s)]) + KeepNonBlank([]);
  }

  lemma AllSpaceAround(a: string, c: char, b: string)
    ensures AllSpace(a + [c] + b) <==> AllSpace(a) && IsSpace(c) && AllSpace(b)
  {
    var t := a + [c] + b;
    assert forall k :: 0 <= k < |a| ==> t[k] == a[k];
    assert t[|a|] == c;
    assert forall k :: 0 <= k < |b| ==> t[|a| + 1 + k] == b[k];
  }

  /** A transcript has no non-empty line exactly when it is all whitespace. */
  lemma {:induction false} NoLinesIffBlank(text: string)
    ensures NonEmptyLines(text) == [] <==> AllSpace(text)
    decreases |text|
  {
    var i := IndexOf(text, '\n');
    if i == |text| {
      OneLine(text);
    } else {
      var head, rest := text[..i], text[i + 1..];
      assert text == head + "\n" + rest;
      NoLinesIffBlank(rest);
      NoLinesIffBlankStep(head, rest);
    }
  }

  lemma NoLinesIffBlankStep(head: string, rest: string)
    requires '\n' !in head
    requires NonEmptyLines(rest) == [] <==> AllSpace(rest)
    ensures NonEmptyLines(head + "\n" + rest) == [] <==> AllSpace(head + "\n" + rest)
  {
    NonEmptyLinesAppend(head, rest);
    OneLine(head);
    AllSpaceAround(head, '\n', rest);
  }

  /** Trimmed, non-empty lines joined by line breaks read back as those lines. */
  lemma LinesOfJoin(lines: seq<string>)
    requires lines != []
    requires NoneContain(lines, '\n')
    requires forall k :: 0 <= k < |lines| ==>
               lines[k] != [] && !IsSpace(lines[k][0]) && !IsSpace(lines[k][|lines[k]| - 1])
    ensures NonEmptyLines(Join(lines, '\n')) == lines
  {
    SplitJoin(lines, '\n');
    KeepNonBlankTrimmed(lines);
  }
}
