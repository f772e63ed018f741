/**
 * Clean-up of a generated reply before it is sent: strip it, drop one pair
 * of enclosing quote characters, and collapse every whitespace run to one
 * space.
 */
module ReplyCleanup {
  import opened Text

  predicate IsQuote(c: char) {
    c == '"' || c == '\''
  }

  /** The regex substitution `^["'](.*)["']$` -> `\1`: a leading quote and a
      closing quote (of either kind, not necessarily matching) are removed when
      everything between them lies on one line. As in Python's `re`, `.` does
      not match a line break and `$` matches at the very end or just before a
      final line break, which is then kept. */
  function Unquote(s: string): (r: string)
    ensures r == s || (|s| >= 2 && IsQuote(s[0]) && |r| == |s| - 2)
  {
    if |s| >= 2 && IsQuote(s[0]) && IsQuote(s[|s| - 1]) && '\n' !in s[1..|s| - 1] then
      s[1..|s| - 1]
    else if |s| >= 3 && s[|s| - 1] == '\n' && IsQuote(s[0]) && IsQuote(s[|s| - 2])
            && '\n' !in s[1..|s| - 2] then
      s[1..|s| - 2] + "\n"
    else
      s
  }

  /** What unquoting yields: the text itself; the one-line body between an
      opening and a closing quote; or that body followed by the final line
      break that `$` lets stand after the closing quote. */
  lemma UnquoteContents(s: string)
    ensures var r := Unquote(s);
            || r == s
            || (&& |s| >= 2 && IsQuote(s[0]) && IsQuote(s[|s| - 1]) && '\n' !in s[1..|s| - 1]
                && r == s[1..|s| - 1])
            || (&& |s| >= 3 && s[|s| - 1] == '\n' && IsQuote(s[0]) && IsQuote(s[|s| - 2])
                && '\n' !in s[1..|s| - 2] && r == s[1..|s| - 2] + "\n")
  {
  }

  /** Quoting a one-line text and unquoting it gives the text back. */
  lemma UnquoteQuoted(open: char, body: string, close: char)
    requires IsQuote(open) && IsQuote(close) && '\n' !in body
    ensures Unquote([open] + body + [close]) == body
  {
    var s := [open] + body + [close];
    assert s[1..|s| - 1] == body;
  }

  /** A quoted one-line text followed by a final line break loses its quotes
      and keeps the line break, because `$` also matches before it. */
  lemma UnquoteBeforeBreak(open: char, body: string, close: char)
    requires IsQuote(open) && IsQuote(close) && '\n' !in body
    ensures Unquote([open] + body + [close] + "\n") == body + "\n"
  {
    var s := [open] + body + [close] + "\n";
    assert s[1..|s| - 1] == body + [close];
    assert s[1..|s| - 2] == body;
  }

  /** A text that does not start with a quote is left alone. */
  lemma UnquoteUnquoted(s: string)
    requires s == [] || !IsQuote(s[0])
    ensures Unquote(s) == s
  {
  }

  /** A text that opens with a quote but is not a closed one-line quotation
      (an unclosed `"abc`, a lone quote, a line break inside) is left alone. */
  lemma UnquoteUnclosed(s: string)
    requires |s| >= 1 && IsQuote(s[0]) && s[|s| - 1] != '\n'
    requires !(|s| >= 2 && IsQuote(s[|s| - 1]) && '\n' !in s[1..|s| - 1])
    ensures Unquote(s) == s
  {
  }

  /** The characters of `s` that are not whitespace, in order. */
  function NonSpace(s: string): string
  {
    if s == [] then []
    else if IsSpace(s[0]) then NonSpace(s[1..])
    else [s[0]] + NonSpace(s[1..])
  }

  /** Dropping a whitespace prefix does not change the non-whitespace characters. */
  lemma {:induction false} NonSpaceSkip(s: string, n: nat)
    requires n <= |s|
    requires forall k :: 0 <= k < n ==> IsSpace(s[k])
    ensures NonSpace(s[n..]) == NonSpace(s)
    decreases n
  {
    if n > 0 {
      assert s[1..][n - 1..] == s[n..];
      NonSpaceSkip(s[1..], n - 1);
    }
  }

  /** No two neighbouring characters are both whitespace. */
  predicate NoDoubleSpace(s: string) {
    forall k :: 0 <= k < |s| - 1 ==> !(IsSpace(s[k]) && IsSpace(s[k + 1]))
  }

  /** The regex substitution `\s+` -> `" "`: every maximal whitespace run
      becomes a single space. */
  function CollapseWhitespace(s: string): (r: string)
    ensures r == [] <==> s == []
    ensures r != [] ==> (IsSpace(r[0]) <==> IsSpace(s[0]))
    ensures NoDoubleSpace(r)
    ensures forall k :: 0 <= k < |r| && IsSpace(r[k]) ==> r[k] == ' '
    ensures NonSpace(r) == NonSpace(s)
    decreases |s|
  {
    if s == [] then []
    else if IsSpace(s[0]) then
      var n := LeadingSpaces(s);
      NonSpaceSkip(s, n);
      [' '] + CollapseWhitespace(s[n..])
    else
      [s[0]] + CollapseWhitespace(s[1..])
  }

  /** Collapsing twice is collapsing once. */
  lemma {:induction false} CollapseIdempotent(s: string)
    ensures CollapseWhitespace(CollapseWhitespace(s)) == CollapseWhitespace(s)
    decreases |s|
  {
    if s != [] {
      var c := CollapseWhitespace(s);
      if IsSpace(s[0]) {
        var t := CollapseWhitespace(s[LeadingSpaces(s)..]);
        assert c == [' '] + t;
        assert LeadingSpaces(c) == 1;
        assert c[1..] == t;
        CollapseIdempotent(s[LeadingSpaces(s)..]);
      } else {
        assert c == [s[0]] + CollapseWhitespace(s[1..]);
        assert c[1..] == CollapseWhitespace(s[1..]);
        CollapseIdempotent(s[1..]);
      }
    }
  }

  /** A text with no whitespace is left as it is. */
  lemma {:induction false} CollapseNoSpace(s: string)
    requires forall k :: 0 <= k < |s| ==> !IsSpace(s[k])
    ensures CollapseWhitespace(s) == s
    decreases |s|
  {
    if s != [] {
      CollapseNoSpace(s[1..]);
    }
  }

  /** The leading whitespace of `a + t` is that of `a` when `a` has some
      non-whitespace character. */
  lemma LeadingSpacesAppend(a: string, t: string, m: nat)
    requires m < |a| && !IsSpace(a[m])
    requires forall k :: 0 <= k < m ==> IsSpace(a[k])
    ensures LeadingSpaces(a + t) == m && LeadingSpaces(a) == m
  {
    assert (a + t)[m] == a[m];
    assert forall k :: 0 <= k < m ==> (a + t)[k] == a[k];
  }

  /** Collapsing works piece by piece across a boundary that follows a
      non-whitespace character: no run straddles it. */
  lemma {:induction false} CollapseAppend(a: string, t: string)
    requires a == [] || !IsSpace(a[|a| - 1])
    ensures CollapseWhitespace(a + t) == CollapseWhitespace(a) + CollapseWhitespace(t)
    decreases |a|
  {
    if a == [] {
      assert a + t == t;
    } else if !IsSpace(a[0]) {
      assert (a + t)[0] == a[0];
      assert (a + t)[1..] == a[1..] + t;
      CollapseAppend(a[1..], t);
    } else {
      var m := LeadingSpaces(a);
      assert m < |a|;
      LeadingSpacesAppend(a, t, m);
      assert (a + t)[0] == a[0];
      assert (a + t)[m..] == a[m..] + t;
      CollapseAppend(a[m..], t);
    }
  }

  /** A run of whitespace followed by a non-whitespace character (or by the
      end of the text) becomes one space. */
  lemma CollapseRun(w: string, b: string)
    requires w != [] && AllSpace(w)
    requires b == [] || !IsSpace(b[0])
    ensures CollapseWhitespace(w + b) == " " + CollapseWhitespace(b)
  {
    var s := w + b;
    assert s[0] == w[0];
    assert forall k :: 0 <= k < |w| ==> s[k] == w[k];
    assert b != [] ==> s[|w|] == b[0];
    assert s[|w|..] == b;
  }

  /** Every maximal run of whitespace becomes exactly one space: between two
      pieces that do not touch the run with whitespace, the run is replaced by
      `" "` and the pieces are collapsed on their own. */
  lemma CollapseAround(a: string, w: string, b: string)
    requires a == [] || !IsSpace(a[|a| - 1])
    requires w != [] && AllSpace(w)
    requires b == [] || !IsSpace(b[0])
    ensures CollapseWhitespace(a + w + b) == CollapseWhitespace(a) + " " + CollapseWhitespace(b)
  {
    ConcatAssoc(a, w, b);
    CollapseAppend(a, w + b);
    CollapseRun(w, b);
  }

  /** The clean-up applied to the generated text: strip, unquote, collapse. */
  function CleanReply(raw: string): (r: string)
    ensures NoDoubleSpace(r)
  {
    CollapseWhitespace(Unquote(Strip(raw)))
  }

  /** A cleaned reply has single spaces only, and keeps every non-whitespace
      character of the unquoted text in order. */
  lemma CleanReplyShape(raw: string)
    ensures NoDoubleSpace(CleanReply(raw))
    ensures forall k :: 0 <= k < |CleanReply(raw)| && IsSpace(CleanReply(raw)[k]) ==> CleanReply(raw)[k] == ' '
    ensures NonSpace(CleanReply(raw)) == NonSpace(Unquote(Strip(raw)))
  {
  }

  /** In the cleaned reply each whitespace run of the stripped, unquoted
      text becomes exactly one space between the collapsed pieces around it. */
  lemma CleanReplyRuns(raw: string, a: string, w: string, b: string)
    requires Unquote(Strip(raw)) == a + w + b
    requires a == [] || !IsSpace(a[|a| - 1])
    requires w != [] && AllSpace(w)
    requires b == [] || !IsSpace(b[0])
    ensures CleanReply(raw) == CollapseWhitespace(a) + " " + CollapseWhitespace(b)
  {
    CollapseAround(a, w, b);
  }

  /** A stripped, unquoted text without whitespace is sent as it is. */
  lemma CleanReplyNoSpace(raw: string)
    requires forall k :: 0 <= k < |Unquote(Strip(raw))| ==> !IsSpace(Unquote(Strip(raw))[k])
    ensures CleanReply(raw) == Unquote(Strip(raw))
  {
    CollapseNoSpace(Unquote(Strip(raw)));
  }

  /** The cleaned reply is empty, so that generation counts as failed, exactly
      when the generated text is blank or is a bare pair of quotes. */
  lemma CleanReplyEmpty(raw: string)
    ensures CleanReply(raw) == [] <==>
            (AllSpace(raw) || (|Strip(raw)| == 2 && IsQuote(Strip(raw)[0]) && IsQuote(Strip(raw)[1])))
  {
    var s := Strip(raw);
    assert s != [] ==> s[|s| - 1] != '\n';
  }
}
