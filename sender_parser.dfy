/**
 * Sender detection of the class-based bot: the line that names the author
 * of the last message is the nearest line, other than the final one, made
 * only of letters and whitespace (the regex `^[A-Za-z\s]+$`, over ASCII).
 */
module SenderParser {
  import opened Text

  /** A line that looks like a sender name: non-empty, only letters and whitespace. */
  predicate IsNameLine(line: string): (r: bool)
    ensures r ==> ':' !in line
  {
    |line| > 0 && forall k :: 0 <= k < |line| ==> IsAsciiLetter(line[k]) || IsSpace(line[k])
  }

  /** The highest index below `n` holding a name line, or -1 when there is none. */
  function LastNameLineBefore(lines: seq<string>, n: nat): (idx: int)
    requires n <= |lines|
    ensures -1 <= idx < n
    ensures idx >= 0 ==> IsNameLine(lines[idx])
    ensures forall j :: idx < j < n ==> !IsNameLine(lines[j])
  {
    if n == 0 then -1
    else if IsNameLine(lines[n - 1]) then n - 1
    else LastNameLineBefore(lines, n - 1)
  }

  /** Index of the sender line: the last name line that is not the final line,
      or -1 when there is none. */
  function SenderLineIndex(lines: seq<string>): (idx: int)
    ensures idx == -1 || (0 <= idx < |lines| - 1 && IsNameLine(lines[idx]))
    ensures forall j :: idx < j < |lines| - 1 ==> !IsNameLine(lines[j])
  {
    if lines == [] then -1 else LastNameLineBefore(lines, |lines| - 1)
  }

  /** The backwards scan with `break`: from the final line down to the first,
      stop at the first name line that is not the final line. */
  method FindSenderLine(lines: seq<string>) returns (idx: int)
    ensures idx == SenderLineIndex(lines)
    ensures idx == -1 || (0 <= idx < |lines| - 1 && IsNameLine(lines[idx]))
  {
    idx := -1;
    for i := |lines| downto 0
      invariant idx == -1
      invariant forall j :: i <= j < |lines| - 1 ==> !IsNameLine(lines[j])
    {
      if IsNameLine(lines[i]) && i < |lines| - 1 {
        idx := i;
        break;
      }
    }
    SenderIndexUnique(lines, idx);
  }

  /** The two properties of `SenderLineIndex` determine it. */
  lemma SenderIndexUnique(lines: seq<string>, idx: int)
    requires idx == -1 || (0 <= idx < |lines| - 1 && IsNameLine(lines[idx]))
    requires forall j :: idx < j < |lines| - 1 ==> !IsNameLine(lines[j])
    ensures idx == SenderLineIndex(lines)
  {
  }

  /** The pair `(is_target, cleaned_chat_text)` returned by the parser:
      `is_target` says whether the lower-cased target occurs in the lower-cased
      sender line; the text is handed back unchanged unless it has no
      non-empty line, in which case it is replaced by the empty string. */
  function ParsedSender(target: string, chat: string): (r: (bool, string))
    ensures r.1 == [] || r.1 == chat
    ensures r.0 ==> chat != [] && |NonEmptyLines(chat)| >= 2
  {
    if chat == [] then (false, [])
    else
      var lines := NonEmptyLines(chat);
      if lines == [] then (false, [])
      else
        var idx := SenderLineIndex(lines);
        if idx == -1 then (false, chat)
        else (Contains(Lower(lines[idx]), Lower(target)), chat)
  }

  /** A blank transcript yields `(False, "")`; any other yields the transcript itself. */
  lemma ParsedTextIffBlank(target: string, chat: string)
    ensures AllSpace(chat) ==> ParsedSender(target, chat) == (false, [])
    ensures !AllSpace(chat) ==> ParsedSender(target, chat).1 == chat
  {
    NoLinesIffBlank(chat);
  }

  /** With fewer than two non-empty lines no sender is found, so the answer is
      "not the target"; the final line is never taken as the sender line. */
  lemma FewLinesNoSender(target: string, chat: string)
    requires |NonEmptyLines(chat)| < 2
    ensures !ParsedSender(target, chat).0
    ensures |NonEmptyLines(chat)| == 1 ==> ParsedSender(target, chat) == (false, chat)
  {
    NoLinesIffBlank(chat);
  }

  /** Once the sender line is pinned down by its shape (a name line, not the
      final line, and no later line but the final one is a name line), the
      verdict is the case-insensitive substring test against that line. */
  lemma SenderVerdict(target: string, chat: string, i: nat)
    requires 0 <= i < |NonEmptyLines(chat)| - 1
    requires IsNameLine(NonEmptyLines(chat)[i])
    requires forall j :: i < j < |NonEmptyLines(chat)| - 1 ==> !IsNameLine(NonEmptyLines(chat)[j])
    ensures ParsedSender(target, chat) ==
            (exists k :: OccursAt(Lower(NonEmptyLines(chat)[i]), Lower(target), k), chat)
  {
    var lines := NonEmptyLines(chat);
    NoLinesIffBlank(chat);
    SenderIndexUnique(lines, i);
    ContainsOccurs(Lower(lines[i]), Lower(target));
    assert ParsedSender(target, chat).0 == Contains(Lower(lines[i]), Lower(target));
  }

  /** Line `i` is the sender line: a name line that is not the final line,
      with no later name line before the final one. */
  predicate IsSenderLine(lines: seq<string>, i: int) {
    && 0 <= i < |lines| - 1
    && IsNameLine(lines[i])
    && forall j :: i < j < |lines| - 1 ==> !IsNameLine(lines[j])
  }

  /** Without any name-shaped line before the final one the parser is not
      confident: the answer is "not the target", with the transcript handed
      back. */
  lemma NoSenderLine(target: string, chat: string)
    requires forall j :: 0 <= j < |NonEmptyLines(chat)| - 1 ==> !IsNameLine(NonEmptyLines(chat)[j])
    ensures !ParsedSender(target, chat).0
    ensures NonEmptyLines(chat) != [] ==> ParsedSender(target, chat) == (false, chat)
  {
    var lines := NonEmptyLines(chat);
    NoLinesIffBlank(chat);
    if lines != [] {
      assert SenderLineIndex(lines) == -1;
    }
  }

  /** The verdict is True exactly when there is a sender line and the
      lower-cased target occurs in the lower-cased sender line. */
  lemma ParsedSenderIff(target: string, chat: string)
    ensures ParsedSender(target, chat).0 <==>
            exists i :: IsSenderLine(NonEmptyLines(chat), i) && Contains(Lower(NonEmptyLines(chat)[i]), Lower(target))
  {
    var lines := NonEmptyLines(chat);
    NoLinesIffBlank(chat);
    if ParsedSender(target, chat).0 {
      var idx := SenderLineIndex(lines);
      assert IsSenderLine(lines, idx);
    }
    if exists i :: IsSenderLine(lines, i) && Contains(Lower(lines[i]), Lower(target)) {
      var i :| IsSenderLine(lines, i) && Contains(Lower(lines[i]), Lower(target));
      SenderIndexUnique(lines, i);
    }
  }

  /** When the line before the final one has the shape of a name, it is the
      sender line, whatever the earlier lines look like. */
  lemma SecondToLastSender(target: string, chat: string)
    requires |NonEmptyLines(chat)| >= 2
    requires IsNameLine(NonEmptyLines(chat)[|NonEmptyLines(chat)| - 2])
    ensures ParsedSender(target, chat) ==
            (Contains(Lower(NonEmptyLines(chat)[|NonEmptyLines(chat)| - 2]), Lower(target)), chat)
  {
    var lines := NonEmptyLines(chat);
    NoLinesIffBlank(chat);
    SenderIndexUnique(lines, |lines| - 2);
  }

  /** The lines of the worked example transcript (the four lines joined by
      line breaks, "Alice\nhi there\nRohan Das\nyou are slow"). */
  lemma ExampleTranscriptLines(chat: string)
    requires chat == Join(["Alice", "hi there", "Rohan Das", "you are slow"], '\n')
    ensures NonEmptyLines(chat) == ["Alice", "hi there", "Rohan Das", "you are slow"]
  {
    LinesOfJoin(["Alice", "hi there", "Rohan Das", "you are slow"]);
  }

  /** The worked example: in any transcript whose lines are those of the
      example, the sender of "you are slow" is "Rohan Das", although
      "hi there" and "you are slow" also have the shape of a name. */
  lemma ExampleTranscript(chat: string, target: string)
    requires NonEmptyLines(chat) == ["Alice", "hi there", "Rohan Das", "you are slow"]
    requires target == "Rohan Das"
    ensures ParsedSender(target, chat) == (true, chat)
  {
    var name := "Rohan Das";
    assert IsNameLine(name) by {
      assert |name| == 9;
      assert forall k :: 0 <= k < 9 ==> IsAsciiLetter(name[k]) || IsSpace(name[k]);
    }
    SecondToLastSender(target, chat);
    ContainsItself(Lower(name));
  }

  lemma ContainsItself(s: string)
    ensures Contains(s, s)
  {
    assert s[..|s|] == s;
  }
}
