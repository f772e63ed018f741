/**
 * Sender detection of the module-based bot: the author of the last message
 * is whatever precedes the first colon of the last non-empty line, and the
 * bot replies only when that is exactly the configured target user.
 */
module MessageAnalyzer {
  import opened Wrappers
  import opened Text

  /** The configured target user (`TARGET_USER`). */
  const TargetUser: string := "Rohan Das"

  /** The last element of a non-empty sequence. */
  function Last<T>(xs: seq<T>): T
    requires xs != []
  {
    xs[|xs| - 1]
  }

  /** The sender named by one line: the trimmed text before its first
      colon, or nothing when it has no colon. */
  function LineSender(line: string): (r: Option<string>)
    ensures r.Some? <==> ':' in line
    ensures r.Some? ==> ':' !in r.value
    ensures r.Some? && r.value != [] ==> !IsSpace(r.value[0]) && !IsSpace(r.value[|r.value| - 1])
  {
    if ':' in line then
      var name := Split(line, ':')[0];
      StripKeepsOut(name, ':');
      Some(Strip(name))
    else None
  }

  /** `get_last_sender`: the sender named by the last non-empty line, and
      nothing when there is no such line. */
  function GetLastSender(chat: string): (r: Option<string>)
    ensures NonEmptyLines(chat) == [] ==> r == None
  {
    var lines := NonEmptyLines(chat);
    if lines == [] then None else LineSender(Last(lines))
  }

  /** Stripping adds no character. */
  lemma StripKeepsOut(s: string, c: char)
    requires c !in s
    ensures c !in Strip(s)
  {
    var r := Strip(s);
    var i :| FlankedBySpace(s, r, i);
    assert r == s[i..i + |r|];
  }

  /** `should_reply`: exact, case-sensitive equality with the target user;
      the configured one is `TargetUser`. */
  predicate ShouldReply(chat: string, target: string): (r: bool)
    ensures r ==> NonEmptyLines(chat) != [] && ':' in Last(NonEmptyLines(chat))
  {
    GetLastSender(chat) == Some(target)
  }

  /** The first colon of `name + ":" + msg` is the one after `name` when
      `name` has none. */
  lemma IndexOfAfter(name: string, msg: string)
    requires ':' !in name
    ensures IndexOf(name + [':'] + msg, ':') == |name|
    ensures (name + [':'] + msg)[..|name|] == name
  {
    var s := name + [':'] + msg;
    assert s[|name|] == ':';
  }

  /** The three outcomes: no sender without a non-empty line, and without a
      colon in the last one; otherwise the trimmed text before its first colon. */
  lemma GetLastSenderCases(chat: string)
    ensures AllSpace(chat) ==> GetLastSender(chat) == None
    ensures !AllSpace(chat) ==> NonEmptyLines(chat) != []
    ensures !AllSpace(chat) && ':' !in Last(NonEmptyLines(chat)) ==> GetLastSender(chat) == None
    ensures !AllSpace(chat) && ':' in Last(NonEmptyLines(chat)) ==>
              var last := Last(NonEmptyLines(chat));
              GetLastSender(chat) == Some(Strip(last[..IndexOf(last, ':')]))
  {
    NoLinesIffBlank(chat);
    if !AllSpace(chat) {
      SplitFirst(Last(NonEmptyLines(chat)), ':');
    }
  }

  /** A line `name: msg` whose name has no colon names `strip(name)`,
      whatever the message says. */
  lemma LineSenderOf(name: string, msg: string)
    requires ':' !in name
    ensures LineSender(name + [':'] + msg) == Some(Strip(name))
  {
    var line := name + [':'] + msg;
    assert ':' in line by { assert line[|name|] == ':'; }
    IndexOfAfter(name, msg);
    SplitFirst(line, ':');
  }

  /** A last line `name: msg` whose name has no colon names `strip(name)` as
      the sender. */
  lemma SenderOfLastLine(chat: string, name: string, msg: string)
    requires NonEmptyLines(chat) != []
    requires Last(NonEmptyLines(chat)) == name + [':'] + msg
    requires ':' !in name
    ensures GetLastSender(chat) == Some(Strip(name))
  {
    LineSenderOf(name, msg);
  }

  /** Only the last non-empty line counts: any text may come before it. */
  lemma EarlierLinesIgnored(earlier: string, later: string)
    requires NonEmptyLines(later) != []
    ensures GetLastSender(earlier + "\n" + later) == GetLastSender(later)
  {
    LastLineAfter(earlier, later);
  }

  /** The last non-empty line of `earlier + "\n" + later` is that of `later`. */
  lemma LastLineAfter(earlier: string, later: string)
    requires NonEmptyLines(later) != []
    ensures NonEmptyLines(earlier + "\n" + later) != []
    ensures Last(NonEmptyLines(earlier + "\n" + later)) == Last(NonEmptyLines(later))
  {
    NonEmptyLinesAppend(earlier, later);
    LastOfAppend(NonEmptyLines(earlier), NonEmptyLines(later));
  }

  lemma LastOfAppend<T>(a: seq<T>, b: seq<T>)
    requires b != []
    ensures a + b != [] && Last(a + b) == Last(b)
  {
  }

  /** A line names `who` exactly when its first colon follows a text that
      trims to `who`. */
  lemma LineNames(line: string, who: string)
    ensures LineSender(line) == Some(who) <==> exists n :: NamedBefore(line, n, who)
  {
    if LineSender(line) == Some(who) {
      LineNamesAt(line, who);
    }
    if exists n :: NamedBefore(line, n, who) {
      var n :| NamedBefore(line, n, who);
      NamedBeforeSender(line, n, who);
    }
  }

  lemma LineNamesAt(line: string, who: string)
    requires LineSender(line) == Some(who)
    ensures NamedBefore(line, IndexOf(line, ':'), who)
  {
    SplitFirst(line, ':');
  }

  lemma NamedBeforeSender(line: string, n: nat, who: string)
    requires NamedBefore(line, n, who)
    ensures LineSender(line) == Some(who)
  {
    assert line == line[..n] + [':'] + line[n + 1..];
    IndexOfAfter(line[..n], line[n + 1..]);
    SplitFirst(line, ':');
  }

  /** The bot replies exactly when the last non-empty line is `name: msg`
      with a colon-free `name` that trims to the target. */
  lemma ShouldReplyIff(chat: string, target: string)
    ensures ShouldReply(chat, target) <==>
            NonEmptyLines(chat) != [] && exists n :: NamedBefore(Last(NonEmptyLines(chat)), n, target)
  {
    if NonEmptyLines(chat) != [] {
      LineNames(Last(NonEmptyLines(chat)), target);
    }
  }

  /** Position `n` of `line` holds its first colon and the text before it
      trims to `who`. */
  predicate NamedBefore(line: string, n: nat, who: string) {
    n < |line| && line[n] == ':' && ':' !in line[..n] && Strip(line[..n]) == who
  }

  /** The comparison is case-sensitive: a lower-cased target is not the target. */
  lemma CaseSensitive(chat: string, msg: string)
    requires NonEmptyLines(chat) != []
    requires Last(NonEmptyLines(chat)) == "rohan das" + [':'] + msg
    ensures GetLastSender(chat) == Some("rohan das")
    ensures !ShouldReply(chat, TargetUser)
  {
    LowerCaseName(msg);
  }

  lemma LowerCaseName(msg: string)
    ensures LineSender("rohan das" + [':'] + msg) == Some("rohan das")
    ensures "rohan das" != TargetUser
  {
    var who := "rohan das";
    assert |who| == 9 && !IsSpace(who[0]) && !IsSpace(who[8]);
    assert ':' !in who;
    assert who + [] == who;
    PaddedName(who, [], msg);
    assert who[0] != TargetUser[0];
  }

  /** Whitespace between the name and the colon does not matter. */
  lemma PaddedSender(chat: string, who: string, pad: string, msg: string)
    requires NonEmptyLines(chat) != []
    requires Last(NonEmptyLines(chat)) == who + pad + [':'] + msg
    requires who != [] && !IsSpace(who[0]) && !IsSpace(who[|who| - 1])
    requires ':' !in who && AllSpace(pad)
    ensures GetLastSender(chat) == Some(who)
    ensures ShouldReply(chat, who)
  {
    PaddedName(who, pad, msg);
  }

  lemma PaddedName(who: string, pad: string, msg: string)
    requires who != [] && !IsSpace(who[0]) && !IsSpace(who[|who| - 1])
    requires ':' !in who && AllSpace(pad)
    ensures LineSender(who + pad + [':'] + msg) == Some(who)
  {
    assert ':' !in who + pad by {
      assert forall k :: 0 <= k < |pad| ==> IsSpace(pad[k]);
    }
    LineSenderOf(who + pad, msg);
    StripPadded([], who, pad);
    assert [] + who + pad == who + pad;
  }

  /** The configured target followed by whitespace before the colon, on the
      last non-empty line, still makes the bot reply. */
  lemma SpacedTarget(chat: string, pad: string, msg: string)
    requires NonEmptyLines(chat) != []
    requires Last(NonEmptyLines(chat)) == TargetUser + pad + [':'] + msg
    requires AllSpace(pad)
    ensures ShouldReply(chat, TargetUser)
  {
    SpacedTargetLine(pad, msg);
  }

  /** The line-level half of `SpacedTarget`. */
  lemma SpacedTargetLine(pad: string, msg: string)
    requires AllSpace(pad)
    ensures LineSender(TargetUser + pad + [':'] + msg) == Some(TargetUser)
  {
    assert |TargetUser| == 9 && !IsSpace(TargetUser[0]) && !IsSpace(TargetUser[8]);
    assert ':' !in TargetUser;
    PaddedName(TargetUser, pad, msg);
  }
}
