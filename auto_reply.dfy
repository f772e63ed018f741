/**
 * The polling bot of naruto.py: one tick reads the chat, decides whether the
 * target wrote last, skips a transcript whose fingerprint it already answered,
 * asks the text generator for a reply and sends it; the run loop repeats ticks
 * and stops once too many of them have raised.
 *
 * The collaborators are oracles. Per tick, `TickEnv` holds what the clipboard
 * read returned (`None` when nothing was retrieved), what the completion
 * service returned (`None` when the call failed) and the clock reading used
 * for the history record. Python's `hash` is the function `Config.hash`,
 * fixed for the lifetime of the process; collisions are not modelled.
 */
module AutoReply {
  import opened Wrappers
  import opened Text
  import opened SenderParser
  import opened ReplyCleanup

  /** How many characters at the end of the transcript the fingerprint covers. */
  const FingerprintWindow: nat := 500

  /** The configuration the loop reads: target name, retry limit, the
      `enable_bot` switch, and the process's string hash. */
  datatype Config = Config(targetUser: string, maxRetries: int, enableBot: bool, hash: string -> int)

  /** One entry of the history of sent messages. */
  datatype SentRecord = SentRecord(timestamp: string, message: string)

  /** The fields of the bot that the loop updates. */
  datatype BotState = BotState(lastMessageHash: Option<int>, retryCount: nat, sentMessages: seq<SentRecord>)

  /** What the collaborators answer during one tick. */
  datatype TickEnv = TickEnv(chat: Option<string>, completion: Option<string>, now: string)

  /** The exit a tick takes; each one is a distinct log message of the source. */
  datatype TickOutcome =
    | NoChat
    | NotTarget
    | AlreadyReplied(fingerprint: int)
    | GenerationFailed(fingerprint: int)
    | Replied(fingerprint: int, reply: string)

  datatype TickResult = TickResult(outcome: TickOutcome, state: BotState)

  /** `hash(chat_text[-500:])`. */
  function Fingerprint(cfg: Config, chat: string): (r: int)
    ensures |chat| <= FingerprintWindow ==> r == cfg.hash(chat)
  {
    cfg.hash(Tail(chat, FingerprintWindow))
  }

  /** The fingerprint only sees the last 500 characters: whatever comes
      before a window of that length leaves it unchanged. */
  lemma FingerprintLastWindow(cfg: Config, earlier: string, chat: string)
    requires |chat| >= FingerprintWindow
    ensures Fingerprint(cfg, earlier + chat) == Fingerprint(cfg, chat)
  {
    var whole := earlier + chat;
    assert Tail(whole, FingerprintWindow) == whole[|whole| - FingerprintWindow..];
    assert whole[|whole| - FingerprintWindow..] == chat[|chat| - FingerprintWindow..];
  }

  /** The reply the generator step yields: the cleaned completion, or `None`
      when the service call failed. */
  function GenerateAiResponse(completion: Option<string>): (r: Option<string>)
    ensures r.Some? <==> completion.Some?
    ensures r.Some? ==> NoDoubleSpace(r.value)
  {
    match completion
    case None => None
    case Some(raw) => Some(CleanReply(raw))
  }

  /** One tick of the loop (the body of `check_for_new_message`). */
  function Tick(cfg: Config, s: BotState, env: TickEnv): (r: TickResult)
    ensures r.state.retryCount == s.retryCount
    ensures r.outcome.Replied? <==> r.state != s
  {
    match env.chat
    case None => TickResult(NoChat, s)
    case Some(chat) =>
      if chat == [] then TickResult(NoChat, s)
      else if !ParsedSender(cfg.targetUser, chat).0 then TickResult(NotTarget, s)
      else
        var h := Fingerprint(cfg, chat);
        if s.lastMessageHash == Some(h) then TickResult(AlreadyReplied(h), s)
        else
          match GenerateAiResponse(env.completion)
          case None => TickResult(GenerationFailed(h), s)
          case Some(reply) =>
            if reply == [] then TickResult(GenerationFailed(h), s)
            else
              TickResult(Replied(h, reply),
                         s.(sentMessages := s.sentMessages + [SentRecord(env.now, reply)],
                            lastMessageHash := Some(h)))
  }

  /** What happens to one iteration of the run loop: a tick, or an exception
      escaping the tick. */
  datatype Step = Poll(env: TickEnv) | Fault

  /** What the loop logs about one iteration. */
  datatype Report = Ticked(outcome: TickOutcome) | Raised

  /** The state after the loop, its log, and whether it stopped because the
      retry limit was reached (otherwise the operator stopped it). */
  datatype RunResult = RunResult(state: BotState, trace: seq<Report>, stopped: bool)

  /** One iteration below the retry limit: run the tick, then reset the retry
      count on success, or count the exception. */
  function Iterate(cfg: Config, s: BotState, step: Step): (r: (Report, BotState))
    ensures r.0.Raised? <==> step.Fault?
    ensures r.1.lastMessageHash != s.lastMessageHash ==> r.0.Ticked? && r.0.outcome.Replied?
  {
    match step
    case Fault => (Raised, s.(retryCount := s.retryCount + 1))
    case Poll(env) =>
      var t := Tick(cfg, s, env);
      (Ticked(t.outcome), if t.outcome.Replied? then t.state.(retryCount := 0) else t.state)
  }

  function Extend(prefix: seq<Report>, r: RunResult): RunResult
  {
    RunResult(r.state, prefix + r.trace, r.stopped)
  }

  /** Logging one more report before the rest of a run. */
  lemma ExtendExtend(done: seq<Report>, report: Report, rest: RunResult)
    ensures Extend(done, Extend([report], rest)) == Extend(done + [report], rest)
  {
    ConcatAssoc(done, [report], rest.trace);
  }

  /** The `while True` loop, fed one step per iteration until the operator
      stops it (the steps run out) or the retry limit is reached. */
  function RunLoop(cfg: Config, s: BotState, steps: seq<Step>): (r: RunResult)
    ensures |r.trace| <= |steps|
    ensures r.stopped ==> r.state.retryCount >= cfg.maxRetries
    ensures !r.stopped ==> |r.trace| == |steps|
    decreases |steps|
  {
    if steps == [] then RunResult(s, [], false)
    else if s.retryCount >= cfg.maxRetries then RunResult(s, [], true)
    else
      var (report, next) := Iterate(cfg, s, steps[0]);
      Extend([report], RunLoop(cfg, next, steps[1..]))
  }

  /** `run`: nothing happens when the bot is disabled. */
  function RunBot(cfg: Config, s: BotState, steps: seq<Step>): (r: RunResult)
    ensures !cfg.enableBot ==> r.state == s && r.trace == [] && !r.stopped
    ensures |r.trace| <= |steps|
  {
    if !cfg.enableBot then RunResult(s, [], false) else RunLoop(cfg, s, steps)
  }

  /** A transcript the bot answers: retrieved, non-empty, and with the target
      recognised as the sender of its last message. */
  predicate Answerable(cfg: Config, env: TickEnv) {
    env.chat.Some? && env.chat.value != [] && ParsedSender(cfg.targetUser, env.chat.value).0
  }

  /** Every exit before the generator is asked leaves the state alone and is
      decided without the generator's answer: no transcript, a transcript the
      target did not end, or one whose fingerprint was already answered (the
      dedup check, under which neither the generator nor the sender is used). */
  lemma TickExitsBeforeGeneration(cfg: Config, s: BotState, env: TickEnv, otherCompletion: Option<string>)
    requires !Answerable(cfg, env) || s.lastMessageHash == Some(Fingerprint(cfg, env.chat.value))
    ensures Tick(cfg, s, env).state == s
    ensures Tick(cfg, s, env.(completion := otherCompletion)) == Tick(cfg, s, env)
    ensures Tick(cfg, s, env).outcome ==
            if env.chat.None? || env.chat.value == [] then NoChat
            else if !Answerable(cfg, env) then NotTarget
            else AlreadyReplied(Fingerprint(cfg, env.chat.value))
  {
  }

  /** A tick replies in exactly one case: an answerable transcript with a new
      fingerprint and a completion that cleans up to a non-empty reply. The
      reply is that cleaned completion, and it has single spaces only. */
  lemma TickRepliesIff(cfg: Config, s: BotState, env: TickEnv)
    ensures Tick(cfg, s, env).outcome.Replied? <==>
            Answerable(cfg, env)
            && s.lastMessageHash != Some(Fingerprint(cfg, env.chat.value))
            && env.completion.Some? && CleanReply(env.completion.value) != []
    ensures Tick(cfg, s, env).outcome.Replied? ==>
              Tick(cfg, s, env).outcome.fingerprint == Fingerprint(cfg, env.chat.value)
              && Tick(cfg, s, env).outcome.reply == CleanReply(env.completion.value)
              && NoDoubleSpace(Tick(cfg, s, env).outcome.reply)
  {
    if env.completion.Some? {
      CleanReplyShape(env.completion.value);
    }
  }

  /** The state a tick leaves: on a reply, one history record is appended and
      the fingerprint is remembered; on every other exit nothing changes. The
      retry count is never touched by the tick itself. */
  lemma TickEffect(cfg: Config, s: BotState, env: TickEnv)
    ensures !Tick(cfg, s, env).outcome.Replied? ==> Tick(cfg, s, env).state == s
    ensures Tick(cfg, s, env).outcome.Replied? ==>
              var r := Tick(cfg, s, env);
              && Some(r.outcome.fingerprint) != s.lastMessageHash
              && r.state.lastMessageHash == Some(r.outcome.fingerprint)
              && r.state.sentMessages == s.sentMessages + [SentRecord(env.now, r.outcome.reply)]
              && r.state.retryCount == s.retryCount
  {
    match env.chat
    case None =>
    case Some(chat) =>
      if chat != [] && ParsedSender(cfg.targetUser, chat).0 {
        var h := Fingerprint(cfg, chat);
        if s.lastMessageHash != Some(h) {
          match GenerateAiResponse(env.completion)
          case None =>
          case Some(reply) =>
        }
      }
  }

  /** Feeding the same transcript twice in a row yields at most one reply:
      after a reply the second tick is skipped as already answered. */
  lemma SameTranscriptRepliesOnce(cfg: Config, s: BotState, first: TickEnv, second: TickEnv)
    requires first.chat == second.chat
    ensures var r1 := Tick(cfg, s, first);
            r1.outcome.Replied? ==>
              Tick(cfg, r1.state, second) == TickResult(AlreadyReplied(r1.outcome.fingerprint), r1.state)
  {
    var r1 := Tick(cfg, s, first);
    if r1.outcome.Replied? {
      TickRepliesIff(cfg, s, first);
      TickEffect(cfg, s, first);
      TickExitsBeforeGeneration(cfg, r1.state, second, second.completion);
    }
  }

  /** Only the last answered fingerprint is remembered: after replying to a
      transcript and then to a different one, the first transcript is answered
      again, so one fingerprint can be replied to twice in a run. */
  lemma RepliesAgainAfterAnother(cfg: Config, s: BotState, a: TickEnv, b: TickEnv)
    requires Answerable(cfg, a) && Answerable(cfg, b)
    requires Fingerprint(cfg, a.chat.value) != Fingerprint(cfg, b.chat.value)
    requires s.lastMessageHash != Some(Fingerprint(cfg, a.chat.value))
    requires a.completion.Some? && CleanReply(a.completion.value) != []
    requires b.completion.Some? && CleanReply(b.completion.value) != []
    ensures var r1 := Tick(cfg, s, a);
            var r2 := Tick(cfg, r1.state, b);
            var r3 := Tick(cfg, r2.state, a);
            && r1.outcome.Replied? && r2.outcome.Replied? && r3.outcome.Replied?
            && r1.outcome.fingerprint == r3.outcome.fingerprint
  {
    var r1 := Tick(cfg, s, a);
    TickRepliesIff(cfg, s, a);
    TickEffect(cfg, s, a);
    var r2 := Tick(cfg, r1.state, b);
    TickRepliesIff(cfg, r1.state, b);
    TickEffect(cfg, r1.state, b);
    TickRepliesIff(cfg, r2.state, a);
  }

  /** The fingerprints of the replies in a loop log, in order. */
  function ReplyFingerprints(trace: seq<Report>): seq<int>
  {
    if trace == [] then []
    else if trace[0].Ticked? && trace[0].outcome.Replied? then
      [trace[0].outcome.fingerprint] + ReplyFingerprints(trace[1..])
    else ReplyFingerprints(trace[1..])
  }

  /** The texts of the replies in a loop log, in order. */
  function ReplyTexts(trace: seq<Report>): seq<string>
  {
    if trace == [] then []
    else if trace[0].Ticked? && trace[0].outcome.Replied? then
      [trace[0].outcome.reply] + ReplyTexts(trace[1..])
    else ReplyTexts(trace[1..])
  }

  function Messages(records: seq<SentRecord>): seq<string>
  {
    if records == [] then [] else [records[0].message] + Messages(records[1..])
  }

  lemma {:induction false} MessagesAppend(a: seq<SentRecord>, b: seq<SentRecord>)
    ensures Messages(a + b) == Messages(a) + Messages(b)
    decreases |a|
  {
    if a != [] {
      assert (a + b)[1..] == a[1..] + b;
      MessagesAppend(a[1..], b);
    } else {
      assert a + b == b;
    }
  }

  predicate NoAdjacentRepeats(xs: seq<int>) {
    forall k :: 0 <= k < |xs| - 1 ==> xs[k] != xs[k + 1]
  }

  /** No duplicate reply per fingerprint: over a whole run, two consecutive
      replies are never for the same fingerprint, the first differs from the
      fingerprint remembered at the start, and the remembered fingerprint at
      the end is that of the last reply (unchanged when there was none). */
  lemma {:induction false} RunNeverRepeatsFingerprint(cfg: Config, s: BotState, steps: seq<Step>)
    ensures var r := RunLoop(cfg, s, steps);
            var fps := ReplyFingerprints(r.trace);
            && NoAdjacentRepeats(fps)
            && (fps != [] ==> Some(fps[0]) != s.lastMessageHash)
            && r.state.lastMessageHash == (if fps == [] then s.lastMessageHash else Some(fps[|fps| - 1]))
    decreases |steps|
  {
    if steps != [] && s.retryCount < cfg.maxRetries {
      var (report, next) := Iterate(cfg, s, steps[0]);
      var rest := RunLoop(cfg, next, steps[1..]);
      assert RunLoop(cfg, s, steps) == Extend([report], rest);
      IterateFingerprint(cfg, s, steps[0]);
      RunNeverRepeatsFingerprint(cfg, next, steps[1..]);
      FingerprintsExtend(s, next, report, rest);
    }
  }

  /** The fingerprints an iteration remembers and the rest of the run logs. */
  predicate RemembersFingerprints(s: BotState, t: BotState, fps: seq<int>) {
    && NoAdjacentRepeats(fps)
    && (fps != [] ==> Some(fps[0]) != s.lastMessageHash)
    && t.lastMessageHash == (if fps == [] then s.lastMessageHash else Some(fps[|fps| - 1]))
  }

  /** Remembered fingerprints compose over one iteration followed by the rest of a run. */
  lemma FingerprintsExtend(s: BotState, next: BotState, report: Report, rest: RunResult)
    requires |ReplyFingerprints([report])| <= 1
    requires RemembersFingerprints(s, next, ReplyFingerprints([report]))
    requires RemembersFingerprints(next, rest.state, ReplyFingerprints(rest.trace))
    ensures RemembersFingerprints(s, Extend([report], rest).state, ReplyFingerprints(Extend([report], rest).trace))
  {
    ReplyFingerprintsCons(report, rest.trace);
    var head, tail := ReplyFingerprints([report]), ReplyFingerprints(rest.trace);
    NoAdjacentRepeatsCons(head, tail);
    if head == [] {
      assert head + tail == tail;
    } else if tail != [] {
      assert (head + tail)[|head + tail| - 1] == tail[|tail| - 1];
    }
  }

  lemma NoAdjacentRepeatsCons(head: seq<int>, tail: seq<int>)
    requires |head| <= 1 && NoAdjacentRepeats(tail)
    requires head != [] && tail != [] ==> head[0] != tail[0]
    ensures NoAdjacentRepeats(head + tail)
  {
    if head != [] {
      forall k | 0 <= k < |head + tail| - 1 ensures (head + tail)[k] != (head + tail)[k + 1] {
        if k > 0 {
          assert (head + tail)[k] == tail[k - 1];
        }
      }
    } else {
      assert head + tail == tail;
    }
  }

  /** One iteration logs at most one reply fingerprint: a new one, which it
      then remembers; without one the remembered fingerprint is unchanged. */
  lemma IterateFingerprint(cfg: Config, s: BotState, step: Step)
    ensures var (report, next) := Iterate(cfg, s, step);
            var fps := ReplyFingerprints([report]);
            if fps == [] then next.lastMessageHash == s.lastMessageHash
            else |fps| == 1 && Some(fps[0]) != s.lastMessageHash && next.lastMessageHash == Some(fps[0])
  {
    match step
    case Fault =>
    case Poll(env) => TickEffect(cfg, s, env);
  }

  lemma ReplyFingerprintsCons(report: Report, trace: seq<Report>)
    ensures ReplyFingerprints([report] + trace) == ReplyFingerprints([report]) + ReplyFingerprints(trace)
  {
    assert ([report] + trace)[1..] == trace;
  }

  lemma ReplyTextsCons(report: Report, trace: seq<Report>)
    ensures ReplyTexts([report] + trace) == ReplyTexts([report]) + ReplyTexts(trace)
  {
    assert ([report] + trace)[1..] == trace;
  }

  lemma PrefixOfPrefix<T>(a: seq<T>, b: seq<T>, c: seq<T>)
    requires |a| <= |b| && b[..|a|] == a
    requires |b| <= |c| && c[..|b|] == b
    ensures c[..|a|] == a
  {
    assert c[..|b|][..|a|] == c[..|a|];
  }

  /** One iteration appends to the history exactly the reply it logs, if any. */
  lemma IterateAppendsReply(cfg: Config, s: BotState, step: Step)
    ensures var (report, next) := Iterate(cfg, s, step);
            && |s.sentMessages| <= |next.sentMessages|
            && next.sentMessages[..|s.sentMessages|] == s.sentMessages
            && Messages(next.sentMessages) == Messages(s.sentMessages) + ReplyTexts([report])
  {
    match step
    case Fault =>
    case Poll(env) =>
      TickEffect(cfg, s, env);
      var t := Tick(cfg, s, env);
      if t.outcome.Replied? {
        MessagesAppend(s.sentMessages, [SentRecord(env.now, t.outcome.reply)]);
        assert t.state.sentMessages[..|s.sentMessages|] == s.sentMessages;
      }
  }

  /** The history of `s` is a prefix of that of `t`, and the messages in
      between are `added`. */
  predicate GrowsBy(s: BotState, t: BotState, added: seq<string>) {
    && |s.sentMessages| <= |t.sentMessages|
    && t.sentMessages[..|s.sentMessages|] == s.sentMessages
    && Messages(t.sentMessages) == Messages(s.sentMessages) + added
  }

  /** Growth composes over one iteration followed by the rest of a run. */
  lemma GrowsByExtend(s: BotState, next: BotState, report: Report, rest: RunResult)
    requires GrowsBy(s, next, ReplyTexts([report]))
    requires GrowsBy(next, rest.state, ReplyTexts(rest.trace))
    ensures GrowsBy(s, Extend([report], rest).state, ReplyTexts(Extend([report], rest).trace))
  {
    ReplyTextsCons(report, rest.trace);
    PrefixOfPrefix(s.sentMessages, next.sentMessages, rest.state.sentMessages);
    ConcatAssoc(Messages(s.sentMessages), ReplyTexts([report]), ReplyTexts(rest.trace));
  }

  /** The history only grows: the records present at the start stay in place,
      and one record per reply is appended, carrying the reply text. */
  lemma {:induction false} RunAppendsReplies(cfg: Config, s: BotState, steps: seq<Step>)
    ensures var r := RunLoop(cfg, s, steps);
            && |s.sentMessages| <= |r.state.sentMessages|
            && r.state.sentMessages[..|s.sentMessages|] == s.sentMessages
            && Messages(r.state.sentMessages) == Messages(s.sentMessages) + ReplyTexts(r.trace)
    decreases |steps|
  {
    if steps != [] && s.retryCount < cfg.maxRetries {
      var (report, next) := Iterate(cfg, s, steps[0]);
      IterateAppendsReply(cfg, s, steps[0]);
      RunAppendsReplies(cfg, next, steps[1..]);
      GrowsByExtend(s, next, report, RunLoop(cfg, next, steps[1..]));
    }
  }

  /** The retry count after a sequence of logged iterations: reset by a
      reply, raised by one for an exception, unchanged otherwise. */
  function RetryAfter(count: nat, trace: seq<Report>): nat
    decreases |trace|
  {
    if trace == [] then count
    else
      var next := match trace[0]
        case Raised => count + 1
        case Ticked(outcome) => if outcome.Replied? then 0 else count;
      RetryAfter(next, trace[1..])
  }

  lemma {:induction false} RetryAfterAppend(count: nat, a: seq<Report>, b: seq<Report>)
    ensures RetryAfter(count, a + b) == RetryAfter(RetryAfter(count, a), b)
    decreases |a|
  {
    if a != [] {
      assert (a + b)[1..] == a[1..] + b;
      var next := match a[0]
        case Raised => count + 1
        case Ticked(outcome) => if outcome.Replied? then 0 else count;
      RetryAfterAppend(next, a[1..], b);
    } else {
      assert a + b == b;
    }
  }

  /** A run of exceptions adds its length to the retry count. */
  lemma {:induction false} RetryAfterFaults(count: nat, b: seq<Report>)
    requires forall k :: 0 <= k < |b| ==> b[k].Raised?
    ensures RetryAfter(count, b) == count + |b|
    decreases |b|
  {
    if b != [] {
      RetryAfterFaults(count + 1, b[1..]);
    }
  }

  /** The retry policy over a run: the final count is the one the log implies;
      every iteration started strictly below the limit; the loop stops early
      only at the limit, and otherwise consumes every step. */
  lemma {:induction false} RunRetryPolicy(cfg: Config, s: BotState, steps: seq<Step>)
    ensures var r := RunLoop(cfg, s, steps);
            && r.state.retryCount == RetryAfter(s.retryCount, r.trace)
            && (forall k :: 0 <= k < |r.trace| ==> RetryAfter(s.retryCount, r.trace[..k]) < cfg.maxRetries)
            && (r.stopped ==> r.state.retryCount >= cfg.maxRetries && |r.trace| < |steps|)
            && (!r.stopped ==> |r.trace| == |steps|)
    decreases |steps|
  {
    if steps != [] && s.retryCount < cfg.maxRetries {
      var (report, next) := Iterate(cfg, s, steps[0]);
      var rest := RunLoop(cfg, next, steps[1..]);
      RunRetryPolicy(cfg, next, steps[1..]);
      var trace := [report] + rest.trace;
      assert trace[1..] == rest.trace;
      assert RetryAfter(s.retryCount, [report]) == next.retryCount by {
        assert [report][1..] == [];
        match steps[0]
        case Fault =>
        case Poll(env) => TickEffect(cfg, s, env);
      }
      RetryAfterAppend(s.retryCount, [report], rest.trace);
      forall k | 0 <= k < |trace| ensures RetryAfter(s.retryCount, trace[..k]) < cfg.maxRetries {
        if k > 0 {
          assert trace[..k] == [report] + rest.trace[..k - 1];
          RetryAfterAppend(s.retryCount, [report], rest.trace[..k - 1]);
        }
      }
    }
  }

  /** At most `max_retries` consecutive iterations raise: a block of
      exceptions in the log is never longer than the retry limit. */
  lemma ConsecutiveFaultsBounded(cfg: Config, s: BotState, steps: seq<Step>, i: nat, j: nat)
    requires i < j <= |RunLoop(cfg, s, steps).trace|
    requires forall k :: i <= k < j ==> RunLoop(cfg, s, steps).trace[k].Raised?
    ensures j - i <= cfg.maxRetries
  {
    var trace := RunLoop(cfg, s, steps).trace;
    RunRetryPolicy(cfg, s, steps);
    var before := RetryAfter(s.retryCount, trace[..i]);
    var block := trace[i..j - 1];
    assert trace[..j - 1] == trace[..i] + block;
    RetryAfterAppend(s.retryCount, trace[..i], block);
    RetryAfterFaults(before, block);
    assert RetryAfter(s.retryCount, trace[..j - 1]) < cfg.maxRetries;
  }

  /** Counting up to the limit stops the bot: from a count `n` below the
      limit, `n` exceptions in a row bring it to the limit, and the loop then
      breaks before running anything further. */
  lemma {:induction false} FaultsStopTheBot(cfg: Config, s: BotState, n: nat, later: seq<Step>)
    requires s.retryCount + n == cfg.maxRetries
    requires later != []
    ensures RunLoop(cfg, s, seq(n, _ => Fault) + later) ==
            RunResult(s.(retryCount := cfg.maxRetries), seq(n, _ => Raised), true)
    decreases n
  {
    var steps := seq(n, _ => Fault) + later;
    if n > 0 {
      assert steps[0] == Fault;
      assert steps[1..] == seq(n - 1, _ => Fault) + later;
      FaultsStopTheBot(cfg, s.(retryCount := s.retryCount + 1), n - 1, later);
      assert [Raised] + seq(n - 1, _ => Raised) == seq(n, _ => Raised);
    } else {
      assert steps == later;
    }
  }

  class AutoReplyBot {
    const config: Config
    var lastMessageHash: Option<int>
    var sentMessages: seq<SentRecord>
    var retryCount: nat

    function State(): BotState
      reads this
    {
      BotState(lastMessageHash, retryCount, sentMessages)
    }

    constructor (config: Config)
      ensures this.config == config
      ensures State() == BotState(None, 0, [])
    {
      this.config := config;
      lastMessageHash := None;
      sentMessages := [];
      retryCount := 0;
    }

    /** `parse_last_message_sender`, with the backwards scan as a loop. */
    method ParseLastMessageSender(chat: string) returns (isTarget: bool, cleaned: string)
      ensures (isTarget, cleaned) == ParsedSender(config.targetUser, chat)
    {
      if chat == [] {
        return false, [];
      }
      var lines := NonEmptyLines(chat);
      if lines == [] {
        return false, [];
      }
      var idx := FindSenderLine(lines);
      if idx == -1 {
        return false, chat;
      }
      var lastSender := lines[idx];
      isTarget := Contains(Lower(lastSender), Lower(config.targetUser));
      cleaned := chat;
    }

    /** The bookkeeping part of `send_response`: record the sent text. */
    method SendResponse(response: string, now: string)
      modifies this`sentMessages
      ensures sentMessages == old(sentMessages) + [SentRecord(now, response)]
    {
      sentMessages := sentMessages + [SentRecord(now, response)];
    }

    /** `check_for_new_message`: true exactly when a reply was sent. */
    method CheckForNewMessage(env: TickEnv) returns (success: bool, outcome: TickOutcome)
      modifies this`lastMessageHash, this`sentMessages
      ensures TickResult(outcome, State()) == Tick(config, old(State()), env)
      ensures success == outcome.Replied?
    {
      if env.chat.None? || env.chat.value == [] {
        return false, NoChat;
      }
      var chatText := env.chat.value;
      var isTarget, cleanedChat := ParseLastMessageSender(chatText);
      if !isTarget {
        return false, NotTarget;
      }
      var currentHash := config.hash(Tail(chatText, FingerprintWindow));
      if lastMessageHash == Some(currentHash) {
        return false, AlreadyReplied(currentHash);
      }
      var aiResponse := GenerateAiResponse(env.completion);
      if aiResponse.None? || aiResponse.value == [] {
        return false, GenerationFailed(currentHash);
      }
      SendResponse(aiResponse.value, env.now);
      lastMessageHash := Some(currentHash);
      return true, Replied(currentHash, aiResponse.value);
    }

    /** One pass of the `try` block in `run`'s loop, after the retry check:
        a tick and the retry bookkeeping, or the handling of an exception
        that escaped the tick. */
    method Iteration(step: Step) returns (report: Report)
      modifies this
      ensures (report, State()) == Iterate(config, old(State()), step)
    {
      match step {
        case Fault =>
          retryCount := retryCount + 1;
          report := Raised;
        case Poll(env) =>
          var success, outcome := CheckForNewMessage(env);
          if success {
            retryCount := 0;
          }
          report := Ticked(outcome);
      }
    }

    /** `run`'s monitoring loop over the given iterations. */
    method Run(steps: seq<Step>) returns (trace: seq<Report>, stopped: bool)
      modifies this
      ensures RunResult(State(), trace, stopped) == RunBot(config, old(State()), steps)
    {
      trace, stopped := [], false;
      if !config.enableBot {
        return;
      }
      var i := 0;
      while i < |steps|
        invariant 0 <= i <= |steps|
        invariant RunLoop(config, old(State()), steps) == Extend(trace, RunLoop(config, State(), steps[i..]))
        invariant !stopped
      {
        if retryCount >= config.maxRetries {
          stopped := true;
          assert steps[i..] != [];
          break;
        }
        assert steps[i..][0] == steps[i] && steps[i..][1..] == steps[i + 1..];
        ghost var done := trace;
        var report := Iteration(steps[i]);
        trace := trace + [report];
        ExtendExtend(done, report, RunLoop(config, State(), steps[i + 1..]));
        i := i + 1;
      }
      if !stopped {
        assert steps[i..] == [];
      }
    }
  }
}
