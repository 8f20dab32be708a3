/** What the legacy session does over whole exchanges: the handshake, its
    stall on a reply delivered in one chunk, the in-flight guard and what
    defeats it, and the two-PID polling driven by the timer. */
module LegacySessionProperties {
  import opened Wrappers
  import opened Cleaning
  import opened FrameCodec
  import opened Commands
  import opened LegacySession
  import ObdSessionProperties

  /** Several single-chunk replies, delivered one after another. */
  function Replies(s: LegacySession, replies: seq<string>): LegacySession
    decreases |replies|
  {
    if |replies| == 0 then s
    else OnChunk(Replies(s, replies[..|replies| - 1]), Some(replies[|replies| - 1]))
  }

  lemma RepliesSnoc(s: LegacySession, init: seq<string>, last: string)
    ensures Replies(s, init + [last]) == OnChunk(Replies(s, init), Some(last))
  {
    assert (init + [last])[..|init|] == init;
  }

  predicate AllPrompted(replies: seq<string>) {
    forall i :: 0 <= i < |replies| ==> '>' in replies[i]
  }

  // ---------------------------------------------------------------------------
  // The timer runs only once the session is initialized

  /** The invariant that makes the split layout's tick guard redundant. */
  predicate TimerOnlyWhenInitialized(s: LegacySession) {
    s.timerRunning ==> s.isInitialized
  }

  lemma InitialKeepsTimerInvariant(revision: Revision)
    ensures TimerOnlyWhenInitialized(Initial(revision))
    ensures TimerOnlyWhenInitialized(OnConnected(Initial(revision)))
  {
  }

  lemma ChunkKeepsTimerInvariant(s: LegacySession, chunk: Option<string>)
    requires TimerOnlyWhenInitialized(s)
    ensures TimerOnlyWhenInitialized(OnChunk(s, chunk))
  {
    if chunk.Some? && '>' in s.responseBuffer + chunk.value {
      ProcessKeepsTimerInvariant(s, s.responseBuffer + chunk.value);
    }
  }

  lemma ProcessKeepsTimerInvariant(s: LegacySession, response: string)
    requires TimerOnlyWhenInitialized(s)
    ensures TimerOnlyWhenInitialized(ProcessCompleteResponse(s, response))
  {
    var cleaned := CleanLegacy(response);
    var s1 := Route(s.(rawResponse := response, cleanedResponse := cleaned), cleaned);
    assert s1.timerRunning == s.timerRunning && s1.isInitialized == s.isInitialized;
  }

  lemma EventsKeepTimerInvariant(s: LegacySession)
    requires TimerOnlyWhenInitialized(s)
    ensures TimerOnlyWhenInitialized(OnTick(s))
    ensures TimerOnlyWhenInitialized(OnConnected(s))
    ensures TimerOnlyWhenInitialized(OnWriteCharacteristicFound(s))
  {
  }

  /** Under the invariant, the two layouts poll identically: the split
      layout's initialization check on a tick never fires. */
  lemma TickGuardRedundant(s: LegacySession)
    requires TimerOnlyWhenInitialized(s)
    ensures OnTick(s.(revision := Split)) == OnTick(s.(revision := Monolithic)).(revision := Split)
  {
  }

  // ---------------------------------------------------------------------------
  // The in-flight guard

  /** A command goes out only while no reply is awaited. */
  lemma NoSendWhileWaiting(s: LegacySession)
    requires s.isWaitingForResponse
    ensures OnTick(s).sent == s.sent
    ensures SendNextSetupCommand(s).sent == s.sent
  {
  }

  /** The guard is weaker than it looks: any chunk lowers the flag, even
      one that leaves the reply incomplete, so the next tick writes a second
      command while the first reply is still arriving. */
  lemma PartialChunkReopensSending(s: LegacySession, chunk: string)
    requires s.isWaitingForResponse && s.timerRunning && s.isInitialized && s.hasWriteCharacteristic
    requires '>' !in s.responseBuffer + chunk
    ensures OnTick(s).sent == s.sent
    ensures OnTick(OnChunk(s, Some(chunk))).sent == s.sent + [Wire(LegacyPidSequence[s.currentPidIndex])]
  {
  }

  // ---------------------------------------------------------------------------
  // The handshake

  /** Mid-handshake: the write characteristic is known, the last command
      sent is the setup command at the index, and the buffer is empty. */
  predicate InSetup(s: LegacySession) {
    SetupPending(s) && s.responseBuffer == ""
  }

  /** A setup command was sent last and its reply has not been processed;
      the buffer may already hold part of that reply. */
  predicate SetupPending(s: LegacySession) {
    && !s.isInitialized && !s.timerRunning && s.hasWriteCharacteristic
    && s.currentCommandIndex < |SetupCommands|
    && s.lastCommand == SetupCommands[s.currentCommandIndex]
  }

  /** The state after a complete reply is processed, before the flag is
      lowered; it is the same in both layouts since the last command is a
      setup command. */
  lemma SetupReplyProcessed(s: LegacySession, response: string)
    requires SetupPending(s)
    ensures var r := ProcessCompleteResponse(s, response);
      && r.currentCommandIndex == s.currentCommandIndex + 1
      && r.responseBuffer == s.responseBuffer
      && (s.currentCommandIndex + 1 < |SetupCommands| ==>
            r == SendCommand(r.(isWaitingForResponse := s.isWaitingForResponse, lastCommand := s.lastCommand,
                                sent := s.sent),
                             SetupCommands[s.currentCommandIndex + 1]))
      && (s.currentCommandIndex + 1 == |SetupCommands| ==>
            r.isInitialized && r.timerRunning && r.sent == s.sent)
  {
    var cleaned := CleanLegacy(response);
    var s1 := Route(s.(rawResponse := response, cleanedResponse := cleaned), cleaned);
    assert AdvancesSetup(s);
    RouteKeepsHandshake(s.(rawResponse := response, cleanedResponse := cleaned), cleaned);
    var s2 := s1.(currentCommandIndex := s.currentCommandIndex + 1);
    assert ProcessCompleteResponse(s, response) == SendNextSetupCommand(s2);
  }

  /** Routing a reply touches only the adapter facts and the readings. */
  lemma RouteKeepsHandshake(s: LegacySession, cleaned: string)
    ensures var r := Route(s, cleaned);
      && r.lastCommand == s.lastCommand && r.sent == s.sent && r.isWaitingForResponse == s.isWaitingForResponse
      && r.currentCommandIndex == s.currentCommandIndex && r.isInitialized == s.isInitialized
      && r.timerRunning == s.timerRunning && r.responseBuffer == s.responseBuffer
      && r.hasWriteCharacteristic == s.hasWriteCharacteristic
  {
  }

  /** A reply delivered in one chunk while the flag is down: the next setup
      command goes out (the flag is then lowered again on exit). */
  lemma SetupReplyAdvances(s: LegacySession, reply: string)
    requires InSetup(s) && !s.isWaitingForResponse && '>' in reply
    requires s.currentCommandIndex + 1 < |SetupCommands|
    ensures var r := OnChunk(s, Some(reply));
      && InSetup(r) && !r.isWaitingForResponse
      && r.currentCommandIndex == s.currentCommandIndex + 1
      && r.sent == s.sent + [Wire(SetupCommands[s.currentCommandIndex + 1])]
  {
    SetupReplyProcessed(s, reply);
  }

  /** The reply to `0100` ends the handshake and schedules the timer; no
      command is written. */
  lemma SetupReplyCompletes(s: LegacySession, reply: string)
    requires InSetup(s) && '>' in reply
    requires s.currentCommandIndex + 1 == |SetupCommands|
    ensures var r := OnChunk(s, Some(reply));
      && r.isInitialized && r.timerRunning && !r.isWaitingForResponse
      && r.sent == s.sent && r.responseBuffer == ""
  {
    SetupReplyProcessed(s, reply);
  }

  /** The stall: a reply delivered in one chunk while the flag is still up
      from the command it answers. The next setup command is offered to
      `sendCommand` inside the notification, before the flag is lowered, and
      is dropped. The index has moved on, nothing is in flight and the timer
      is not running, so the handshake waits for a reply that will not come. */
  lemma SingleChunkReplyStalls(s: LegacySession, reply: string)
    requires InSetup(s) && s.isWaitingForResponse && '>' in reply
    requires s.currentCommandIndex + 1 < |SetupCommands|
    ensures var r := OnChunk(s, Some(reply));
      && r.sent == s.sent
      && r.currentCommandIndex == s.currentCommandIndex + 1
      && r.lastCommand == SetupCommands[s.currentCommandIndex]
      && !r.isWaitingForResponse && !r.isInitialized
      && OnTick(r) == r
  {
    SetupReplyProcessed(s, reply);
  }

  /** The same reply split before its prompt does not stall: the first
      chunk lowers the flag, so the second one's setup command goes out. */
  lemma SplitReplyAdvances(s: LegacySession, body: string, tail: string)
    requires InSetup(s) && s.isWaitingForResponse && '>' !in body && '>' in tail
    requires s.currentCommandIndex + 1 < |SetupCommands|
    ensures var r := OnChunk(OnChunk(s, Some(body)), Some(tail));
      && InSetup(r) && !r.isWaitingForResponse
      && r.currentCommandIndex == s.currentCommandIndex + 1
      && r.sent == s.sent + [Wire(SetupCommands[s.currentCommandIndex + 1])]
  {
    var s1 := OnChunk(s, Some(body));
    assert s1 == s.(responseBuffer := body, isWaitingForResponse := false);
    SetupReplyProcessed(s1, body + tail);
    assert OnChunk(s1, Some(tail))
        == ProcessCompleteResponse(s1, body + tail).(responseBuffer := "", isWaitingForResponse := false);
  }

  /** One step of a handshake run, on the bookkeeping alone. */
  lemma SetupRunStep(commands: seq<string>, s: LegacySession, r: LegacySession, first: nat, n: nat, m: nat,
                     before: seq<string>)
    requires m == n + 1 && first + m < |commands|
    requires s.currentCommandIndex == first + n
    requires s.sent == before + WireAll(ObdSessionProperties.Following(commands, first, n))
    requires r.currentCommandIndex == s.currentCommandIndex + 1
    requires r.sent == s.sent + [Wire(commands[s.currentCommandIndex + 1])]
    ensures r.currentCommandIndex == first + m
    ensures r.sent == before + WireAll(ObdSessionProperties.Following(commands, first, m))
  {
    ObdSessionProperties.WireAllSnoc(ObdSessionProperties.Following(commands, first, n), commands[first + m]);
  }

  lemma SetupRunSnoc(s: LegacySession, init: seq<string>, last: string)
    requires '>' in last
    requires s.currentCommandIndex + |init + [last]| < |SetupCommands|
    requires InSetup(Replies(s, init)) && !Replies(s, init).isWaitingForResponse
    requires Replies(s, init).currentCommandIndex == s.currentCommandIndex + |init|
    requires Replies(s, init).sent
          == s.sent + WireAll(ObdSessionProperties.Following(SetupCommands, s.currentCommandIndex, |init|))
    ensures InSetup(Replies(s, init + [last])) && !Replies(s, init + [last]).isWaitingForResponse
    ensures Replies(s, init + [last]).currentCommandIndex == s.currentCommandIndex + |init + [last]|
    ensures Replies(s, init + [last]).sent
         == s.sent + WireAll(ObdSessionProperties.Following(SetupCommands, s.currentCommandIndex, |init + [last]|))
  {
    var mid := Replies(s, init);
    RepliesSnoc(s, init, last);
    SetupReplyAdvances(mid, last);
    SetupRunStep(SetupCommands, mid, Replies(s, init + [last]), s.currentCommandIndex, |init|,
                 |init + [last]|, s.sent);
  }

  /** Once the flag is down, single-chunk replies carry the handshake
      through the setup list in order. */
  lemma {:induction false} SetupRun(s: LegacySession, replies: seq<string>)
    requires InSetup(s) && !s.isWaitingForResponse
    requires s.currentCommandIndex + |replies| < |SetupCommands|
    requires AllPrompted(replies)
    ensures var r := Replies(s, replies);
      && InSetup(r) && !r.isWaitingForResponse
      && r.currentCommandIndex == s.currentCommandIndex + |replies|
      && r.sent == s.sent + WireAll(ObdSessionProperties.Following(SetupCommands, s.currentCommandIndex, |replies|))
    decreases |replies|
  {
    if |replies| > 0 {
      var init, last := replies[..|replies| - 1], replies[|replies| - 1];
      assert replies == init + [last];
      assert AllPrompted(init);
      SetupRun(s, init);
      SetupRunSnoc(s, init, last);
    }
  }

  /** The session right after the write characteristic is found: `ATZ` is
      in flight. */
  lemma HandshakeStarts(revision: Revision)
    ensures var s := OnWriteCharacteristicFound(OnConnected(Initial(revision)));
      && InSetup(s) && s.isWaitingForResponse
      && s.currentCommandIndex == 0 && s.sent == [Wire(SetupCommands[0])]
  {
  }

  /** A fresh session whose first reply arrives in one chunk stalls after
      `ATZ`, in either layout. */
  lemma HandshakeStalls(revision: Revision, reply: string)
    requires '>' in reply
    ensures var r := OnChunk(OnWriteCharacteristicFound(OnConnected(Initial(revision))), Some(reply));
      && r.sent == [Wire("ATZ")] && !r.isInitialized && !r.isWaitingForResponse && OnTick(r) == r
  {
    HandshakeStarts(revision);
    SingleChunkReplyStalls(OnWriteCharacteristicFound(OnConnected(Initial(revision))), reply);
  }

  /** A fresh session whose first reply arrives in two chunks (split before
      the prompt) and whose other eight replies arrive in one chunk each
      sends the whole setup list in order, then initializes and schedules
      the poll timer with nothing in flight. */
  lemma Handshake(revision: Revision, body: string, tail: string, replies: seq<string>)
    requires '>' !in body && '>' in tail
    requires |replies| == |SetupCommands| - 1 && AllPrompted(replies)
    ensures var s0 := OnWriteCharacteristicFound(OnConnected(Initial(revision)));
      var r := Replies(OnChunk(OnChunk(s0, Some(body)), Some(tail)), replies);
      && r.isInitialized && r.timerRunning && !r.isWaitingForResponse
      && r.sent == WireAll(SetupCommands)
  {
    var s0 := OnWriteCharacteristicFound(OnConnected(Initial(revision)));
    var s1 := OnChunk(OnChunk(s0, Some(body)), Some(tail));
    HandshakeSecond(revision, body, tail);
    HandshakeFinishes(s1, replies);
    FirstTwoAndFollowing(SetupCommands, |SetupCommands| - 2);
  }

  /** After a first reply split before its prompt, the second setup command
      is out and nothing is in flight. */
  lemma HandshakeSecond(revision: Revision, body: string, tail: string)
    requires '>' !in body && '>' in tail
    ensures var s1 := OnChunk(OnChunk(OnWriteCharacteristicFound(OnConnected(Initial(revision))), Some(body)),
                              Some(tail));
      && InSetup(s1) && !s1.isWaitingForResponse && s1.currentCommandIndex == 1
      && s1.sent == [Wire(SetupCommands[0]), Wire(SetupCommands[1])]
  {
    var s0 := OnWriteCharacteristicFound(OnConnected(Initial(revision)));
    HandshakeStarts(revision);
    SplitReplyAdvances(s0, body, tail);
    ConsTwo(Wire(SetupCommands[0]), Wire(SetupCommands[1]), []);
  }

  /** The first two commands and all those that follow the second make the
      whole list. */
  lemma FirstTwoAndFollowing(commands: seq<string>, n: nat)
    requires n + 2 == |commands|
    ensures [Wire(commands[0]), Wire(commands[1])] + WireAll(ObdSessionProperties.Following(commands, 1, n))
         == WireAll(commands)
  {
    var rest := commands[2..];
    var tail := [commands[1]] + rest;
    assert ObdSessionProperties.Following(commands, 1, n) == rest by {
      ObdSessionProperties.FollowingIsSlice(commands, 1, n);
      assert commands[2..2 + n] == rest;
    }
    assert WireAll(commands) == [Wire(commands[0])] + ([Wire(commands[1])] + WireAll(rest)) by {
      assert commands == [commands[0]] + tail;
      WireAllCons(commands[0], tail);
      WireAllCons(commands[1], rest);
    }
    ConsTwo(Wire(commands[0]), Wire(commands[1]), WireAll(rest));
  }

  /** Two singletons and a list regroup into a two-element prefix. */
  lemma ConsTwo(a: string, b: string, xs: seq<string>)
    ensures [a] + ([b] + xs) == [a, b] + xs
    ensures [a] + [b] == [a, b]
  {
    assert [b] + [] == [b];
  }

  /** The payloads of a list with one more command in front. */
  lemma WireAllCons(command: string, commands: seq<string>)
    ensures WireAll([command] + commands) == [Wire(command)] + WireAll(commands)
  {
    assert ([command] + commands)[1..] == commands;
  }

  /** From the second setup command, the remaining replies finish the
      handshake. */
  lemma HandshakeFinishes(s: LegacySession, replies: seq<string>)
    requires InSetup(s) && !s.isWaitingForResponse && s.currentCommandIndex == 1
    requires |replies| == |SetupCommands| - 1 && AllPrompted(replies)
    ensures var r := Replies(s, replies);
      && r.isInitialized && r.timerRunning && !r.isWaitingForResponse
      && r.sent == s.sent + WireAll(ObdSessionProperties.Following(SetupCommands, 1, |SetupCommands| - 2))
  {
    var init, last := replies[..|replies| - 1], replies[|replies| - 1];
    assert replies == init + [last];
    assert AllPrompted(init);
    SetupRun(s, init);
    RepliesSnoc(s, init, last);
    SetupReplyCompletes(Replies(s, init), last);
  }

  /** Where the layouts part during the handshake: a reply attributed to a
      command outside the setup list (a stray reply before the first
      command, say) moves the monolithic handshake on but not the split
      one. */
  lemma StrayReplyBeforeSetup(s: LegacySession, reply: string)
    requires !s.isInitialized && s.lastCommand !in SetupCommands
    requires s.currentCommandIndex + 1 < |SetupCommands|
    requires '>' in s.responseBuffer + reply
    ensures OnChunk(s.(revision := Split), Some(reply)).currentCommandIndex == s.currentCommandIndex
    ensures OnChunk(s.(revision := Monolithic), Some(reply)).currentCommandIndex == s.currentCommandIndex + 1
  {
    var response := s.responseBuffer + reply;
    var cleaned := CleanLegacy(response);
    var split := s.(revision := Split);
    var mono := s.(revision := Monolithic);
    assert !AdvancesSetup(split) && AdvancesSetup(mono);
    var r1 := Route(split.(rawResponse := response, cleanedResponse := cleaned), cleaned);
    assert r1.currentCommandIndex == s.currentCommandIndex;
  }

  // ---------------------------------------------------------------------------
  // Polling

  /** The other PID: the index step of `sendNextPidRequest`. */
  function NextLegacyPid(i: LegacyPidIndex): (j: LegacyPidIndex)
    ensures j != i
  {
    1 - i
  }

  lemma NextLegacyPidIsModular(i: LegacyPidIndex)
    ensures NextLegacyPid(i) == (i + 1) % |LegacyPidSequence|
  {
  }

  /** Initialized, timer running, nothing in flight and nothing buffered. */
  predicate Polling(s: LegacySession) {
    && s.isInitialized && s.timerRunning && s.hasWriteCharacteristic
    && !s.isWaitingForResponse && s.responseBuffer == ""
  }

  /** A tick answered by a single-chunk reply: the PID at the index is
      written, the reply lands in that PID's reading (the previous reading
      survives a failed decode) and the index moves to the other PID. */
  lemma TickAndReply(s: LegacySession, reply: string)
    requires Polling(s) && '>' in reply
    ensures var r := OnChunk(OnTick(s), Some(reply));
      && Polling(r)
      && r.currentPidIndex == NextLegacyPid(s.currentPidIndex)
      && r.sent == s.sent + [Wire(LegacyPidSequence[s.currentPidIndex])]
      && r.speed == (if s.currentPidIndex == 0 then DecodeSpeed(CleanLegacy(reply)).GetOr(s.speed) else s.speed)
      && r.rpm == (if s.currentPidIndex == 1 then DecodeRpm(CleanLegacy(reply)).GetOr(s.rpm) else s.rpm)
  {
    var t := OnTick(s);
    NextLegacyPidIsModular(s.currentPidIndex);
    assert t == s.(isWaitingForResponse := true, lastCommand := LegacyPidSequence[s.currentPidIndex],
                   sent := s.sent + [Wire(LegacyPidSequence[s.currentPidIndex])],
                   currentPidIndex := NextLegacyPid(s.currentPidIndex));
    PollReplyRouted(t, reply);
  }

  /** After initialization a complete reply is only routed: nothing else
      moves but the published text and the flag. */
  lemma PollReplyRouted(t: LegacySession, reply: string)
    requires t.isInitialized && t.responseBuffer == "" && '>' in reply
    ensures OnChunk(t, Some(reply))
         == Route(t.(rawResponse := reply, cleanedResponse := CleanLegacy(reply)), CleanLegacy(reply))
              .(responseBuffer := "", isWaitingForResponse := false)
  {
    assert t.responseBuffer + reply == reply;
    assert !AdvancesSetup(t);
  }

  /** Two ticks with no reply in between: the second tick's command is
      dropped but its index step is not, so the same PID comes round again
      and engine speed is skipped. */
  lemma BackToBackTicksSkipPid(s: LegacySession)
    requires Polling(s)
    ensures OnTick(OnTick(s)).sent == s.sent + [Wire(LegacyPidSequence[s.currentPidIndex])]
    ensures OnTick(OnTick(s)).currentPidIndex == s.currentPidIndex
  {
  }

  function Cycles(s: LegacySession, replies: seq<string>): LegacySession
    decreases |replies|
  {
    if |replies| == 0 then s
    else OnChunk(OnTick(Cycles(s, replies[..|replies| - 1])), Some(replies[|replies| - 1]))
  }

  lemma CyclesSnoc(s: LegacySession, init: seq<string>, last: string)
    ensures Cycles(s, init + [last]) == OnChunk(OnTick(Cycles(s, init)), Some(last))
  {
    assert (init + [last])[..|init|] == init;
  }

  /** The index after `n` cycles starting from `start`. */
  function LegacyPidAfter(start: LegacyPidIndex, n: nat): LegacyPidIndex {
    if n == 0 then start else NextLegacyPid(LegacyPidAfter(start, n - 1))
  }

  lemma {:induction false} LegacyPidAfterIsModular(start: LegacyPidIndex, n: nat)
    ensures LegacyPidAfter(start, n) == (start + n) % |LegacyPidSequence|
  {
    if n > 0 {
      LegacyPidAfterIsModular(start, n - 1);
      NextLegacyPidIsModular(LegacyPidAfter(start, n - 1));
    }
  }

  /** The PIDs written in `n` cycles starting from `start`: they alternate. */
  function LegacyPollOrder(start: LegacyPidIndex, n: nat): (order: seq<string>)
    ensures |order| == n
  {
    if n == 0 then [] else LegacyPollOrder(start, n - 1) + [LegacyPidSequence[LegacyPidAfter(start, n - 1)]]
  }

  lemma PollRunStep(s: LegacySession, r: LegacySession, start: LegacyPidIndex, n: nat, m: nat, before: seq<string>)
    requires m == n + 1
    requires s.currentPidIndex == LegacyPidAfter(start, n)
    requires s.sent == before + WireAll(LegacyPollOrder(start, n))
    requires r.currentPidIndex == NextLegacyPid(s.currentPidIndex)
    requires r.sent == s.sent + [Wire(LegacyPidSequence[s.currentPidIndex])]
    ensures r.currentPidIndex == LegacyPidAfter(start, m)
    ensures r.sent == before + WireAll(LegacyPollOrder(start, m))
  {
    ObdSessionProperties.WireAllSnoc(LegacyPollOrder(start, n), LegacyPidSequence[LegacyPidAfter(start, n)]);
  }

  lemma PollRunSnoc(s: LegacySession, init: seq<string>, last: string)
    requires '>' in last
    requires Polling(Cycles(s, init))
    requires Cycles(s, init).currentPidIndex == LegacyPidAfter(s.currentPidIndex, |init|)
    requires Cycles(s, init).sent == s.sent + WireAll(LegacyPollOrder(s.currentPidIndex, |init|))
    ensures Polling(Cycles(s, init + [last]))
    ensures Cycles(s, init + [last]).currentPidIndex == LegacyPidAfter(s.currentPidIndex, |init + [last]|)
    ensures Cycles(s, init + [last]).sent == s.sent + WireAll(LegacyPollOrder(s.currentPidIndex, |init + [last]|))
  {
    var mid := Cycles(s, init);
    CyclesSnoc(s, init, last);
    TickAndReply(mid, last);
    PollRunStep(mid, Cycles(s, init + [last]), s.currentPidIndex, |init|, |init + [last]|, s.sent);
  }

  /** Ticks each answered before the next one alternate speed and engine
      speed, starting from the index. */
  lemma {:induction false} PollRun(s: LegacySession, replies: seq<string>)
    requires Polling(s) && AllPrompted(replies)
    ensures var r := Cycles(s, replies);
      && Polling(r)
      && r.currentPidIndex == LegacyPidAfter(s.currentPidIndex, |replies|)
      && r.sent == s.sent + WireAll(LegacyPollOrder(s.currentPidIndex, |replies|))
    decreases |replies|
  {
    if |replies| > 0 {
      var init, last := replies[..|replies| - 1], replies[|replies| - 1];
      assert replies == init + [last];
      assert AllPrompted(init);
      PollRun(s, init);
      PollRunSnoc(s, init, last);
    }
  }

  /** Two answered ticks from the first PID poll the whole list once and
      come back to the start. */
  lemma PollCycle(s: LegacySession, replies: seq<string>)
    requires Polling(s) && s.currentPidIndex == 0
    requires |replies| == |LegacyPidSequence| && AllPrompted(replies)
    ensures var r := Cycles(s, replies);
      r.currentPidIndex == 0 && r.sent == s.sent + WireAll(LegacyPidSequence)
  {
    PollRun(s, replies);
    LegacyCycleOrder();
  }

  /** Two steps from speed visit each PID once, in list order. */
  lemma LegacyCycleOrder()
    ensures LegacyPidAfter(0, 2) == 0
    ensures LegacyPollOrder(0, 2) == LegacyPidSequence
  {
    assert LegacyPidAfter(0, 1) == 1;
    LegacyOrderTwo();
  }

  /** The first two PIDs polled from speed, in order. */
  lemma LegacyOrderTwo()
    ensures LegacyPollOrder(0, 2) == [LegacyPidSequence[0], LegacyPidSequence[1]]
  {
    assert LegacyPollOrder(0, 1) == [LegacyPidSequence[0]];
  }
}
