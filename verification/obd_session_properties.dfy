/** Properties of the current-revision session that span several events:
    the handshake goes out in list order and ends in polling, polling cycles
    speed, engine speed and fuel pressure, and a stopped session restarts the
    handshake from the beginning. */
module ObdSessionProperties {
  import opened Wrappers
  import opened Cleaning
  import opened FrameCodec
  import opened Commands
  import opened ObdSession

  /** Replies fed one after another, each in a single chunk. */
  function Replies(s: Session, replies: seq<string>): Session
    decreases |replies|
  {
    if |replies| == 0 then s
    else OnChunk(Replies(s, replies[..|replies| - 1]), Some(replies[|replies| - 1]))
  }

  predicate AllPrompted(replies: seq<string>) {
    forall i :: 0 <= i < |replies| ==> '>' in replies[i]
  }

  /** A completed reply before initialization goes through the handshake. */
  lemma OnChunkBeforeInit(s: Session, reply: string)
    requires !s.isInitialized && '>' in reply
    ensures var response := s.responseBuffer + reply;
      OnChunk(s, Some(reply))
        == AdvanceSetup(CaptureSetupReply(Received(s, response), Clean(response))).(responseBuffer := "")
  {
  }

  /** A completed reply after initialization goes to the PID parsers. */
  lemma OnChunkAfterInit(s: Session, reply: string)
    requires s.isInitialized && '>' in reply
    ensures var response := s.responseBuffer + reply;
      OnChunk(s, Some(reply))
        == SendNextPidCommand(ApplyPidReply(Received(s, response), Clean(response))).(responseBuffer := "")
  {
  }

  // ---------------------------------------------------------------------------
  // Handshake

  /** A handshake step on any setup command but the last sends the next one. */
  lemma AdvanceSetupStep(s: Session)
    requires s.hasWriteCharacteristic
    requires s.currentCommandIndex + 1 < |SetupCommands|
    requires s.lastCommand == SetupCommands[s.currentCommandIndex]
    ensures var i := s.currentCommandIndex;
      AdvanceSetup(s) == s.(currentCommandIndex := i + 1, lastCommand := SetupCommands[i + 1],
                            sent := s.sent + [Wire(SetupCommands[i + 1])])
  {
    SetupCommandsDistinct();
  }

  /** The handshake step on `0100` initializes and requests the speed. */
  lemma AdvanceSetupFinal(s: Session)
    requires s.hasWriteCharacteristic && s.isConnected && !s.isWaitingForResponse
    requires s.lastCommand == SetupCommands[|SetupCommands| - 1]
    ensures AdvanceSetup(s)
         == s.(isInitialized := true, initializationStatus := StatusPolling, lastCommand := "01 0D",
               sent := s.sent + [Wire("01 0D")], isWaitingForResponse := true, currentPidIndex := 1)
  {
  }

  /** Mid-handshake on a connected session: the last command sent is the setup entry at the index,
      and no prompt is pending in the buffer. */
  predicate InSetup(s: Session) {
    && s.isConnected
    && !s.isInitialized
    && s.hasWriteCharacteristic
    && !s.isWaitingForResponse
    && s.currentCommandIndex < |SetupCommands|
    && s.lastCommand == SetupCommands[s.currentCommandIndex]
    && '>' !in s.responseBuffer
  }

  /** The reply to any setup command but the last moves the index by exactly
      one and sends the next entry of the list. */
  lemma SetupReplyAdvances(s: Session, reply: string)
    requires InSetup(s) && s.currentCommandIndex + 1 < |SetupCommands|
    requires '>' in reply
    ensures var r := OnChunk(s, Some(reply));
      && InSetup(r)
      && r.currentCommandIndex == s.currentCommandIndex + 1
      && r.sent == s.sent + [Wire(SetupCommands[s.currentCommandIndex + 1])]
  {
    var response := s.responseBuffer + reply;
    OnChunkBeforeInit(s, reply);
    AdvanceSetupStep(CaptureSetupReply(Received(s, response), Clean(response)));
  }

  /** The reply to `0100` initializes the session without moving the setup
      index, and a connected session immediately asks for the speed. */
  lemma SetupReplyCompletes(s: Session, reply: string)
    requires InSetup(s) && s.currentCommandIndex + 1 == |SetupCommands|
    requires '>' in reply
    ensures var r := OnChunk(s, Some(reply));
      && r.isInitialized
      && r.currentCommandIndex == |SetupCommands| - 1
      && r.sent == s.sent + [Wire("01 0D")]
      && Polling(r)
  {
    var response := s.responseBuffer + reply;
    OnChunkBeforeInit(s, reply);
    AdvanceSetupFinal(CaptureSetupReply(Received(s, response), Clean(response)));
  }

  /** The `n` entries of `commands` that follow index `first`. */
  function Following(commands: seq<string>, first: nat, n: nat): (r: seq<string>)
    requires first + n < |commands|
    ensures |r| == n
  {
    if n == 0 then [] else Following(commands, first, n - 1) + [commands[first + n]]
  }

  /** `Following` is the slice just after `first`. */
  lemma {:induction false} FollowingIsSlice(commands: seq<string>, first: nat, n: nat)
    requires first + n < |commands|
    ensures Following(commands, first, n) == commands[first + 1..first + 1 + n]
  {
    if n > 0 {
      FollowingIsSlice(commands, first, n - 1);
      assert commands[first + 1..first + 1 + n]
          == commands[first + 1..first + n] + [commands[first + n]];
    }
  }

  /** One more handshake step extends a run by the next setup command. */
  lemma SetupRunStep(commands: seq<string>, s: Session, r: Session, first: nat, n: nat, m: nat, before: seq<string>)
    requires m == n + 1 && first + m < |commands|
    requires s.currentCommandIndex == first + n
    requires s.sent == before + WireAll(Following(commands, first, n))
    requires r.currentCommandIndex == s.currentCommandIndex + 1
    requires r.sent == s.sent + [Wire(commands[s.currentCommandIndex + 1])]
    ensures r.currentCommandIndex == first + m
    ensures r.sent == before + WireAll(Following(commands, first, m))
  {
    WireAllSnoc(Following(commands, first, n), commands[first + m]);
  }

  /** The inductive step of a handshake run, from the state the first
      replies leave. */
  lemma SetupRunSnoc(s: Session, init: seq<string>, last: string)
    requires '>' in last
    requires s.currentCommandIndex + |init + [last]| < |SetupCommands|
    requires InSetup(Replies(s, init))
    requires Replies(s, init).currentCommandIndex == s.currentCommandIndex + |init|
    requires Replies(s, init).sent == s.sent + WireAll(Following(SetupCommands, s.currentCommandIndex, |init|))
    ensures InSetup(Replies(s, init + [last]))
    ensures Replies(s, init + [last]).currentCommandIndex == s.currentCommandIndex + |init + [last]|
    ensures Replies(s, init + [last]).sent
         == s.sent + WireAll(Following(SetupCommands, s.currentCommandIndex, |init + [last]|))
  {
    var mid := Replies(s, init);
    RepliesSnoc(s, init, last);
    SetupReplyAdvances(mid, last);
    SetupRunStep(SetupCommands, mid, Replies(s, init + [last]), s.currentCommandIndex, |init|, |init + [last]|, s.sent);
  }

  /** A run of replies during the handshake sends the following setup
      commands in list order, one per reply. */
  lemma {:induction false} SetupRun(s: Session, replies: seq<string>)
    requires InSetup(s) && s.currentCommandIndex + |replies| < |SetupCommands|
    requires AllPrompted(replies)
    ensures var r := Replies(s, replies);
      && InSetup(r)
      && r.currentCommandIndex == s.currentCommandIndex + |replies|
      && r.sent == s.sent + WireAll(Following(SetupCommands, s.currentCommandIndex, |replies|))
    decreases |replies|
  {
    if |replies| > 0 {
      var init, last := replies[..|replies| - 1], replies[|replies| - 1];
      assert replies == init + [last];
      assert AllPrompted(init);
      SetupRun(s, init);
      SetupRunSnoc(s, init, last);
    }
  }

  /** The whole handshake from a fresh session: once connected and given the
      write characteristic, nine replies make the session send the setup list
      in order, then the speed request. The setup index stops at the last
      entry, so the "index past the end" branch of `sendNextSetupCommand` is
      never taken on this path. */
  lemma Handshake(replies: seq<string>)
    requires |replies| == |SetupCommands|
    requires AllPrompted(replies)
    ensures var r := Replies(OnWriteCharacteristicFound(OnConnected(Initial())), replies);
      && r.isInitialized
      && r.currentCommandIndex == |SetupCommands| - 1
      && r.sent == WireAll(SetupCommands) + [Wire("01 0D")]
      && Polling(r)
  {
    HandshakeStarts();
    SetupToPolling(OnWriteCharacteristicFound(OnConnected(Initial())), replies);
    FirstAndFollowing(SetupCommands, |SetupCommands| - 1);
  }

  /** From the first setup command, one reply per setup command leads to
      polling, having sent the rest of the list and then the speed request. */
  lemma SetupToPolling(s: Session, replies: seq<string>)
    requires InSetup(s) && s.currentCommandIndex == 0
    requires |replies| == |SetupCommands|
    requires AllPrompted(replies)
    ensures var r := Replies(s, replies);
      && r.isInitialized
      && r.currentCommandIndex == |SetupCommands| - 1
      && r.sent == s.sent + WireAll(Following(SetupCommands, 0, |SetupCommands| - 1)) + [Wire("01 0D")]
      && Polling(r)
  {
    var init, last := replies[..|replies| - 1], replies[|replies| - 1];
    assert replies == init + [last];
    assert AllPrompted(init);
    SetupRun(s, init);
    RepliesSnoc(s, init, last);
    SetupReplyCompletes(Replies(s, init), last);
  }

  /** A fresh session that connects and finds the write characteristic sends
      the first setup command. */
  lemma HandshakeStarts()
    ensures var s0 := OnWriteCharacteristicFound(OnConnected(Initial()));
      && InSetup(s0)
      && s0.currentCommandIndex == 0
      && s0.sent == [Wire(SetupCommands[0])]
  {
  }

  /** The first command and all those that follow it make the whole list. */
  lemma FirstAndFollowing(commands: seq<string>, n: nat)
    requires n + 1 == |commands|
    ensures [Wire(commands[0])] + WireAll(Following(commands, 0, n)) == WireAll(commands)
  {
    FollowingIsSlice(commands, 0, n);
    assert Following(commands, 0, n) == commands[1..];
    assert WireAll(commands) == [Wire(commands[0])] + WireAll(commands[1..]);
  }

  /** Stopping and reconnecting starts the handshake over from `ATZ`. */
  lemma RestartAfterStop(s: Session)
    requires '>' !in s.responseBuffer
    ensures var r := OnWriteCharacteristicFound(OnConnected(StopDrivingSession(s)));
      && InSetup(r)
      && r.currentCommandIndex == 0
      && r.sent == s.sent + [Wire("ATZ")]
  {
  }

  /** A disconnect ends the session like a stop, and reconnecting starts
      the handshake over from `ATZ`. */
  lemma RestartAfterDisconnect(s: Session)
    requires '>' !in s.responseBuffer
    ensures OnDisconnected(s) == StopDrivingSession(s).(initializationStatus := StatusDisconnected)
    ensures var r := OnWriteCharacteristicFound(OnConnected(OnDisconnected(s)));
      && InSetup(r)
      && r.currentCommandIndex == 0
      && r.sent == s.sent + [Wire("ATZ")]
  {
    RestartAfterStop(s);
  }

  // ---------------------------------------------------------------------------
  // Polling

  /** The PID index one step on in the round-robin. */
  function NextPid(i: PidIndex): (j: PidIndex)
    ensures j == (i + 1) % |PidSequence|
  {
    if i == 2 then 0 else i + 1
  }

  /** The PID index one step back in the round-robin. */
  function PreviousPid(i: PidIndex): (j: PidIndex)
    ensures NextPid(j) == i
  {
    if i == 0 then 2 else i - 1
  }

  /** The PID index after `n` steps from `start`. */
  function PidAfter(start: PidIndex, n: nat): PidIndex {
    if n == 0 then start else NextPid(PidAfter(start, n - 1))
  }

  /** Stepping `n` times is adding `n` modulo the PID count. */
  lemma {:induction false} PidAfterIsModular(start: PidIndex, n: nat)
    ensures PidAfter(start, n) == (start + n) % |PidSequence|
  {
    if n > 0 {
      PidAfterIsModular(start, n - 1);
      var k := start + n - 1;
      assert k == 3 * (k / 3) + k % 3;
      assert k + 1 == 3 * (k / 3) + (k % 3 + 1);
    }
  }

  /** Steady polling: exactly one PID request is awaited, and it is the one
      just before the PID index. */
  predicate Polling(s: Session) {
    && s.isInitialized
    && s.isConnected
    && s.hasWriteCharacteristic
    && s.isWaitingForResponse
    && s.lastCommand == PidSequence[PreviousPid(s.currentPidIndex)]
    && '>' !in s.responseBuffer
  }

  /** One PID request from a connected, initialized, idle session. */
  lemma PidStep(s: Session)
    requires s.isConnected && s.isInitialized && !s.isWaitingForResponse && s.hasWriteCharacteristic
    ensures var i := s.currentPidIndex;
      && SendNextPidCommand(s)
        == s.(lastCommand := PidSequence[i], sent := s.sent + [Wire(PidSequence[i])],
              isWaitingForResponse := true, currentPidIndex := NextPid(i))
      && PreviousPid(NextPid(i)) == i
  {
  }

  /** A reply while polling requests the next PID in turn and keeps polling. */
  lemma PollReplyAdvances(s: Session, reply: string)
    requires Polling(s)
    requires '>' in reply
    ensures var r := OnChunk(s, Some(reply));
      && Polling(r)
      && r.currentPidIndex == NextPid(s.currentPidIndex)
      && r.sent == s.sent + [Wire(PidSequence[s.currentPidIndex])]
  {
    var response := s.responseBuffer + reply;
    OnChunkAfterInit(s, reply);
    PidStep(ApplyPidReply(Received(s, response), Clean(response)));
  }

  /** A reply while polling updates exactly the scalar of the PID it answers,
      to zero when the reply does not decode. */
  lemma PollReplyReadings(s: Session, reply: string)
    requires s.isInitialized
    requires '>' in reply
    ensures var r := OnChunk(s, Some(reply));
      var c := Clean(s.responseBuffer + reply);
      && r.speed == (if s.lastCommand == "01 0D" then DecodeSpeed(c).GetOr(0) else s.speed)
      && r.rpm == (if s.lastCommand == "01 0C" then DecodeRpm(c).GetOr(0) else s.rpm)
      && r.fuelPressure == (if s.lastCommand == "01 0A" then DecodeFuelPressure(c).GetOr(0) else s.fuelPressure)
  {
    OnChunkAfterInit(s, reply);
  }

  /** The payloads of a list with one more command. */
  lemma WireAllSnoc(commands: seq<string>, command: string)
    ensures WireAll(commands + [command]) == WireAll(commands) + [Wire(command)]
  {
    var lhs := WireAll(commands + [command]);
    var rhs := WireAll(commands) + [Wire(command)];
    assert |lhs| == |rhs|;
    forall i | 0 <= i < |lhs| ensures lhs[i] == rhs[i] {
      if i < |commands| {
        assert (commands + [command])[i] == commands[i];
      }
    }
  }

  /** The PIDs requested by `n` successive polls starting at index `start`. */
  function PollOrder(start: PidIndex, n: nat): (order: seq<string>)
    ensures |order| == n
  {
    if n == 0 then [] else PollOrder(start, n - 1) + [PidSequence[PidAfter(start, n - 1)]]
  }

  /** One more poll extends a polling run by the next PID of the order. */
  lemma PollRunStep(s: Session, r: Session, start: PidIndex, n: nat, m: nat, before: seq<string>)
    requires m == n + 1
    requires s.currentPidIndex == PidAfter(start, n)
    requires s.sent == before + WireAll(PollOrder(start, n))
    requires r.currentPidIndex == NextPid(s.currentPidIndex)
    requires r.sent == s.sent + [Wire(PidSequence[s.currentPidIndex])]
    ensures r.currentPidIndex == PidAfter(start, m)
    ensures r.sent == before + WireAll(PollOrder(start, m))
  {
    WireAllSnoc(PollOrder(start, n), PidSequence[s.currentPidIndex]);
  }

  /** Replies fed one after another: the last reply is fed to the state the
      others leave. */
  lemma RepliesSnoc(s: Session, init: seq<string>, last: string)
    ensures Replies(s, init + [last]) == OnChunk(Replies(s, init), Some(last))
  {
    assert (init + [last])[..|init|] == init;
  }

  /** The inductive step of a polling run, from the state the first replies
      leave. */
  lemma PollRunSnoc(s: Session, init: seq<string>, last: string)
    requires '>' in last
    requires Polling(Replies(s, init))
    requires Replies(s, init).currentPidIndex == PidAfter(s.currentPidIndex, |init|)
    requires Replies(s, init).sent == s.sent + WireAll(PollOrder(s.currentPidIndex, |init|))
    ensures Polling(Replies(s, init + [last]))
    ensures Replies(s, init + [last]).currentPidIndex == PidAfter(s.currentPidIndex, |init + [last]|)
    ensures Replies(s, init + [last]).sent == s.sent + WireAll(PollOrder(s.currentPidIndex, |init + [last]|))
  {
    var mid := Replies(s, init);
    RepliesSnoc(s, init, last);
    PollReplyAdvances(mid, last);
    PollRunStep(mid, Replies(s, init + [last]), s.currentPidIndex, |init|, |init + [last]|, s.sent);
  }

  /** Any run of replies while polling keeps polling and requests the PIDs
      round-robin: speed, engine speed, fuel pressure, speed, ... */
  lemma {:induction false} PollRun(s: Session, replies: seq<string>)
    requires Polling(s)
    requires AllPrompted(replies)
    ensures var r := Replies(s, replies);
      && Polling(r)
      && r.currentPidIndex == PidAfter(s.currentPidIndex, |replies|)
      && r.sent == s.sent + WireAll(PollOrder(s.currentPidIndex, |replies|))
    decreases |replies|
  {
    if |replies| > 0 {
      var init, last := replies[..|replies| - 1], replies[|replies| - 1];
      assert replies == init + [last];
      assert AllPrompted(init);
      PollRun(s, init);
      PollRunSnoc(s, init, last);
    }
  }

  /** Three replies bring the poll index back where it started, having
      asked for speed, engine speed and fuel pressure in that order. */
  lemma PollCycle(s: Session, replies: seq<string>)
    requires Polling(s) && s.currentPidIndex == 0
    requires |replies| == |PidSequence| && AllPrompted(replies)
    ensures var r := Replies(s, replies);
      && r.currentPidIndex == 0
      && r.sent == s.sent + WireAll(PidSequence)
  {
    PollRun(s, replies);
    FullCycleOrder();
  }

  /** Three steps from speed visit each PID once, in list order. */
  lemma FullCycleOrder()
    ensures PidAfter(0, |PidSequence|) == 0
    ensures PollOrder(0, |PidSequence|) == PidSequence
  {
    assert PidAfter(0, 1) == 1 && PidAfter(0, 2) == 2;
    assert PollOrder(0, 1) == [PidSequence[0]];
    assert PollOrder(0, 2) == [PidSequence[0], PidSequence[1]];
  }

  // ---------------------------------------------------------------------------
  // Stop, flag ownership

  /** Stopping a stopped session changes nothing. */
  lemma StopIdempotent(s: Session)
    ensures StopDrivingSession(StopDrivingSession(s)) == StopDrivingSession(s)
  {
  }

  /** `sendCommand` neither reads nor writes the in-flight flag. */
  lemma SendCommandIgnoresWaitingFlag(s: Session, command: string, waiting: bool)
    ensures SendCommand(s.(isWaitingForResponse := waiting), command)
         == SendCommand(s, command).(isWaitingForResponse := waiting)
  {
  }

  /** A chunk without a prompt only grows the buffer; polling waits for it. */
  lemma PartialChunkOnlyBuffers(s: Session, chunk: string)
    requires '>' !in s.responseBuffer + chunk
    ensures OnChunk(s, Some(chunk)) == s.(responseBuffer := s.responseBuffer + chunk)
  {
  }
}
