/** The adapter session of the legacy revisions (PROVAOBDService), in both of
    its layouts: the monolithic `OBDService.swift` and the later split into
    `OBD/OBDService*.swift`. The two layouts differ in exactly two places,
    selected by `revision`:
    - the split layout's poll tick does nothing before initialization, the
      monolithic one has no such guard;
    - the split layout advances the handshake only on a reply to a setup
      command, the monolithic one on every reply before initialization.

    Unlike the current revision, `sendCommand` owns the in-flight flag (it
    refuses to send while a reply is awaited and raises the flag when it
    sends), every chunk notification lowers the flag on exit, polling is
    driven by a 0.3 s timer (modelled as a tick event) over two PIDs, a
    failed decode keeps the previous reading, and replies are not trimmed. */
module LegacySession {
  import opened Wrappers
  import opened Cleaning
  import opened FrameCodec
  import opened ProtocolNames
  import opened Commands
  import Assembler

  datatype Revision = Monolithic | Split

  /** `currentPidIndex` is only ever 0 or a value reduced modulo 2. */
  type LegacyPidIndex = i: nat | i < 2

  datatype LegacySession = LegacySession(
    revision: Revision,
    speed: int,
    rpm: int,
    rawResponse: string,
    cleanedResponse: string,
    isConnected: bool,
    lastCommand: string,
    initializationStatus: string,
    protocolStatus: string,
    adapterVersion: string,
    hasWriteCharacteristic: bool,   // `writeCharacteristic != nil`
    responseBuffer: string,
    timerRunning: bool,             // `dataTimer` scheduled
    isWaitingForResponse: bool,
    currentCommandIndex: nat,
    isInitialized: bool,
    currentPidIndex: LegacyPidIndex,
    sent: seq<string>)              // every payload written, oldest first

  const StatusStarting: string := "Inizializzazione Bluetooth..."
  const StatusDiscovering: string := "Ricerca servizi..."
  const StatusConfiguring: string := "Configurazione OBD..."

  function StatusReady(protocolStatus: string): string {
    "OBD pronto [" + protocolStatus + "]"
  }

  /** A freshly constructed view model of either layout. */
  function Initial(revision: Revision): (s: LegacySession)
    ensures s.revision == revision
    ensures s.speed == 0 && s.rpm == 0
    ensures !s.isConnected && !s.isInitialized && !s.isWaitingForResponse && !s.timerRunning
    ensures s.currentCommandIndex == 0 && s.currentPidIndex == 0
    ensures s.responseBuffer == "" && s.sent == [] && !s.hasWriteCharacteristic
  {
    LegacySession(revision, 0, 0, "", "", false, "", StatusStarting, "Sconosciuto", "",
                  false, "", false, false, 0, false, 0, [])
  }

  // ---------------------------------------------------------------------------
  // Sending

  /** `sendCommand`: dropped while a reply is awaited or without a write
      characteristic; otherwise the flag goes up, the command becomes
      `lastCommand` and it is written with a carriage return. So a command
      is only ever written when none is in flight. */
  function SendCommand(s: LegacySession, command: string): (r: LegacySession)
    ensures s.isWaitingForResponse || !s.hasWriteCharacteristic ==> r == s
    ensures !s.isWaitingForResponse && s.hasWriteCharacteristic ==>
      && r.isWaitingForResponse
      && r.lastCommand == command
      && r.sent == s.sent + [Wire(command)]
    ensures r == s.(isWaitingForResponse := r.isWaitingForResponse, lastCommand := r.lastCommand, sent := r.sent)
    ensures |r.sent| > |s.sent| ==> !s.isWaitingForResponse
  {
    if s.isWaitingForResponse || !s.hasWriteCharacteristic then s
    else s.(isWaitingForResponse := true, lastCommand := command, sent := s.sent + [Wire(command)])
  }

  /** `sendNextSetupCommand`: inside the setup list it sends the entry at the
      index; past the end it declares the session initialized and schedules
      the poll timer. */
  function SendNextSetupCommand(s: LegacySession): (r: LegacySession)
    ensures s.currentCommandIndex < |SetupCommands| ==> r == SendCommand(s, SetupCommands[s.currentCommandIndex])
    ensures s.currentCommandIndex >= |SetupCommands| ==>
      r == s.(isInitialized := true, initializationStatus := StatusReady(s.protocolStatus), timerRunning := true)
    ensures var i := s.currentCommandIndex;
      i < |SetupCommands| && !s.isWaitingForResponse && s.hasWriteCharacteristic ==>
        && r.sent == s.sent + [Wire(SetupCommands[i])] && r.lastCommand == SetupCommands[i]
        && r.isWaitingForResponse
    ensures s.currentCommandIndex < |SetupCommands| && s.isWaitingForResponse ==> r == s
    ensures s.currentCommandIndex < |SetupCommands| ==> r.isInitialized == s.isInitialized && r.timerRunning == s.timerRunning
    ensures s.currentCommandIndex >= |SetupCommands| ==> r.isInitialized && r.timerRunning && r.sent == s.sent
    ensures r.currentCommandIndex == s.currentCommandIndex && r.currentPidIndex == s.currentPidIndex
  {
    if s.currentCommandIndex >= |SetupCommands| then
      s.(isInitialized := true, initializationStatus := StatusReady(s.protocolStatus), timerRunning := true)
    else
      SendCommand(s, SetupCommands[s.currentCommandIndex])
  }

  /** `sendNextPidRequest`: the PID at the index is offered to `sendCommand`
      and the index moves on whether or not the command went out. The split
      layout first checks for initialization. */
  function SendNextPidRequest(s: LegacySession): (r: LegacySession)
    ensures s.revision.Split? && !s.isInitialized ==> r == s
    ensures s.revision.Monolithic? || s.isInitialized ==>
      && r.currentPidIndex == (s.currentPidIndex + 1) % |LegacyPidSequence|
      && r == SendCommand(s, LegacyPidSequence[s.currentPidIndex]).(currentPidIndex := r.currentPidIndex)
    ensures s.revision.Monolithic? || s.isInitialized ==> r.currentPidIndex != s.currentPidIndex
    ensures (s.revision.Monolithic? || s.isInitialized) && !s.isWaitingForResponse && s.hasWriteCharacteristic ==>
      r.sent == s.sent + [Wire(LegacyPidSequence[s.currentPidIndex])] && r.isWaitingForResponse
    ensures s.isWaitingForResponse ==> r.sent == s.sent && r.isWaitingForResponse
    ensures |r.sent| > |s.sent| ==> !s.isWaitingForResponse
    ensures r.isInitialized == s.isInitialized && r.timerRunning == s.timerRunning
    ensures r.currentCommandIndex == s.currentCommandIndex
  {
    if s.revision.Split? && !s.isInitialized then s
    else
      var s1 := SendCommand(s, LegacyPidSequence[s.currentPidIndex]);
      s1.(currentPidIndex := (s.currentPidIndex + 1) % |LegacyPidSequence|)
  }

  /** A firing of the poll timer; before the timer is scheduled there is
      none. */
  function OnTick(s: LegacySession): (r: LegacySession)
    ensures !s.timerRunning ==> r == s
    ensures s.timerRunning ==> r == SendNextPidRequest(s)
    ensures s.sent <= r.sent && |r.sent| <= |s.sent| + 1
    ensures |r.sent| > |s.sent| ==>
      s.timerRunning && !s.isWaitingForResponse && r.sent == s.sent + [Wire(LegacyPidSequence[s.currentPidIndex])]
    ensures s.timerRunning && s.isInitialized ==> r.currentPidIndex == (s.currentPidIndex + 1) % |LegacyPidSequence|
    ensures r.isInitialized == s.isInitialized && r.timerRunning == s.timerRunning
  {
    if s.timerRunning then SendNextPidRequest(s) else s
  }

  // ---------------------------------------------------------------------------
  // Receiving

  /** The reply is routed by `lastCommand`, whether or not the session is
      initialized. A reading whose decode fails keeps its previous value. */
  function Route(s: LegacySession, cleaned: string): (r: LegacySession)
    ensures r == s.(adapterVersion := r.adapterVersion, protocolStatus := r.protocolStatus,
                    speed := r.speed, rpm := r.rpm)
    ensures r.adapterVersion == (if s.lastCommand == "ATI" then cleaned else s.adapterVersion)
    ensures r.protocolStatus == (if s.lastCommand == "ATDPN" then ProtocolNameLegacy(cleaned) else s.protocolStatus)
    ensures r.speed == (if s.lastCommand == "01 0D" then DecodeSpeed(cleaned).GetOr(s.speed) else s.speed)
    ensures r.rpm == (if s.lastCommand == "01 0C" then DecodeRpm(cleaned).GetOr(s.rpm) else s.rpm)
    ensures DecodeSpeed(cleaned).None? && DecodeRpm(cleaned).None? ==> r.speed == s.speed && r.rpm == s.rpm
  {
    if s.lastCommand == "ATI" then s.(adapterVersion := cleaned)
    else if s.lastCommand == "ATDPN" then s.(protocolStatus := ProtocolNameLegacy(cleaned))
    else if s.lastCommand == "01 0D" then s.(speed := DecodeSpeed(cleaned).GetOr(s.speed))
    else if s.lastCommand == "01 0C" then s.(rpm := DecodeRpm(cleaned).GetOr(s.rpm))
    else s
  }

  /** Whether a complete reply moves the handshake on: only before
      initialization, and in the split layout only when the reply answers a
      setup command. */
  predicate AdvancesSetup(s: LegacySession) {
    !s.isInitialized && (s.revision.Monolithic? || s.lastCommand in SetupCommands)
  }

  /** `processCompleteResponse`: publish, route, and possibly advance the
      handshake by one command. The in-flight flag is left as it is: the
      next setup command is offered while the flag is still up. */
  function ProcessCompleteResponse(s: LegacySession, response: string): (r: LegacySession)
    ensures r.rawResponse == response && r.cleanedResponse == CleanLegacy(response)
    ensures r.responseBuffer == s.responseBuffer && r.revision == s.revision
    ensures AdvancesSetup(s) ==>
      r == SendNextSetupCommand(Route(s.(rawResponse := response, cleanedResponse := CleanLegacy(response)),
                                      CleanLegacy(response)).(currentCommandIndex := s.currentCommandIndex + 1))
    ensures AdvancesSetup(s) ==> r.currentCommandIndex == s.currentCommandIndex + 1
    ensures !AdvancesSetup(s) ==>
      r == Route(s.(rawResponse := response, cleanedResponse := CleanLegacy(response)), CleanLegacy(response))
    ensures s.isWaitingForResponse ==> r.sent == s.sent && r.isWaitingForResponse
    ensures s.sent <= r.sent && |r.sent| <= |s.sent| + 1
  {
    var cleaned := CleanLegacy(response);
    var s1 := Route(s.(rawResponse := response, cleanedResponse := cleaned), cleaned);
    if AdvancesSetup(s) then SendNextSetupCommand(s1.(currentCommandIndex := s.currentCommandIndex + 1))
    else s1
  }

  /** `peripheral(_:didUpdateValueFor:error:)`: the chunk is appended and,
      once the buffer holds a prompt, the whole buffer is processed and
      emptied. Whatever happens, the in-flight flag is down on exit. */
  function OnChunk(s: LegacySession, chunk: Option<string>): (r: LegacySession)
    ensures !r.isWaitingForResponse
    ensures r.revision == s.revision
    ensures chunk.None? ==> r == s.(isWaitingForResponse := false)
    ensures chunk.Some? && '>' !in s.responseBuffer + chunk.value ==>
      r == s.(responseBuffer := s.responseBuffer + chunk.value, isWaitingForResponse := false)
    ensures chunk.Some? && '>' in s.responseBuffer + chunk.value ==>
      r == ProcessCompleteResponse(s, s.responseBuffer + chunk.value)
             .(responseBuffer := "", isWaitingForResponse := false)
    ensures s.sent <= r.sent && |r.sent| <= |s.sent| + 1
  {
    var fed := Assembler.Feed(s.responseBuffer, chunk);
    if fed.complete.Some? then
      ProcessCompleteResponse(s, fed.complete.value).(responseBuffer := "", isWaitingForResponse := false)
    else
      s.(responseBuffer := fed.buffer, isWaitingForResponse := false)
  }

  // ---------------------------------------------------------------------------
  // Transport events

  /** The transport connected to the adapter. */
  function OnConnected(s: LegacySession): (r: LegacySession)
    ensures r.isConnected && r.initializationStatus == StatusDiscovering
    ensures r.sent == s.sent && r.isInitialized == s.isInitialized && r.timerRunning == s.timerRunning
    ensures r.currentCommandIndex == s.currentCommandIndex && r.hasWriteCharacteristic == s.hasWriteCharacteristic
    ensures r == s.(isConnected := true, initializationStatus := StatusDiscovering)
  {
    s.(isConnected := true, initializationStatus := StatusDiscovering)
  }

  /** The write characteristic was discovered: the handshake starts. */
  function OnWriteCharacteristicFound(s: LegacySession): (r: LegacySession)
    ensures r.hasWriteCharacteristic
    ensures var i := s.currentCommandIndex;
      i < |SetupCommands| && !s.isWaitingForResponse ==>
        && r.sent == s.sent + [Wire(SetupCommands[i])] && r.lastCommand == SetupCommands[i]
        && r.isWaitingForResponse && r.currentCommandIndex == i
    ensures s.currentCommandIndex < |SetupCommands| && s.isWaitingForResponse ==> r.sent == s.sent
    ensures s.currentCommandIndex == 0 && !s.isWaitingForResponse ==> r.sent == s.sent + [Wire("ATZ")]
    ensures r == SendNextSetupCommand(s.(hasWriteCharacteristic := true, initializationStatus := StatusConfiguring))
  {
    SendNextSetupCommand(s.(hasWriteCharacteristic := true, initializationStatus := StatusConfiguring))
  }
}
