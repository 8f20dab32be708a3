/** The adapter session of the current revision (O-Buddy): the setup
    handshake, then back-to-back polling of three PIDs where each reply
    triggers the next request, and the stop/reset of a driving session.

    The session is an immutable record; every handler of the source is a
    pure function from the record before to the record after. What the
    session writes to the adapter is recorded in `sent`, oldest first.
    Bluetooth discovery is not modelled: the transport is reduced to the
    events "connected", "write characteristic found" (which starts the
    handshake), "disconnected" and "Bluetooth unavailable". */
module ObdSession {
  import opened Wrappers
  import opened Text
  import opened Cleaning
  import opened FrameCodec
  import opened ProtocolNames
  import opened Commands
  import Assembler

  /** `currentPidIndex` is only ever 0 or a value reduced modulo 3. */
  type PidIndex = i: nat | i < 3

  datatype Session = Session(
    speed: int,
    rpm: int,
    fuelPressure: int,
    rawResponse: string,
    cleanedResponse: string,
    isConnected: bool,
    lastCommand: string,
    initializationStatus: string,
    protocolStatus: string,
    adapterVersion: string,
    hasWriteCharacteristic: bool,   // `writeCharacteristic != nil`
    responseBuffer: string,
    isWaitingForResponse: bool,
    currentCommandIndex: nat,
    currentPidIndex: PidIndex,
    isInitialized: bool,
    sent: seq<string>)              // every payload written, oldest first

  const StatusStarting: string := "Inizializzazione Bluetooth..."
  const StatusPolling: string := "Inizializzazione completata. Avvio polling dati..."
  const StatusStopped: string := "Sessione interrotta"
  const StatusScanning: string := "Ricerca dispositivi OBD..."
  const StatusBluetoothOff: string := "Accendi il Bluetooth per iniziare"
  const StatusAlreadyConnected: string := "Già connesso e in esecuzione"
  const StatusDiscovering: string := "Ricerca servizi..."
  const StatusConfiguring: string := "Configurazione OBD..."
  const StatusDisconnected: string := "Dispositivo OBD disconnesso"
  const StatusPoweredOff: string := "Accendi il Bluetooth"
  const StatusUnavailable: string := "Bluetooth non disponibile"

  function StatusReady(protocolStatus: string): string {
    "OBD pronto [" + protocolStatus + "]"
  }

  /** A freshly constructed view model. */
  function Initial(): (s: Session)
    ensures s.speed == 0 && s.rpm == 0 && s.fuelPressure == 0
    ensures !s.isConnected && !s.isInitialized && !s.isWaitingForResponse
    ensures s.currentCommandIndex == 0 && s.currentPidIndex == 0
    ensures s.responseBuffer == "" && s.sent == []
  {
    Session(0, 0, 0, "", "", false, "", StatusStarting, "Sconosciuto", "",
            false, "", false, 0, 0, false, [])
  }

  // ---------------------------------------------------------------------------
  // Sending

  /** `sendCommand`: without a write characteristic nothing happens;
      otherwise the command becomes `lastCommand` and is written with a
      carriage return. The in-flight flag belongs to the caller. */
  function SendCommand(s: Session, command: string): (r: Session)
    ensures !s.hasWriteCharacteristic ==> r == s
    ensures s.hasWriteCharacteristic ==> r.lastCommand == command && r.sent == s.sent + [Wire(command)]
    ensures r == s.(lastCommand := r.lastCommand, sent := r.sent)
  {
    if !s.hasWriteCharacteristic then s
    else s.(lastCommand := command, sent := s.sent + [Wire(command)])
  }

  /** `sendNextPidCommand`: only a connected, initialized session that is not
      waiting sends; it then sends the PID at the current index, marks a
      reply as awaited (even if the write was dropped) and moves to the next
      PID, wrapping after the third. */
  function SendNextPidCommand(s: Session): (r: Session)
    ensures !(s.isConnected && s.isInitialized && !s.isWaitingForResponse) ==> r == s
    ensures s.isConnected && s.isInitialized && !s.isWaitingForResponse ==>
      && r.isWaitingForResponse
      && r.currentPidIndex == (s.currentPidIndex + 1) % |PidSequence|
      && r.sent == s.sent + (if s.hasWriteCharacteristic then [Wire(PidSequence[s.currentPidIndex])] else [])
      && r == s.(lastCommand := r.lastCommand, sent := r.sent,
                 isWaitingForResponse := true, currentPidIndex := r.currentPidIndex)
  {
    if !(s.isConnected && s.isInitialized && !s.isWaitingForResponse) then s
    else
      var s1 := SendCommand(s, PidSequence[s.currentPidIndex]);
      s1.(isWaitingForResponse := true, currentPidIndex := (s.currentPidIndex + 1) % |PidSequence|)
  }

  /** `startPollingPIDs`: polling always starts again from speed. */
  function StartPollingPIDs(s: Session): (r: Session)
    ensures s.isConnected && s.isInitialized && !s.isWaitingForResponse && s.hasWriteCharacteristic ==>
      && r.sent == s.sent + [Wire("01 0D")]
      && r.lastCommand == "01 0D"
      && r.currentPidIndex == 1
      && r.isWaitingForResponse
    ensures !(s.isConnected && s.isInitialized && !s.isWaitingForResponse) ==>
      r == s.(currentPidIndex := 0)
  {
    SendNextPidCommand(s.(currentPidIndex := 0))
  }

  /** `sendNextSetupCommand`: while the index is inside the setup list it
      sends that entry; past the end it declares the session initialized and
      starts polling. */
  function SendNextSetupCommand(s: Session): (r: Session)
    ensures s.currentCommandIndex < |SetupCommands| ==> r == SendCommand(s, SetupCommands[s.currentCommandIndex])
    ensures s.currentCommandIndex >= |SetupCommands| ==>
      && r.isInitialized
      && r.initializationStatus == StatusReady(s.protocolStatus)
      && r == StartPollingPIDs(s.(isInitialized := true, initializationStatus := r.initializationStatus))
    ensures var i := s.currentCommandIndex;
      i < |SetupCommands| && s.hasWriteCharacteristic ==>
        r.sent == s.sent + [Wire(SetupCommands[i])] && r.lastCommand == SetupCommands[i]
    ensures s.currentCommandIndex < |SetupCommands| ==>
      r.isInitialized == s.isInitialized && r.isWaitingForResponse == s.isWaitingForResponse
    ensures s.currentCommandIndex >= |SetupCommands| && s.isConnected && !s.isWaitingForResponse
            && s.hasWriteCharacteristic ==>
      r.sent == s.sent + [Wire(PidSequence[0])] && r.isWaitingForResponse && r.currentPidIndex == 1
    ensures r.currentCommandIndex == s.currentCommandIndex
    ensures s.sent <= r.sent && |r.sent| <= |s.sent| + 1
    ensures r.speed == s.speed && r.rpm == s.rpm && r.fuelPressure == s.fuelPressure
  {
    if s.currentCommandIndex >= |SetupCommands| then
      StartPollingPIDs(s.(isInitialized := true, initializationStatus := StatusReady(s.protocolStatus)))
    else
      SendCommand(s, SetupCommands[s.currentCommandIndex])
  }

  // ---------------------------------------------------------------------------
  // Receiving

  /** The published scalar a polled reply feeds; a failed decode resets it to
      zero rather than keeping stale data. Any other command feeds nothing. */
  function ApplyPidReply(s: Session, cleaned: string): (r: Session)
    ensures r == s.(speed := r.speed, rpm := r.rpm, fuelPressure := r.fuelPressure)
    ensures r.speed == (if s.lastCommand == "01 0D" then DecodeSpeed(cleaned).GetOr(0) else s.speed)
    ensures r.rpm == (if s.lastCommand == "01 0C" then DecodeRpm(cleaned).GetOr(0) else s.rpm)
    ensures r.fuelPressure == (if s.lastCommand == "01 0A" then DecodeFuelPressure(cleaned).GetOr(0) else s.fuelPressure)
  {
    match s.lastCommand
    case "01 0D" => s.(speed := DecodeSpeed(cleaned).GetOr(0))
    case "01 0C" => s.(rpm := DecodeRpm(cleaned).GetOr(0))
    case "01 0A" => s.(fuelPressure := DecodeFuelPressure(cleaned).GetOr(0))
    case _ => s
  }

  /** Before initialization, the adapter identification and protocol number
      replies are captured. */
  function CaptureSetupReply(s: Session, cleaned: string): (r: Session)
    ensures r == s.(adapterVersion := r.adapterVersion, protocolStatus := r.protocolStatus)
    ensures r.adapterVersion == (if s.lastCommand == "ATI" then cleaned else s.adapterVersion)
    ensures r.protocolStatus == (if s.lastCommand == "ATDPN" then ProtocolName(cleaned) else s.protocolStatus)
  {
    if s.lastCommand == "ATI" then s.(adapterVersion := cleaned)
    else if s.lastCommand == "ATDPN" then s.(protocolStatus := ProtocolName(cleaned))
    else s
  }

  /** The handshake step taken on a reply before initialization: the reply
      to `0100` ends the handshake without moving the setup index; the reply
      to any other setup command moves the index by one and sends the next
      command; a reply to anything else changes nothing. */
  function AdvanceSetup(s: Session): (r: Session)
    ensures s.lastCommand == "0100" ==>
      r == StartPollingPIDs(s.(isInitialized := true, initializationStatus := StatusPolling))
    ensures s.lastCommand in SetupCommands && s.lastCommand != "0100" ==>
      r == SendNextSetupCommand(s.(currentCommandIndex := s.currentCommandIndex + 1))
    ensures s.lastCommand !in SetupCommands ==> r == s
    ensures s.sent <= r.sent && |r.sent| <= |s.sent| + 1
    ensures !s.isWaitingForResponse && r.isWaitingForResponse ==> r.isInitialized && r.isConnected
    ensures r.adapterVersion == s.adapterVersion && r.protocolStatus == s.protocolStatus
    ensures r.speed == s.speed && r.rpm == s.rpm && r.fuelPressure == s.fuelPressure
    ensures r.rawResponse == s.rawResponse && r.cleanedResponse == s.cleanedResponse
    ensures r.responseBuffer == s.responseBuffer
    ensures s.lastCommand == "0100" ==> r.isInitialized && r.currentCommandIndex == s.currentCommandIndex
    ensures s.lastCommand in SetupCommands && s.lastCommand != "0100" ==>
      r.currentCommandIndex == s.currentCommandIndex + 1
  {
    if s.lastCommand == SetupCommands[|SetupCommands| - 1] then
      StartPollingPIDs(s.(isInitialized := true, initializationStatus := StatusPolling))
    else if s.lastCommand in SetupCommands then
      SendNextSetupCommand(s.(currentCommandIndex := s.currentCommandIndex + 1))
    else
      s
  }

  /** `processCompleteResponse`. The in-flight flag is cleared before the
      reply is routed. Before initialization the reply is captured and the
      handshake advances; after it, the reply goes to the parser chosen by
      `lastCommand` and the next PID is requested. */
  function ProcessCompleteResponse(s: Session, response: string): (r: Session)
    ensures r.rawResponse == response && r.cleanedResponse == Clean(response)
    ensures r.responseBuffer == s.responseBuffer
    ensures s.sent <= r.sent && |r.sent| <= |s.sent| + 1
    ensures r.isWaitingForResponse ==> r.isInitialized && r.isConnected
    ensures !s.isInitialized && s.lastCommand == "ATI" ==> r.adapterVersion == Clean(response)
    ensures s.isInitialized || s.lastCommand != "ATI" ==> r.adapterVersion == s.adapterVersion
    ensures !s.isInitialized && s.lastCommand == "ATDPN" ==> r.protocolStatus == ProtocolName(Clean(response))
    ensures s.isInitialized || s.lastCommand != "ATDPN" ==> r.protocolStatus == s.protocolStatus
    ensures !s.isInitialized ==>
      r == AdvanceSetup(CaptureSetupReply(Received(s, response), Clean(response)))
    ensures s.isInitialized ==>
      && r.isInitialized
      && r.currentCommandIndex == s.currentCommandIndex
      && r == SendNextPidCommand(ApplyPidReply(Received(s, response), Clean(response)))
    ensures !s.isInitialized ==> r.speed == s.speed && r.rpm == s.rpm && r.fuelPressure == s.fuelPressure
    ensures !s.isInitialized && s.lastCommand == "0100" ==>
      r.isInitialized && r.currentCommandIndex == s.currentCommandIndex
    ensures !s.isInitialized && s.lastCommand in SetupCommands && s.lastCommand != "0100" ==>
      r.currentCommandIndex == s.currentCommandIndex + 1
    ensures !s.isInitialized && s.lastCommand !in SetupCommands ==>
      !r.isInitialized && r.currentCommandIndex == s.currentCommandIndex && r.sent == s.sent
  {
    var cleaned := Clean(response);
    var s1 := Received(s, response);
    if !s1.isInitialized then AdvanceSetup(CaptureSetupReply(s1, cleaned))
    else SendNextPidCommand(ApplyPidReply(s1, cleaned))
  }

  /** The reply is published and the in-flight flag cleared, first thing. */
  function Received(s: Session, response: string): (r: Session)
    ensures !r.isWaitingForResponse
    ensures r.rawResponse == response
    ensures IsOneLine(r.cleanedResponse) && IsTrimmed(r.cleanedResponse)
    ensures r.sent == s.sent && r.isInitialized == s.isInitialized && r.lastCommand == s.lastCommand
    ensures r == s.(rawResponse := response, cleanedResponse := Clean(response), isWaitingForResponse := false)
  {
    s.(rawResponse := response, cleanedResponse := Clean(response), isWaitingForResponse := false)
  }

  /** `peripheral(_:didUpdateValueFor:error:)`: an undecodable chunk is
      ignored; otherwise it is appended to the buffer, and once the buffer
      holds a prompt the whole buffer is processed and then emptied. */
  function OnChunk(s: Session, chunk: Option<string>): (r: Session)
    ensures chunk.None? ==> r == s
    ensures chunk.Some? && '>' !in s.responseBuffer + chunk.value ==>
      r == s.(responseBuffer := s.responseBuffer + chunk.value)
    ensures chunk.Some? && '>' in s.responseBuffer + chunk.value ==>
      && r.responseBuffer == ""
      && r.rawResponse == s.responseBuffer + chunk.value
      && r == ProcessCompleteResponse(s, s.responseBuffer + chunk.value).(responseBuffer := "")
    ensures s.sent <= r.sent && |r.sent| <= |s.sent| + 1
  {
    var fed := Assembler.Feed(s.responseBuffer, chunk);
    match fed.complete
    case Some(response) => ProcessCompleteResponse(s, response).(responseBuffer := "")
    case None => s.(responseBuffer := fed.buffer)
  }

  // ---------------------------------------------------------------------------
  // Session lifecycle

  /** `stopDrivingSession`: back to a disconnected, uninitialized session
      with both indices at zero, no reply awaited, no write characteristic
      and the published readings cleared. The response buffer, the last
      command, the adapter version and the protocol name are kept. */
  function StopDrivingSession(s: Session): (r: Session)
    ensures !r.isConnected && !r.isInitialized && !r.isWaitingForResponse && !r.hasWriteCharacteristic
    ensures r.currentCommandIndex == 0 && r.currentPidIndex == 0
    ensures r.speed == 0 && r.rpm == 0 && r.fuelPressure == 0
    ensures r.rawResponse == "" && r.cleanedResponse == ""
    ensures r.initializationStatus == StatusStopped
    ensures r.responseBuffer == s.responseBuffer && r.lastCommand == s.lastCommand
    ensures r.adapterVersion == s.adapterVersion && r.protocolStatus == s.protocolStatus
    ensures r.sent == s.sent
  {
    s.(initializationStatus := StatusStopped, isConnected := false, hasWriteCharacteristic := false,
       isInitialized := false, currentPidIndex := 0, currentCommandIndex := 0,
       isWaitingForResponse := false, speed := 0, rpm := 0, fuelPressure := 0,
       rawResponse := "", cleanedResponse := "")
  }

  /** `startDrivingSession`: scanning itself belongs to the transport, so
      in every case only the status text changes. */
  function StartDrivingSession(s: Session, bluetoothPoweredOn: bool): (r: Session)
    ensures r == s.(initializationStatus := r.initializationStatus)
    ensures bluetoothPoweredOn && !s.isConnected ==> r.initializationStatus == StatusScanning
    ensures !bluetoothPoweredOn ==> r.initializationStatus == StatusBluetoothOff
    ensures bluetoothPoweredOn && s.isConnected ==> r.initializationStatus == StatusAlreadyConnected
  {
    if bluetoothPoweredOn && !s.isConnected then s.(initializationStatus := StatusScanning)
    else if !bluetoothPoweredOn then s.(initializationStatus := StatusBluetoothOff)
    else s.(initializationStatus := StatusAlreadyConnected)
  }

  /** The transport connected to the adapter. */
  function OnConnected(s: Session): (r: Session)
    ensures r.isConnected && r.initializationStatus == StatusDiscovering
    ensures r.sent == s.sent && r.isInitialized == s.isInitialized
    ensures r.currentCommandIndex == s.currentCommandIndex && r.hasWriteCharacteristic == s.hasWriteCharacteristic
    ensures r == s.(isConnected := true, initializationStatus := StatusDiscovering)
  {
    s.(isConnected := true, initializationStatus := StatusDiscovering)
  }

  /** The write characteristic was discovered: the handshake starts. */
  function OnWriteCharacteristicFound(s: Session): (r: Session)
    ensures r.hasWriteCharacteristic
    ensures var i := s.currentCommandIndex;
      i < |SetupCommands| ==>
        && r.sent == s.sent + [Wire(SetupCommands[i])] && r.lastCommand == SetupCommands[i]
        && r.isInitialized == s.isInitialized && r.currentCommandIndex == i
        && r.initializationStatus == StatusConfiguring
    ensures s.currentCommandIndex == 0 ==> r.sent == s.sent + [Wire("ATZ")]
    ensures r == SendNextSetupCommand(s.(hasWriteCharacteristic := true, initializationStatus := StatusConfiguring))
  {
    SendNextSetupCommand(s.(hasWriteCharacteristic := true, initializationStatus := StatusConfiguring))
  }

  /** The adapter disconnected: the session stops. */
  function OnDisconnected(s: Session): (r: Session)
    ensures r == StopDrivingSession(s).(initializationStatus := StatusDisconnected)
    ensures !r.isConnected && !r.isInitialized && !r.isWaitingForResponse && !r.hasWriteCharacteristic
    ensures r.currentCommandIndex == 0 && r.currentPidIndex == 0
    ensures r.speed == 0 && r.rpm == 0 && r.fuelPressure == 0
    ensures r.initializationStatus == StatusDisconnected && r.sent == s.sent
  {
    StopDrivingSession(s).(initializationStatus := StatusDisconnected)
  }

  /** Bluetooth powered off (`poweredOff`) or otherwise unavailable: a
      connected session stops, whose status then wins. */
  function OnBluetoothUnavailable(s: Session, poweredOff: bool): (r: Session)
    ensures s.isConnected ==> r == StopDrivingSession(s)
    ensures !s.isConnected ==>
      r == s.(initializationStatus := if poweredOff then StatusPoweredOff else StatusUnavailable)
  {
    var s1 := s.(initializationStatus := if poweredOff then StatusPoweredOff else StatusUnavailable);
    if s1.isConnected then StopDrivingSession(s1) else s1
  }
}
