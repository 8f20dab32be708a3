/** The command lists of the adapter session and their wire framing. */
module Commands {

  /** The setup sequence, sent one command per reply, in this order: reset,
      echo off, line feeds off, headers on, spaces off, protocol 6
      (ISO 15765-4 CAN 11-bit 500 kbaud), describe protocol number, adapter
      identification, and the service 01 supported-PID request that closes
      the handshake. Identical in every revision. */
  const SetupCommands: seq<string> :=
    ["ATZ", "ATE0", "ATL0", "ATH1", "ATS0", "ATSP6", "ATDPN", "ATI", "0100"]

  /** Current revision: speed, engine speed, fuel pressure. */
  const PidSequence: seq<string> := ["01 0D", "01 0C", "01 0A"]

  /** Legacy revisions: speed and engine speed only. */
  const LegacyPidSequence: seq<string> := ["01 0D", "01 0C"]

  /** What goes on the wire for a command: its text and a carriage return. */
  function Wire(command: string): (w: string)
    ensures |w| == |command| + 1
    ensures w[..|command|] == command && w[|command|] == '\r'
  {
    command + "\r"
  }

  /** The wire payloads of several commands, in order. */
  function WireAll(commands: seq<string>): (ws: seq<string>)
    ensures |ws| == |commands|
    ensures forall i :: 0 <= i < |commands| ==> ws[i] == Wire(commands[i])
  {
    if |commands| == 0 then [] else [Wire(commands[0])] + WireAll(commands[1..])
  }

  /** A reply is attributed to the last command sent, so the setup commands
      must be told apart: no command appears twice. */
  lemma SetupCommandsDistinct()
    ensures forall i, j :: 0 <= i < j < |SetupCommands| ==> SetupCommands[i] != SetupCommands[j]
  {
  }
}
