/**
 * The command-line client: argv's first word becomes one control command,
 * sent once; the exit status reports what happened. The transport's
 * outcome is an input.
 */
module Client {
  import opened Wrappers
  import opened Ascii
  import Daemon

  /** What cheeter_ipc_client_send came back with. */
  datatype SendResult = Unreachable | Replied(response: Option<string>)

  /** What the client printed. */
  datatype Printed = UsageText | ResponseText(text: string) | ConnectError | NothingPrinted

  /** One run: the command sent (None: nothing sent), the output, the exit status. */
  datatype ClientRun = ClientRun(sent: Option<string>, printed: Printed, exitCode: int)

  /** The protocol command for a command-line word (exact, case-sensitive). */
  function IpcCommand(word: string): (command: Option<string>)
    ensures command.Some? <==> word in {"toggle", "search", "status", "quit"}
    ensures command.Some? ==> Lower(command.value) == word
    ensures command.Some? ==> forall i :: 0 <= i < |command.value| ==> !('a' <= command.value[i] <= 'z')
  {
    if word == "toggle" then Some("TOGGLE")
    else if word == "search" then Some("SEARCH")
    else if word == "status" then Some("STATUS")
    else if word == "quit" then Some("QUIT")
    else None
  }

  /**
   * cheeter's main. `args` is argv (program name first); `transport` is the
   * outcome the send would have, consulted only when a command is sent.
   */
  function ClientMain(args: seq<string>, transport: SendResult): (run: ClientRun)
    ensures run.exitCode == 0 || run.exitCode == 1
    ensures run.sent.Some? <==> |args| >= 2 && IpcCommand(args[1]).Some?
    ensures run.sent.Some? ==> run.sent == IpcCommand(args[1])
    ensures run.sent.None? ==> run.printed == UsageText && run.exitCode == 1
    ensures run.exitCode == 0 <==> run.sent.Some? && transport.Replied?
    ensures run.sent.Some? && transport.Unreachable? ==> run.printed == ConnectError
    ensures run.sent.Some? && transport == Replied(None) ==> run.printed == NothingPrinted
    ensures run.sent.Some? && transport.Replied? && transport.response.Some? ==>
      run.printed == ResponseText(transport.response.value)
  {
    if |args| < 2 then ClientRun(None, UsageText, 1)
    else match IpcCommand(args[1])
      case None => ClientRun(None, UsageText, 1)
      case Some(command) =>
        match transport
        case Unreachable => ClientRun(Some(command), ConnectError, 1)
        case Replied(response) =>
          ClientRun(Some(command), if response.Some? then ResponseText(response.value) else NothingPrinted, 0)
  }

  /**
   * What each client word makes the daemon do: toggle, status and quit
   * reach their actions, search is sent but ignored.
   */
  lemma ClientWordsReachDaemon()
    ensures Daemon.Dispatch(IpcCommand("toggle").value) == Daemon.Toggle
    ensures Daemon.Dispatch(IpcCommand("status").value) == Daemon.Status
    ensures Daemon.Dispatch(IpcCommand("quit").value) == Daemon.Quit
    ensures Daemon.Dispatch(IpcCommand("search").value) == Daemon.Ignore
  {
  }

  /** Words are compared exactly: "Toggle" and "TOGGLE" are usage errors. */
  lemma CaseSensitiveWords(transport: SendResult)
    ensures ClientMain(["cheeter", "Toggle"], transport) == ClientRun(None, UsageText, 1)
    ensures ClientMain(["cheeter", "TOGGLE"], transport) == ClientRun(None, UsageText, 1)
    ensures ClientMain(["cheeter"], transport) == ClientRun(None, UsageText, 1)
  {
  }
}
