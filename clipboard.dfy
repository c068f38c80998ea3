/** The clipboard-tool choice of internal/clipboard/clipboard.go.  Which
    tools exec.LookPath finds is a parameter (the set of tool names on the
    PATH); running a command, its two-second timeout and TryInstall's
    package-manager calls are left out, and their outcomes are
    parameters. */
module Clipboard {
  import opened Wrappers

  /** A command to run: program name and arguments. */
  datatype Cmd = Cmd(name: string, args: seq<string>)

  /** What Detect returns: the read command, the optional write command, and
      the error, if any. */
  datatype Detected = Detected(read: Cmd, write: Option<Cmd>, err: Option<string>)

  const NoToolError: string := "no supported clipboard command found (install wl-clipboard, xclip, or xsel)"

  /** Some supported reader is on the PATH. */
  predicate HasReader(tools: set<string>) {
    "wl-paste" in tools || "xclip" in tools || "xsel" in tools
  }

  /** Detect: wl-clipboard first, then xclip, then xsel.  Detection
      succeeds exactly when a reader is found; the chosen reader and writer
      are tools that are present; wl-paste, when present, is always the
      reader; xclip is chosen only without wl-paste, xsel only without
      both; without a tool the result is an empty read command, no writer
      and the error. */
  function Detect(tools: set<string>): (d: Detected)
    ensures d.err.None? <==> HasReader(tools)
    ensures d.err.None? ==> d.read.name in tools
    ensures d.write.Some? ==> d.err.None? && d.write.value.name in tools
    ensures d.read.name == "wl-paste" <==> "wl-paste" in tools
    ensures d.read.name == "xclip" <==> "wl-paste" !in tools && "xclip" in tools
    ensures d.read.name == "xsel" <==> "wl-paste" !in tools && "xclip" !in tools && "xsel" in tools
    ensures d.err.Some? ==> d == Detected(Cmd("", []), None, Some(NoToolError))
  {
    if "wl-paste" in tools then
      if "wl-copy" in tools then Detected(Cmd("wl-paste", []), Some(Cmd("wl-copy", [])), None)
      else Detected(Cmd("wl-paste", []), None, None)
    else if "xclip" in tools then
      Detected(Cmd("xclip", ["-o", "-selection", "clipboard"]), Some(Cmd("xclip", ["-selection", "clipboard"])), None)
    else if "xsel" in tools then
      Detected(Cmd("xsel", ["--clipboard", "--output"]), Some(Cmd("xsel", ["--clipboard", "--input"])), None)
    else Detected(Cmd("", []), None, Some(NoToolError))
  }

  /** With both wl-clipboard tools the pair is wl-paste / wl-copy. */
  lemma WaylandPair(tools: set<string>)
    requires "wl-paste" in tools && "wl-copy" in tools
    ensures Detect(tools) == Detected(Cmd("wl-paste", []), Some(Cmd("wl-copy", [])), None)
  {
  }

  /** wl-paste without wl-copy gives a read-only result with no error, and
      there is no fallback to the writers of xclip or xsel even when they
      are present. */
  lemma WaylandReadOnly(tools: set<string>)
    requires "wl-paste" in tools && "wl-copy" !in tools
    ensures Detect(tools).err.None? && Detect(tools).write.None?
    ensures Detect(tools).read == Cmd("wl-paste", [])
  {
  }

  /** Outside Wayland, xclip and xsel each come with a writer for the
      clipboard selection. */
  lemma X11HasWriter(tools: set<string>)
    requires "wl-paste" !in tools && ("xclip" in tools || "xsel" in tools)
    ensures Detect(tools).write.Some?
    ensures Detect(tools).write.value.name == Detect(tools).read.name
  {
  }

  /** What EnsureDetect did: its result, and whether it ran TryInstall. */
  datatype Ensured = Ensured(detected: Detected, triedInstall: bool)

  /** EnsureDetect with the tools on the PATH before (toolsBefore) and after
      (toolsAfter) TryInstall, and TryInstall's result installed: TryInstall
      runs exactly when the first Detect fails; Detect is re-run only when
      TryInstall returned true; otherwise the first result stands. */
  function EnsureDetect(toolsBefore: set<string>, installed: bool, toolsAfter: set<string>): (r: Ensured)
    ensures r.triedInstall <==> !HasReader(toolsBefore)
    ensures r.triedInstall && installed ==> r.detected == Detect(toolsAfter)
    ensures !(r.triedInstall && installed) ==> r.detected == Detect(toolsBefore)
  {
    var first := Detect(toolsBefore);
    if first.err.None? then Ensured(first, false)
    else if installed then Ensured(Detect(toolsAfter), true)
    else Ensured(first, true)
  }

  /** A failed install leaves the no-tool error in place. */
  lemma FailedInstallKeepsError(toolsBefore: set<string>, toolsAfter: set<string>)
    requires !HasReader(toolsBefore)
    ensures EnsureDetect(toolsBefore, false, toolsAfter).detected.err == Some(NoToolError)
  {
  }

  /** What Write did: the command it ran with text on stdin, if any, and
      the error it returned. */
  datatype WriteResult = WriteResult(ran: Option<Cmd>, err: Option<string>)

  /** Write with the command's outcome runOk: a nil command is an error
      and nothing is run; otherwise the command is run and its failure is
      the error. */
  function Write(cmd: Option<Cmd>, text: string, runOk: bool): (r: WriteResult)
    ensures cmd.None? ==> r == WriteResult(None, Some("clipboard write command not configured"))
    ensures cmd.Some? ==> r.ran == cmd && (r.err.None? <==> runOk)
  {
    if cmd.None? then WriteResult(None, Some("clipboard write command not configured"))
    else WriteResult(cmd, if runOk then None else Some("command failed"))
  }

  /** A read-only detection can never write: every Write with its writer
      fails without running a command. */
  lemma ReadOnlyNeverWrites(tools: set<string>, text: string, runOk: bool)
    requires "wl-paste" in tools && "wl-copy" !in tools
    ensures Write(Detect(tools).write, text, runOk).ran.None?
    ensures Write(Detect(tools).write, text, runOk).err.Some?
  {
    WaylandReadOnly(tools);
  }
}
