/**
  The flashing state machine of bin/flash_gui.py (`FlashManager`): one flash
  at a time, a status code and message, and a log of at most 600 lines that
  the browser polls.

  The worker thread, the lock and the subprocess are not modelled: `Start`
  and `RunFlash` are sequential calls, and what the flashing process did
  (its output lines and exit code, or the error that kept it from starting)
  is an input of `RunFlash`.
 */
module FlashJobs {
  import opened Wrappers
  import opened Text
  import opened UnitIdentity
  import opened FlashCommand

  const MAX_LINES: nat := 600

  // --------------------------------------------------------- log sanitising

  /** `message.replace("\r", "")`. */
  function RemoveReturns(s: string): (r: string)
    ensures |r| <= |s|
    decreases |s|
  {
    if s == [] then []
    else if s[0] == '\r' then RemoveReturns(s[1..])
    else [s[0]] + RemoveReturns(s[1..])
  }

  /** Every carriage return is gone, nothing else is added, and a line without one is kept. */
  lemma {:induction false} RemoveReturnsSpec(s: string)
    ensures '\r' !in RemoveReturns(s)
    ensures forall k :: 0 <= k < |RemoveReturns(s)| ==> RemoveReturns(s)[k] in s
    ensures '\r' !in s ==> RemoveReturns(s) == s
    decreases |s|
  {
    if s != [] {
      RemoveReturnsSpec(s[1..]);
      var rest := RemoveReturns(s[1..]);
      assert forall k :: 0 <= k < |rest| ==> rest[k] in s;
      if s[0] != '\r' {
        assert s == [s[0]] + s[1..];
      }
    }
  }

  const ESC: char := '\U{1b}'

  /** `[0-9;?]`, the parameter bytes of a control sequence. */
  predicate IsParameter(c: char) {
    ('0' <= c <= '9') || c == ';' || c == '?'
  }

  /** `[ -/]`, the intermediate bytes. */
  predicate IsIntermediate(c: char) {
    ' ' <= c <= '/'
  }

  /** `[@-~]`, the final byte. */
  predicate IsFinal(c: char) {
    '@' <= c <= '~'
  }

  /** The end of the longest run of characters in the class starting at `i`. */
  function SpanEnd(s: string, i: nat, inClass: char -> bool): (j: nat)
    requires i <= |s|
    ensures i <= j <= |s|
    ensures forall k :: i <= k < j ==> inClass(s[k])
    ensures j < |s| ==> !inClass(s[j])
    decreases |s| - i
  {
    if i < |s| && inClass(s[i]) then SpanEnd(s, i + 1, inClass) else i
  }

  /**
    The length of the match of `\x1B\[[0-9;?]*[ -/]*[@-~]` at the start of `s`,
    if there is one. The three classes are disjoint, so taking each run as
    long as possible finds the match whenever one exists.
   */
  function CsiLength(s: string): (n: Option<nat>)
    ensures n.Some? ==> 3 <= n.value <= |s|
  {
    if |s| >= 2 && s[0] == ESC && s[1] == '[' then
      var j := SpanEnd(s, 2, IsParameter);
      var k := SpanEnd(s, j, IsIntermediate);
      if k < |s| && IsFinal(s[k]) then Some(k + 1) else None
    else None
  }

  /** `ANSI_ESCAPE.sub("", s)`: matches are removed from left to right, everything else is kept. */
  function StripAnsi(s: string): (r: string)
    ensures |r| <= |s|
    decreases |s|
  {
    if s == [] then []
    else match CsiLength(s)
      case Some(n) => StripAnsi(s[n..])
      case None => [s[0]] + StripAnsi(s[1..])
  }

  /** Stripping only removes characters, and a text without an escape character is kept. */
  lemma {:induction false} StripAnsiSpec(s: string)
    ensures forall k :: 0 <= k < |StripAnsi(s)| ==> StripAnsi(s)[k] in s
    ensures ESC !in s ==> StripAnsi(s) == s
    decreases |s|
  {
    if s != [] {
      match CsiLength(s)
      case Some(n) =>
        StripAnsiSpec(s[n..]);
        var rest := StripAnsi(s[n..]);
        forall k | 0 <= k < |rest|
          ensures rest[k] in s
        {
          assert rest[k] in s[n..];
          var j :| 0 <= j < |s[n..]| && s[n..][j] == rest[k];
          assert s[n + j] == rest[k];
        }
      case None =>
        StripAnsiSpec(s[1..]);
        var rest := StripAnsi(s[1..]);
        forall k | 0 <= k < |rest|
          ensures rest[k] in s
        {
          var j :| 0 <= j < |s[1..]| && s[1..][j] == rest[k];
          assert s[1 + j] == rest[k];
        }
        assert s == [s[0]] + s[1..];
    }
  }

  /** What `_append_log` stores for a message. */
  function Sanitize(message: string): (line: string)
    ensures |line| <= |message|
  {
    StripAnsi(RemoveReturns(message))
  }

  /** A stored line never holds a carriage return, and plain text is stored as it is. */
  lemma SanitizeSpec(message: string)
    ensures '\r' !in Sanitize(message)
    ensures '\r' !in message && ESC !in message ==> Sanitize(message) == message
  {
    var r := RemoveReturns(message);
    RemoveReturnsSpec(message);
    StripAnsiSpec(r);
    assert ESC !in message ==> ESC !in r;
  }

  // ---------------------------------------------------------- bounded log

  /** `logs[-n:]` when the log is longer than `n`. */
  function KeepLast(logs: seq<string>, n: nat): seq<string> {
    if |logs| > n then logs[|logs| - n..] else logs
  }

  /** The log after `_append_log` has added one line. */
  function AppendBounded(logs: seq<string>, line: string): seq<string> {
    KeepLast(logs + [line], MAX_LINES)
  }

  /** The log after `_append_log` has been called for each message in turn. */
  function AppendAll(logs: seq<string>, messages: seq<string>): seq<string>
    decreases |messages|
  {
    if messages == [] then logs
    else AppendAll(AppendBounded(logs, Sanitize(messages[0])), messages[1..])
  }

  function SanitizeAll(messages: seq<string>): (lines: seq<string>)
    ensures |lines| == |messages|
  {
    seq(|messages|, k requires 0 <= k < |messages| => Sanitize(messages[k]))
  }

  /**
    One append keeps at most 600 lines, ends with the new line, and is the
    most recent part of the old log followed by the new line.
   */
  lemma AppendBoundedProperties(logs: seq<string>, line: string)
    ensures var r := AppendBounded(logs, line);
      |r| == (if |logs| + 1 < MAX_LINES then |logs| + 1 else MAX_LINES)
      && r[|r| - 1] == line
      && r == (logs + [line])[|logs| + 1 - |r|..]
  {
  }

  lemma KeepLastAppend(logs: seq<string>, line: string, n: nat)
    ensures KeepLast(KeepLast(logs, n) + [line], n) == KeepLast(logs + [line], n)
  {
    if |logs| > n {
      var a := logs + [line];
      assert KeepLast(logs, n) + [line] == a[|logs| - n..];
      assert (a[|logs| - n..])[1..] == a[|a| - n..];
    }
  }

  /**
    However many lines are appended one by one, the log is the last 600 (or
    fewer) lines of the whole history: nothing is lost but the oldest lines.
   */
  lemma {:induction false} AppendAllKeepsRecent(logs: seq<string>, messages: seq<string>)
    requires |logs| <= MAX_LINES
    ensures AppendAll(logs, messages) == KeepLast(logs + SanitizeAll(messages), MAX_LINES)
    decreases |messages|
  {
    if messages != [] {
      var line, rest := Sanitize(messages[0]), SanitizeAll(messages[1..]);
      var next := AppendBounded(logs, line);
      assert |next| <= MAX_LINES;
      AppendAllKeepsRecent(next, messages[1..]);
      assert logs + SanitizeAll(messages) == (logs + [line]) + rest by {
        assert SanitizeAll(messages) == [line] + rest;
      }
      KeepLastConcat(logs + [line], rest, MAX_LINES);
    }
  }

  /** Cutting the log early and cutting it at the end keep the same most recent lines. */
  lemma {:induction false} KeepLastConcat(a: seq<string>, b: seq<string>, n: nat)
    ensures KeepLast(KeepLast(a, n) + b, n) == KeepLast(a + b, n)
    decreases |b|
  {
    if b == [] {
      assert KeepLast(a, n) + b == KeepLast(a, n);
      assert a + b == a;
    } else {
      var init, last := b[..|b| - 1], b[|b| - 1];
      KeepLastConcat(a, init, n);
      assert KeepLast(a, n) + b == (KeepLast(a, n) + init) + [last];
      assert a + b == (a + init) + [last];
      KeepLastAppend(KeepLast(a, n) + init, last, n);
      KeepLastAppend(a + init, last, n);
    }
  }

  /** `"\n".join(self._logs)`, the log text `state` reports. */
  function LogText(logs: seq<string>): string {
    Join(logs, '\n')
  }

  /** The log text splits back into the log lines when none of them holds a newline. */
  lemma LogTextRoundTrip(logs: seq<string>)
    requires |logs| >= 1 && forall k :: 0 <= k < |logs| ==> '\n' !in logs[k]
    ensures Split(LogText(logs), '\n') == logs
  {
    SplitJoin(logs, '\n');
  }

  /** `LogTextRoundTrip` for any log, under its condition. */
  lemma LogTextSplits(logs: seq<string>)
    ensures |logs| >= 1 && (forall k :: 0 <= k < |logs| ==> '\n' !in logs[k]) ==> Split(LogText(logs), '\n') == logs
  {
    if |logs| >= 1 && (forall k :: 0 <= k < |logs| ==> '\n' !in logs[k]) {
      LogTextRoundTrip(logs);
    }
  }

  // ------------------------------------------------------------------ jobs

  /** The unit a started flash works on and the port it was given (blank for auto-detection). */
  datatype Job = Job(unit: UnitRecord, port: string)

  /** What became of the flashing process, once the command was built. */
  datatype Launch =
    | Exited(output: seq<string>, exitCode: int)
    | LaunchFileNotFound(reason: string)
    | LaunchFailed(reason: string)

  datatype StateView = StateView(code: string, message: string, busy: bool, logs: string)

  /** `(port or "").strip()`, and blank when it is "auto" in any case. */
  function PortValue(port: Option<string>): (p: string)
    ensures p == "" || (p == PortArg(port) && !IsAuto(p))
  {
    var stripped := PortArg(port);
    if IsAuto(stripped) then "" else stripped
  }

  /** The port `start` records is exactly the one `build_flash_command` passes on later. */
  lemma PortValueAgrees(port: Option<string>)
    ensures UsePort(Some(PortValue(port))) <==> UsePort(port)
    ensures UsePort(port) ==> PortArg(Some(PortValue(port))) == PortArg(port)
  {
    StripIdempotent(if port.Some? then port.value else "");
    assert Strip("") == "";
  }

  /** The log `start` begins a flash with. */
  function StartLog(batch: int, serial: int, unit: UnitRecord, portValue: string): (log: seq<string>)
    ensures |log| == (if portValue == "" then 2 else 3)
    ensures log[1] == "SSID: " + unit.ssid
    ensures portValue != "" ==> log[2] == "Port: " + portValue
  {
    ["Starting flash for batch " + ZeroPad(batch, 2) + " serial " + ZeroPad(serial, 4)
      + " (" + ZeroPad(unit.year, 2) + "/" + ZeroPad(unit.month, 2) + ")",
     "SSID: " + unit.ssid]
    + (if portValue != "" then ["Port: " + portValue] else [])
  }

  const SUCCESS_LINE: string := "Flash completed successfully."
  const FAILURE_LINE: string := "Flash failed. Check above logs."

  /** The flash succeeded: the command was built, the process ran and exited with 0. */
  predicate Succeeded(job: Job, host: Host, launch: Launch) {
    BuildFlashCommand(job.unit.serial, job.unit.password, Some(job.port), host).Ok?
    && launch.Exited? && launch.exitCode == 0
  }

  /** The messages `_run_flash` logs before its verdict. */
  function RunBody(job: Job, host: Host, launch: Launch): seq<string> {
    match BuildFlashCommand(job.unit.serial, job.unit.password, Some(job.port), host)
    case Err(FileNotFound(m)) => ["Error: " + m]
    case Err(Unsupported(m)) => ["Error launching flash: " + m]
    case Ok(command) =>
      ["Command: " + DisplayAsWritten(command.argv)]
      + match launch
        case LaunchFileNotFound(reason) => ["Error: " + reason]
        case LaunchFailed(reason) => ["Error launching flash: " + reason]
        case Exited(output, _) => OutputLines(output)
  }

  /** The process's output lines with their trailing whitespace removed. */
  function OutputLines(output: seq<string>): (lines: seq<string>)
    ensures |lines| == |output|
  {
    seq(|output|, k requires 0 <= k < |output| => RStrip(output[k]))
  }

  /** Appending two batches of messages is appending their concatenation. */
  lemma {:induction false} AppendAllConcat(logs: seq<string>, a: seq<string>, b: seq<string>)
    ensures AppendAll(logs, a + b) == AppendAll(AppendAll(logs, a), b)
    decreases |a|
  {
    if a == [] {
      assert a + b == b;
    } else {
      assert (a + b)[0] == a[0];
      assert (a + b)[1..] == a[1..] + b;
      AppendAllConcat(AppendBounded(logs, Sanitize(a[0])), a[1..], b);
    }
  }

  /** The line `_run_flash` always logs last. */
  function Verdict(success: bool): string {
    if success then SUCCESS_LINE else FAILURE_LINE
  }

  /** The messages `_run_flash` logs, in order, ending with the verdict. */
  function RunMessages(job: Job, host: Host, launch: Launch): seq<string> {
    RunBody(job, host, launch) + [Verdict(Succeeded(job, host, launch))]
  }

  /** Logging a run is logging its body, then its verdict. */
  lemma RunMessagesLogged(logs: seq<string>, job: Job, host: Host, launch: Launch)
    ensures AppendAll(logs, RunMessages(job, host, launch))
      == AppendBounded(AppendAll(logs, RunBody(job, host, launch)), Sanitize(Verdict(Succeeded(job, host, launch))))
  {
    AppendAllSnoc(logs, RunBody(job, host, launch), Verdict(Succeeded(job, host, launch)));
  }

  /** Appending keeps the log within 600 lines. */
  lemma {:induction false} AppendAllBounded(logs: seq<string>, messages: seq<string>)
    requires |logs| <= MAX_LINES
    ensures |AppendAll(logs, messages)| <= MAX_LINES
    decreases |messages|
  {
    if messages != [] {
      AppendAllBounded(AppendBounded(logs, Sanitize(messages[0])), messages[1..]);
    }
  }

  /** A line of printable ASCII text is logged as it is. */
  lemma PlainLine(line: string)
    requires forall k :: 0 <= k < |line| ==> ' ' <= line[k] <= '~'
    ensures Sanitize(line) == line
  {
    assert '\r' !in line && ESC !in line;
    SanitizeSpec(line);
  }

  /** The verdict lines hold neither a carriage return nor an escape, so they are logged as they are. */
  lemma VerdictIsPlain(success: bool)
    ensures Sanitize(Verdict(success)) == Verdict(success)
  {
    if success {
      PlainLine(SUCCESS_LINE);
    } else {
      PlainLine(FAILURE_LINE);
    }
  }

  /**
    A run always ends its log with the verdict, which says success exactly
    when the process exited with 0.
   */
  lemma RunEndsWithVerdict(logs: seq<string>, job: Job, host: Host, launch: Launch)
    requires |logs| <= MAX_LINES
    ensures var after := AppendAll(logs, RunMessages(job, host, launch));
      1 <= |after| <= MAX_LINES
      && after[|after| - 1] == (if Succeeded(job, host, launch) then SUCCESS_LINE else FAILURE_LINE)
  {
    var success := Succeeded(job, host, launch);
    var before := AppendAll(logs, RunBody(job, host, launch));
    RunMessagesLogged(logs, job, host, launch);
    AppendAllBounded(logs, RunBody(job, host, launch));
    VerdictIsPlain(success);
    AppendBoundedProperties(before, Verdict(success));
  }

  /**
    A flash started with a port logs the password: the command line it logs
    holds the quoted password (and a shell reading that line back gets the
    password as the argument after the password flag, as
    `DisplayShowsPassword` states).
   */
  lemma RunLogShowsPassword(job: Job, host: Host, launch: Launch) returns (pre: string, post: string)
    requires BuildFlashCommand(job.unit.serial, job.unit.password, Some(job.port), host).Ok?
    requires UsePort(Some(job.port))
    ensures var argv := BuildFlashCommand(job.unit.serial, job.unit.password, Some(job.port), host).value.argv;
      RunBody(job, host, launch)[0] == "Command: " + DisplayAsWritten(argv)
      && DisplayAsWritten(argv) == pre + ShellQuote(job.unit.password) + post
  {
    RunBodyCommandLine(job, host, launch);
    pre, post := DisplayShowsPassword(job.unit.serial, job.unit.password, Some(job.port), host);
  }

  /** Once the command is built, the first message of a run is its displayed command line. */
  lemma RunBodyCommandLine(job: Job, host: Host, launch: Launch)
    requires BuildFlashCommand(job.unit.serial, job.unit.password, Some(job.port), host).Ok?
    ensures |RunBody(job, host, launch)| >= 1
    ensures RunBody(job, host, launch)[0]
      == "Command: " + DisplayAsWritten(BuildFlashCommand(job.unit.serial, job.unit.password, Some(job.port), host).value.argv)
  {
  }

  class FlashManager {
    var busy: bool
    var statusCode: string
    var statusMessage: string
    var logs: seq<string>

    predicate Valid()
      reads this
    {
      |logs| <= MAX_LINES
    }

    constructor ()
      ensures Valid() && !busy && statusCode == "ready" && statusMessage == "Ready to flash" && logs == []
    {
      busy := false;
      statusCode := "ready";
      statusMessage := "Ready to flash";
      logs := [];
    }

    /** `_append_log`. */
    method AppendLog(message: string)
      requires Valid()
      modifies this`logs
      ensures Valid()
      ensures logs == AppendBounded(old(logs), Sanitize(message))
    {
      var sanitized := Sanitize(message);
      logs := logs + [sanitized];
      if |logs| > MAX_LINES {
        logs := logs[|logs| - MAX_LINES..];
      }
    }

    /**
      `start`: the lookup comes first, so its error is reported even while a
      flash runs; then a busy manager refuses; otherwise the flash begins.
     */
    method Start(db: PasswordDatabase, batch: int, year: int, month: int, serial: int, port: Option<string>)
      returns (ok: bool, message: string, job: Option<Job>)
      requires Valid()
      modifies this
      ensures Valid()
      ensures db.Lookup(batch, serial, year, month).Err? ==>
        !ok && message == db.Lookup(batch, serial, year, month).error && job.None?
        && busy == old(busy) && statusCode == old(statusCode) && statusMessage == old(statusMessage) && logs == old(logs)
      ensures db.Lookup(batch, serial, year, month).Ok? && old(busy) ==>
        !ok && message == "Flash already in progress." && job.None?
        && busy && statusCode == old(statusCode) && statusMessage == old(statusMessage) && logs == old(logs)
      ensures db.Lookup(batch, serial, year, month).Ok? && !old(busy) ==>
        var unit := db.Lookup(batch, serial, year, month).value;
        ok && message == "Flash started." && job == Some(Job(unit, PortValue(port)))
        && busy && statusCode == "flashing" && statusMessage == "Flashing " + unit.serial + "..."
        && logs == StartLog(batch, serial, unit, PortValue(port))
    {
      var found := db.Lookup(batch, serial, year, month);
      if found.Err? {
        return false, found.error, None;
      }
      var unit := found.value;
      var portValue := PortArg(port);
      if IsAuto(portValue) {
        portValue := "";
      }
      if busy {
        return false, "Flash already in progress.", None;
      }
      busy := true;
      statusCode := "flashing";
      statusMessage := "Flashing " + unit.serial + "...";
      logs := StartLog(batch, serial, unit, portValue);
      return true, "Flash started.", Some(Job(unit, portValue));
    }

    /**
      `_run_flash` from the command on: the command line (its last argument masked),
      the process's output lines or the error, then, whatever happened, busy
      cleared, the status set and the verdict logged.
     */
    method RunFlash(job: Job, host: Host, launch: Launch)
      requires Valid()
      modifies this
      ensures Valid() && !busy
      ensures statusCode == if Succeeded(job, host, launch) then "success" else "failed"
      ensures statusMessage == if Succeeded(job, host, launch)
        then "Successfully flashed " + job.unit.serial + "."
        else "Failed flashing " + job.unit.serial + ". Retry."
      ensures logs == AppendAll(old(logs), RunMessages(job, host, launch))
    {
      var success := LogAttempt(job, host, launch);
      Finish(success, job.unit.serial);
      RunMessagesLogged(old(logs), job, host, launch);
    }

    /** The `finally` of `_run_flash`: busy cleared, the status set, the verdict logged. */
    method Finish(success: bool, serial: string)
      requires Valid()
      modifies this
      ensures Valid() && !busy
      ensures statusCode == if success then "success" else "failed"
      ensures statusMessage == if success
        then "Successfully flashed " + serial + "."
        else "Failed flashing " + serial + ". Retry."
      ensures logs == AppendBounded(old(logs), Sanitize(Verdict(success)))
    {
      busy := false;
      if success {
        statusCode := "success";
        statusMessage := "Successfully flashed " + serial + ".";
      } else {
        statusCode := "failed";
        statusMessage := "Failed flashing " + serial + ". Retry.";
      }
      AppendLog(Verdict(success));
    }

    /** The body of `_run_flash`'s `try`: the command line, then the output or the error. */
    method LogAttempt(job: Job, host: Host, launch: Launch) returns (success: bool)
      requires Valid()
      modifies this`logs
      ensures Valid()
      ensures success == Succeeded(job, host, launch)
      ensures logs == AppendAll(old(logs), RunBody(job, host, launch))
    {
      success := false;
      var command := BuildFlashCommand(job.unit.serial, job.unit.password, Some(job.port), host);
      match command {
        case Err(FileNotFound(m)) =>
          AppendLog("Error: " + m);
        case Err(Unsupported(m)) =>
          AppendLog("Error launching flash: " + m);
        case Ok(c) =>
          var shown := "Command: " + DisplayAsWritten(c.argv);
          AppendLog(shown);
          match launch {
            case LaunchFileNotFound(reason) =>
              AppendLog("Error: " + reason);
              AppendAllSnoc(old(logs), [shown], "Error: " + reason);
            case LaunchFailed(reason) =>
              AppendLog("Error launching flash: " + reason);
              AppendAllSnoc(old(logs), [shown], "Error launching flash: " + reason);
            case Exited(output, exitCode) =>
              LogOutput(output);
              AppendAllConcat(old(logs), [shown], OutputLines(output));
              success := exitCode == 0;
          }
      }
    }

    /** `for line in process.stdout: self._append_log(line.rstrip())`. */
    method LogOutput(output: seq<string>)
      requires Valid()
      modifies this`logs
      ensures Valid()
      ensures logs == AppendAll(old(logs), OutputLines(output))
    {
      for i := 0 to |output|
        invariant Valid()
        invariant logs == AppendAll(old(logs), OutputLines(output[..i]))
      {
        AppendLog(RStrip(output[i]));
        AppendAllSnoc(old(logs), OutputLines(output[..i]), RStrip(output[i]));
        assert OutputLines(output[..i + 1]) == OutputLines(output[..i]) + [RStrip(output[i])];
      }
      assert output[..|output|] == output;
    }

    /** `state`: the status, whether a flash runs, and the log as one text. */
    function State(): (v: StateView)
      reads this
      ensures v.code == statusCode && v.message == statusMessage && v.busy == busy
      ensures |logs| >= 1 && (forall k :: 0 <= k < |logs| ==> '\n' !in logs[k]) ==> Split(v.logs, '\n') == logs
    {
      LogTextSplits(logs);
      StateView(statusCode, statusMessage, busy, LogText(logs))
    }
  }

  /** Appending one more message extends the fold by one step. */
  lemma {:induction false} AppendAllSnoc(logs: seq<string>, messages: seq<string>, m: string)
    ensures AppendAll(logs, messages + [m]) == AppendBounded(AppendAll(logs, messages), Sanitize(m))
    decreases |messages|
  {
    if messages == [] {
      assert messages + [m] == [m];
    } else {
      assert (messages + [m])[0] == messages[0];
      assert (messages + [m])[1..] == messages[1..] + [m];
      AppendAllSnoc(AppendBounded(logs, Sanitize(messages[0])), messages[1..], m);
    }
  }
}
