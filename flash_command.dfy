/**
  The command line bin/flash_gui.py runs to flash a unit (`build_flash_command`,
  `find_powershell`) and the way it shows that command in the log
  (`shlex.quote` of every argument, the last one replaced by asterisks).

  What the tool learns from the machine is an input here: the operating
  system name, the production directory, whether each flashing script exists
  and what `shutil.which` finds for pwsh and powershell.
 */
module FlashCommand {
  import opened Wrappers
  import opened Text

  datatype Host = Host(
    system: string,
    productionDir: string,
    shellScriptExists: bool,
    powershellScriptExists: bool,
    pwshPath: Option<string>,
    powershellPath: Option<string>)

  datatype CommandError = FileNotFound(message: string) | Unsupported(message: string)

  /** The argument list and the working directory of the flashing process. */
  datatype Command = Command(argv: seq<string>, workdir: string)

  /** `str(PRODUCTION_DIR / name)`, with the separator of the host's paths. */
  function ScriptPath(host: Host, name: string): string {
    host.productionDir + [if host.system == "Windows" then '\\' else '/'] + name
  }

  /** `find_powershell`: pwsh first, then powershell; an empty path counts as not found. */
  function FindPowershell(host: Host): (r: Result<string, CommandError>)
    ensures r.Ok? <==> ((host.pwshPath.Some? && host.pwshPath.value != "")
      || (host.powershellPath.Some? && host.powershellPath.value != ""))
    ensures r.Ok? ==> r.value != "" && (host.pwshPath == Some(r.value) || host.powershellPath == Some(r.value))
    ensures host.pwshPath.Some? && host.pwshPath.value != "" ==> r == Ok(host.pwshPath.value)
  {
    if host.pwshPath.Some? && host.pwshPath.value != "" then Ok(host.pwshPath.value)
    else if host.powershellPath.Some? && host.powershellPath.value != "" then Ok(host.powershellPath.value)
    else Err(FileNotFound("Neither pwsh nor powershell was found on PATH."))
  }

  /** `(port or "").strip()`. */
  function PortArg(port: Option<string>): string {
    Strip(if port.Some? then port.value else "")
  }

  /** The port is passed on when it is not blank and not "auto" in any case. */
  predicate UsePort(port: Option<string>) {
    PortArg(port) != "" && !IsAuto(PortArg(port))
  }

  /** `build_flash_command`. */
  function BuildFlashCommand(serial: string, password: string, port: Option<string>, host: Host)
    : Result<Command, CommandError>
  {
    if host.system == "Darwin" then
      var script := ScriptPath(host, "flash_main_hub.sh");
      if !host.shellScriptExists then Err(FileNotFound("macOS script not found: " + script))
      else
        Ok(Command(["/bin/bash", script, "--serial", serial, "--password", password]
          + (if UsePort(port) then ["--port", PortArg(port)] else []), host.productionDir))
    else if host.system == "Windows" then
      var script := ScriptPath(host, "flash_main_hub.ps1");
      if !host.powershellScriptExists then Err(FileNotFound("PowerShell script not found: " + script))
      else match FindPowershell(host)
        case Err(e) => Err(e)
        case Ok(shell) =>
          Ok(Command([shell, "-NoLogo", "-NoProfile", "-ExecutionPolicy", "Bypass", "-File", script,
            "-Serial", serial, "-Password", password]
            + (if UsePort(port) then ["-Port", PortArg(port)] else []), host.productionDir))
    else Err(Unsupported("Unsupported operating system: " + host.system))
  }

  /** Where the password sits in the argument list on each supported system. */
  function PasswordIndex(host: Host): nat {
    if host.system == "Darwin" then 5 else 10
  }

  /**
    The shape of the command: it exists only on macOS and Windows with the
    script present (and, on Windows, a PowerShell found); the serial follows
    its flag, the password follows its flag, and the port flag and the
    stripped port are appended exactly when the port is neither blank nor
    "auto". The process runs in the production directory.
   */
  lemma CommandShape(serial: string, password: string, port: Option<string>, host: Host)
    ensures host.system != "Darwin" && host.system != "Windows" ==>
      BuildFlashCommand(serial, password, port, host) == Err(Unsupported("Unsupported operating system: " + host.system))
    ensures BuildFlashCommand(serial, password, port, host).Ok? <==>
      (host.system == "Darwin" && host.shellScriptExists)
      || (host.system == "Windows" && host.powershellScriptExists && FindPowershell(host).Ok?)
    ensures BuildFlashCommand(serial, password, port, host).Ok? ==>
      var argv := BuildFlashCommand(serial, password, port, host).value.argv;
      var p := PasswordIndex(host);
      |argv| == p + 1 + (if UsePort(port) then 2 else 0)
      && argv[p - 2] == serial && argv[p] == password
      && argv[p - 3] == (if host.system == "Darwin" then "--serial" else "-Serial")
      && argv[p - 1] == (if host.system == "Darwin" then "--password" else "-Password")
      && (UsePort(port) ==> argv[|argv| - 2..] == [if host.system == "Darwin" then "--port" else "-Port", PortArg(port)])
      && (!UsePort(port) ==> argv[|argv| - 1] == password)
      && BuildFlashCommand(serial, password, port, host).value.workdir == host.productionDir
    ensures BuildFlashCommand(serial, password, port, host).Ok? && host.system == "Darwin" ==>
      BuildFlashCommand(serial, password, port, host).value.argv[..2]
        == ["/bin/bash", ScriptPath(host, "flash_main_hub.sh")]
    ensures BuildFlashCommand(serial, password, port, host).Ok? && host.system == "Windows" ==>
      BuildFlashCommand(serial, password, port, host).value.argv[..7]
        == [FindPowershell(host).value, "-NoLogo", "-NoProfile", "-ExecutionPolicy", "Bypass", "-File",
            ScriptPath(host, "flash_main_hub.ps1")]
  {
  }

  /** A port is passed exactly when stripping leaves something other than a spelling of "auto". */
  lemma PortRule(port: Option<string>)
    ensures UsePort(port) <==> (PortArg(port) != ""
      && !(|PortArg(port)| == 4 && PortArg(port)[0] in "aA" && PortArg(port)[1] in "uU"
        && PortArg(port)[2] in "tT" && PortArg(port)[3] in "oO"))
    ensures port.None? || port == Some("") ==> !UsePort(port)
  {
    IsAutoLetters(PortArg(port));
    assert Strip("") == "";
  }

  // ---------------------------------------------------------------- quoting

  /** The characters `shlex.quote` leaves unquoted: ASCII word characters and `@%+=:,./-`. */
  predicate ShellSafe(c: char) {
    ('a' <= c <= 'z') || ('A' <= c <= 'Z') || ('0' <= c <= '9') || c in "_@%+=:,./-"
  }

  /** Each `'` closes the quote, is written inside double quotes, and the quote reopens. */
  function EscapeQuotes(s: string): string
    decreases |s|
  {
    if s == [] then [] else (if s[0] == '\'' then "'\"'\"'" else [s[0]]) + EscapeQuotes(s[1..])
  }

  /** `shlex.quote`. */
  function ShellQuote(s: string): string {
    if s == [] then "''"
    else if forall k :: 0 <= k < |s| ==> ShellSafe(s[k]) then s
    else "'" + EscapeQuotes(s) + "'"
  }

  datatype QuoteMode = Plain | InSingle | InDouble

  /** Puts `s` in front of the first word read so far. */
  function Extend(s: string, o: Option<seq<string>>): Option<seq<string>> {
    match o
    case None => None
    case Some(words) => if words == [] then Some([s]) else Some(words[0 := s + words[0]])
  }

  /** Starts a new, so far empty, first word. */
  function Begin(o: Option<seq<string>>): Option<seq<string>> {
    match o
    case None => None
    case Some(words) => Some([""] + words)
  }

  /**
    How a POSIX shell splits a line into words: an unquoted space ends a word,
    and a word is made of plain characters, single-quoted parts and
    double-quoted parts without escapes or expansions (the forms `shlex.quote`
    and a join on single spaces write). None for an unterminated quote.
   */
  function ShellWords(q: string, mode: QuoteMode): (r: Option<seq<string>>)
    ensures r.Some? ==> |r.value| >= 1
    decreases |q|
  {
    if q == [] then (if mode == Plain then Some([""]) else None)
    else
      var c := q[0];
      match mode
      case Plain =>
        if c == ' ' then Begin(ShellWords(q[1..], Plain))
        else if c == '\'' then ShellWords(q[1..], InSingle)
        else if c == '"' then ShellWords(q[1..], InDouble)
        else Extend([c], ShellWords(q[1..], Plain))
      case InSingle =>
        if c == '\'' then ShellWords(q[1..], Plain) else Extend([c], ShellWords(q[1..], InSingle))
      case InDouble =>
        if c == '"' then ShellWords(q[1..], Plain) else Extend([c], ShellWords(q[1..], InDouble))
  }

  /** The words a shell reads from a command line. */
  function ReadLine(line: string): Option<seq<string>> {
    ShellWords(line, Plain)
  }

  lemma ExtendTwice(a: string, b: string, o: Option<seq<string>>)
    ensures Extend(a, Extend(b, o)) == Extend(a + b, o)
  {
    match o {
      case None =>
      case Some(words) =>
        if words == [] {
          assert [b][0 := a + b] == [a + b];
        } else {
          var inner := words[0 := b + words[0]];
          assert Extend(b, o) == Some(inner) && inner[0] == b + words[0];
          assert a + (b + words[0]) == (a + b) + words[0];
          assert inner[0 := a + inner[0]] == words[0 := (a + b) + words[0]];
        }
    }
  }

  lemma ExtendEmpty(o: Option<seq<string>>)
    requires o.Some? ==> |o.value| >= 1
    ensures Extend("", o) == o
  {
    match o {
      case None =>
      case Some(words) =>
        assert "" + words[0] == words[0];
        assert words[0 := words[0]] == words;
    }
  }

  lemma DropFirst(c: char, tail: string)
    ensures ([c] + tail)[0] == c && ([c] + tail)[1..] == tail
  {
  }

  /** Safe characters are read as they are and continue the current word. */
  lemma {:induction false} ReadSafe(s: string, rest: string)
    requires forall k :: 0 <= k < |s| ==> ShellSafe(s[k])
    ensures ShellWords(s + rest, Plain) == Extend(s, ShellWords(rest, Plain))
    decreases |s|
  {
    if s == [] {
      assert s + rest == rest;
      ExtendEmpty(ShellWords(rest, Plain));
    } else {
      var c, t := s[0], s[1..];
      assert [c] + t == s;
      assert ShellWords(s + rest, Plain) == Extend([c], ShellWords(t + rest, Plain)) by {
        assert s + rest == [c] + (t + rest);
        DropFirst(c, t + rest);
        assert ShellSafe(c);
        assert c != ' ' && c != '\'' && c != '"';
      }
      ReadSafe(t, rest);
      ExtendTwice([c], t, ShellWords(rest, Plain));
    }
  }

  /** Inside single quotes, the escaped text reads back as the original, up to the closing quote. */
  lemma {:induction false} ReadEscaped(s: string, rest: string)
    ensures ShellWords(EscapeQuotes(s) + "'" + rest, InSingle) == Extend(s, ShellWords(rest, Plain))
    decreases |s|
  {
    var q := EscapeQuotes(s) + "'" + rest;
    var r := ShellWords(rest, Plain);
    if s == [] {
      assert q == "'" + rest;
      assert q[1..] == rest;
      ExtendEmpty(r);
    } else {
      var tail := EscapeQuotes(s[1..]) + "'" + rest;
      ReadEscaped(s[1..], rest);
      if s[0] == '\'' {
        assert ShellWords(q, InSingle) == Extend(s, r) by {
          assert q == "'\"'\"'" + tail;
          ReadQuoteEscape(tail);
          ExtendTwice("'", s[1..], r);
          assert "'" + s[1..] == s;
        }
      } else {
        assert ShellWords(q, InSingle) == Extend(s, r) by {
          assert q == [s[0]] + tail;
          assert q[0] == s[0] && q[1..] == tail;
          assert ShellWords(q, InSingle) == Extend([s[0]], ShellWords(tail, InSingle));
          ExtendTwice([s[0]], s[1..], r);
          assert [s[0]] + s[1..] == s;
        }
      }
    }
  }

  /** Inside single quotes, `'"'"'` reads as one quote character, and the single quotes reopen. */
  lemma ReadQuoteEscape(tail: string)
    ensures ShellWords("'\"'\"'" + tail, InSingle) == Extend("'", ShellWords(tail, InSingle))
  {
    var q := "'\"'\"'" + tail;
    assert q[1..][0] == '"' && q[2..][0] == '\'' && q[3..][0] == '"' && q[4..][0] == '\'' && q[5..] == tail;
    assert q[1..][1..] == q[2..] && q[2..][1..] == q[3..] && q[3..][1..] == q[4..] && q[4..][1..] == q[5..];
    assert ShellWords(q, InSingle) == ShellWords(q[1..], Plain);
    assert ShellWords(q[1..], Plain) == ShellWords(q[2..], InDouble);
    assert ShellWords(q[2..], InDouble) == Extend("'", ShellWords(q[3..], InDouble));
    assert ShellWords(q[3..], InDouble) == ShellWords(q[4..], Plain);
    assert ShellWords(q[4..], Plain) == ShellWords(q[5..], InSingle);
  }

  /** A quoted argument is read back as that argument, continuing the current word. */
  lemma ShellQuoteRead(s: string, rest: string)
    ensures ShellWords(ShellQuote(s) + rest, Plain) == Extend(s, ShellWords(rest, Plain))
  {
    var q := ShellQuote(s) + rest;
    var r := ShellWords(rest, Plain);
    if s == [] {
      assert ShellWords(q, Plain) == Extend(s, r) by {
        assert q == "''" + rest;
        assert q[0] == '\'' && q[1..][0] == '\'' && q[1..][1..] == rest;
        ExtendEmpty(r);
      }
    } else if forall k :: 0 <= k < |s| ==> ShellSafe(s[k]) {
      assert q == s + rest;
      ReadSafe(s, rest);
    } else {
      assert ShellWords(q, Plain) == Extend(s, r) by {
        var e := EscapeQuotes(s);
        var inner := e + "'" + rest;
        assert q == ("'" + e + "'") + rest;
        assert ("'" + e + "'") + rest == "'" + inner;
        DropFirst('\'', inner);
        assert ShellWords(q, Plain) == ShellWords(inner, InSingle);
        ReadEscaped(s, rest);
      }
    }
  }

  /** Reading back what `shlex.quote` wrote gives the original argument as one word. */
  lemma ShellQuoteRoundTrip(s: string)
    ensures ReadLine(ShellQuote(s)) == Some([s])
  {
    ShellQuoteRead(s, "");
    assert ShellQuote(s) + "" == ShellQuote(s);
    assert s + "" == s;
    assert [""][0 := s] == [s];
  }

  // ---------------------------------------------------------------- display

  function QuoteAll(parts: seq<string>): (words: seq<string>)
    ensures |words| == |parts|
  {
    seq(|parts|, k requires 0 <= k < |parts| => ShellQuote(parts[k]))
  }

  /** The quoted line of two or more arguments is the first one quoted, a space, and the quoted rest. */
  lemma QuotedLineCons(parts: seq<string>)
    requires |parts| >= 2
    ensures Join(QuoteAll(parts), ' ') == ShellQuote(parts[0]) + ([' '] + Join(QuoteAll(parts[1..]), ' '))
  {
    var words := QuoteAll(parts);
    assert words[1..] == QuoteAll(parts[1..]);
  }

  /** A space, then a line read as `rest`, reads as an empty word, then `rest`. */
  lemma ReadSpace(tail: string)
    ensures ShellWords([' '] + tail, Plain) == Begin(ShellWords(tail, Plain))
  {
    assert ([' '] + tail)[0] == ' ' && ([' '] + tail)[1..] == tail;
  }

  /** A line of quoted arguments joined by spaces reads back as exactly those arguments. */
  lemma {:induction false} QuotedLineRoundTrip(parts: seq<string>)
    requires |parts| >= 1
    ensures ReadLine(Join(QuoteAll(parts), ' ')) == Some(parts)
    decreases |parts|
  {
    if |parts| == 1 {
      assert Join(QuoteAll(parts), ' ') == ShellQuote(parts[0]);
      ShellQuoteRoundTrip(parts[0]);
      assert [parts[0]] == parts;
    } else {
      var tail := Join(QuoteAll(parts[1..]), ' ');
      QuotedLineRoundTrip(parts[1..]);
      QuotedLineCons(parts);
      ReadSpace(tail);
      ShellQuoteRead(parts[0], [' '] + tail);
      assert parts[0] + "" == parts[0];
      assert ([""] + parts[1..])[0 := parts[0]] == parts;
    }
  }

  const MASK: string := "******"

  /** The words of the logged command as written: every argument but the last, then the mask. */
  function DisplayWordsAsWritten(argv: seq<string>): (words: seq<string>)
    ensures |words| == if argv == [] then 1 else |argv|
    ensures words[|words| - 1] == ShellQuote(MASK)
    ensures forall k :: 0 <= k < |words| - 1 ==> words[k] == ShellQuote(argv[k])
  {
    QuoteAll((if argv == [] then [] else argv[..|argv| - 1]) + [MASK])
  }

  /** `" ".join(shlex.quote(part) for part in command[:-1] + ["******"])`. */
  function DisplayAsWritten(argv: seq<string>): string {
    Join(DisplayWordsAsWritten(argv), ' ')
  }

  /** The words of the logged command with the argument at `secret` replaced by the mask before quoting. */
  function DisplayWords(argv: seq<string>, secret: nat): (words: seq<string>)
    ensures |words| == |argv|
  {
    QuoteAll(if secret < |argv| then argv[secret := MASK] else argv)
  }

  /** The logged command line, masking the argument at `secret`. */
  function Display(argv: seq<string>, secret: nat): string {
    Join(DisplayWords(argv, secret), ' ')
  }

  /** Quoting never maps two arguments to the same word. */
  lemma ShellQuoteInjective(a: string, b: string)
    requires ShellQuote(a) == ShellQuote(b)
    ensures a == b
  {
    ShellQuoteRoundTrip(a);
    ShellQuoteRoundTrip(b);
  }

  lemma {:induction false} JoinInfix(parts: seq<string>, sep: char, k: nat) returns (pre: string, post: string)
    requires k < |parts|
    ensures Join(parts, sep) == pre + parts[k] + post
    decreases |parts|
  {
    if k == 0 {
      pre := "";
      post := if |parts| == 1 then "" else [sep] + Join(parts[1..], sep);
    } else {
      var p, q := JoinInfix(parts[1..], sep, k - 1);
      pre, post := parts[0] + [sep] + p, q;
    }
  }

  /**
    A shell reading a logged line back gets the displayed arguments: as
    written, every argument but the last and then the mask; corrected, the
    arguments with the one at `secret` replaced by the mask.
   */
  lemma DisplayReadsBack(argv: seq<string>, secret: nat)
    ensures ReadLine(DisplayAsWritten(argv)) == Some((if argv == [] then [] else argv[..|argv| - 1]) + [MASK])
    ensures argv != [] ==> ReadLine(Display(argv, secret)) == Some(if secret < |argv| then argv[secret := MASK] else argv)
  {
    QuotedLineRoundTrip((if argv == [] then [] else argv[..|argv| - 1]) + [MASK]);
    if argv != [] {
      QuotedLineRoundTrip(if secret < |argv| then argv[secret := MASK] else argv);
    }
  }

  /**
    As written, the log line shows the password whenever a port is passed:
    the masked last argument is then the port, and the password appears,
    quoted, in the displayed command, where a shell reads it back unchanged.
   */
  lemma DisplayShowsPassword(serial: string, password: string, port: Option<string>, host: Host)
    returns (pre: string, post: string)
    requires BuildFlashCommand(serial, password, port, host).Ok? && UsePort(port)
    ensures DisplayWordsAsWritten(BuildFlashCommand(serial, password, port, host).value.argv)[PasswordIndex(host)]
      == ShellQuote(password)
    ensures DisplayAsWritten(BuildFlashCommand(serial, password, port, host).value.argv)
      == pre + ShellQuote(password) + post
    ensures var shown := ReadLine(DisplayAsWritten(BuildFlashCommand(serial, password, port, host).value.argv));
      shown.Some? && |shown.value| == |BuildFlashCommand(serial, password, port, host).value.argv|
      && shown.value[PasswordIndex(host)] == password && shown.value[|shown.value| - 1] == MASK
  {
    var argv := BuildFlashCommand(serial, password, port, host).value.argv;
    CommandShape(serial, password, port, host);
    var words := DisplayWordsAsWritten(argv);
    var p := PasswordIndex(host);
    assert words[p] == ShellQuote(password);
    pre, post := JoinInfix(words, ' ', p);
    DisplayReadsBack(argv, p);
  }

  /**
    Masking position `p` shows the mask there and every other argument quoted,
    so a secret held at `p` (and not equal to the mask) appears only where the
    same text is also another argument.
   */
  lemma MaskedWords(argv: seq<string>, p: nat, secret: string)
    requires p < |argv| && argv[p] == secret
    ensures var words := DisplayWords(argv, p);
      words[p] == ShellQuote(MASK)
      && (forall k :: 0 <= k < |argv| && k != p ==> words[k] == ShellQuote(argv[k]))
      && (secret != MASK ==>
            forall k :: 0 <= k < |argv| && words[k] == ShellQuote(secret) ==> k != p && argv[k] == secret)
  {
    var words := DisplayWords(argv, p);
    forall k | 0 <= k < |argv| && words[k] == ShellQuote(secret)
      ensures secret != MASK ==> k != p && argv[k] == secret
    {
      if k == p {
        ShellQuoteInjective(MASK, secret);
      } else {
        ShellQuoteInjective(argv[k], secret);
      }
    }
  }

  /**
    The corrected log line masks the password argument and quotes every other
    argument (the port included), so the password shows up in it only where
    the same text is also another argument.
   */
  lemma DisplayHidesPassword(serial: string, password: string, port: Option<string>, host: Host)
    requires BuildFlashCommand(serial, password, port, host).Ok?
    ensures var argv := BuildFlashCommand(serial, password, port, host).value.argv;
      var p := PasswordIndex(host);
      var words := DisplayWords(argv, p);
      p < |argv| && argv[p] == password && words[p] == ShellQuote(MASK)
      && (forall k :: 0 <= k < |argv| && k != p ==> words[k] == ShellQuote(argv[k]))
      && (password != MASK ==>
            forall k :: 0 <= k < |argv| && words[k] == ShellQuote(password) ==> k != p && argv[k] == password)
    ensures var argv := BuildFlashCommand(serial, password, port, host).value.argv;
      ReadLine(Display(argv, PasswordIndex(host))) == Some(argv[PasswordIndex(host) := MASK])
  {
    var argv := BuildFlashCommand(serial, password, port, host).value.argv;
    CommandShape(serial, password, port, host);
    MaskedWords(argv, PasswordIndex(host), password);
    DisplayReadsBack(argv, PasswordIndex(host));
  }

  /** Without a port the password is the last argument, and both displays are the same line. */
  lemma DisplayUnchangedWithoutPort(serial: string, password: string, port: Option<string>, host: Host)
    requires BuildFlashCommand(serial, password, port, host).Ok? && !UsePort(port)
    ensures var argv := BuildFlashCommand(serial, password, port, host).value.argv;
      Display(argv, PasswordIndex(host)) == DisplayAsWritten(argv)
  {
    var argv := BuildFlashCommand(serial, password, port, host).value.argv;
    var p := PasswordIndex(host);
    CommandShape(serial, password, port, host);
    assert argv[p := MASK] == argv[..|argv| - 1] + [MASK];
  }
}
