# Factory provisioning and flashing tools, modelled in Dafny

This project models two pieces of the Controller production tooling and
proves properties of them.

**The factory-config record writer** (`bin/tools/gen_factory_payload.py`):
- `sanitize_serial` filters the serial suffix and truncates it to 28 characters.
- `validate_password` accepts 8..63 printable ASCII characters.
- `build_payload` lays out the 156-byte little-endian record:
  - magic `FCPF`, version 1, flags 1;
  - a 32-byte NUL-padded serial and a 64-byte NUL-padded password;
  - 48 reserved zero bytes;
  - a CRC-32 trailer.
- `main` checks the partition size and fills the rest of the partition with erased `0xFF` bytes.

The CRC is the one `binascii.crc32` computes: the reflected polynomial
`0xEDB88320`, a preset and final inversion of all 32 bits, one bit at a time.
Its 32-bit register is a sequence of 32 booleans.

**The flashing GUI's logic** (`bin/flash_gui.py`):
- the year and month validators;
- the unit identifier `CCbb-yymmssss`, which is 13 characters long for a batch below 100;
- the password table, a class whose `Load` fills its map from parsed rows and whose `Lookup` checks a request;
- the flashing command for macOS and Windows, and the way it is shown in the log (`shlex.quote` of each word);
- `FlashManager`, a class holding the busy flag, the status and the log of at most 600 sanitised lines, with `Start`, `AppendLog`, `RunFlash` and `State`.

Modules:
- `Wrappers`: `Option` and `Result`.
- `Crc32`: the CRC register, its bitwise definition, linearity and single-byte error detection.
- `Crc32Vector`: the known answer for the input `"a"`, which ties the register model to zlib's CRC-32.
- `Text`: Python's `str.strip`/`rstrip` with the full `str.isspace` set, `lower() == "auto"`, zero-padded decimal formatting (`{n:0Wd}`), and `join`/`split` on one character.
- `FactoryPayload`: the record writer, a reader for the record (the partner of the writer, used to state field recovery), and the partition image.
- `UnitIdentity`: the validators, the identifier and the `PasswordDatabase` class.
- `FlashCommand`: the command builder, `shlex.quote` together with a POSIX line reader that undoes it, and the masked command display.
- `FlashJobs`: the ANSI-escape remover, the bounded log and the `FlashManager` class.

Some of the source's facts are inputs to the model:
- `str.isalnum` depends on the Unicode database, so it is a parameter that must agree with ASCII on code points below 128.
- The operating system, the production directory, whether each flashing script exists and what `shutil.which` finds together form a `Host` value.
- What the flashing process did is a `Launch` value: its output lines and exit code, or the error that kept it from starting.

## Model

| member | source | states |
|---|---|---|
| Crc32.ChecksumValue | bin/tools/gen_factory_payload.py:52 | The CRC-32 of the body, read as an unsigned number, is below 2^32 (the `& 0xFFFFFFFF`). |
| Crc32.UpdateConcat | bin/tools/gen_factory_payload.py:52 | Running the CRC over `a + b` is running it over `a` and continuing over `b`. |
| Crc32.UpdateSameDataInjective | bin/tools/gen_factory_payload.py:52 | Two different register states stay different after the same data is fed through. |
| Crc32.UpdateByteDistinct | bin/tools/gen_factory_payload.py:52 | Feeding two different bytes into the same register gives different registers. |
| Crc32.SingleByteChangeDetected | bin/tools/gen_factory_payload.py:52-53 | Changing any one byte of the data changes the CRC register and its 32-bit value. |
| Crc32.FromBitsOfBits | bin/tools/gen_factory_payload.py:52-53 | A number below 2^k survives the trip into k register bits and back. |
| Crc32Vector.KnownAnswer | bin/tools/gen_factory_payload.py:52 | The checksum of the one-byte input `"a"` is 0xE8B7BE43, the value zlib's CRC-32 gives for it. The other CRC lemmas would hold for any reflected polynomial, so this one pins the polynomial, the preset and the final inversion. |
| FactoryPayload.Kept | bin/tools/gen_factory_payload.py:23-26 | The filtered characters are no more than the input and all alphanumeric, `_` or `-`. |
| FactoryPayload.KeptSubsequence | bin/tools/gen_factory_payload.py:23-26 | The filter's output is a subsequence of its input, in order. |
| FactoryPayload.KeptEmpty | bin/tools/gen_factory_payload.py:23-28 | Nothing survives the filter exactly when no input character is allowed. |
| FactoryPayload.SanitizedShape | bin/tools/gen_factory_payload.py:22-30 | It fails exactly when no character is allowed; otherwise the result has 1..28 allowed characters and is a subsequence of the input. |
| FactoryPayload.SanitizeIdempotent | bin/tools/gen_factory_payload.py:23-27 | Sanitising a sanitised serial returns it unchanged. |
| FactoryPayload.SanitizedHasNoNul | bin/tools/gen_factory_payload.py:22-30 | A sanitised serial holds no NUL, so its padded field reads back. |
| FactoryPayload.SanitizeSerial | bin/tools/gen_factory_payload.py:22-30 | The loop that appends allowed characters and truncates computes the sanitising function. |
| FactoryPayload.HasUnprintable | bin/tools/gen_factory_payload.py:36 | True exactly when some character lies outside 32..126. |
| FactoryPayload.ValidatePassword | bin/tools/gen_factory_payload.py:33-38 | Succeeds iff the length is 8..63 and every code point is 32..126; on success it returns its input; the length error exactly when the length is wrong (it is checked first). |
| FactoryPayload.EncodeAscii | bin/tools/gen_factory_payload.py:43-44 | `.encode("ascii")` succeeds iff every code point is below 128, and then gives one byte per character with that value. |
| FactoryPayload.FromLERoundTrip | bin/tools/gen_factory_payload.py:47-53 | A little-endian field of k bytes reads back as the number packed into it. |
| FactoryPayload.FromLEInjective | bin/tools/gen_factory_payload.py:53 | Two different little-endian byte strings of the same length read back as different numbers, so a changed trailer never matches the same CRC. |
| FactoryPayload.LJust | bin/tools/gen_factory_payload.py:48-49 | `ljust` pads to the width and never truncates. |
| FactoryPayload.BuildPayload | bin/tools/gen_factory_payload.py:41-54 | The serial encoding fails first, then the password encoding; otherwise the result is the record of the two byte strings. |
| FactoryPayload.RecordLength | bin/tools/gen_factory_payload.py:41-54 | The record is 8 + max(32, serial) + max(64, password) + 48 + 4 bytes, so exactly 156 when both fields fit. |
| FactoryPayload.HeaderBytes | bin/tools/gen_factory_payload.py:42-47 | The header is `46 43 50 46 01 00 01 00`: magic, version and flags, little-endian. |
| FactoryPayload.RecordLayout | bin/tools/gen_factory_payload.py:41-54 | Bytes 0..8 are the header; 8..40 are the serial and NULs; 40..104 are the password and NULs; 104..152 are zero; 152..156 are the little-endian CRC-32 of bytes 0..152. |
| FactoryPayload.ReadField | bin/tools/gen_factory_payload.py:48-49 | Reading a field to its first NUL gives a NUL-free prefix of the field that stops at a NUL or at the field's end. |
| FactoryPayload.ReadPadded | bin/tools/gen_factory_payload.py:48-49 | A NUL-free string padded with NULs reads back as itself. |
| FactoryPayload.DecodeLaidOut | bin/tools/gen_factory_payload.py:41-54 | A blob with the record's layout and a matching trailer decodes to its serial and password. |
| FactoryPayload.DecodeRecord | bin/tools/gen_factory_payload.py:41-54 | The record, followed by anything (the erased rest of the partition), decodes to the serial and password it was built from. |
| FactoryPayload.CorruptionDetected | bin/tools/gen_factory_payload.py:52-53 | Changing any byte in 0..152 without updating the trailer makes the stored CRC disagree, and the reader reports a checksum mismatch. |
| FactoryPayload.TrailerCorruptionDetected | bin/tools/gen_factory_payload.py:52-53 | Changing any one of the trailer bytes 152..156 makes the reader report a checksum mismatch, so with CorruptionDetected every single-byte change of the record is caught. |
| FactoryPayload.ValidPasswordEncodes | bin/tools/gen_factory_payload.py:36-44 | A valid password always encodes as ASCII and holds no NUL. |
| FactoryPayload.Pad | bin/tools/gen_factory_payload.py:93-94 | The method fills a `0xFF` array of the partition size and copies the payload over its start, giving the payload followed by erased bytes. |
| FactoryPayload.BuildImage | bin/tools/gen_factory_payload.py:73-94 | `main`'s checks in their order (size, serial, password, encoding, fit) and the padded blob, equal to the image function. |
| FactoryPayload.ImageProperties | bin/tools/gen_factory_payload.py:73-94 | A size of 0 or less is refused first. The image exists iff the size is at least 156, the serial sanitises to ASCII and the password is valid. It then has exactly the partition size, starts with the record, is `0xFF` after it, and decodes to the serial and password. |
| Text.LStripSpec | bin/flash_gui.py:132 | `lstrip` removes a prefix made only of whitespace and leaves no whitespace at the front. |
| Text.RStripSpec | bin/flash_gui.py:612 | `rstrip` removes a suffix made only of whitespace and leaves no whitespace at the end. |
| Text.StripInfix | bin/flash_gui.py:132 | `strip` returns a contiguous part of its input, with only whitespace around it and no whitespace at either end. |
| Text.StripIdempotent | bin/flash_gui.py:564 | Stripping twice is stripping once. |
| Text.LowerAsciiCaseless | bin/flash_gui.py:565 | Two strings lower to the same text exactly when they have the same length and differ only in the case of ASCII letters. |
| Text.LowerAsciiIdempotent | bin/flash_gui.py:565 | Lowering twice is lowering once. |
| Text.IsAutoLetters | bin/flash_gui.py:565 | `s.lower() == "auto"` holds exactly for the sixteen spellings of "auto" in upper and lower case. |
| Text.Decimal | bin/flash_gui.py:44 | The decimal form of a number is a non-empty digit string. |
| Text.DecimalRoundTrip | bin/flash_gui.py:44 | The decimal digits of n read back as n. |
| Text.ZeroPadRoundTrip | bin/flash_gui.py:44 | `{n:0Wd}` is all digits, max(W, digits) long, and reads back as n. |
| Text.ZeroPadWidth | bin/flash_gui.py:44 | A number with at most W digits is formatted to exactly W characters. |
| Text.SplitJoin | bin/flash_gui.py:635 | Joining lines without the separator and splitting again gives the lines back. |
| UnitIdentity.TwoDigitBounds | bin/flash_gui.py:23-28 | The bounds print as `00`, `99`, `01`, `12`, `1` and `100` in the error messages. |
| UnitIdentity.ValidateYear | bin/flash_gui.py:33-35 | Passes exactly for 0..99; otherwise the message "Year must be between 00 and 99.". |
| UnitIdentity.ValidateMonth | bin/flash_gui.py:38-40 | Passes exactly for 1..12; otherwise the message "Month must be between 01 and 12.". |
| UnitIdentity.IdentifierLayout | bin/flash_gui.py:43-44 | The identifier starts with "CC". Its batch, year, month and serial read back from fixed positions counted from the end. It is 13 characters long when the batch is below 100. |
| UnitIdentity.IdentifierInjective | bin/flash_gui.py:43-44 | Different units (year, month ≤ 99, serial ≤ 9999) never share an identifier, and so never share an SSID. |
| UnitIdentity.SerialRangeMessage | bin/flash_gui.py:146 | The serial-range message is "Serial must be between 1 and 100.". |
| UnitIdentity.AcceptCases | bin/flash_gui.py:127-140 | One row is refused for a bad number, a missing password, a serial outside 1..100, a stripped password outside 8..63 or a duplicate key, checked in that order, each reason with its own error; otherwise it adds its key with the stripped password. |
| UnitIdentity.IngestAfterError | bin/flash_gui.py:126-140 | After the first refused row, later rows change nothing. |
| UnitIdentity.IngestWellFormed | bin/flash_gui.py:125-140 | Every loaded entry has a serial in 1..100 and a password of 8..63 characters with no surrounding whitespace. |
| UnitIdentity.IngestCharacterised | bin/flash_gui.py:125-140 | Loading succeeds iff every row is valid and keys are unique; then the table holds exactly the rows' keys with their stripped passwords. |
| UnitIdentity.PasswordDatabase.constructor | bin/flash_gui.py:110-112 | A new table is empty. |
| UnitIdentity.PasswordDatabase.Load | bin/flash_gui.py:125-140 | The loop resets the table and fills it row by row, stopping at the first bad row, exactly as the ingest function says. |
| UnitIdentity.PasswordDatabase.Lookup | bin/flash_gui.py:142-163 | Succeeds iff batch > 0, serial in 1..100, year in 0..99, month in 1..12 and the key is present. Each failure gives its own message, in the source's order. On success serial and SSID are both the identifier and the password is the stored one. |
| UnitIdentity.LookupAfterLoad | bin/flash_gui.py:125-163 | After a successful load, every row with a positive batch can be looked up for any valid date and gives that row's stripped password. |
| FlashCommand.FindPowershell | bin/flash_gui.py:539-544 | pwsh is preferred; the result is a path found for one of the two; it fails exactly when neither is found. |
| FlashCommand.CommandShape | bin/flash_gui.py:503-536 | Any other system gives the unsupported-OS error. The command is built iff the system's script exists (and, on Windows, a PowerShell is found). The argument list is exactly the source's: `/bin/bash` and the script, or the PowerShell found with `-NoLogo -NoProfile -ExecutionPolicy Bypass -File` and the script; then serial and password after their flags; `--port`/`-Port` last only when the port is used. |
| FlashCommand.PortRule | bin/flash_gui.py:505-506 | The port is used iff its stripped form is non-empty and not "auto" in any case; no port or an empty port is never used. |
| FlashCommand.ShellQuoteRead | bin/flash_gui.py:600 | Whatever follows it, a `shlex.quote`d argument is read by a POSIX shell as exactly that argument, continuing the current word. |
| FlashCommand.ShellQuoteRoundTrip | bin/flash_gui.py:600 | A POSIX shell reads every `shlex.quote`d argument back as one word equal to it, including empty arguments and ones holding quotes or spaces. |
| FlashCommand.QuotedLineRoundTrip | bin/flash_gui.py:600 | A line of quoted arguments joined by single spaces is read by a shell as exactly those arguments, in order. |
| FlashCommand.DisplayReadsBack | bin/flash_gui.py:600 | A shell reading the logged line gets, as written, every argument but the last followed by the mask; corrected, the arguments with the masked one replaced by the mask. |
| FlashCommand.DisplayWordsAsWritten | bin/flash_gui.py:600 | The display as written has one word per argument: the quoted arguments except the last, then the quoted mask in the last argument's place. |
| FlashCommand.DisplayShowsPassword | bin/flash_gui.py:600 | As written: when a port is passed, the word at the password's position in the logged command is the quoted password, so the line contains it. A shell reading the line gets the password at its position and the mask in place of the port. |
| FlashCommand.DisplayWords | bin/flash_gui.py:600 | The corrected display has one word per argument. |
| FlashCommand.ShellQuoteInjective | bin/flash_gui.py:600 | Two different arguments never quote to the same word. |
| FlashCommand.MaskedWords | bin/flash_gui.py:600 | Masking one position shows the quoted mask there and every other argument quoted. A secret held at that position then appears only where another argument has the same text. |
| FlashCommand.DisplayHidesPassword | bin/flash_gui.py:600 | Corrected: the password sits at its fixed position and the display masks it there. The quoted password appears only where another argument is the same text. A shell reading the line gets the arguments with the password replaced by the mask. |
| FlashCommand.DisplayUnchangedWithoutPort | bin/flash_gui.py:600 | Without a port the corrected display is the same line as the display as written. |
| FlashJobs.RemoveReturnsSpec | bin/flash_gui.py:587 | Removing carriage returns leaves none, adds nothing, and keeps a message without them unchanged. |
| FlashJobs.CsiLength | bin/flash_gui.py:30 | A control-sequence match at the start is at least 3 characters and inside the text. |
| FlashJobs.StripAnsiSpec | bin/flash_gui.py:587 | Stripping escape sequences only removes characters, and text without an escape character is kept. |
| FlashJobs.SanitizeSpec | bin/flash_gui.py:587 | A stored line never holds a carriage return, and plain text is stored as it is. |
| FlashJobs.AppendBoundedProperties | bin/flash_gui.py:588-591 | After an append the log has min(old + 1, 600) lines, ends with the new line, and is the most recent part of the old log followed by it. |
| FlashJobs.AppendAllKeepsRecent | bin/flash_gui.py:586-591 | Any sequence of appends leaves the last 600 (or fewer) lines of the whole history: only the oldest lines are lost. |
| FlashJobs.AppendAllBounded | bin/flash_gui.py:590-591 | The log never exceeds 600 lines. |
| FlashJobs.LogTextRoundTrip | bin/flash_gui.py:635 | The log text that `state` returns splits back into the log lines when no line holds a newline. |
| FlashJobs.PortValue | bin/flash_gui.py:564-566 | The recorded port is blank or the stripped port, never "auto". |
| FlashJobs.PortValueAgrees | bin/flash_gui.py:564-566 | The port `start` records is passed to the command iff the port the user gave would be, and as the same string. |
| FlashJobs.StartLog | bin/flash_gui.py:574-579 | A started flash's log has 2 lines, or 3 when a port is given: the start line, the SSID and the port. |
| FlashJobs.OutputLines | bin/flash_gui.py:611-612 | One logged line per output line. |
| FlashJobs.VerdictIsPlain | bin/flash_gui.py:619 | The final message is logged unchanged. |
| FlashJobs.RunLogShowsPassword | bin/flash_gui.py:599-601 | As written: a flash started with a port logs, as the first line of its run, a command line that contains the quoted password. |
| FlashJobs.RunEndsWithVerdict | bin/flash_gui.py:618-628 | A run always ends the log with the final message, which reports success iff the command was built and the process exited with 0, and the log stays within 600 lines. |
| FlashJobs.FlashManager.constructor | bin/flash_gui.py:548-554 | A new manager is idle, "ready"/"Ready to flash", with an empty log. |
| FlashJobs.FlashManager.AppendLog | bin/flash_gui.py:586-591 | The sanitised message is appended and the log cut to its last 600 lines. |
| FlashJobs.FlashManager.Start | bin/flash_gui.py:556-584 | A lookup error is returned first and changes nothing. Then a busy manager answers "Flash already in progress." and changes nothing. Otherwise the manager becomes busy with status "flashing" and "Flashing <id>...", its log is replaced by the start log, and the job is returned. |
| FlashJobs.FlashManager.LogAttempt | bin/flash_gui.py:598-617 | The `try` body logs the command line as the source displays it (last argument masked), then the output lines or the error text. It reports success iff the command was built and the exit code is 0. |
| FlashJobs.FlashManager.LogOutput | bin/flash_gui.py:611-612 | Each output line is logged with its trailing whitespace removed. |
| FlashJobs.FlashManager.Finish | bin/flash_gui.py:618-628 | The `finally` block clears busy, sets the success or failure status with the serial, and logs the final message. |
| FlashJobs.FlashManager.RunFlash | bin/flash_gui.py:593-628 | Whatever happened, busy is cleared. The status is "success" with "Successfully flashed <id>." iff the run succeeded, else "failed" with "Failed flashing <id>. Retry.". The log is the old log followed by the run's messages and the final message. |
| FlashJobs.FlashManager.State | bin/flash_gui.py:630-636 | Reports the status code, message and busy flag; the log text splits back into the log lines when no line holds a newline. |

## Left out

- Writing the image to disk, creating its directory and the closing summary line of `main` (bin/tools/gen_factory_payload.py:96-100) are I/O. The image is returned as a value.
- Command-line parsing with argparse and `int(..., 0)` (bin/tools/gen_factory_payload.py:58-72) are left out: the partition size is an integer input.
- `str.isalnum` on non-ASCII characters depends on the Unicode database, so it is a parameter. A non-ASCII character that survives the filter makes the image fail with `NotAscii`, as `.encode("ascii")` does.
- Error messages: `validate_year`, `validate_month` and `lookup` in bin/flash_gui.py keep their exact message texts. `sanitize_serial`, `validate_password` and `main` in bin/tools/gen_factory_payload.py, and `load` in bin/flash_gui.py, raise errors that are modelled as error constructors carrying the relevant values, not as message strings.
- `PasswordDatabase.Load` covers only the row rules. The file-existence and header checks and the CSV parsing are left out (bin/flash_gui.py:115-124): rows arrive parsed, with a number that `int` cannot read given as `None`.
- `detect_serial_ports`, the HTTP server and handlers, the embedded web page and `webbrowser` are I/O and UI, so they are left out.
- `shutil.which`, the operating system name and the scripts' existence are fields of `Host`; `Path` rendering is the directory, the system's separator and the file name.
- `subprocess.Popen` is replaced by a `Launch` input (output lines and exit code, or a launch error). The model does not capture an exception raised while the output is being read, after some lines were logged.
- The worker thread and the lock are left out: `Start` and `RunFlash` are sequential calls. The model does not capture `state` being read while a run is in progress, or another `start` being refused at that time.
- The flashing scripts `flash_main_hub.sh` and `flash_main_hub.ps1` are not part of this model.
- `RunFlash` logs the command line as written, which shows the password when a port is passed (see Findings). The corrected display is modelled beside it (`Display`, `DisplayHidesPassword`) and is not wired into the manager.
- The record reader `Decode` is not in the source. It stands for the consumer of the record and is used only to state that the fields are recovered.
- FlashJobs.StripAnsi: characters are kept or dropped as the regular expression `\x1B\[[0-9;?]*[ -/]*[@-~]` would. This is shown by the construction (the three classes are disjoint, so each longest run is the only candidate), not by a proof against a regular-expression semantics.

## Findings

| source | as written | input that shows it | evidently intended | confidence | as-written member | corrected member |
|---|---|---|---|---|---|---|
| bin/flash_gui.py:600 | The logged command masks its last argument (`command[:-1] + ["******"]`). When a port is passed, the last argument is the port, so the password is logged in clear. | system Darwin, script present, password `secretpw1`, port `/dev/cu.usbserial-1`: the log shows `... --password secretpw1 --port '******'` | Mask the password argument (position 5 on macOS, 10 on Windows) and show the port | high, not executed | FlashCommand.DisplayShowsPassword | FlashCommand.DisplayHidesPassword |
