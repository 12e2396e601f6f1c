/**
  The factory-provisioning record that bin/tools/gen_factory_payload.py writes
  into the ESP32 factory partition: a 156-byte little-endian record (magic,
  version, flags, NUL-padded serial suffix, NUL-padded SoftAP password, a
  reserved zero area and a trailing CRC-32 of everything before it), padded
  with 0xFF up to the partition size.

  Python's `str.isalnum` consults the Unicode character database, so it is a
  parameter here (`isAlnum`); the lemmas that need it ask only that it agrees
  with ASCII on the first 128 code points. A non-ASCII character that
  survives sanitising makes `.encode("ascii")` fail, which is an explicit
  error of the model.
 */
module FactoryPayload {
  import opened Wrappers
  import opened Crc32

  const MAGIC: nat := 0x46504346
  const VERSION: nat := 1
  const FLAGS: nat := 1
  const SERIAL_FIELD_LEN: nat := 32
  const PASSWORD_FIELD_LEN: nat := 64
  const RESERVED_LEN: nat := 48
  /** Serial suffixes are cut to this many characters. */
  const SERIAL_MAX_LEN: nat := 28
  /** Header, both fields and the reserved area: the bytes the CRC covers. */
  const BODY_LEN: nat := 152
  const RECORD_LEN: nat := 156

  datatype SerialError = NoValidCharacter
  datatype PasswordError = PasswordLength | PasswordNotPrintable
  /** `.encode("ascii")` failed on the serial suffix or on the password. */
  datatype EncodeError = SerialNotAscii | PasswordNotAscii
  datatype ImageError =
    | PartitionSizeNotPositive
    | SerialInvalid(serialError: SerialError)
    | PasswordInvalid(passwordError: PasswordError)
    | NotAscii(encodeError: EncodeError)
    | PayloadTooLarge(payloadLength: nat, partitionSize: nat)

  // ---------------------------------------------------------------- serial

  predicate IsAsciiAlnum(c: char) {
    ('a' <= c <= 'z') || ('A' <= c <= 'Z') || ('0' <= c <= '9')
  }

  /** `isAlnum` agrees with Python's `str.isalnum` on the ASCII range. */
  predicate Classifies(isAlnum: char -> bool) {
    forall c: char :: c < '\U{80}' ==> (isAlnum(c) <==> IsAsciiAlnum(c))
  }

  /** `char.isalnum() or char in "_-"`. */
  predicate Allowed(c: char, isAlnum: char -> bool) {
    isAlnum(c) || c == '_' || c == '-'
  }

  /** The characters of `value` that pass the filter, in order. */
  function Kept(value: string, isAlnum: char -> bool): (t: string)
    ensures |t| <= |value|
    ensures forall k :: 0 <= k < |t| ==> Allowed(t[k], isAlnum)
    decreases |value|
  {
    if value == [] then []
    else (if Allowed(value[0], isAlnum) then [value[0]] else []) + Kept(value[1..], isAlnum)
  }

  /** `sanitize_serial`: filter, cut to 28 characters, refuse an empty result. */
  function Sanitized(value: string, isAlnum: char -> bool): Result<string, SerialError> {
    var t := Kept(value, isAlnum);
    var cut := if |t| <= SERIAL_MAX_LEN then t else t[..SERIAL_MAX_LEN];
    if cut == [] then Err(NoValidCharacter) else Ok(cut)
  }

  /** `a` can be obtained from `b` by deleting characters. */
  predicate IsSubsequence(a: string, b: string)
    decreases |b|
  {
    if a == [] then true
    else if b == [] then false
    else if a[0] == b[0] then IsSubsequence(a[1..], b[1..])
    else IsSubsequence(a, b[1..])
  }

  lemma {:induction false} KeptAppend(value: string, c: char, isAlnum: char -> bool)
    ensures Kept(value + [c], isAlnum) == Kept(value, isAlnum) + (if Allowed(c, isAlnum) then [c] else [])
    decreases |value|
  {
    if value == [] {
      assert value + [c] == [c];
    } else {
      assert (value + [c])[1..] == value[1..] + [c];
      KeptAppend(value[1..], c, isAlnum);
    }
  }

  lemma {:induction false} KeptEmpty(value: string, isAlnum: char -> bool)
    ensures Kept(value, isAlnum) == [] <==> forall k :: 0 <= k < |value| ==> !Allowed(value[k], isAlnum)
    decreases |value|
  {
    if value != [] {
      KeptEmpty(value[1..], isAlnum);
      assert forall k :: 1 <= k < |value| ==> value[k] == value[1..][k - 1];
    }
  }

  lemma {:induction false} KeptAllAllowed(value: string, isAlnum: char -> bool)
    requires forall k :: 0 <= k < |value| ==> Allowed(value[k], isAlnum)
    ensures Kept(value, isAlnum) == value
    decreases |value|
  {
    if value != [] {
      KeptAllAllowed(value[1..], isAlnum);
      assert [value[0]] + value[1..] == value;
    }
  }

  lemma {:induction false} KeptSubsequence(value: string, isAlnum: char -> bool)
    ensures IsSubsequence(Kept(value, isAlnum), value)
    decreases |value|
  {
    if value != [] {
      var rest := Kept(value[1..], isAlnum);
      KeptSubsequence(value[1..], isAlnum);
      if Allowed(value[0], isAlnum) {
        assert Kept(value, isAlnum) == [value[0]] + rest;
        assert ([value[0]] + rest)[1..] == rest;
      } else {
        assert Kept(value, isAlnum) == rest;
        assert rest != [] ==> rest[0] != value[0];
      }
    }
  }

  lemma {:induction false} SubsequencePrefix(a: string, b: string, n: nat)
    requires n <= |a| && IsSubsequence(a, b)
    ensures IsSubsequence(a[..n], b)
    decreases |b|
  {
    if n > 0 && b != [] {
      if a[0] == b[0] {
        SubsequencePrefix(a[1..], b[1..], n - 1);
        assert a[..n][1..] == a[1..][..n - 1];
      } else {
        SubsequencePrefix(a, b[1..], n);
      }
    }
  }

  /**
    `sanitize_serial` succeeds exactly when some character passes the filter;
    what it returns is 1 to 28 allowed characters taken from the input in order.
   */
  lemma SanitizedShape(value: string, isAlnum: char -> bool)
    ensures Sanitized(value, isAlnum).Ok? <==> exists k :: 0 <= k < |value| && Allowed(value[k], isAlnum)
    ensures Sanitized(value, isAlnum).Ok? ==>
      var t := Sanitized(value, isAlnum).value;
      1 <= |t| <= SERIAL_MAX_LEN && IsSubsequence(t, value)
      && forall k :: 0 <= k < |t| ==> Allowed(t[k], isAlnum)
  {
    KeptEmpty(value, isAlnum);
    KeptSubsequence(value, isAlnum);
    var t := Kept(value, isAlnum);
    if |t| > SERIAL_MAX_LEN {
      SubsequencePrefix(t, value, SERIAL_MAX_LEN);
    }
  }

  /** Sanitising a sanitised serial returns it unchanged. */
  lemma SanitizeIdempotent(value: string, isAlnum: char -> bool)
    requires Sanitized(value, isAlnum).Ok?
    ensures Sanitized(Sanitized(value, isAlnum).value, isAlnum) == Sanitized(value, isAlnum)
  {
    SanitizedShape(value, isAlnum);
    KeptAllAllowed(Sanitized(value, isAlnum).value, isAlnum);
  }

  /** A sanitised serial holds no NUL, so the NUL padding of its field can end it. */
  lemma SanitizedHasNoNul(value: string, isAlnum: char -> bool)
    requires Classifies(isAlnum) && Sanitized(value, isAlnum).Ok?
    ensures '\0' !in Sanitized(value, isAlnum).value
  {
    SanitizedShape(value, isAlnum);
    assert !isAlnum('\0');
  }

  /** The loop of `sanitize_serial`, appending each allowed character to `filtered`. */
  method SanitizeSerial(value: string, isAlnum: char -> bool) returns (r: Result<string, SerialError>)
    ensures r == Sanitized(value, isAlnum)
  {
    var filtered: string := [];
    for i := 0 to |value|
      invariant filtered == Kept(value[..i], isAlnum)
    {
      assert value[..i + 1] == value[..i] + [value[i]];
      KeptAppend(value[..i], value[i], isAlnum);
      if Allowed(value[i], isAlnum) {
        filtered := filtered + [value[i]];
      }
    }
    assert value[..|value|] == value;
    var sanitized := if |filtered| <= SERIAL_MAX_LEN then filtered else filtered[..SERIAL_MAX_LEN];
    if sanitized == [] {
      r := Err(NoValidCharacter);
    } else {
      r := Ok(sanitized);
    }
  }

  // -------------------------------------------------------------- password

  predicate Printable(c: char) {
    ' ' <= c <= '~'
  }

  /** `any(ord(ch) < 32 or ord(ch) > 126 for ch in value)`, scanning from the front. */
  function HasUnprintable(value: string): (b: bool)
    ensures b <==> exists k :: 0 <= k < |value| && !Printable(value[k])
    decreases |value|
  {
    if value == [] then false
    else if !Printable(value[0]) then true
    else
      assert forall k :: 1 <= k < |value| ==> value[k] == value[1..][k - 1];
      HasUnprintable(value[1..])
  }

  /** `validate_password`: the length is checked first, then the characters. */
  function ValidatePassword(value: string): (r: Result<string, PasswordError>)
    ensures r.Ok? <==> 8 <= |value| <= 63 && forall k :: 0 <= k < |value| ==> Printable(value[k])
    ensures r.Ok? ==> r.value == value
    ensures r == Err(PasswordLength) <==> !(8 <= |value| <= 63)
  {
    if !(8 <= |value| <= 63) then Err(PasswordLength)
    else if HasUnprintable(value) then Err(PasswordNotPrintable)
    else Ok(value)
  }

  // --------------------------------------------------------------- encoding

  /** `s.encode("ascii")`: the code points as bytes, or None when one is 128 or above. */
  function EncodeAscii(s: string): (r: Option<seq<byte>>)
    ensures r.Some? <==> forall k :: 0 <= k < |s| ==> s[k] < '\U{80}'
    ensures r.Some? ==> |r.value| == |s| && forall k :: 0 <= k < |s| ==> r.value[k] == s[k] as int
    decreases |s|
  {
    if s == [] then Some([])
    else if s[0] >= '\U{80}' then None
    else match EncodeAscii(s[1..])
      case None => None
      case Some(rest) => Some([s[0] as int] + rest)
  }

  function Pow256(k: nat): (p: nat)
    ensures p >= 1
  {
    if k == 0 then 1 else 256 * Pow256(k - 1)
  }

  /** `n` as `k` little-endian bytes (the low `8k` bits of `n`), as `struct.pack("<I")` and `"<H"` write it. */
  function LE(n: nat, k: nat): (b: seq<byte>)
    ensures |b| == k
  {
    if k == 0 then [] else [n % 256] + LE(n / 256, k - 1)
  }

  /** The number that little-endian bytes denote. */
  function FromLE(b: seq<byte>): nat {
    if b == [] then 0 else b[0] + 256 * FromLE(b[1..])
  }

  lemma {:induction false} FromLERoundTrip(n: nat, k: nat)
    requires n < Pow256(k)
    ensures FromLE(LE(n, k)) == n
  {
    if k > 0 {
      FromLERoundTrip(n / 256, k - 1);
      assert LE(n, k)[1..] == LE(n / 256, k - 1);
    }
  }

  /** `bytes.ljust(width, b"\x00")`: pads with NUL bytes, never truncates. */
  function LJust(b: seq<byte>, width: nat): (r: seq<byte>)
    ensures |r| == if |b| < width then width else |b|
  {
    if |b| < width then b + Zeros(width - |b|) else b
  }

  // ----------------------------------------------------------------- record

  /** `HEADER_STRUCT.pack(MAGIC, VERSION, flags)`. */
  function Header(): seq<byte> {
    LE(MAGIC, 4) + LE(VERSION, 2) + LE(FLAGS, 2)
  }

  /** The bytes the CRC covers. */
  function Body(serial: seq<byte>, password: seq<byte>): seq<byte> {
    Header() + LJust(serial, SERIAL_FIELD_LEN) + LJust(password, PASSWORD_FIELD_LEN) + Zeros(RESERVED_LEN)
  }

  /** What `build_payload` returns for the encoded serial suffix and password. */
  function Record(serial: seq<byte>, password: seq<byte>): seq<byte> {
    var body := Body(serial, password);
    body + LE(ChecksumValue(body), 4)
  }

  /** `build_payload`: encode both strings, then extend the record part by part. */
  method BuildPayload(serialSuffix: string, password: string) returns (r: Result<seq<byte>, EncodeError>)
    ensures EncodeAscii(serialSuffix).None? ==> r == Err(SerialNotAscii)
    ensures EncodeAscii(serialSuffix).Some? && EncodeAscii(password).None? ==> r == Err(PasswordNotAscii)
    ensures r.Ok? <==> EncodeAscii(serialSuffix).Some? && EncodeAscii(password).Some?
    ensures r.Ok? ==> r.value == Record(EncodeAscii(serialSuffix).value, EncodeAscii(password).value)
  {
    var serialBytes := EncodeAscii(serialSuffix);
    if serialBytes.None? {
      return Err(SerialNotAscii);
    }
    var passwordBytes := EncodeAscii(password);
    if passwordBytes.None? {
      return Err(PasswordNotAscii);
    }
    var body: seq<byte> := [];
    body := body + Header();
    assert body == Header();
    body := body + LJust(serialBytes.value, SERIAL_FIELD_LEN);
    body := body + LJust(passwordBytes.value, PASSWORD_FIELD_LEN);
    body := body + Zeros(RESERVED_LEN);
    assert body == Body(serialBytes.value, passwordBytes.value);
    var crc := ChecksumValue(body);
    body := body + LE(crc, 4);
    assert body == Record(serialBytes.value, passwordBytes.value);
    r := Ok(body);
  }

  /** The record is as long as its parts; with fields that fit, 4+2+2+32+64+48+4 = 156 bytes. */
  lemma RecordLength(serial: seq<byte>, password: seq<byte>)
    ensures |Record(serial, password)| ==
      8 + (if |serial| < 32 then 32 else |serial|) + (if |password| < 64 then 64 else |password|) + 52
    ensures |serial| <= SERIAL_FIELD_LEN && |password| <= PASSWORD_FIELD_LEN ==>
      |Record(serial, password)| == RECORD_LEN
  {
  }

  lemma HeaderBytes()
    ensures Header() == [0x46, 0x43, 0x50, 0x46, 1, 0, 1, 0]
  {
    assert LE(MAGIC, 4) == [0x46, 0x43, 0x50, 0x46];
    assert LE(VERSION, 2) == [1, 0] && LE(FLAGS, 2) == [1, 0];
  }

  lemma Pow256Four()
    ensures Pow256(4) == 0x1_0000_0000
  {
  }

  /** The layout of the CRC-covered part of a record whose fields fit. */
  lemma BodyLayout(serial: seq<byte>, password: seq<byte>)
    requires |serial| <= SERIAL_FIELD_LEN && |password| <= PASSWORD_FIELD_LEN
    ensures var body := Body(serial, password);
      |body| == BODY_LEN
      && body[..4] == [0x46, 0x43, 0x50, 0x46] && body[4..6] == [1, 0] && body[6..8] == [1, 0]
      && body[8..40] == serial + Zeros(SERIAL_FIELD_LEN - |serial|)
      && body[40..104] == password + Zeros(PASSWORD_FIELD_LEN - |password|)
      && body[104..] == Zeros(RESERVED_LEN)
  {
    HeaderBytes();
    var h, sf, pf, z := Header(), LJust(serial, SERIAL_FIELD_LEN), LJust(password, PASSWORD_FIELD_LEN), Zeros(RESERVED_LEN);
    var body := Body(serial, password);
    assert body == h + sf + pf + z;
    assert body[..8] == h;
    assert body[8..40] == sf;
    assert body[40..104] == pf;
    assert body[104..] == z;
  }

  /**
    The layout of a record whose fields fit: "FCPF" read as a little-endian
    magic, version 1, flags 1, the serial and the password each followed by
    NUL bytes up to its field's width, 48 zero bytes, and the CRC-32 of bytes
    0..151 as a little-endian 32-bit number.
   */
  lemma RecordLayout(serial: seq<byte>, password: seq<byte>)
    requires |serial| <= SERIAL_FIELD_LEN && |password| <= PASSWORD_FIELD_LEN
    ensures var rec := Record(serial, password);
      |rec| == RECORD_LEN
      && rec[..4] == [0x46, 0x43, 0x50, 0x46] && FromLE(rec[..4]) == MAGIC
      && rec[4..6] == [1, 0] && rec[6..8] == [1, 0]
      && rec[8..40] == serial + Zeros(SERIAL_FIELD_LEN - |serial|)
      && rec[40..104] == password + Zeros(PASSWORD_FIELD_LEN - |password|)
      && (forall k :: 104 <= k < BODY_LEN ==> rec[k] == 0)
      && FromLE(rec[BODY_LEN..]) == ChecksumValue(rec[..BODY_LEN])
  {
    var rec := Record(serial, password);
    var body := Body(serial, password);
    BodyLayout(serial, password);
    assert rec == body + LE(ChecksumValue(body), 4);
    assert rec[..BODY_LEN] == body;
    assert rec[..4] == body[..4];
    assert rec[4..6] == body[4..6] && rec[6..8] == body[6..8];
    assert rec[8..40] == body[8..40];
    assert rec[40..104] == body[40..104];
    assert forall k :: 104 <= k < BODY_LEN ==> rec[k] == body[104..][k - 104];
    assert rec[BODY_LEN..] == LE(ChecksumValue(body), 4);
    TrailerValue(body);
    MagicValue();
  }

  lemma MagicValue()
    ensures FromLE([0x46, 0x43, 0x50, 0x46]) == MAGIC
  {
    assert FromLE([0x46, 0x43, 0x50, 0x46]) == 0x46 + 256 * FromLE([0x43, 0x50, 0x46]);
  }

  /** The 4-byte trailer reads back as the checksum it was written from. */
  lemma TrailerValue(body: seq<byte>)
    ensures FromLE(LE(ChecksumValue(body), 4)) == ChecksumValue(body)
  {
    Pow256Four();
    FromLERoundTrip(ChecksumValue(body), 4);
  }

  // ---------------------------------------------------------------- reading

  /** A field read up to its first NUL byte, as the firmware reads a C string. */
  function ReadField(field: seq<byte>): (s: seq<byte>)
    ensures |s| <= |field| && s == field[..|s|] && 0 !in s
    ensures |s| < |field| ==> field[|s|] == 0
    decreases |field|
  {
    if field == [] || field[0] == 0 then [] else [field[0]] + ReadField(field[1..])
  }

  lemma {:induction false} ReadPadded(s: seq<byte>, n: nat)
    requires 0 !in s
    ensures ReadField(s + Zeros(n)) == s
    decreases |s|
  {
    if s != [] {
      assert (s + Zeros(n))[1..] == s[1..] + Zeros(n);
      ReadPadded(s[1..], n);
      assert [s[0]] + s[1..] == s;
    } else {
      assert s + Zeros(n) == Zeros(n);
    }
  }

  /** A field holding a NUL-free string and NUL padding reads back as that string. */
  lemma ReadPaddedField(field: seq<byte>, s: seq<byte>, n: nat)
    requires 0 !in s && field == s + Zeros(n)
    ensures ReadField(field) == s
  {
    ReadPadded(s, n);
  }

  datatype Fields = Fields(serial: seq<byte>, password: seq<byte>)
  datatype DecodeError = Truncated | ChecksumMismatch | BadMagic | UnsupportedVersion

  /**
    The reader the record is written for: it checks the trailer against the
    CRC-32 of the first 152 bytes, then the magic and the version, and reads
    both fields up to their first NUL. Bytes after the record (the 0xFF
    padding of the partition) are not looked at.
   */
  function Decode(blob: seq<byte>): Result<Fields, DecodeError> {
    if |blob| < RECORD_LEN then Err(Truncated)
    else if FromLE(blob[BODY_LEN..RECORD_LEN]) != ChecksumValue(blob[..BODY_LEN]) then Err(ChecksumMismatch)
    else if FromLE(blob[..4]) != MAGIC then Err(BadMagic)
    else if FromLE(blob[4..6]) != VERSION then Err(UnsupportedVersion)
    else Ok(Fields(ReadField(blob[8..40]), ReadField(blob[40..104])))
  }

  /** A blob laid out as a record of the given fields reads back as those fields. */
  lemma DecodeLaidOut(blob: seq<byte>, serial: seq<byte>, password: seq<byte>)
    requires |serial| <= SERIAL_FIELD_LEN && |password| <= PASSWORD_FIELD_LEN
    requires 0 !in serial && 0 !in password
    requires |blob| >= RECORD_LEN && FromLE(blob[..4]) == MAGIC && blob[4..6] == [1, 0]
    requires blob[8..40] == serial + Zeros(SERIAL_FIELD_LEN - |serial|)
    requires blob[40..104] == password + Zeros(PASSWORD_FIELD_LEN - |password|)
    requires FromLE(blob[BODY_LEN..RECORD_LEN]) == ChecksumValue(blob[..BODY_LEN])
    ensures Decode(blob) == Ok(Fields(serial, password))
  {
    assert FromLE(blob[4..6]) == VERSION by {
      assert FromLE([1, 0]) == VERSION;
    }
    ReadPaddedField(blob[8..40], serial, SERIAL_FIELD_LEN - |serial|);
    ReadPaddedField(blob[40..104], password, PASSWORD_FIELD_LEN - |password|);
  }

  /** A record whose fields fit and hold no NUL reads back as those fields, whatever follows it. */
  lemma DecodeRecord(serial: seq<byte>, password: seq<byte>, rest: seq<byte>)
    requires |serial| <= SERIAL_FIELD_LEN && |password| <= PASSWORD_FIELD_LEN
    requires 0 !in serial && 0 !in password
    ensures Decode(Record(serial, password) + rest) == Ok(Fields(serial, password))
  {
    var rec := Record(serial, password);
    var blob := rec + rest;
    RecordLayout(serial, password);
    assert blob[BODY_LEN..RECORD_LEN] == rec[BODY_LEN..];
    assert blob[..BODY_LEN] == rec[..BODY_LEN];
    assert blob[..4] == rec[..4] && blob[4..6] == rec[4..6];
    assert blob[8..40] == rec[8..40] && blob[40..104] == rec[40..104];
    DecodeLaidOut(blob, serial, password);
  }

  /**
    Changing any one byte of the first 152 without recomputing the trailer
    makes the stored CRC disagree with the contents.
   */
  lemma CorruptionDetected(serial: seq<byte>, password: seq<byte>, k: nat, v: byte)
    requires |serial| <= SERIAL_FIELD_LEN && |password| <= PASSWORD_FIELD_LEN
    requires k < BODY_LEN && v != Record(serial, password)[k]
    ensures FromLE(Record(serial, password)[k := v][BODY_LEN..]) != ChecksumValue(Record(serial, password)[k := v][..BODY_LEN])
    ensures Decode(Record(serial, password)[k := v]) == Err(ChecksumMismatch)
  {
    var rec := Record(serial, password);
    var bad := rec[k := v];
    RecordLayout(serial, password);
    assert bad[..BODY_LEN] == rec[..BODY_LEN][k := v];
    assert bad[BODY_LEN..] == rec[BODY_LEN..];
    assert bad[BODY_LEN..RECORD_LEN] == bad[BODY_LEN..];
    SingleByteChangeDetected(rec[..BODY_LEN], k, v);
  }

  /** Different little-endian byte strings of the same length denote different numbers. */
  lemma {:induction false} FromLEInjective(a: seq<byte>, b: seq<byte>)
    requires |a| == |b| && a != b
    ensures FromLE(a) != FromLE(b)
    decreases |a|
  {
    if a[0] == b[0] {
      assert a == [a[0]] + a[1..] && b == [b[0]] + b[1..];
      FromLEInjective(a[1..], b[1..]);
    } else {
      LowByte(a[0], FromLE(a[1..]));
      LowByte(b[0], FromLE(b[1..]));
    }
  }

  lemma LowByte(low: byte, high: nat)
    ensures (low + 256 * high) % 256 == low
  {
  }

  /**
    Changing any one of the four trailer bytes makes the stored CRC disagree
    with the unchanged contents; together with CorruptionDetected, every
    single-byte change of the record, and so every single-bit error, is
    reported.
   */
  lemma TrailerCorruptionDetected(serial: seq<byte>, password: seq<byte>, k: nat, v: byte)
    requires |serial| <= SERIAL_FIELD_LEN && |password| <= PASSWORD_FIELD_LEN
    requires BODY_LEN <= k < RECORD_LEN && v != Record(serial, password)[k]
    ensures Decode(Record(serial, password)[k := v]) == Err(ChecksumMismatch)
  {
    var rec := Record(serial, password);
    var bad := rec[k := v];
    RecordLayout(serial, password);
    assert bad[..BODY_LEN] == rec[..BODY_LEN];
    assert bad[BODY_LEN..RECORD_LEN] != rec[BODY_LEN..] by {
      assert bad[BODY_LEN..RECORD_LEN][k - BODY_LEN] == v;
    }
    FromLEInjective(bad[BODY_LEN..RECORD_LEN], rec[BODY_LEN..]);
  }

  // ------------------------------------------------------------------ image

  /** `n` bytes of 0xFF, the erased state of flash. */
  function Erased(n: nat): seq<byte> {
    seq(n, _ => 0xFF)
  }

  /**
    What `main` writes to the output file: the checks in the order the tool
    makes them (partition size, serial, password, ASCII encoding, fit), then
    the record over a partition of 0xFF bytes.
   */
  function Image(serialArg: string, passwordArg: string, partitionSize: int, isAlnum: char -> bool)
    : Result<seq<byte>, ImageError>
  {
    if partitionSize <= 0 then Err(PartitionSizeNotPositive)
    else match Sanitized(serialArg, isAlnum)
      case Err(e) => Err(SerialInvalid(e))
      case Ok(suffix) =>
        match ValidatePassword(passwordArg)
        case Err(e) => Err(PasswordInvalid(e))
        case Ok(password) =>
          if EncodeAscii(suffix).None? then Err(NotAscii(SerialNotAscii))
          else if EncodeAscii(password).None? then Err(NotAscii(PasswordNotAscii))
          else
            var payload := Record(EncodeAscii(suffix).value, EncodeAscii(password).value);
            if |payload| > partitionSize then Err(PayloadTooLarge(|payload|, partitionSize))
            else Ok(payload + Erased(partitionSize - |payload|))
  }

  /** `main` from the parsed partition size on: checks, builds, pads (the file write is left out). */
  method BuildImage(serialArg: string, passwordArg: string, partitionSize: int, isAlnum: char -> bool)
    returns (r: Result<seq<byte>, ImageError>)
    ensures r == Image(serialArg, passwordArg, partitionSize, isAlnum)
  {
    if partitionSize <= 0 {
      return Err(PartitionSizeNotPositive);
    }
    var suffix := SanitizeSerial(serialArg, isAlnum);
    if suffix.Err? {
      return Err(SerialInvalid(suffix.error));
    }
    var password := ValidatePassword(passwordArg);
    if password.Err? {
      return Err(PasswordInvalid(password.error));
    }
    var payload := BuildPayload(suffix.value, password.value);
    if payload.Err? {
      return Err(NotAscii(payload.error));
    }
    var bytes := payload.value;
    if |bytes| > partitionSize {
      return Err(PayloadTooLarge(|bytes|, partitionSize));
    }
    var blob := Pad(bytes, partitionSize);
    r := Ok(blob);
  }

  /** `bytearray(b"\xFF" * partition_size)` with the payload written over its start. */
  method Pad(payload: seq<byte>, partitionSize: nat) returns (blob: seq<byte>)
    requires |payload| <= partitionSize
    ensures blob == payload + Erased(partitionSize - |payload|)
  {
    var image := new byte[partitionSize](_ => 0xFF);
    for i := 0 to |payload|
      invariant image[..i] == payload[..i]
      invariant forall k :: i <= k < image.Length ==> image[k] == 0xFF
    {
      image[i] := payload[i];
    }
    assert image[..] == payload + Erased(partitionSize - |payload|);
    blob := image[..];
  }

  /** Valid passwords are printable ASCII, so they always encode. */
  lemma ValidPasswordEncodes(value: string)
    requires ValidatePassword(value).Ok?
    ensures EncodeAscii(value).Some? && 0 !in EncodeAscii(value).value
  {
  }

  /** The record followed by `n` erased bytes: the record, then 0xFF, and it reads back as the fields. */
  lemma PaddedRecord(serial: seq<byte>, password: seq<byte>, n: nat)
    requires |serial| <= SERIAL_FIELD_LEN && |password| <= PASSWORD_FIELD_LEN
    requires 0 !in serial && 0 !in password
    ensures var blob := Record(serial, password) + Erased(n);
      |blob| == RECORD_LEN + n
      && blob[..RECORD_LEN] == Record(serial, password)
      && (forall k :: RECORD_LEN <= k < |blob| ==> blob[k] == 0xFF)
      && Decode(blob) == Ok(Fields(serial, password))
  {
    var payload := Record(serial, password);
    var blob := payload + Erased(n);
    RecordLength(serial, password);
    assert blob[..RECORD_LEN] == payload;
    DecodeRecord(serial, password, Erased(n));
  }

  /**
    The partition image: refused for a size of 0 or less; otherwise it exists
    exactly when the serial has an allowed character, every surviving
    character is ASCII, the password is valid and the partition holds 156
    bytes. It is then exactly `partition_size` bytes: the record, then 0xFF,
    and it reads back as the sanitised serial and the password.
   */
  lemma ImageProperties(serialArg: string, passwordArg: string, partitionSize: int, isAlnum: char -> bool)
    requires Classifies(isAlnum)
    ensures partitionSize <= 0 ==> Image(serialArg, passwordArg, partitionSize, isAlnum) == Err(PartitionSizeNotPositive)
    ensures Image(serialArg, passwordArg, partitionSize, isAlnum).Ok? <==>
      partitionSize >= RECORD_LEN && Sanitized(serialArg, isAlnum).Ok?
      && EncodeAscii(Sanitized(serialArg, isAlnum).value).Some? && ValidatePassword(passwordArg).Ok?
    ensures Image(serialArg, passwordArg, partitionSize, isAlnum).Ok? ==>
      var blob := Image(serialArg, passwordArg, partitionSize, isAlnum).value;
      var serial := EncodeAscii(Sanitized(serialArg, isAlnum).value).value;
      var password := EncodeAscii(passwordArg).value;
      |blob| == partitionSize
      && blob[..RECORD_LEN] == Record(serial, password)
      && (forall k :: RECORD_LEN <= k < |blob| ==> blob[k] == 0xFF)
      && Decode(blob) == Ok(Fields(serial, password))
  {
    if partitionSize > 0 && Sanitized(serialArg, isAlnum).Ok? && ValidatePassword(passwordArg).Ok? {
      var suffix := Sanitized(serialArg, isAlnum).value;
      SanitizedShape(serialArg, isAlnum);
      ValidPasswordEncodes(passwordArg);
      if EncodeAscii(suffix).Some? {
        var serial := EncodeAscii(suffix).value;
        var password := EncodeAscii(passwordArg).value;
        SanitizedHasNoNul(serialArg, isAlnum);
        assert 0 !in serial;
        RecordLength(serial, password);
        if partitionSize >= RECORD_LEN {
          PaddedRecord(serial, password, partitionSize - RECORD_LEN);
        }
      }
    }
  }
}
