/**
  The identity of a flashed unit in bin/flash_gui.py: the range checks on the
  year and month of manufacture, the identifier `CCbb-yymmssss` that is both
  the serial suffix and the SSID, and the password table read from
  passwords.csv together with its lookup.
 */
module UnitIdentity {
  import opened Wrappers
  import opened Text

  const SERIAL_MIN: int := 1
  const SERIAL_MAX: int := 100
  const YEAR_MIN: int := 0
  const YEAR_MAX: int := 99
  const MONTH_MIN: int := 1
  const MONTH_MAX: int := 12
  const IDENTIFIER_PREFIX: string := "CC"

  /** The outcome of a validator: nothing, or the message of the ValueError it raises. */
  datatype Check = Pass | Fail(message: string)

  lemma TwoDigitBounds()
    ensures ZeroPad(YEAR_MIN, 2) == "00" && ZeroPad(YEAR_MAX, 2) == "99"
    ensures ZeroPad(MONTH_MIN, 2) == "01" && ZeroPad(MONTH_MAX, 2) == "12"
    ensures Str(SERIAL_MIN) == "1" && Str(SERIAL_MAX) == "100"
  {
    assert Repeat('0', 1) == "0";
    assert Decimal(12) == Decimal(1) + "2";
    assert Decimal(100) == Decimal(10) + "0";
  }

  /** `validate_year`: 0..99, otherwise a ValueError. */
  function ValidateYear(value: int): (r: Check)
    ensures r.Pass? <==> 0 <= value <= 99
    ensures r.Fail? ==> r.message == "Year must be between 00 and 99."
  {
    TwoDigitBounds();
    if YEAR_MIN <= value <= YEAR_MAX then Pass
    else Fail("Year must be between " + ZeroPad(YEAR_MIN, 2) + " and " + ZeroPad(YEAR_MAX, 2) + ".")
  }

  /** `validate_month`: 1..12, otherwise a ValueError. */
  function ValidateMonth(value: int): (r: Check)
    ensures r.Pass? <==> 1 <= value <= 12
    ensures r.Fail? ==> r.message == "Month must be between 01 and 12."
  {
    TwoDigitBounds();
    if MONTH_MIN <= value <= MONTH_MAX then Pass
    else Fail("Month must be between " + ZeroPad(MONTH_MIN, 2) + " and " + ZeroPad(MONTH_MAX, 2) + ".")
  }

  /** `format_identifier`: "CC", batch (2 digits or more), "-", year (2), month (2), serial (4). */
  function FormatIdentifier(batch: int, year: int, month: int, serial: int): string {
    IDENTIFIER_PREFIX + ZeroPad(batch, 2) + "-" + ZeroPad(year, 2) + ZeroPad(month, 2) + ZeroPad(serial, 4)
  }

  /**
    The fields of an identifier can be read back from its end: the last four
    characters are the serial, the two before them the month, the two before
    those the year, then a '-', and between "CC" and the '-' the batch. A batch
    below 100 makes the identifier 13 characters long.
   */
  lemma IdentifierLayout(batch: nat, year: nat, month: nat, serial: nat)
    requires year <= 99 && month <= 99 && serial <= 9999
    ensures var id := FormatIdentifier(batch, year, month, serial); var n := |id|;
      n >= 13 && id[..2] == "CC" && id[n - 9] == '-'
      && AllDigits(id[2..n - 9]) && DigitsValue(id[2..n - 9]) == batch
      && AllDigits(id[n - 8..n - 6]) && DigitsValue(id[n - 8..n - 6]) == year
      && AllDigits(id[n - 6..n - 4]) && DigitsValue(id[n - 6..n - 4]) == month
      && AllDigits(id[n - 4..]) && DigitsValue(id[n - 4..]) == serial
    ensures batch < 100 ==> |FormatIdentifier(batch, year, month, serial)| == 13
  {
    var b, y, m, s := ZeroPad(batch, 2), ZeroPad(year, 2), ZeroPad(month, 2), ZeroPad(serial, 4);
    ZeroPadRoundTrip(batch, 2);
    ZeroPadWidth(year, 2);
    ZeroPadWidth(month, 2);
    ZeroPadWidth(serial, 4);
    ZeroPadRoundTrip(year, 2);
    ZeroPadRoundTrip(month, 2);
    ZeroPadRoundTrip(serial, 4);
    IdentifierPieces(b, y, m, s);
    if batch < 100 {
      ZeroPadWidth(batch, 2);
    }
  }

  /** Where each piece of "CC" + b + "-" + y + m + s sits, counted from the end. */
  lemma IdentifierPieces(b: string, y: string, m: string, s: string)
    requires |b| >= 2 && |y| == 2 && |m| == 2 && |s| == 4
    ensures var id := IDENTIFIER_PREFIX + b + "-" + y + m + s; var n := |id|;
      n == |b| + 11 && id[..2] == "CC" && id[n - 9] == '-'
      && id[2..n - 9] == b && id[n - 8..n - 6] == y && id[n - 6..n - 4] == m && id[n - 4..] == s
  {
  }

  /** Different units in range get different identifiers (and so different SSIDs). */
  lemma IdentifierInjective(b1: nat, y1: nat, m1: nat, s1: nat, b2: nat, y2: nat, m2: nat, s2: nat)
    requires y1 <= 99 && m1 <= 99 && s1 <= 9999 && y2 <= 99 && m2 <= 99 && s2 <= 9999
    requires FormatIdentifier(b1, y1, m1, s1) == FormatIdentifier(b2, y2, m2, s2)
    ensures b1 == b2 && y1 == y2 && m1 == m2 && s1 == s2
  {
    IdentifierLayout(b1, y1, m1, s1);
    IdentifierLayout(b2, y2, m2, s2);
  }

  // ------------------------------------------------------------ password db

  /**
    A row of passwords.csv as `csv.DictReader` yields it: `int(row["batch"])` and
    `int(row["serial"])` (None where `int` raises) and the password cell (None
    when the row has no such cell).
   */
  datatype Row = Row(batch: Option<int>, serial: Option<int>, password: Option<string>)

  /** Why `load` stopped; the index is the row's position among the data rows. */
  datatype LoadError =
    | InvalidNumber(row: nat)
    | MissingPassword(row: nat)
    | SerialOutOfRange(serial: int)
    | PasswordLengthInvalid(batch: int, serial: int)
    | DuplicateEntry(batch: int, serial: int)

  datatype LoadState = LoadState(entries: map<(int, int), string>, error: Option<LoadError>)

  /** One iteration of the row loop of `load`, in the order it makes its checks. */
  function Accept(entries: map<(int, int), string>, row: Row, index: nat): LoadState {
    if row.batch.None? || row.serial.None? then LoadState(entries, Some(InvalidNumber(index)))
    else if row.password.None? then LoadState(entries, Some(MissingPassword(index)))
    else
      var batch, serial, password := row.batch.value, row.serial.value, Strip(row.password.value);
      if !(SERIAL_MIN <= serial <= SERIAL_MAX) then LoadState(entries, Some(SerialOutOfRange(serial)))
      else if |password| < 8 || |password| > 63 then LoadState(entries, Some(PasswordLengthInvalid(batch, serial)))
      else if (batch, serial) in entries then LoadState(entries, Some(DuplicateEntry(batch, serial)))
      else LoadState(entries[(batch, serial) := password], None)
  }

  /** The table after `load` has read `rows` from an emptied table, stopping at the first bad row. */
  function Ingest(rows: seq<Row>): LoadState
    decreases |rows|
  {
    if rows == [] then LoadState(map[], None)
    else
      var before := Ingest(rows[..|rows| - 1]);
      if before.error.Some? then before else Accept(before.entries, rows[|rows| - 1], |rows| - 1)
  }

  /** A row that `load` accepts when its key is new. */
  predicate RowValid(row: Row) {
    row.batch.Some? && row.serial.Some? && row.password.Some?
    && SERIAL_MIN <= row.serial.value <= SERIAL_MAX && 8 <= |Strip(row.password.value)| <= 63
  }

  function Key(row: Row): (int, int)
    requires RowValid(row)
  {
    (row.batch.value, row.serial.value)
  }

  function StoredPassword(row: Row): string
    requires RowValid(row)
  {
    Strip(row.password.value)
  }

  /** Every row valid and no key twice. */
  predicate AllAccepted(rows: seq<Row>) {
    (forall i :: 0 <= i < |rows| ==> RowValid(rows[i]))
    && (forall i, j :: 0 <= i < j < |rows| && RowValid(rows[i]) && RowValid(rows[j]) ==> Key(rows[i]) != Key(rows[j]))
  }

  /** One row either stops the loop, leaving the table as it was, or adds its new key. */
  lemma AcceptCases(entries: map<(int, int), string>, row: Row, index: nat)
    ensures Accept(entries, row, index).error.None? <==> RowValid(row) && Key(row) !in entries
    ensures Accept(entries, row, index).entries ==
      if Accept(entries, row, index).error.None? then entries[Key(row) := StoredPassword(row)] else entries
    ensures row.batch.None? || row.serial.None? ==> Accept(entries, row, index).error == Some(InvalidNumber(index))
    ensures row.batch.Some? && row.serial.Some? && row.password.None? ==>
      Accept(entries, row, index).error == Some(MissingPassword(index))
    ensures (row.batch.Some? && row.serial.Some? && row.password.Some?
             && !(SERIAL_MIN <= row.serial.value <= SERIAL_MAX)) ==>
      Accept(entries, row, index).error == Some(SerialOutOfRange(row.serial.value))
    ensures (row.batch.Some? && row.serial.Some? && row.password.Some?
             && SERIAL_MIN <= row.serial.value <= SERIAL_MAX && !(8 <= |Strip(row.password.value)| <= 63)) ==>
      Accept(entries, row, index).error == Some(PasswordLengthInvalid(row.batch.value, row.serial.value))
    ensures RowValid(row) && Key(row) in entries ==>
      Accept(entries, row, index).error == Some(DuplicateEntry(row.batch.value, row.serial.value))
  {
    var r := Accept(entries, row, index);
    if row.batch.Some? && row.serial.Some? && row.password.Some? {
      var key, password := (row.batch.value, row.serial.value), Strip(row.password.value);
      if SERIAL_MIN <= row.serial.value <= SERIAL_MAX && 8 <= |password| <= 63 {
        assert RowValid(row) && Key(row) == key && StoredPassword(row) == password;
        if key in entries {
          assert r.entries == entries && r.error.Some?;
        } else {
          assert r == LoadState(entries[key := password], None);
        }
      } else {
        assert !RowValid(row) && r.error.Some? && r.entries == entries;
      }
    }
  }

  lemma IngestStep(rows: seq<Row>)
    requires rows != []
    ensures var before := Ingest(rows[..|rows| - 1]);
      Ingest(rows) == if before.error.Some? then before else Accept(before.entries, rows[|rows| - 1], |rows| - 1)
  {
  }

  lemma {:induction false} IngestAfterError(rows: seq<Row>, n: nat)
    requires n <= |rows| && Ingest(rows[..n]).error.Some?
    ensures Ingest(rows) == Ingest(rows[..n])
    decreases |rows| - n
  {
    if n < |rows| {
      assert rows[..n + 1][..n] == rows[..n];
      IngestAfterError(rows, n + 1);
    } else {
      assert rows[..n] == rows;
    }
  }

  /** A table entry as `load` admits it: serial in range, stripped password of 8 to 63 characters. */
  predicate EntryWellFormed(key: (int, int), password: string) {
    SERIAL_MIN <= key.1 <= SERIAL_MAX && 8 <= |password| <= 63 && Strip(password) == password
  }

  predicate TableWellFormed(entries: map<(int, int), string>) {
    forall key :: key in entries ==> EntryWellFormed(key, entries[key])
  }

  /**
    Every entry `load` keeps, whether or not it finished, has a serial in
    1..100 and a stripped password of 8 to 63 characters.
   */
  lemma {:induction false} IngestWellFormed(rows: seq<Row>)
    ensures TableWellFormed(Ingest(rows).entries)
    decreases |rows|
  {
    if rows != [] {
      var init := rows[..|rows| - 1];
      var last := rows[|rows| - 1];
      var before := Ingest(init);
      IngestWellFormed(init);
      IngestStep(rows);
      if before.error.None? {
        AcceptCases(before.entries, last, |rows| - 1);
        if RowValid(last) && Key(last) !in before.entries {
          StripIdempotent(last.password.value);
          var after := before.entries[Key(last) := StoredPassword(last)];
          assert EntryWellFormed(Key(last), StoredPassword(last));
          forall key | key in after ensures EntryWellFormed(key, after[key]) {
            if key != Key(last) {
              assert EntryWellFormed(key, before.entries[key]);
            }
          }
        }
      }
    }
  }

  /** Each row's key is in the table with that row's stripped password. */
  predicate Covers(entries: map<(int, int), string>, rows: seq<Row>) {
    forall i :: 0 <= i < |rows| ==>
      RowValid(rows[i]) && Key(rows[i]) in entries && entries[Key(rows[i])] == StoredPassword(rows[i])
  }

  /** Every key of the table is some row's key. */
  predicate OnlyRows(entries: map<(int, int), string>, rows: seq<Row>) {
    forall key :: key in entries ==> exists i :: 0 <= i < |rows| && RowValid(rows[i]) && Key(rows[i]) == key
  }

  /**
    `load` finishes exactly when every row is valid and no (batch, serial)
    key occurs twice; the table then maps each row's key to its stripped
    password and holds nothing else.
   */
  lemma {:induction false} IngestCharacterised(rows: seq<Row>)
    ensures Ingest(rows).error.None? <==> AllAccepted(rows)
    ensures Ingest(rows).error.None? ==> Covers(Ingest(rows).entries, rows) && OnlyRows(Ingest(rows).entries, rows)
    decreases |rows|
  {
    if rows != [] {
      var init := rows[..|rows| - 1];
      var last := rows[|rows| - 1];
      assert init + [last] == rows;
      var before := Ingest(init);
      IngestCharacterised(init);
      IngestStep(rows);
      AcceptedSnoc(init, last);
      if before.error.None? {
        AcceptCases(before.entries, last, |rows| - 1);
        if RowValid(last) && Key(last) !in before.entries {
          AppendRow(before.entries, init, last);
        } else if RowValid(last) {
          var i :| 0 <= i < |init| && RowValid(init[i]) && Key(init[i]) == Key(last);
        }
      }
    }
  }

  /** The rows with one more are all accepted when the first ones are and the new one is valid with a new key. */
  lemma AcceptedSnoc(init: seq<Row>, last: Row)
    ensures AllAccepted(init + [last]) <==>
      AllAccepted(init) && RowValid(last)
      && (forall i :: 0 <= i < |init| && RowValid(init[i]) ==> Key(init[i]) != Key(last))
  {
    var all := init + [last];
    assert forall i :: 0 <= i < |init| ==> all[i] == init[i];
    assert all[|init|] == last;
    if AllAccepted(all) {
      forall i, j | 0 <= i < j < |init| && RowValid(init[i]) && RowValid(init[j])
        ensures Key(init[i]) != Key(init[j])
      {
        assert all[i] == init[i] && all[j] == init[j];
      }
    }
  }

  /** Accepting a valid row with a new key keeps the table in step with the rows read so far. */
  lemma AppendRow(entries: map<(int, int), string>, rows: seq<Row>, row: Row)
    requires AllAccepted(rows) && Covers(entries, rows) && OnlyRows(entries, rows)
    requires RowValid(row) && Key(row) !in entries
    ensures AllAccepted(rows + [row])
    ensures Covers(entries[Key(row) := StoredPassword(row)], rows + [row])
    ensures OnlyRows(entries[Key(row) := StoredPassword(row)], rows + [row])
  {
    AppendRowAccepted(entries, rows, row);
    AppendRowCovers(entries, rows, row);
    AppendRowOnly(entries, rows, row);
  }

  lemma AppendRowAccepted(entries: map<(int, int), string>, rows: seq<Row>, row: Row)
    requires AllAccepted(rows) && Covers(entries, rows)
    requires RowValid(row) && Key(row) !in entries
    ensures AllAccepted(rows + [row])
  {
    var all := rows + [row];
    assert forall i :: 0 <= i < |rows| ==> all[i] == rows[i];
    forall i, j | 0 <= i < j < |all| && RowValid(all[i]) && RowValid(all[j]) ensures Key(all[i]) != Key(all[j]) {
      if j == |rows| {
        assert Key(all[i]) in entries;
      }
    }
  }

  lemma AppendRowCovers(entries: map<(int, int), string>, rows: seq<Row>, row: Row)
    requires Covers(entries, rows)
    requires RowValid(row) && Key(row) !in entries
    ensures Covers(entries[Key(row) := StoredPassword(row)], rows + [row])
  {
    var all := rows + [row];
    var after := entries[Key(row) := StoredPassword(row)];
    forall i | 0 <= i < |all|
      ensures RowValid(all[i]) && Key(all[i]) in after && after[Key(all[i])] == StoredPassword(all[i])
    {
      if i < |rows| {
        assert all[i] == rows[i];
        assert Key(rows[i]) in entries;
      }
    }
  }

  lemma AppendRowOnly(entries: map<(int, int), string>, rows: seq<Row>, row: Row)
    requires OnlyRows(entries, rows)
    requires RowValid(row)
    ensures OnlyRows(entries[Key(row) := StoredPassword(row)], rows + [row])
  {
    var all := rows + [row];
    var after := entries[Key(row) := StoredPassword(row)];
    forall key | key in after ensures exists i :: 0 <= i < |all| && RowValid(all[i]) && Key(all[i]) == key {
      if key != Key(row) {
        var i :| 0 <= i < |rows| && RowValid(rows[i]) && Key(rows[i]) == key;
        assert all[i] == rows[i];
      } else {
        assert all[|rows|] == row;
      }
    }
  }

  /** What `lookup` returns: the unit's fields, its identifier as serial and SSID, and its password. */
  datatype UnitRecord = UnitRecord(
    batch: int, year: int, month: int, serialNumber: int,
    serial: string, ssid: string, password: string)

  /** The messages of the ValueErrors `lookup` raises for a bad batch or serial or a missing entry. */
  const BATCH_NOT_POSITIVE: string := "Batch number must be positive."

  function SerialRangeMessage(): (m: string)
    ensures m == "Serial must be between 1 and 100."
  {
    TwoDigitBounds();
    "Serial must be between " + Str(SERIAL_MIN) + " and " + Str(SERIAL_MAX) + "."
  }

  function NoEntryMessage(batch: int, serial: int): string {
    "No password entry for batch " + Str(batch) + " serial " + ZeroPad(serial, 4) + "."
  }

  class PasswordDatabase {
    var entries: map<(int, int), string>

    constructor ()
      ensures entries == map[]
    {
      entries := map[];
    }

    /**
      `load` over the parsed rows: the table is emptied, then filled row by
      row; the first bad row stops the loop and the rows before it stay.
     */
    method Load(rows: seq<Row>) returns (error: Option<LoadError>)
      modifies this
      ensures entries == Ingest(rows).entries && error == Ingest(rows).error
    {
      entries := map[];
      error := None;
      for i := 0 to |rows|
        invariant Ingest(rows[..i]) == LoadState(entries, None)
        invariant error.None?
      {
        assert rows[..i + 1][..i] == rows[..i];
        var row := rows[i];
        if row.batch.None? || row.serial.None? {
          error := Some(InvalidNumber(i));
        } else if row.password.None? {
          error := Some(MissingPassword(i));
        } else {
          var batch, serial := row.batch.value, row.serial.value;
          var password := Strip(row.password.value);
          if !(SERIAL_MIN <= serial <= SERIAL_MAX) {
            error := Some(SerialOutOfRange(serial));
          } else if |password| < 8 || |password| > 63 {
            error := Some(PasswordLengthInvalid(batch, serial));
          } else if (batch, serial) in entries {
            error := Some(DuplicateEntry(batch, serial));
          } else {
            entries := entries[(batch, serial) := password];
          }
        }
        if error.Some? {
          IngestAfterError(rows, i + 1);
          return;
        }
      }
      assert rows[..|rows|] == rows;
    }

    /**
      `lookup`: the batch, the serial, the year and the month are checked in
      that order, then the entry is looked up.
     */
    function Lookup(batch: int, serial: int, year: int, month: int): (r: Result<UnitRecord, string>)
      reads this
      ensures r.Ok? <==> (batch > 0 && SERIAL_MIN <= serial <= SERIAL_MAX && 0 <= year <= 99
        && 1 <= month <= 12 && (batch, serial) in entries)
      ensures r.Ok? ==> var id := FormatIdentifier(batch, year, month, serial);
        r.value == UnitRecord(batch, year, month, serial, id, id, entries[(batch, serial)])
      ensures batch <= 0 ==> r == Err(BATCH_NOT_POSITIVE)
      ensures batch > 0 && !(SERIAL_MIN <= serial <= SERIAL_MAX) ==> r == Err("Serial must be between 1 and 100.")
      ensures batch > 0 && SERIAL_MIN <= serial <= SERIAL_MAX && !(0 <= year <= 99) ==>
        r == Err("Year must be between 00 and 99.")
      ensures batch > 0 && SERIAL_MIN <= serial <= SERIAL_MAX && 0 <= year <= 99 && !(1 <= month <= 12) ==>
        r == Err("Month must be between 01 and 12.")
      ensures (batch > 0 && SERIAL_MIN <= serial <= SERIAL_MAX && 0 <= year <= 99 && 1 <= month <= 12
        && (batch, serial) !in entries) ==> r == Err(NoEntryMessage(batch, serial))
    {
      TwoDigitBounds();
      if batch <= 0 then Err(BATCH_NOT_POSITIVE)
      else if !(SERIAL_MIN <= serial <= SERIAL_MAX) then Err(SerialRangeMessage())
      else if ValidateYear(year).Fail? then Err(ValidateYear(year).message)
      else if ValidateMonth(month).Fail? then Err(ValidateMonth(month).message)
      else if (batch, serial) !in entries then Err(NoEntryMessage(batch, serial))
      else
        var id := FormatIdentifier(batch, year, month, serial);
        Ok(UnitRecord(batch, year, month, serial, id, id, entries[(batch, serial)]))
    }
  }

  /**
    After a `load` that finished, looking up a row's batch and serial with a
    positive batch and a valid date gives that row's stripped password.
   */
  lemma LookupAfterLoad(db: PasswordDatabase, rows: seq<Row>, i: nat, year: int, month: int)
    requires db.entries == Ingest(rows).entries && Ingest(rows).error.None?
    requires i < |rows| && 0 <= year <= 99 && 1 <= month <= 12
    requires rows[i].batch.Some? && rows[i].batch.value > 0
    ensures RowValid(rows[i])
      && db.Lookup(Key(rows[i]).0, Key(rows[i]).1, year, month).Ok?
      && db.Lookup(Key(rows[i]).0, Key(rows[i]).1, year, month).value.password == StoredPassword(rows[i])
  {
    IngestCharacterised(rows);
    assert RowValid(rows[i]) && Key(rows[i]) in db.entries;
  }
}
