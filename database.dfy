/**
 * The `db` package's `AdsbDB`: the two tables `current_time_aircraft` and
 * `history_aircraft`, as rows in the order they were added, and the
 * statements the Go code sends. Postgres is modelled by what the SQL text
 * asks of it: the column types and the primary key `(icao, timestamp)`
 * refuse rows, a multi-row INSERT is all or nothing, the retention and
 * visibility windows are measured from the latest timestamp in the table.
 */
module Database {
  import opened Wrappers
  import opened Models
  import opened Numbers
  import opened Strings
  import DateTime
  import GeoJson

  /** Postgres binds at most 65535 parameters per statement; a row has nine. */
  const MaxParameters: nat := 65535
  const Columns: nat := 9
  /** Rows per statement: as many whole rows as fit in the parameter limit. */
  const MaxAircraft: nat := 7281

  /** Seconds the feed is read for (`global.WaitingTime`). */
  const WaitingTime: nat := 4
  /** The windows of `DeleteOldCurrentAircraft` and `GetAllCurrentAircraft`, in microseconds. */
  const Window: nat := (WaitingTime + 2) * DateTime.MicrosPerSecond

  const MinInt32: int := -0x8000_0000
  const MaxInt32: int := 0x7fff_ffff

  /** A value of a TIMESTAMP column: a date that exists and a time of day. */
  type Moment = c: DateTime.Civil | DateTime.ValidCivil(c) witness DateTime.Civil(1, 1, 1, 0, 0, 0, 0)

  /**
   * A row of `current_time_aircraft`: the record as inserted, and the date
   * and time its timestamp names. Two valid dates and times are the same
   * instant exactly when they are equal (DateTime.MicrosInjective), so the
   * key compares them directly.
   */
  datatype CurrentRow = CurrentRow(ac: AircraftCurrent, at: Moment)

  /** A row of `history_aircraft`. */
  datatype HistoryRow = HistoryRow(icao: string, latitude: real, longitude: real, at: Moment)

  /** Why Postgres refuses a statement. */
  datatype DbError =
    | ValueTooLong        // icao over VARCHAR(6) or callsign over VARCHAR(10)
    | IntegerOutOfRange   // an INT column outside 32 bits
    | InvalidTimestamp    // text that does not name a TIMESTAMP
    | BindMismatch        // the values do not make whole rows of the right types
    | DuplicateKey        // a second row with the same (icao, timestamp)

  /** A bound parameter of a statement. */
  datatype Value = Text(s: string) | Int(i: int) | Decimal(d: real)

  /** A statement and the values bound to its placeholders $1, $2, ... */
  datatype Statement = Statement(sql: string, vals: seq<Value>)

  // ---------------------------------------------------------------------
  // What the table's column types and key accept

  function KeyOf(r: CurrentRow): (string, DateTime.Civil)
  {
    (r.ac.icao, r.at)
  }

  predicate DistinctKeys(rows: seq<CurrentRow>)
  {
    forall i, j :: 0 <= i < j < |rows| ==> KeyOf(rows[i]) != KeyOf(rows[j])
  }

  predicate HasKey(rows: seq<CurrentRow>, key: (string, DateTime.Civil))
  {
    exists k :: 0 <= k < |rows| && KeyOf(rows[k]) == key
  }

  predicate InInt32(n: int)
  {
    MinInt32 <= n <= MaxInt32
  }

  /** The first column of a record that its column type refuses, if any. */
  function Refusal(ac: AircraftCurrent): Option<DbError>
  {
    if |ac.icao| > 6 || |ac.callsign| > 10 then Some(ValueTooLong)
    else if !(InInt32(ac.altitude) && InInt32(ac.speed) && InInt32(ac.track) && InInt32(ac.verticalRate)) then
      Some(IntegerOutOfRange)
    else if DateTime.ParseTimestamp(ac.timestamp).None? then Some(InvalidTimestamp)
    else None
  }

  /** The date and time a row's timestamp names; only rows whose timestamp parses are ever added. */
  function AtOf(ac: AircraftCurrent): Moment
  {
    match DateTime.ParseTimestamp(ac.timestamp)
    case Some(c) => c
    case None => DateTime.Civil(1, 1, 1, 0, 0, 0, 0)
  }

  /** The row a record becomes. */
  function RowOf(ac: AircraftCurrent): CurrentRow
  {
    CurrentRow(ac, AtOf(ac))
  }

  function RowsOf(rows: seq<AircraftCurrent>): (r: seq<CurrentRow>)
    ensures |r| == |rows|
  {
    if rows == [] then [] else [RowOf(rows[0])] + RowsOf(rows[1..])
  }

  lemma {:induction false} RowsOfAt(rows: seq<AircraftCurrent>, i: nat)
    requires i < |rows|
    ensures RowsOf(rows)[i] == RowOf(rows[i])
  {
    if i > 0 {
      RowsOfAt(rows[1..], i - 1);
    }
  }

  lemma {:induction false} RowsOfConcat(a: seq<AircraftCurrent>, b: seq<AircraftCurrent>)
    ensures RowsOf(a + b) == RowsOf(a) + RowsOf(b)
  {
    if a != [] {
      assert (a + b)[1..] == a[1..] + b;
      RowsOfConcat(a[1..], b);
    } else {
      assert a + b == b;
    }
  }

  /** Every record's values fit their columns. */
  predicate Acceptable(rows: seq<AircraftCurrent>)
  {
    rows == [] || (Refusal(rows[0]).None? && Acceptable(rows[1..]))
  }

  lemma {:induction false} AcceptableAt(rows: seq<AircraftCurrent>, i: nat)
    requires Acceptable(rows) && i < |rows|
    ensures Refusal(rows[i]).None?
  {
    if i > 0 {
      AcceptableAt(rows[1..], i - 1);
    }
  }

  lemma {:induction false} AcceptableConcat(a: seq<AircraftCurrent>, b: seq<AircraftCurrent>)
    ensures Acceptable(a + b) <==> Acceptable(a) && Acceptable(b)
  {
    if a != [] {
      assert (a + b)[1..] == a[1..] + b;
      AcceptableConcat(a[1..], b);
    } else {
      assert a + b == b;
    }
  }

  /** Every row of the current table was accepted, its instant is its timestamp's, and no key repeats. */
  predicate ValidCurrent(rows: seq<CurrentRow>)
  {
    && DistinctKeys(rows)
    && forall i :: 0 <= i < |rows| ==> Refusal(rows[i].ac).None? && DateTime.ParseTimestamp(rows[i].ac.timestamp) == Some(rows[i].at)
  }

  /** The first refusal among records, in row order. */
  function FirstRefusal(rows: seq<AircraftCurrent>): (e: Option<DbError>)
    ensures e.None? <==> Acceptable(rows)
  {
    if rows == [] then None
    else if Refusal(rows[0]).Some? then Refusal(rows[0])
    else FirstRefusal(rows[1..])
  }

  /** Adding rows one by one; a key already in the table refuses the statement. */
  function AddRows(table: seq<CurrentRow>, rows: seq<AircraftCurrent>): Result<seq<CurrentRow>, DbError>
    decreases |rows|
  {
    if rows == [] then Success(table)
    else
      var row := RowOf(rows[0]);
      if HasKey(table, KeyOf(row)) then Failure(DuplicateKey)
      else AddRows(table + [row], rows[1..])
  }

  /** A multi-row INSERT: every value must be accepted, then every key must be new; otherwise nothing is added. */
  function InsertRows(table: seq<CurrentRow>, rows: seq<AircraftCurrent>): Result<seq<CurrentRow>, DbError>
  {
    match FirstRefusal(rows)
    case Some(e) => Failure(e)
    case None => AddRows(table, rows)
  }

  lemma Assoc<T>(a: seq<T>, b: seq<T>, c: seq<T>)
    ensures (a + b) + c == a + (b + c)
  {
  }

  lemma DistinctAppend(table: seq<CurrentRow>, row: CurrentRow)
    requires DistinctKeys(table)
    ensures DistinctKeys(table + [row]) <==> !HasKey(table, KeyOf(row))
  {
    var all := table + [row];
    if HasKey(table, KeyOf(row)) {
      var k :| 0 <= k < |table| && KeyOf(table[k]) == KeyOf(row);
      assert all[k] == table[k] && all[|table|] == row;
    }
  }

  lemma DistinctPrefix(a: seq<CurrentRow>, b: seq<CurrentRow>)
    requires DistinctKeys(a + b)
    ensures DistinctKeys(a)
  {
    forall i, j | 0 <= i < j < |a| ensures KeyOf(a[i]) != KeyOf(a[j]) {
      assert a[i] == (a + b)[i] && a[j] == (a + b)[j];
    }
  }

  /** Adding rows succeeds exactly when no key repeats, and then appends them; otherwise the key clash is reported. */
  lemma {:induction false} AddRowsSpec(table: seq<CurrentRow>, rows: seq<AircraftCurrent>)
    requires DistinctKeys(table)
    ensures AddRows(table, rows).Success? <==> DistinctKeys(table + RowsOf(rows))
    ensures AddRows(table, rows).Success? ==> AddRows(table, rows).value == table + RowsOf(rows)
    ensures AddRows(table, rows).Failure? ==> AddRows(table, rows).error == DuplicateKey
    decreases |rows|
  {
    if rows == [] {
      assert table + RowsOf(rows) == table;
    } else {
      var row := RowOf(rows[0]);
      var rest := rows[1..];
      var longer := table + [row];
      Assoc(table, [row], RowsOf(rest));
      DistinctAppend(table, row);
      if HasKey(table, KeyOf(row)) {
        if DistinctKeys(longer + RowsOf(rest)) {
          DistinctPrefix(longer, RowsOf(rest));
        }
      } else {
        AddRowsSpec(longer, rest);
      }
    }
  }

  /** An INSERT that succeeds appends its rows, whatever the table held. */
  lemma {:induction false} AddRowsAppends(table: seq<CurrentRow>, rows: seq<AircraftCurrent>)
    ensures AddRows(table, rows).Success? ==> AddRows(table, rows).value == table + RowsOf(rows)
    decreases |rows|
  {
    if rows == [] {
      assert table + RowsOf(rows) == table;
    } else if !HasKey(table, KeyOf(RowOf(rows[0]))) {
      AddRowsAppends(table + [RowOf(rows[0])], rows[1..]);
      Assoc(table, [RowOf(rows[0])], RowsOf(rows[1..]));
    }
  }

  /**
   * A multi-row INSERT adds exactly its rows, at the end, when every value
   * is accepted and no key repeats; otherwise the table is unchanged and
   * the statement fails.
   */
  lemma InsertRowsSpec(table: seq<CurrentRow>, rows: seq<AircraftCurrent>)
    requires DistinctKeys(table)
    ensures InsertRows(table, rows).Success? <==> Acceptable(rows) && DistinctKeys(table + RowsOf(rows))
    ensures InsertRows(table, rows).Success? ==> InsertRows(table, rows).value == table + RowsOf(rows)
  {
    if Acceptable(rows) {
      AddRowsSpec(table, rows);
    }
  }

  lemma InsertAppends(table: seq<CurrentRow>, rows: seq<AircraftCurrent>)
    ensures InsertRows(table, rows).Success? ==> Acceptable(rows) && InsertRows(table, rows).value == table + RowsOf(rows)
  {
    AddRowsAppends(table, rows);
  }

  lemma ValidAppend(table: seq<CurrentRow>, rows: seq<AircraftCurrent>)
    requires ValidCurrent(table) && Acceptable(rows) && DistinctKeys(table + RowsOf(rows))
    ensures ValidCurrent(table + RowsOf(rows))
  {
    var all := table + RowsOf(rows);
    forall i | 0 <= i < |all|
      ensures Refusal(all[i].ac).None? && DateTime.ParseTimestamp(all[i].ac.timestamp) == Some(all[i].at)
    {
      if i >= |table| {
        RowsOfAt(rows, i - |table|);
        AcceptableAt(rows, i - |table|);
        assert all[i] == RowOf(rows[i - |table|]);
      }
    }
  }

  // ---------------------------------------------------------------------
  // Chunking: `for i := 0; i < len(aircraft); i += maxAircraft`

  function Flatten<T>(parts: seq<seq<T>>): seq<T>
  {
    if parts == [] then [] else parts[0] + Flatten(parts[1..])
  }

  /** The consecutive slices the insert loop cuts: maxAircraft rows each, the last one shorter. */
  function Chunks(rows: seq<AircraftCurrent>): (cs: seq<seq<AircraftCurrent>>)
    decreases |rows|
  {
    if rows == [] then []
    else if |rows| <= MaxAircraft then [rows]
    else [rows[..MaxAircraft]] + Chunks(rows[MaxAircraft..])
  }

  /**
   * The slices partition the rows in order; each holds between one and
   * maxAircraft rows, and every one but the last is full.
   */
  lemma {:induction false} ChunksPartition(rows: seq<AircraftCurrent>)
    ensures Flatten(Chunks(rows)) == rows
    ensures forall k :: 0 <= k < |Chunks(rows)| ==> 1 <= |Chunks(rows)[k]| <= MaxAircraft
    ensures forall k :: 0 <= k < |Chunks(rows)| - 1 ==> |Chunks(rows)[k]| == MaxAircraft
    decreases |rows|
  {
    if |rows| > MaxAircraft {
      var cs := Chunks(rows);
      var rest := Chunks(rows[MaxAircraft..]);
      ChunksPartition(rows[MaxAircraft..]);
      assert cs[1..] == rest;
      assert forall k :: 1 <= k < |cs| ==> cs[k] == rest[k - 1];
      assert rows == rows[..MaxAircraft] + rows[MaxAircraft..];
    } else if rows != [] {
      assert Flatten(Chunks(rows)) == rows + Flatten([]);
    }
  }

  /** n rows make ⌈n / maxAircraft⌉ statements. */
  lemma {:induction false} ChunksCount(rows: seq<AircraftCurrent>)
    ensures |Chunks(rows)| == (|rows| + MaxAircraft - 1) / MaxAircraft
    decreases |rows|
  {
    if |rows| > MaxAircraft {
      ChunksCount(rows[MaxAircraft..]);
      assert |rows[MaxAircraft..]| == |rows| - MaxAircraft;
    }
  }

  lemma MaxAircraftFits()
    ensures MaxAircraft == MaxParameters / Columns
    ensures Columns * MaxAircraft <= MaxParameters < Columns * (MaxAircraft + 1)
  {
  }

  /** One row over the limit, as in the insertion test, takes two statements of 7281 and 1 rows. */
  lemma OneOverTheLimit(rows: seq<AircraftCurrent>)
    requires |rows| == MaxAircraft + 1
    ensures |Chunks(rows)| == 2 && |Chunks(rows)[0]| == 7281 && |Chunks(rows)[1]| == 1
  {
    assert Chunks(rows[MaxAircraft..]) == [rows[MaxAircraft..]];
  }

  /** No statement binds more parameters than Postgres allows. */
  lemma ParametersFit(rows: seq<AircraftCurrent>, k: nat)
    requires k < |Chunks(rows)|
    ensures Columns * |Chunks(rows)[k]| <= 65529 <= MaxParameters
  {
    ChunksPartition(rows);
  }

  // ---------------------------------------------------------------------
  // The statement of one slice

  const InsertInto: string :=
    "INSERT INTO current_time_aircraft (icao, callsign, altitude, lat, long, speed, track, vspeed, timestamp) VALUES "

  /** The parameter numbers of row j of a slice: $9j+1 to $9j+9. */
  function Params(j: nat): (p: seq<nat>)
    ensures |p| == Columns && forall c :: 0 <= c < Columns ==> p[c] == Columns * j + c + 1
  {
    seq(Columns, c requires 0 <= c < Columns => Columns * j + c + 1)
  }

  /** The parameter numbers of rows 0 to n - 1, in order. */
  function AllParams(n: nat): seq<nat>
  {
    if n == 0 then [] else AllParams(n - 1) + Params(n - 1)
  }

  /** The placeholders of a slice of n rows number the parameters 1 to 9n, each once, in order. */
  lemma {:induction false} AllParamsNumbering(n: nat)
    ensures |AllParams(n)| == Columns * n
    ensures forall p :: 0 <= p < Columns * n ==> AllParams(n)[p] == p + 1
  {
    if n > 0 {
      AllParamsNumbering(n - 1);
      var a, b := AllParams(n - 1), Params(n - 1);
      assert AllParams(n) == a + b;
      forall p | 0 <= p < Columns * n ensures AllParams(n)[p] == p + 1 {
        if p >= Columns * (n - 1) {
          assert AllParams(n)[p] == b[p - Columns * (n - 1)];
        }
      }
    }
  }

  /** Row j's placeholder group, `($9j+1, ..., $9j+9)`. */
  function Placeholder(j: nat): string
  {
    "(" + Join(seq(Columns, c requires 0 <= c < Columns => "$" + Itoa(Params(j)[c])), ", ") + ")"
  }

  /** The placeholder groups of a slice of n rows, in row order. */
  function Placeholders(n: nat): (r: seq<string>)
    ensures |r| == n
  {
    if n == 0 then [] else Placeholders(n - 1) + [Placeholder(n - 1)]
  }

  /** Group j of the placeholders is row j's. */
  lemma {:induction false} PlaceholdersAt(n: nat, j: nat)
    requires j < n
    ensures Placeholders(n)[j] == Placeholder(j)
  {
    if j < n - 1 {
      PlaceholdersAt(n - 1, j);
    }
  }

  /** The nine values of a record, in column order. */
  function RowValues(ac: AircraftCurrent): (v: seq<Value>)
    ensures |v| == Columns
  {
    [Text(ac.icao), Text(ac.callsign), Int(ac.altitude), Decimal(ac.latitude), Decimal(ac.longitude),
     Int(ac.speed), Int(ac.track), Int(ac.verticalRate), Text(ac.timestamp)]
  }

  /** The values of a slice, row after row. */
  function ValuesOf(chunk: seq<AircraftCurrent>): (v: seq<Value>)
    ensures |v| == Columns * |chunk|
  {
    if chunk == [] then [] else ValuesOf(chunk[..|chunk| - 1]) + RowValues(chunk[|chunk| - 1])
  }

  /** A statement's record j, read back from its values $9j+1 to $9j+9. */
  function DecodeRow(v: seq<Value>): Option<AircraftCurrent>
    requires |v| == Columns
  {
    if v[0].Text? && v[1].Text? && v[2].Int? && v[3].Decimal? && v[4].Decimal? && v[5].Int? && v[6].Int?
       && v[7].Int? && v[8].Text? then
      Some(AircraftCurrent(v[0].s, v[1].s, v[2].i, v[3].d, v[4].d, v[5].i, v[6].i, v[7].i, v[8].s))
    else None
  }

  /** What the server makes of the bound values: whole rows of the column types, or None. */
  function DecodeRows(v: seq<Value>): Option<seq<AircraftCurrent>>
    decreases |v|
  {
    if v == [] then Some([])
    else if |v| < Columns then None
    else match (DecodeRow(v[..Columns]), DecodeRows(v[Columns..]))
      case (Some(ac), Some(rest)) => Some([ac] + rest)
      case _ => None
  }

  lemma {:induction false} ValuesOfCons(ac: AircraftCurrent, rest: seq<AircraftCurrent>)
    ensures ValuesOf([ac] + rest) == RowValues(ac) + ValuesOf(rest)
    decreases |rest|
  {
    if rest != [] {
      var last := rest[|rest| - 1];
      assert ([ac] + rest)[..|rest|] == [ac] + rest[..|rest| - 1];
      ValuesOfCons(ac, rest[..|rest| - 1]);
    } else {
      assert ([ac] + rest)[..0] == [];
    }
  }

  /** The server reads a slice's values back as the slice: `vals` holds nine values per row in column order. */
  lemma {:induction false} DecodeValues(chunk: seq<AircraftCurrent>)
    ensures DecodeRows(ValuesOf(chunk)) == Some(chunk)
    decreases |chunk|
  {
    if chunk != [] {
      var rest := chunk[1..];
      assert chunk == [chunk[0]] + rest;
      ValuesOfCons(chunk[0], rest);
      var v := ValuesOf(chunk);
      assert v[..Columns] == RowValues(chunk[0]);
      assert v[Columns..] == ValuesOf(rest);
      DecodeValues(rest);
      DecodeRowValues(chunk[0]);
      assert DecodeRows(v) == Some([chunk[0]] + rest);
    }
  }

  /** The server reads one record's values back as that record. */
  lemma DecodeRowValues(ac: AircraftCurrent)
    ensures DecodeRow(RowValues(ac)) == Some(ac)
  {
  }

  /** The statement the loop sends for a slice. */
  function StatementOf(chunk: seq<AircraftCurrent>): Statement
  {
    Statement(InsertInto + Join(Placeholders(|chunk|), ","), ValuesOf(chunk))
  }

  /** The inner loop: one placeholder group and nine values per row of the slice. */
  method BuildInsert(chunk: seq<AircraftCurrent>) returns (placeholders: seq<string>, vals: seq<Value>)
    ensures placeholders == Placeholders(|chunk|)
    ensures vals == ValuesOf(chunk)
  {
    placeholders, vals := [], [];
    for j := 0 to |chunk|
      invariant placeholders == Placeholders(j)
      invariant vals == ValuesOf(chunk[..j])
    {
      var ac := chunk[j];
      placeholders := placeholders + [Placeholder(j)];
      ValuesOfPrefix(chunk, j);
      vals := vals + [Text(ac.icao), Text(ac.callsign), Int(ac.altitude), Decimal(ac.latitude), Decimal(ac.longitude),
                      Int(ac.speed), Int(ac.track), Int(ac.verticalRate), Text(ac.timestamp)];
    }
    assert chunk[..|chunk|] == chunk;
  }

  /** One more row of the slice adds that row's nine values. */
  lemma ValuesOfPrefix(chunk: seq<AircraftCurrent>, j: nat)
    requires j < |chunk|
    ensures ValuesOf(chunk[..j + 1]) == ValuesOf(chunk[..j]) + RowValues(chunk[j])
  {
    assert chunk[..j + 1][..j] == chunk[..j];
  }

  // ---------------------------------------------------------------------
  // The whole call

  /** The table after a run of statements, the error that stopped it, and the statements sent. */
  datatype Run = Run(table: seq<CurrentRow>, err: Option<DbError>, sent: seq<Statement>)

  /** The slices' statements one after the other, stopping at the first that fails. */
  function ApplyChunks(table: seq<CurrentRow>, cs: seq<seq<AircraftCurrent>>): Run
    decreases |cs|
  {
    if cs == [] then Run(table, None, [])
    else
      var st := StatementOf(cs[0]);
      match InsertRows(table, cs[0])
      case Failure(e) => Run(table, Some(e), [st])
      case Success(t) =>
        var rest := ApplyChunks(t, cs[1..]);
        Run(rest.table, rest.err, [st] + rest.sent)
  }

  lemma FlattenCons<T>(cs: seq<seq<T>>, k: nat)
    requires k < |cs|
    ensures cs[..k + 1] == [cs[0]] + cs[1..][..k]
    ensures Flatten(cs[..k + 1]) == cs[0] + Flatten(cs[1..][..k])
  {
    assert cs[..k + 1] == [cs[0]] + cs[1..][..k];
    assert ([cs[0]] + cs[1..][..k])[1..] == cs[1..][..k];
  }

  /** The statements sent are those of the first slices, in order, one per slice until the run stops. */
  lemma {:induction false} ApplyChunksSent(table: seq<CurrentRow>, cs: seq<seq<AircraftCurrent>>)
    ensures var r := ApplyChunks(table, cs);
      && |r.sent| <= |cs| && (cs != [] ==> r.sent != [])
      && forall k :: 0 <= k < |r.sent| ==> r.sent[k] == StatementOf(cs[k])
    decreases |cs|
  {
    if cs != [] && InsertRows(table, cs[0]).Success? {
      var t := InsertRows(table, cs[0]).value;
      ApplyChunksSent(t, cs[1..]);
      var rest := ApplyChunks(t, cs[1..]);
      SentCons(StatementOf(cs[0]), rest.sent, cs);
    }
  }

  lemma SentCons(st: Statement, rest: seq<Statement>, cs: seq<seq<AircraftCurrent>>)
    requires cs != [] && st == StatementOf(cs[0]) && |rest| < |cs|
    requires forall k :: 0 <= k < |rest| ==> rest[k] == StatementOf(cs[1..][k])
    ensures forall k :: 0 <= k < |rest| + 1 ==> ([st] + rest)[k] == StatementOf(cs[k])
  {
    forall k | 1 <= k < |rest| + 1 ensures ([st] + rest)[k] == StatementOf(cs[k]) {
      assert ([st] + rest)[k] == rest[k - 1] && cs[1..][k - 1] == cs[k];
    }
  }

  /** When no statement fails, every row is added, in order, one statement per slice. */
  lemma {:induction false} ApplyChunksDone(table: seq<CurrentRow>, cs: seq<seq<AircraftCurrent>>)
    ensures var r := ApplyChunks(table, cs);
      r.err.None? ==> && Acceptable(Flatten(cs)) && r.table == table + RowsOf(Flatten(cs)) && |r.sent| == |cs|
    decreases |cs|
  {
    if cs == [] {
      assert table + RowsOf([]) == table;
    } else {
      InsertAppends(table, cs[0]);
      if InsertRows(table, cs[0]).Success? {
        var t := InsertRows(table, cs[0]).value;
        ApplyChunksDone(t, cs[1..]);
        var rest := ApplyChunks(t, cs[1..]);
        if rest.err.None? {
          DoneStep(table, cs, rest.table);
        }
      }
    }
  }

  /** The rows a completed run added after its first slice, seen from before that slice. */
  lemma DoneStep(table: seq<CurrentRow>, cs: seq<seq<AircraftCurrent>>, last: seq<CurrentRow>)
    requires cs != [] && Acceptable(cs[0]) && Acceptable(Flatten(cs[1..]))
    requires last == (table + RowsOf(cs[0])) + RowsOf(Flatten(cs[1..]))
    ensures Acceptable(Flatten(cs)) && last == table + RowsOf(Flatten(cs))
  {
    RowsOfConcat(cs[0], Flatten(cs[1..]));
    Assoc(table, RowsOf(cs[0]), RowsOf(Flatten(cs[1..])));
    AcceptableConcat(cs[0], Flatten(cs[1..]));
  }

  /**
   * When a statement fails, the slices before it stay added, nothing of it
   * or after it is, the failure is that slice's own, and no statement
   * follows it.
   */
  lemma {:induction false} ApplyChunksStopped(table: seq<CurrentRow>, cs: seq<seq<AircraftCurrent>>)
    ensures var r := ApplyChunks(table, cs);
      r.err.Some? ==> var k := |r.sent| - 1;
        && 0 <= k < |cs| && Acceptable(Flatten(cs[..k]))
        && r.table == table + RowsOf(Flatten(cs[..k]))
        && InsertRows(r.table, cs[k]) == Failure(r.err.value)
    decreases |cs|
  {
    if cs != [] {
      InsertAppends(table, cs[0]);
      match InsertRows(table, cs[0])
      case Failure(e) => {
        assert cs[..0] == [];
        assert RowsOf(Flatten(cs[..0])) == [];
        assert table + RowsOf(Flatten(cs[..0])) == table;
      }
      case Success(t) => {
        ApplyChunksStopped(t, cs[1..]);
        var rest := ApplyChunks(t, cs[1..]);
        if rest.err.Some? {
          var k := |rest.sent| - 1;
          var r := Run(rest.table, rest.err, [StatementOf(cs[0])] + rest.sent);
          assert ApplyChunks(table, cs) == r;
          assert |r.sent| - 1 == k + 1;
          StoppedStep(table, cs, k, rest.table);
          assert cs[1..][k] == cs[k + 1];
          assert InsertRows(r.table, cs[k + 1]) == Failure(r.err.value);
        }
      }
    }
  }

  /** The rows a stopped run added after a first slice that succeeded, seen from before that slice. */
  lemma StoppedStep(table: seq<CurrentRow>, cs: seq<seq<AircraftCurrent>>, k: nat, last: seq<CurrentRow>)
    requires k + 1 <= |cs| && Acceptable(cs[0])
    requires Acceptable(Flatten(cs[1..][..k]))
    requires last == (table + RowsOf(cs[0])) + RowsOf(Flatten(cs[1..][..k]))
    ensures Acceptable(Flatten(cs[..k + 1])) && last == table + RowsOf(Flatten(cs[..k + 1]))
  {
    var done := Flatten(cs[1..][..k]);
    FlattenCons(cs, k);
    RowsOfConcat(cs[0], done);
    Assoc(table, RowsOf(cs[0]), RowsOf(done));
    AcceptableConcat(cs[0], done);
  }

  /** The table keeps its invariant whatever the run does. */
  lemma {:induction false} ApplyChunksValid(table: seq<CurrentRow>, cs: seq<seq<AircraftCurrent>>)
    requires ValidCurrent(table)
    ensures ValidCurrent(ApplyChunks(table, cs).table)
    decreases |cs|
  {
    if cs != [] {
      InsertRowsSpec(table, cs[0]);
      if InsertRows(table, cs[0]).Success? {
        ValidAppend(table, cs[0]);
        ApplyChunksValid(InsertRows(table, cs[0]).value, cs[1..]);
      }
    }
  }

  // ---------------------------------------------------------------------
  // The windows of DeleteOldCurrentAircraft and GetAllCurrentAircraft

  /** The instant of a row, in microseconds. */
  function Stamp(r: CurrentRow): int
  {
    DateTime.Micros(r.at)
  }

  /** `max(timestamp)`: None (SQL NULL) for an empty table. */
  function Latest(rows: seq<CurrentRow>): (l: Option<int>)
    ensures l.None? <==> rows == []
  {
    if rows == [] then None
    else match Latest(rows[1..])
      case None => Some(Stamp(rows[0]))
      case Some(m) => Some(if Stamp(rows[0]) > m then Stamp(rows[0]) else m)
  }

  /** The latest instant bounds every row's and is some row's. */
  lemma {:induction false} LatestIsMax(rows: seq<CurrentRow>)
    requires rows != []
    ensures forall r :: r in rows ==> Stamp(r) <= Latest(rows).value
    ensures exists r :: r in rows && Stamp(r) == Latest(rows).value
  {
    assert forall x :: x in rows <==> x == rows[0] || x in rows[1..];
    if |rows| > 1 {
      LatestIsMax(rows[1..]);
      var r :| r in rows[1..] && Stamp(r) == Latest(rows[1..]).value;
      if Stamp(rows[0]) <= Stamp(r) {
        assert Latest(rows).value == Stamp(r);
      }
    } else {
      assert rows[1..] == [];
    }
  }

  /** The rows at `bound` or after (strictly after when `strict`), in table order. */
  function Since(rows: seq<CurrentRow>, bound: int, strict: bool): (r: seq<CurrentRow>)
    ensures |r| <= |rows|
  {
    if rows == [] then []
    else
      var keep := if strict then Stamp(rows[0]) > bound else Stamp(rows[0]) >= bound;
      (if keep then [rows[0]] else []) + Since(rows[1..], bound, strict)
  }

  lemma {:induction false} SinceMembers(rows: seq<CurrentRow>, bound: int, strict: bool)
    ensures forall r :: r in Since(rows, bound, strict) <==>
      r in rows && (if strict then Stamp(r) > bound else Stamp(r) >= bound)
  {
    if rows != [] {
      SinceMembers(rows[1..], bound, strict);
      assert forall x :: x in rows <==> x == rows[0] || x in rows[1..];
    }
  }

  /** Filtering again by a bound at least as tight as before changes nothing. */
  lemma {:induction false} SinceTwice(rows: seq<CurrentRow>, bound: int, strict: bool)
    ensures Since(Since(rows, bound, false), bound, strict) == Since(rows, bound, strict)
  {
    if rows != [] {
      SinceTwice(rows[1..], bound, strict);
      var rest := Since(rows[1..], bound, false);
      if Stamp(rows[0]) >= bound {
        assert Since(rows, bound, false) == [rows[0]] + rest;
        assert ([rows[0]] + rest)[0] == rows[0] && ([rows[0]] + rest)[1..] == rest;
      } else {
        assert Since(rows, bound, false) == rest;
      }
    }
  }

  /** The rows DeleteOldCurrentAircraft keeps: those not older than the window before the latest row. */
  function Retained(rows: seq<CurrentRow>): seq<CurrentRow>
  {
    match Latest(rows)
    case None => rows
    case Some(l) => Since(rows, l - Window, false)
  }

  /** The rows GetAllCurrentAircraft returns: those strictly inside the window before the latest row. */
  function Visible(rows: seq<CurrentRow>): seq<CurrentRow>
  {
    match Latest(rows)
    case None => []
    case Some(l) => Since(rows, l - Window, true)
  }

  /**
   * A row survives the clean-up exactly when its timestamp is not earlier
   * than the latest timestamp minus six seconds; every other row is removed.
   */
  lemma RetainedSpec(rows: seq<CurrentRow>)
    requires rows != []
    ensures forall r :: r in Retained(rows) <==> r in rows && Stamp(r) >= Latest(rows).value - Window
  {
    SinceMembers(rows, Latest(rows).value - Window, false);
  }

  /** A row is returned exactly when its timestamp is later than the latest timestamp minus six seconds. */
  lemma VisibleSpec(rows: seq<CurrentRow>)
    ensures forall r :: r in Visible(rows) <==> r in rows && Stamp(r) > Latest(rows).value - Window
  {
    if rows != [] {
      SinceMembers(rows, Latest(rows).value - Window, true);
    }
  }

  /** A row exactly six seconds before the latest one is kept by the clean-up but not returned. */
  lemma OnTheBoundary(rows: seq<CurrentRow>, r: CurrentRow)
    requires r in rows && Stamp(r) == Latest(rows).value - Window
    ensures r in Retained(rows) && r !in Visible(rows)
  {
    RetainedSpec(rows);
    VisibleSpec(rows);
  }

  /** The rows with the latest timestamp are always returned. */
  lemma LatestVisible(rows: seq<CurrentRow>, r: CurrentRow)
    requires r in rows && Stamp(r) == Latest(rows).value
    ensures r in Visible(rows)
  {
    VisibleSpec(rows);
  }

  /** The clean-up keeps the latest row, so the window does not move. */
  lemma LatestRetained(rows: seq<CurrentRow>)
    ensures Latest(Retained(rows)) == Latest(rows)
  {
    if rows != [] {
      var l := Latest(rows).value;
      LatestIsMax(rows);
      RetainedSpec(rows);
      var top :| top in rows && Stamp(top) == l;
      var kept := Retained(rows);
      assert top in kept;
      LatestIsMax(kept);
      var m :| m in kept && Stamp(m) == Latest(kept).value;
      assert m in rows;
      assert Stamp(top) <= Latest(kept).value && Stamp(m) <= l;
      assert Latest(kept).value == l;
    }
  }

  /** Cleaning up twice is cleaning up once. */
  lemma RetainedIdempotent(rows: seq<CurrentRow>)
    ensures Retained(Retained(rows)) == Retained(rows)
  {
    LatestRetained(rows);
    if rows != [] {
      SinceTwice(rows, Latest(rows).value - Window, false);
    }
  }

  /** The clean-up never changes what the read returns. */
  lemma VisibleAfterCleanup(rows: seq<CurrentRow>)
    ensures Visible(Retained(rows)) == Visible(rows)
  {
    LatestRetained(rows);
    if rows != [] {
      SinceTwice(rows, Latest(rows).value - Window, true);
    }
  }

  // ---------------------------------------------------------------------
  // AddHistoryFromCurrent and GetHistoryByIcao

  /** The history row a current row is copied into: (icao, lat, long, timestamp). */
  function HistoryOf(r: CurrentRow): HistoryRow
  {
    HistoryRow(r.ac.icao, r.ac.latitude, r.ac.longitude, r.at)
  }

  function HistoryKey(h: HistoryRow): (string, DateTime.Civil)
  {
    (h.icao, h.at)
  }

  predicate HasHistoryKey(history: seq<HistoryRow>, key: (string, DateTime.Civil))
  {
    exists k :: 0 <= k < |history| && HistoryKey(history[k]) == key
  }

  predicate DistinctHistory(history: seq<HistoryRow>)
  {
    forall i, j :: 0 <= i < j < |history| ==> HistoryKey(history[i]) != HistoryKey(history[j])
  }

  /**
   * One row of the upsert: a new key adds the row; an existing key only sets
   * the timestamp to the value it already has, so the stored row, with its
   * latitude and longitude, stays as it was.
   */
  function Upsert(history: seq<HistoryRow>, r: CurrentRow): seq<HistoryRow>
  {
    if HasHistoryKey(history, KeyOf(r)) then history else history + [HistoryOf(r)]
  }

  /** `INSERT INTO history_aircraft SELECT ... FROM current_time_aircraft ON CONFLICT DO UPDATE`. */
  function Carry(history: seq<HistoryRow>, current: seq<CurrentRow>): seq<HistoryRow>
    decreases |current|
  {
    if current == [] then history else Carry(Upsert(history, current[0]), current[1..])
  }

  /** Rows already in the history are kept, unchanged and in place. */
  lemma {:induction false} CarryKeepsHistory(history: seq<HistoryRow>, current: seq<CurrentRow>)
    ensures |history| <= |Carry(history, current)| && Carry(history, current)[..|history|] == history
    decreases |current|
  {
    if current != [] {
      var next := Upsert(history, current[0]);
      CarryKeepsHistory(next, current[1..]);
      assert next[..|history|] == history;
    }
  }

  /** After the upsert the history holds the key of every current row. */
  lemma {:induction false} CarryCoversCurrent(history: seq<HistoryRow>, current: seq<CurrentRow>)
    ensures forall i :: 0 <= i < |current| ==> HasHistoryKey(Carry(history, current), KeyOf(current[i]))
    decreases |current|
  {
    if current != [] {
      var next := Upsert(history, current[0]);
      CarryCoversCurrent(next, current[1..]);
      CarryKeepsHistory(next, current[1..]);
      var all := Carry(history, current);
      assert HasHistoryKey(next, KeyOf(current[0])) by {
        if !HasHistoryKey(history, KeyOf(current[0])) {
          assert HistoryKey(next[|history|]) == KeyOf(current[0]);
        }
      }
      var k :| 0 <= k < |next| && HistoryKey(next[k]) == KeyOf(current[0]);
      assert all[k] == all[..|next|][k] == next[k];
      forall i | 1 <= i < |current| ensures HasHistoryKey(all, KeyOf(current[i])) {
        assert current[i] == current[1..][i - 1];
      }
    }
  }

  /** Every row of the result was in the history or is a copy of a current row. */
  lemma {:induction false} CarryRowsFrom(history: seq<HistoryRow>, current: seq<CurrentRow>)
    ensures forall h :: h in Carry(history, current) ==>
      h in history || exists i :: 0 <= i < |current| && h == HistoryOf(current[i])
    decreases |current|
  {
    if current != [] {
      var next := Upsert(history, current[0]);
      CarryRowsFrom(next, current[1..]);
      forall h | h in Carry(history, current)
        ensures h in history || exists i :: 0 <= i < |current| && h == HistoryOf(current[i])
      {
        if h !in next {
          var i :| 0 <= i < |current[1..]| && h == HistoryOf(current[1..][i]);
          assert h == HistoryOf(current[i + 1]);
        } else if h !in history {
          assert h == HistoryOf(current[0]);
        }
      }
    }
  }

  /** The upsert never repeats a key. */
  lemma {:induction false} CarryDistinct(history: seq<HistoryRow>, current: seq<CurrentRow>)
    requires DistinctHistory(history)
    ensures DistinctHistory(Carry(history, current))
    decreases |current|
  {
    if current != [] {
      var next := Upsert(history, current[0]);
      assert DistinctHistory(next);
      CarryDistinct(next, current[1..]);
    }
  }

  /** When every current key is already in the history, the upsert changes nothing. */
  lemma {:induction false} CarryNoNewKeys(history: seq<HistoryRow>, current: seq<CurrentRow>)
    requires forall i :: 0 <= i < |current| ==> HasHistoryKey(history, KeyOf(current[i]))
    ensures Carry(history, current) == history
    decreases |current|
  {
    if current != [] {
      forall i | 0 <= i < |current[1..]| ensures HasHistoryKey(history, KeyOf(current[1..][i])) {
        assert current[1..][i] == current[i + 1];
      }
      CarryNoNewKeys(history, current[1..]);
    }
  }

  /** Carrying the same current table forward twice is carrying it once. */
  lemma CarryIdempotent(history: seq<HistoryRow>, current: seq<CurrentRow>)
    ensures Carry(Carry(history, current), current) == Carry(history, current)
  {
    CarryCoversCurrent(history, current);
    CarryNoNewKeys(Carry(history, current), current);
  }

  /** Rows whose keys are new and distinct are all added, so the history grows by their number. */
  lemma {:induction false} CarryCount(history: seq<HistoryRow>, current: seq<CurrentRow>)
    requires DistinctKeys(current)
    requires forall i :: 0 <= i < |current| ==> !HasHistoryKey(history, KeyOf(current[i]))
    ensures |Carry(history, current)| == |history| + |current|
    decreases |current|
  {
    if current != [] {
      var next := history + [HistoryOf(current[0])];
      assert Upsert(history, current[0]) == next;
      forall i | 0 <= i < |current[1..]| ensures !HasHistoryKey(next, KeyOf(current[1..][i])) {
        assert current[1..][i] == current[i + 1];
        assert KeyOf(current[0]) != KeyOf(current[i + 1]);
      }
      assert DistinctKeys(current[1..]) by {
        forall i, j | 0 <= i < j < |current[1..]| ensures KeyOf(current[1..][i]) != KeyOf(current[1..][j]) {
          assert current[1..][i] == current[i + 1] && current[1..][j] == current[j + 1];
        }
      }
      CarryCount(next, current[1..]);
    }
  }

  /** Over an empty history, one upsert of a table with distinct keys copies every row. */
  lemma CarryIntoEmpty(current: seq<CurrentRow>)
    requires DistinctKeys(current)
    ensures |Carry([], current)| == |current|
  {
    CarryCount([], current);
  }

  /** `WHERE icao = $1`: the history rows of one aircraft, in table order. */
  function Matching(history: seq<HistoryRow>, search: string): (m: seq<HistoryRow>)
    ensures |m| <= |history|
  {
    if history == [] then []
    else (if history[0].icao == search then [history[0]] else []) + Matching(history[1..], search)
  }

  lemma {:induction false} MatchingMembers(history: seq<HistoryRow>, search: string)
    ensures forall h :: h in Matching(history, search) <==> h in history && h.icao == search
  {
    if history != [] {
      MatchingMembers(history[1..], search);
      assert forall x :: x in history <==> x == history[0] || x in history[1..];
    }
  }

  lemma {:induction false} MatchingNone(history: seq<HistoryRow>, search: string)
    requires forall k :: 0 <= k < |history| ==> history[k].icao != search
    ensures Matching(history, search) == []
  {
    if history != [] {
      MatchingNone(history[1..], search);
    }
  }

  /**
   * One result row: `SELECT icao, long, lat` scanned into Icao, Latitude,
   * Longitude, so the stored longitude lands in Latitude and the stored
   * latitude in Longitude; the timestamp is not selected and stays "".
   */
  function Scanned(h: HistoryRow): AircraftHistory
  {
    AircraftHistory(h.icao, h.longitude, h.latitude, "")
  }

  function Query(history: seq<HistoryRow>, search: string): (q: seq<AircraftHistory>)
    ensures |q| == |Matching(history, search)|
  {
    var m := Matching(history, search);
    seq(|m|, i requires 0 <= i < |m| => Scanned(m[i]))
  }

  /**
   * A search returns one record per stored row of that icao, in order,
   * each with that icao and with the stored latitude and longitude in each
   * other's field; an icao with no rows gives nothing.
   */
  lemma QuerySpec(history: seq<HistoryRow>, search: string)
    ensures forall i :: 0 <= i < |Query(history, search)| ==>
      var h := Matching(history, search)[i];
      && h in history && h.icao == search
      && Query(history, search)[i].icao == search
      && Query(history, search)[i].latitude == h.longitude
      && Query(history, search)[i].longitude == h.latitude
    ensures (forall h :: h in history ==> h.icao != search) ==> Query(history, search) == []
  {
    MatchingMembers(history, search);
    if forall h :: h in history ==> h.icao != search {
      MatchingNone(history, search);
    }
  }

  /**
   * The swap is invisible exactly on rows whose latitude equals their
   * longitude, as in the rows the history-lookup test stores
   * (`database_test.go`, lines 324 to 353).
   */
  lemma QuerySwapInvisible(history: seq<HistoryRow>, search: string)
    ensures (forall i :: 0 <= i < |Query(history, search)| ==>
               Query(history, search)[i] == AircraftHistory(search, Matching(history, search)[i].latitude,
                                                           Matching(history, search)[i].longitude, ""))
        <==> (forall i :: 0 <= i < |Matching(history, search)| ==>
               Matching(history, search)[i].latitude == Matching(history, search)[i].longitude)
  {
    QuerySpec(history, search);
  }

  /** Exchanging the two position fields of each result gives the stored row's icao and position back. */
  lemma QuerySwapBack(history: seq<HistoryRow>, search: string)
    ensures forall i :: 0 <= i < |Query(history, search)| ==>
      var q := Query(history, search)[i];
      q.(latitude := q.longitude, longitude := q.latitude)
        == AircraftHistory(search, Matching(history, search)[i].latitude, Matching(history, search)[i].longitude, "")
  {
    QuerySpec(history, search);
  }

  // ---------------------------------------------------------------------
  // Reading rows back

  /**
   * A current row as `rows.Scan` fills the model: every column as stored,
   * and the TIMESTAMP, scanned into a string, in RFC 3339 form.
   */
  function Rendered(r: CurrentRow): AircraftCurrent
  {
    r.ac.(timestamp := DateTime.FormatRfc3339(r.at))
  }

  /** The rows as the query returns them, each rendered, in table order. */
  function RenderedAll(rows: seq<CurrentRow>): (r: seq<AircraftCurrent>)
    ensures |r| == |rows|
  {
    if rows == [] then [] else RenderedAll(rows[..|rows| - 1]) + [Rendered(rows[|rows| - 1])]
  }

  /** Record k of the answer is row k, rendered. */
  lemma {:induction false} RenderedAllAt(rows: seq<CurrentRow>, k: nat)
    requires k < |rows|
    ensures RenderedAll(rows)[k] == Rendered(rows[k])
  {
    if k < |rows| - 1 {
      var init := rows[..|rows| - 1];
      RenderedAllAt(init, k);
      assert RenderedAll(rows)[k] == RenderedAll(init)[k];
    }
  }

  /**
   * Read back, a record keeps every column but the timestamp; a timestamp
   * inserted as "YYYY-MM-DD HH:MM:SS" comes back with 'T' for the space and
   * 'Z' appended.
   */
  lemma RenderedRow(ac: AircraftCurrent)
    requires Refusal(ac).None?
    ensures Rendered(RowOf(ac)).(timestamp := ac.timestamp) == ac
    ensures DateTime.ParseTimestamp(ac.timestamp) == Some(RowOf(ac).at)
    ensures var c := RowOf(ac).at;
      c.micro == 0 && ac.timestamp == DateTime.Format(c) ==>
        Rendered(RowOf(ac)).timestamp == ac.timestamp[..10] + "T" + ac.timestamp[11..] + "Z"
  {
    var c := RowOf(ac).at;
    if c.micro == 0 && ac.timestamp == DateTime.Format(c) {
      DateTime.Rfc3339OfFormat(c);
    }
  }

  // ---------------------------------------------------------------------
  // Statements as Postgres runs them

  /** `INSERT INTO history_aircraft ... SELECT ... ON CONFLICT (icao, timestamp) DO UPDATE`. */
  const CopyToHistory: string := "INSERT INTO history_aircraft (icao, lat, long, timestamp) SELECT icao, lat, long, timestamp FROM current_time_aircraft ON CONFLICT (icao, timestamp) DO UPDATE SET timestamp = excluded.timestamp"

  const DeleteOld: string := "DELETE FROM current_time_aircraft WHERE timestamp < (select max(timestamp)-($1 * interval '1 second') FROM current_time_aircraft)"

  /** A bulk INSERT: its values must make whole rows, then the rows are inserted all or nothing. */
  function Execute(table: seq<CurrentRow>, st: Statement): Result<seq<CurrentRow>, DbError>
  {
    match DecodeRows(st.vals)
    case None => Failure(BindMismatch)
    case Some(rows) => InsertRows(table, rows)
  }

  /** The statement built for a slice inserts exactly the rows of that slice. */
  lemma ExecuteStatementOf(table: seq<CurrentRow>, chunk: seq<AircraftCurrent>)
    ensures Execute(table, StatementOf(chunk)) == InsertRows(table, chunk)
  {
    DecodeValues(chunk);
  }

  /** A value list that is not nine typed columns per row is refused whatever the table holds. */
  lemma ExecuteMismatch(table: seq<CurrentRow>, st: Statement)
    requires |st.vals| % Columns != 0
    ensures Execute(table, st) == Failure(BindMismatch)
  {
    DecodeRowsWhole(st.vals);
  }

  lemma {:induction false} DecodeRowsWhole(v: seq<Value>)
    ensures DecodeRows(v).Some? ==> |v| % Columns == 0
    decreases |v|
  {
    if |v| >= Columns {
      DecodeRowsWhole(v[Columns..]);
    }
  }

  /** What is left of the input once the loop index has reached `i`. */
  function Rest(aircraft: seq<AircraftCurrent>, i: nat): seq<AircraftCurrent>
  {
    if i < |aircraft| then aircraft[i..] else []
  }

  /** One turn of the outer loop cuts the first slice off what is left. */
  lemma ChunksStep(aircraft: seq<AircraftCurrent>, i: nat, end: nat)
    requires i < |aircraft| && end == (if i + MaxAircraft > |aircraft| then |aircraft| else i + MaxAircraft)
    ensures Chunks(Rest(aircraft, i)) == [aircraft[i..end]] + Chunks(Rest(aircraft, i + MaxAircraft))
  {
    var rest := aircraft[i..];
    if |rest| > MaxAircraft {
      assert rest[..MaxAircraft] == aircraft[i..end];
      assert rest[MaxAircraft..] == aircraft[i + MaxAircraft..];
    } else {
      assert rest == aircraft[i..end];
    }
  }

  /** One statement sent for the first slice, and the run over the remaining slices. */
  lemma RunStep(table: seq<CurrentRow>, cs: seq<seq<AircraftCurrent>>, t: seq<CurrentRow>)
    requires cs != [] && InsertRows(table, cs[0]) == Success(t)
    ensures ApplyChunks(table, cs).table == ApplyChunks(t, cs[1..]).table
    ensures ApplyChunks(table, cs).err == ApplyChunks(t, cs[1..]).err
    ensures ApplyChunks(table, cs).sent == [StatementOf(cs[0])] + ApplyChunks(t, cs[1..]).sent
  {
  }

  /** Filtering by timestamp never puts two rows with one key together. */
  lemma {:induction false} SinceDistinct(rows: seq<CurrentRow>, bound: int, strict: bool)
    requires DistinctKeys(rows)
    ensures DistinctKeys(Since(rows, bound, strict))
    decreases |rows|
  {
    if rows != [] {
      var rest := rows[1..];
      assert DistinctKeys(rest) by {
        forall i, j | 0 <= i < j < |rest| ensures KeyOf(rest[i]) != KeyOf(rest[j]) {
          assert rest[i] == rows[i + 1] && rest[j] == rows[j + 1];
        }
      }
      SinceDistinct(rest, bound, strict);
      var tail := Since(rest, bound, strict);
      if Since(rows, bound, strict) != tail {
        assert Since(rows, bound, strict) == [rows[0]] + tail;
        SinceMembers(rest, bound, strict);
        ConsDistinct(rows, tail);
      }
    }
  }

  lemma ConsDistinct(rows: seq<CurrentRow>, tail: seq<CurrentRow>)
    requires rows != [] && DistinctKeys(rows) && DistinctKeys(tail)
    requires forall r :: r in tail ==> r in rows[1..]
    ensures DistinctKeys([rows[0]] + tail)
  {
    var all := [rows[0]] + tail;
    forall i, j | 0 <= i < j < |all| ensures KeyOf(all[i]) != KeyOf(all[j]) {
      if i == 0 {
        assert all[j] == tail[j - 1] && all[j] in rows[1..];
        var k :| 0 <= k < |rows[1..]| && rows[1..][k] == all[j];
        assert rows[k + 1] == all[j];
      } else {
        assert all[i] == tail[i - 1] && all[j] == tail[j - 1];
      }
    }
  }

  /** The clean-up keeps the invariant of the current table. */
  lemma RetainedValid(rows: seq<CurrentRow>)
    requires ValidCurrent(rows)
    ensures ValidCurrent(Retained(rows))
  {
    if rows != [] {
      var b := Latest(rows).value - Window;
      SinceDistinct(rows, b, false);
      SinceMembers(rows, b, false);
      var kept := Since(rows, b, false);
      forall i | 0 <= i < |kept|
        ensures Refusal(kept[i].ac).None? && DateTime.ParseTimestamp(kept[i].ac.timestamp) == Some(kept[i].at)
      {
        assert kept[i] in rows;
      }
    }
  }

  // ---------------------------------------------------------------------
  // The store

  /**
   * `AdsbDB`: the two tables and the statements passed to `Exec`, in the
   * order they were sent. Rows of both tables are kept in the order they
   * were added; SELECT returns them in that order.
   */
  class AdsbDB {
    var current: seq<CurrentRow>
    var history: seq<HistoryRow>
    var sent: seq<Statement>

    /** What the tables' types and primary keys guarantee of their contents. */
    ghost predicate Valid()
      reads this
    {
      ValidCurrent(current) && DistinctHistory(history)
    }

    /** A connection to a database whose two tables exist and are empty. */
    constructor ()
      ensures Valid() && current == [] && history == [] && sent == []
    {
      current, history, sent := [], [], [];
    }

    /** `db.Conn.Exec` of a bulk INSERT: all of its rows are added, or none and the error is returned. */
    method Exec(st: Statement) returns (err: Option<DbError>)
      modifies this
      ensures sent == old(sent) + [st] && history == old(history)
      ensures match Execute(old(current), st)
        case Success(t) => current == t && err == None
        case Failure(e) => current == old(current) && err == Some(e)
    {
      sent := sent + [st];
      match Execute(current, st)
      case Success(t) =>
        current := t;
        err := None;
      case Failure(e) =>
        err := Some(e);
    }

    /**
     * Inserts the records a slice of at most maxAircraft rows at a time,
     * each slice one statement, and returns the first error. The slices
     * before it stay inserted: ApplyChunks gives the table, the error and
     * the statements, and ApplyChunksDone, ApplyChunksStopped and
     * ApplyChunksValid what they are.
     */
    method BulkInsertCurrentTimeAircraftTable(aircraft: seq<AircraftCurrent>) returns (err: Option<DbError>)
      requires Valid()
      modifies this
      ensures Valid()
      ensures var run := ApplyChunks(old(current), Chunks(aircraft));
        current == run.table && err == run.err && sent == old(sent) + run.sent
      ensures history == old(history)
    {
      ghost var total := ApplyChunks(current, Chunks(aircraft));
      ApplyChunksValid(current, Chunks(aircraft));
      var i: nat := 0;
      while i < |aircraft|
        invariant history == old(history)
        invariant var run := ApplyChunks(current, Chunks(Rest(aircraft, i)));
          && total.table == run.table && total.err == run.err
          && old(sent) + total.sent == sent + run.sent
        decreases |aircraft| - i
      {
        var end := i + MaxAircraft;
        if end > |aircraft| {
          end := |aircraft|;
        }
        var chunk := aircraft[i..end];
        ChunksStep(aircraft, i, end);
        var placeholders, vals := BuildInsert(chunk);
        var st := Statement(InsertInto + Join(placeholders, ","), vals);
        ExecuteStatementOf(current, chunk);
        ghost var before, sentBefore := current, sent;
        var e := Exec(st);
        if e.Some? {
          return e;
        }
        RunStep(before, Chunks(Rest(aircraft, i)), current);
        Assoc(sentBefore, [st], ApplyChunks(current, Chunks(Rest(aircraft, i + MaxAircraft))).sent);
        i := i + MaxAircraft;
      }
      err := None;
    }

    /** Copies every current row into the history, keeping rows whose key the history already holds. */
    method AddHistoryFromCurrent()
      requires Valid()
      modifies this
      ensures Valid()
      ensures history == Carry(old(history), old(current))
      ensures current == old(current) && sent == old(sent) + [Statement(CopyToHistory, [])]
    {
      CarryDistinct(history, current);
      history := Carry(history, current);
      sent := sent + [Statement(CopyToHistory, [])];
    }

    /** Deletes, in one transaction, every row older than six seconds before the latest row. */
    method DeleteOldCurrentAircraft()
      requires Valid()
      modifies this
      ensures Valid()
      ensures current == Retained(old(current))
      ensures history == old(history) && sent == old(sent) + [Statement(DeleteOld, [Int(WaitingTime + 2)])]
    {
      RetainedValid(current);
      current := Retained(current);
      sent := sent + [Statement(DeleteOld, [Int(WaitingTime + 2)])];
    }

    /** The rows within six seconds of the latest one, in table order, as `rows.Scan` fills them. */
    method GetAllCurrentAircraft() returns (aircraft: seq<AircraftCurrent>)
      ensures aircraft == RenderedAll(Visible(current))
    {
      var rows := Visible(current);
      aircraft := [];
      for k := 0 to |rows|
        invariant aircraft == RenderedAll(rows[..k])
      {
        assert rows[..k + 1][..k] == rows[..k];
        aircraft := aircraft + [Rendered(rows[k])];
      }
      assert rows[..|rows|] == rows;
    }

    /** The history of one icao, in table order, with latitude and longitude scanned into each other's field. */
    method GetHistoryByIcao(search: string) returns (aircraft: seq<AircraftHistory>)
      ensures aircraft == Query(history, search)
    {
      var rows := Matching(history, search);
      aircraft := [];
      for k := 0 to |rows|
        invariant |aircraft| == k
        invariant forall j :: 0 <= j < k ==> aircraft[j] == Scanned(rows[j])
      {
        aircraft := aircraft + [Scanned(rows[k])];
      }
    }
  }
}
