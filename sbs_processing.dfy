/**
 * The `sbs` package: `ProcessSbsStream` reads the SBS feed line by line,
 * groups the lines into (class 1, class 3, class 4) triplets by their field
 * counts, and decodes each triplet into a record. The socket is a sequence of
 * lines; the wall-clock limit is `cutoff`, the index of the first line read
 * after the waiting time has passed (elapsed time only grows, so every later
 * line is late too).
 */
module SbsProcessing {
  import opened Wrappers
  import opened Strings
  import opened Models
  import opened Convert
  import SbsFormat

  /** Every line of the input, split at its commas. */
  function Fields(lines: seq<string>): (f: seq<seq<string>>)
    ensures |f| == |lines|
    ensures forall k :: 0 <= k < |lines| ==> f[k] == Split(lines[k], ',')
  {
    seq(|lines|, k requires 0 <= k < |lines| => Split(lines[k], ','))
  }

  /**
   * What the loop makes of a triplet that starts at line i: the record when
   * the three lines are there, pass the length guards and decode; None
   * otherwise.
   */
  function Outcome(f: seq<seq<string>>, i: nat): Option<AircraftCurrent>
  {
    if i + 2 < |f| && |f[i]| >= 11 && |f[i + 1]| >= 16 && |f[i + 2]| >= 17 then
      match SbsToAircraftCurrent(f[i], f[i + 1], f[i + 2])
      case Success(ac) => Some(ac)
      case Failure(_) => None
    else None
  }

  /** The outcome at every line. */
  function Outcomes(f: seq<seq<string>>): (d: seq<Option<AircraftCurrent>>)
    ensures |d| == |f|
  {
    seq(|f|, i requires 0 <= i < |f| => Outcome(f, i))
  }

  /**
   * The records that the loop appends when it reads from line i on (d is the
   * outcome at every line): a first line under 11 fields is dropped alone, a
   * second line under 16 fields drops both, a third line under 17 fields or
   * a failed decode drops all three; a group cut short by the end of the
   * input is dropped, and so is every line from `cutoff` on.
   */
  function Scan(f: seq<seq<string>>, d: seq<Option<AircraftCurrent>>, cutoff: nat, i: nat): (r: seq<AircraftCurrent>)
    requires |d| == |f| && i <= |f|
    ensures 3 * |r| <= |f| - i
    decreases |f| - i
  {
    if i == |f| || i >= cutoff then []
    else if |f[i]| < 11 then Scan(f, d, cutoff, i + 1)
    else if i + 1 == |f| then []
    else if |f[i + 1]| < 16 then Scan(f, d, cutoff, i + 2)
    else if i + 2 == |f| then []
    else if |f[i + 2]| < 17 || d[i].None? then Scan(f, d, cutoff, i + 3)
    else [d[i].value] + Scan(f, d, cutoff, i + 3)
  }

  /** The outcome at a line where a whole triplet passes the length guards is what the decoder makes of it. */
  lemma OutcomeOf(f: seq<seq<string>>, i: nat)
    requires Guarded(f, i)
    ensures var r := SbsToAircraftCurrent(f[i], f[i + 1], f[i + 2]);
      Outcomes(f)[i] == if r.Success? then Some(r.value) else None
  {
  }

  /** The three lines from i on are there and pass the length guards. */
  predicate Guarded(f: seq<seq<string>>, i: nat)
  {
    i + 2 < |f| && |f[i]| >= 11 && |f[i + 1]| >= 16 && |f[i + 2]| >= 17
  }

  /**
   * Where the groups whose records `Scan` returns start: at or after line i,
   * before the cutoff, past the length guards, in order and at least three
   * lines apart.
   */
  function Starts(f: seq<seq<string>>, d: seq<Option<AircraftCurrent>>, cutoff: nat, i: nat): (s: seq<nat>)
    requires |d| == |f| && i <= |f|
    ensures forall k :: 0 <= k < |s| ==> i <= s[k] < cutoff && Guarded(f, s[k])
    ensures forall j, k :: 0 <= j < k < |s| ==> s[j] + 3 <= s[k]
    decreases |f| - i
  {
    if i == |f| || i >= cutoff then []
    else if |f[i]| < 11 then Starts(f, d, cutoff, i + 1)
    else if i + 1 == |f| then []
    else if |f[i + 1]| < 16 then Starts(f, d, cutoff, i + 2)
    else if i + 2 == |f| then []
    else if |f[i + 2]| < 17 || d[i].None? then Starts(f, d, cutoff, i + 3)
    else
      var rest := Starts(f, d, cutoff, i + 3);
      assert forall k :: 0 < k < |[i] + rest| ==> ([i] + rest)[k] == rest[k - 1];
      [i] + rest
  }

  /** Each record `Scan` returns is the outcome at the matching start. */
  lemma {:induction false} ScanStarts(f: seq<seq<string>>, d: seq<Option<AircraftCurrent>>, cutoff: nat, i: nat)
    requires |d| == |f| && i <= |f|
    ensures |Scan(f, d, cutoff, i)| == |Starts(f, d, cutoff, i)|
    ensures forall k :: 0 <= k < |Starts(f, d, cutoff, i)| ==>
      d[Starts(f, d, cutoff, i)[k]] == Some(Scan(f, d, cutoff, i)[k])
    decreases |f| - i
  {
    if i == |f| || i >= cutoff {
    } else if |f[i]| < 11 {
      ScanStarts(f, d, cutoff, i + 1);
      assert Starts(f, d, cutoff, i) == Starts(f, d, cutoff, i + 1);
      assert Scan(f, d, cutoff, i) == Scan(f, d, cutoff, i + 1);
    } else if i + 1 == |f| {
    } else if |f[i + 1]| < 16 {
      ScanStarts(f, d, cutoff, i + 2);
      assert Starts(f, d, cutoff, i) == Starts(f, d, cutoff, i + 2);
      assert Scan(f, d, cutoff, i) == Scan(f, d, cutoff, i + 2);
    } else if i + 2 == |f| {
    } else if |f[i + 2]| < 17 || d[i].None? {
      ScanStarts(f, d, cutoff, i + 3);
      assert Starts(f, d, cutoff, i) == Starts(f, d, cutoff, i + 3);
      assert Scan(f, d, cutoff, i) == Scan(f, d, cutoff, i + 3);
    } else {
      ScanStarts(f, d, cutoff, i + 3);
      var s, r := Starts(f, d, cutoff, i + 3), Scan(f, d, cutoff, i + 3);
      assert Starts(f, d, cutoff, i) == [i] + s;
      assert Scan(f, d, cutoff, i) == [d[i].value] + r;
      assert forall k :: 0 < k < |s| + 1 ==> ([i] + s)[k] == s[k - 1] && ([d[i].value] + r)[k] == r[k - 1];
    }
  }

  /** The batch of one read: the records of the groups the loop decodes, from the first line on. */
  function Batch(lines: seq<string>, cutoff: nat): seq<AircraftCurrent>
  {
    var f := Fields(lines);
    Scan(f, Outcomes(f), cutoff, 0)
  }

  lemma Concat3<T>(a: seq<T>, b: seq<T>, c: seq<T>)
    ensures a + b + c == a + (b + c)
  {
  }

  /**
   * One pass of the loop body of `ProcessSbsStream`, from line i on: it
   * reads one, two or three lines and either stops the loop (the cutoff is
   * reached or the input ends inside a group) or goes on at `next`, with
   * the record of the group when it decoded.
   */
  method ReadGroup(lines: seq<string>, i: nat, cutoff: nat, ghost f: seq<seq<string>>, ghost d: seq<Option<AircraftCurrent>>)
    returns (next: nat, rec: Option<AircraftCurrent>, stop: bool)
    requires i < |lines| && f == Fields(lines) && d == Outcomes(f)
    ensures i < next <= |lines|
    ensures stop ==> Scan(f, d, cutoff, i) == []
    ensures !stop && rec.None? ==> Scan(f, d, cutoff, i) == Scan(f, d, cutoff, next)
    ensures !stop && rec.Some? ==> Scan(f, d, cutoff, i) == [rec.value] + Scan(f, d, cutoff, next)
    ensures !stop && |f[i]| < 11 ==> next == i + 1
    ensures !stop && |f[i]| >= 11 && i + 1 < |f| && |f[i + 1]| < 16 ==> next == i + 2
    ensures !stop && |f[i]| >= 11 && i + 1 < |f| && |f[i + 1]| >= 16 ==> next == i + 3
    ensures rec.Some? ==> !stop
  {
    next, rec, stop := i + 1, None, false;
    if i >= cutoff {
      stop := true;
      return;
    }
    var msg1 := Split(lines[i], ',');
    if |msg1| < 11 {
      return;
    }
    if next == |lines| {
      stop := true;
      return;
    }
    var msg3 := Split(lines[next], ',');
    next := next + 1;
    if |msg3| < 16 {
      return;
    }
    if next == |lines| {
      stop := true;
      return;
    }
    var msg4 := Split(lines[next], ',');
    next := next + 1;
    if |msg4| < 17 {
      return;
    }
    var ac := SbsToAircraftCurrent(msg1, msg3, msg4);
    assert msg1 == f[i] && msg3 == f[i + 1] && msg4 == f[i + 2];
    OutcomeOf(f, i);
    if ac.Success? {
      rec := Some(ac.value);
    }
  }

  /**
   * `ProcessSbsStream`: a dial error is returned with no batch; once
   * connected, the batch of the lines is returned and never an error.
   */
  method ProcessSbsStream(dialError: Option<string>, lines: seq<string>, cutoff: nat)
    returns (aircraft: seq<AircraftCurrent>, err: Option<string>)
    ensures dialError.Some? ==> aircraft == [] && err == dialError
    ensures dialError.None? ==> err == None && aircraft == Batch(lines, cutoff)
    ensures 3 * |aircraft| <= |lines|
  {
    if dialError.Some? {
      return [], dialError;
    }
    ghost var f := Fields(lines);
    ghost var d := Outcomes(f);
    aircraft := [];
    var i := 0;
    while i < |lines|
      invariant 0 <= i <= |lines|
      invariant aircraft + Scan(f, d, cutoff, i) == Batch(lines, cutoff)
      decreases |lines| - i
    {
      var next, rec, stop := ReadGroup(lines, i, cutoff, f, d);
      if stop {
        break;
      }
      if rec.Some? {
        Concat3(aircraft, [rec.value], Scan(f, d, cutoff, next));
        aircraft := aircraft + [rec.value];
      }
      i := next;
    }
    err := None;
  }

  /**
   * The k-th record of a batch is what the decoder makes of three
   * consecutive lines that pass the length guards and start before the
   * cutoff; `Starts` lists these groups in stream order, without overlap.
   */
  lemma BatchProvenance(lines: seq<string>, cutoff: nat, k: nat)
    requires k < |Batch(lines, cutoff)|
    ensures var f := Fields(lines);
      var s := Starts(f, Outcomes(f), cutoff, 0);
      && |s| == |Batch(lines, cutoff)|
      && s[k] < cutoff && Guarded(f, s[k])
      && SbsToAircraftCurrent(f[s[k]], f[s[k] + 1], f[s[k] + 2]) == Success(Batch(lines, cutoff)[k])
  {
    var f := Fields(lines);
    var d := Outcomes(f);
    StartOf(f, d, cutoff, k);
    OutcomeOf(f, Starts(f, d, cutoff, 0)[k]);
  }

  /** The k-th record that `Scan` returns from the first line on was decoded at the k-th start. */
  lemma StartOf(f: seq<seq<string>>, d: seq<Option<AircraftCurrent>>, cutoff: nat, k: nat)
    requires |d| == |f| && k < |Scan(f, d, cutoff, 0)|
    ensures var s := Starts(f, d, cutoff, 0);
      && |s| == |Scan(f, d, cutoff, 0)|
      && s[k] < cutoff && Guarded(f, s[k]) && d[s[k]] == Some(Scan(f, d, cutoff, 0)[k])
  {
    ScanStarts(f, d, cutoff, 0);
  }

  /** The lines of consecutive reports, three per report. */
  function Stream(reports: seq<SbsFormat.Report>): (lines: seq<string>)
    ensures |lines| == 3 * |reports|
  {
    seq(3 * |reports|, j requires 0 <= j < 3 * |reports| => SbsFormat.Lines(reports[j / 3])[j % 3])
  }

  function Records(reports: seq<SbsFormat.Report>): (r: seq<AircraftCurrent>)
    ensures |r| == |reports|
  {
    seq(|reports|, k requires 0 <= k < |reports| => SbsFormat.Record(reports[k]))
  }

  predicate AllWritable(reports: seq<SbsFormat.Report>)
  {
    forall k :: 0 <= k < |reports| ==> SbsFormat.Writable(reports[k])
  }

  /** From line i on, the input is groups of three lines that pass the guards and decode to `recs`, in order. */
  predicate Aligned(f: seq<seq<string>>, d: seq<Option<AircraftCurrent>>, i: nat, recs: seq<AircraftCurrent>)
    requires |d| == |f|
    decreases |recs|
  {
    if recs == [] then i == |f|
    else Guarded(f, i) && d[i] == Some(recs[0]) && Aligned(f, d, i + 3, recs[1..])
  }

  /** Aligned groups, all before the cutoff, give exactly their records. */
  lemma {:induction false} AlignedScan(f: seq<seq<string>>, d: seq<Option<AircraftCurrent>>, cutoff: nat, i: nat,
                                        recs: seq<AircraftCurrent>)
    requires |d| == |f| && cutoff >= |f| && Aligned(f, d, i, recs)
    ensures i + 3 * |recs| == |f|
    ensures Scan(f, d, cutoff, i) == recs
    decreases |recs|
  {
    if recs != [] {
      AlignedScan(f, d, cutoff, i + 3, recs[1..]);
      assert Scan(f, d, cutoff, i) == [recs[0]] + Scan(f, d, cutoff, i + 3);
      assert recs == [recs[0]] + recs[1..];
    }
  }

  /** Line j = 3k + m of the stream is line m of the k-th report. */
  lemma StreamAt(reports: seq<SbsFormat.Report>, k: nat, m: nat, j: nat)
    requires k < |reports| && m < 3 && j == 3 * k + m
    ensures j < |Stream(reports)| && Stream(reports)[j] == SbsFormat.Lines(reports[k])[m]
  {
    assert j / 3 == k && j % 3 == m;
  }

  /** The fields of line j = 3k + m of the stream are those of line m of the k-th report. */
  lemma FieldsAt(reports: seq<SbsFormat.Report>, k: nat, m: nat, j: nat)
    requires k < |reports| && m < 3 && j == 3 * k + m
    ensures var f := Fields(Stream(reports));
      j < |f| && f[j] == Split(SbsFormat.Lines(reports[k])[m], ',')
  {
    StreamAt(reports, k, m, j);
  }

  /** Three lines at i that hold a written report pass the guards, and the outcome there is its record. */
  lemma ReportOutcome(f: seq<seq<string>>, r: SbsFormat.Report, i: nat)
    requires SbsFormat.Writable(r) && i + 2 < |f|
    requires var lines := SbsFormat.Lines(r);
      f[i] == Split(lines[0], ',') && f[i + 1] == Split(lines[1], ',') && f[i + 2] == Split(lines[2], ',')
    ensures Guarded(f, i) && Outcomes(f)[i] == Some(SbsFormat.Record(r))
  {
    SbsFormat.DecodeLines(r);
  }

  /** The k-th report's lines, at 3k, pass the guards and decode to its record. */
  lemma ReportAt(reports: seq<SbsFormat.Report>, k: nat)
    requires AllWritable(reports) && k < |reports|
    ensures var f := Fields(Stream(reports));
      Guarded(f, 3 * k) && Outcomes(f)[3 * k] == Some(Records(reports)[k])
  {
    FieldsAt(reports, k, 0, 3 * k);
    FieldsAt(reports, k, 1, 3 * k + 1);
    FieldsAt(reports, k, 2, 3 * k + 2);
    ReportOutcome(Fields(Stream(reports)), reports[k], 3 * k);
  }

  /** Groups that each pass the guards and decode, one per record, back to back from line 3j, are aligned. */
  lemma {:induction false} AlignedFrom(f: seq<seq<string>>, d: seq<Option<AircraftCurrent>>, recs: seq<AircraftCurrent>, j: nat)
    requires |d| == |f| && |f| == 3 * |recs| && j <= |recs|
    requires forall k :: 0 <= k < |recs| ==> Guarded(f, 3 * k) && d[3 * k] == Some(recs[k])
    ensures Aligned(f, d, 3 * j, recs[j..])
    decreases |recs| - j
  {
    if j < |recs| {
      AlignedFrom(f, d, recs, j + 1);
      assert Guarded(f, 3 * j) && d[3 * j] == Some(recs[j]);
      assert recs[j..][0] == recs[j] && recs[j..][1..] == recs[j + 1..];
      assert 3 * j + 3 == 3 * (j + 1);
    } else {
      assert recs[j..] == [];
    }
  }

  /**
   * A feed that sends the three lines of each report in turn, all before
   * the waiting time is up, yields every report's record, in order.
   */
  lemma AlignedStream(reports: seq<SbsFormat.Report>, cutoff: nat)
    requires AllWritable(reports)
    requires cutoff >= 3 * |reports|
    ensures Batch(Stream(reports), cutoff) == Records(reports)
  {
    var f := Fields(Stream(reports));
    var d := Outcomes(f);
    var recs := Records(reports);
    forall k | 0 <= k < |recs| ensures Guarded(f, 3 * k) && d[3 * k] == Some(recs[k]) {
      ReportAt(reports, k);
    }
    AlignedFrom(f, d, recs, 0);
    assert recs[0..] == recs;
    AlignedScan(f, d, cutoff, 0, recs);
  }
}
