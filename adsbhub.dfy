/**
 * The `adsbhub` package, the earlier stream reader: `ProcessSBSstream` reads
 * an identification line and, whenever it has more than ten fields, the
 * two lines after it without looking at them first, and keeps the
 * triplets whose six numbers parse. The socket is a sequence of lines; once
 * it is exhausted the scanner's text is "" on every read. The per-read timer
 * is the set `slow` of lines (by index, `|lines|` standing for the read at
 * the end of the input) whose read at the top of the loop took more than
 * four seconds.
 */
module AdsbHub {
  import opened Wrappers
  import opened Strings
  import opened Numbers
  import opened Models
  import Converter
  import Convert
  import SbsProcessing

  /** The error returned when a group starts with a line of ten fields or fewer. */
  const CouldNotConnect: string := "could not connect to stream"

  /** How the function ends: its two results, or a run-time panic on an index out of range. */
  datatype Run = Returned(aircraft: seq<AircraftCurrent>, err: Option<string>) | Panicked

  /** What one pass of the loop does. */
  datatype Step =
    | Timeout             // the first read took too long: leave the loop
    | Refuse              // the first line has ten fields or fewer: return the error
    | Crash               // the second or third line is too short to index
    | Skip                // a numeric field did not parse: go on after the three lines
    | Got(ac: AircraftCurrent)

  /** What the scanner holds after reading line i: the line, or "" once the input is exhausted. */
  function Text(lines: seq<string>, i: nat): string
  {
    if i < |lines| then lines[i] else ""
  }

  /** Splitting the empty text gives one empty field. */
  lemma SplitEmpty()
    ensures Split("", ',') == [""]
  {
  }

  /**
   * The record of a triplet, when all six numeric fields parse (they are all
   * parsed, in the order altitude, speed, track, vertical rate, latitude,
   * longitude); None when any fails.
   */
  function HubDecode(msg1: seq<string>, msg3: seq<string>, msg4: seq<string>): Option<AircraftCurrent>
    requires |msg1| >= 11 && |msg3| >= 16 && |msg4| >= 17
  {
    var altitude, speed, track := Atoi(msg3[11]), ParseFloat(msg4[12]), ParseFloat(msg4[13]);
    var vspeed, lat, long := Atoi(msg4[16]), ParseFloat(msg3[14]), ParseFloat(msg3[15]);
    if altitude.Failure? || speed.Failure? || track.Failure? || vspeed.Failure? || lat.Failure? || long.Failure? then
      None
    else
      Some(AircraftCurrent(msg1[4], msg1[10], altitude.value, lat.value, long.value,
                           TruncToInt(speed.value), TruncToInt(track.value), vspeed.value,
                           Converter.MakeTimeStamp(msg1[8], msg1[9])))
  }

  /**
   * The earlier decoder and `Convert.SbsToAircraftCurrent` accept the same
   * triplets and make the same record of them.
   */
  lemma HubDecodeAgrees(msg1: seq<string>, msg3: seq<string>, msg4: seq<string>)
    requires |msg1| >= 11 && |msg3| >= 16 && |msg4| >= 17
    ensures var r := Convert.SbsToAircraftCurrent(msg1, msg3, msg4);
      HubDecode(msg1, msg3, msg4) == if r.Success? then Some(r.value) else None
  {
    Converter.MakeTimeStampAgrees(msg1[8], msg1[9]);
    Convert.SbsToAircraftCurrentSpec(msg1, msg3, msg4);
  }

  /**
   * One pass of the loop from line i. A group that goes on after the first
   * line always has its three lines in the input, because the text after
   * the end splits into a single field.
   */
  function StepAt(lines: seq<string>, slow: set<nat>, i: nat): (s: Step)
    ensures (s.Skip? || s.Got?) ==> i + 3 <= |lines|
  {
    var line1 := Split(Text(lines, i), ',');
    var line3 := Split(Text(lines, i + 1), ',');
    var line4 := Split(Text(lines, i + 2), ',');
    SplitEmpty();
    if i in slow then Timeout
    else if |line1| <= 10 then Refuse
    else if |line3| < 16 || |line4| < 17 then Crash
    else match HubDecode(line1, line3, line4)
      case None => Skip
      case Some(ac) => Got(ac)
  }

  /** What the loop makes of the input from line i on. */
  datatype Outcome = Done(recs: seq<AircraftCurrent>) | Refused | Panic

  /** The records already collected, in front of what the rest of the loop yields; an error or panic discards them. */
  function After(acc: seq<AircraftCurrent>, o: Outcome): Outcome
  {
    match o
    case Done(recs) => Done(acc + recs)
    case Refused => Refused
    case Panic => Panic
  }

  /** The values of g at i, i + 1, ..., n - 1. */
  function Tabulate(g: nat -> Step, i: nat, n: nat): (r: seq<Step>)
    requires i <= n
    ensures |r| == n - i
    decreases n - i
  {
    if i == n then [] else [g(i)] + Tabulate(g, i + 1, n)
  }

  lemma {:induction false} TabulateAt(g: nat -> Step, i: nat, n: nat, k: nat)
    requires i <= k < n
    ensures Tabulate(g, i, n)[k - i] == g(k)
    decreases k - i
  {
    if i < k {
      TabulateAt(g, i + 1, n, k);
    }
  }

  /** The pass of the loop that would start at each line, up to the read at the end of the input. */
  function Steps(lines: seq<string>, slow: set<nat>): (st: seq<Step>)
    ensures |st| == |lines| + 1
  {
    Tabulate((k: nat) => StepAt(lines, slow, k), 0, |lines| + 1)
  }

  lemma StepsAt(lines: seq<string>, slow: set<nat>, k: nat)
    requires k <= |lines|
    ensures Steps(lines, slow)[k] == StepAt(lines, slow, k)
  {
    TabulateAt((j: nat) => StepAt(lines, slow, j), 0, |lines| + 1, k);
  }

  lemma StepsGot(lines: seq<string>, slow: set<nat>, k: nat, ac: AircraftCurrent)
    requires k <= |lines| && StepAt(lines, slow, k) == Got(ac)
    ensures Steps(lines, slow)[k] == Got(ac)
  {
    StepsAt(lines, slow, k);
  }

  /** A read that outlasts the timer ends the loop there. */
  lemma SlowAt(lines: seq<string>, slow: set<nat>, k: nat)
    requires k <= |lines|
    ensures Steps(lines, slow)[k].Timeout? <==> k in slow
  {
    StepsAt(lines, slow, k);
  }

  /** A pass that goes on is followed by the pass three lines later. */
  predicate Chained(st: seq<Step>)
  {
    forall j :: 0 <= j < |st| && (st[j].Skip? || st[j].Got?) ==> j + 3 < |st|
  }

  lemma StepsChained(lines: seq<string>, slow: set<nat>)
    ensures Chained(Steps(lines, slow))
  {
    var st := Steps(lines, slow);
    forall j | 0 <= j < |st| && (st[j].Skip? || st[j].Got?) ensures j + 3 < |st| {
      StepsAt(lines, slow, j);
    }
  }

  /** What the loop makes of the passes from the one at i on. */
  function Follow(st: seq<Step>, i: nat): Outcome
    requires Chained(st) && i < |st|
    decreases |st| - i
  {
    match st[i]
    case Timeout => Done([])
    case Refuse => Refused
    case Crash => Panic
    case Skip => Follow(st, i + 3)
    case Got(ac) => After([ac], Follow(st, i + 3))
  }

  /** What the loop makes of the input from line i on. */
  function Collect(lines: seq<string>, slow: set<nat>, i: nat): Outcome
    requires i <= |lines|
  {
    StepsChained(lines, slow);
    Follow(Steps(lines, slow), i)
  }

  /** The function's results for an outcome of the loop. */
  function Finish(o: Outcome): Run
  {
    match o
    case Done(recs) => Returned(recs, None)
    case Refused => Returned([], Some(CouldNotConnect))
    case Panic => Panicked
  }

  /**
   * One pass of the loop body, reading the lines as the source does: what
   * it returns decides how the rest of the loop from line i goes.
   */
  method ReadTriplet(lines: seq<string>, slow: set<nat>, i: nat, ghost st: seq<Step>) returns (step: Step)
    requires i <= |lines| && st == Steps(lines, slow)
    ensures step == st[i]
    ensures (step.Skip? || step.Got?) ==> i + 3 <= |lines|
  {
    StepsAt(lines, slow, i);
    if i in slow {
      return Timeout;
    }
    var line := Split(Text(lines, i), ',');
    if |line| > 10 {
      var icao, date, time, callsign := line[4], line[8], line[9], line[10];
      line := Split(Text(lines, i + 1), ',');
      if |line| < 16 {
        return Crash;
      }
      var altitudeStr, latStr, longStr := line[11], line[14], line[15];
      line := Split(Text(lines, i + 2), ',');
      if |line| < 17 {
        return Crash;
      }
      var speedStr, trackStr, vspeedStr := line[12], line[13], line[16];
      var altitude, speed, track := Atoi(altitudeStr), ParseFloat(speedStr), ParseFloat(trackStr);
      var vspeed, lat, long := Atoi(vspeedStr), ParseFloat(latStr), ParseFloat(longStr);
      if altitude.Failure? || speed.Failure? || track.Failure? || vspeed.Failure? || lat.Failure? || long.Failure? {
        return Skip;
      }
      var timestamp := Converter.MakeTimeStamp(date, time);
      step := Got(AircraftCurrent(icao, callsign, altitude.value, lat.value, long.value,
                                  TruncToInt(speed.value), TruncToInt(track.value), vspeed.value, timestamp));
    } else {
      return Refuse;
    }
  }

  lemma AfterAfter(a: seq<AircraftCurrent>, b: seq<AircraftCurrent>, o: Outcome)
    ensures After(a, After(b, o)) == After(a + b, o)
  {
    if o.Done? {
      assert a + (b + o.recs) == (a + b) + o.recs;
    }
  }

  /**
   * `ProcessSBSstream`: a dial error is returned with no aircraft; otherwise
   * the loop runs until a slow read (the aircraft so far, no error), a
   * first line of ten fields or fewer (no aircraft and the error) or a
   * panic.
   */
  method ProcessSBSstream(dialError: Option<string>, lines: seq<string>, slow: set<nat>) returns (run: Run)
    ensures dialError.Some? ==> run == Returned([], dialError)
    ensures dialError.None? ==> run == Finish(Collect(lines, slow, 0))
  {
    if dialError.Some? {
      return Returned([], dialError);
    }
    ghost var st := Steps(lines, slow);
    StepsChained(lines, slow);
    ghost var total := Follow(st, 0);
    var aircrafts: seq<AircraftCurrent> := [];
    var i: nat := 0;
    while true
      invariant i <= |lines|
      invariant total == After(aircrafts, Follow(st, i))
      decreases |lines| - i
    {
      var step := ReadTriplet(lines, slow, i, st);
      match step {
        case Timeout =>
          assert aircrafts + [] == aircrafts;
          break;
        case Refuse =>
          return Returned([], Some(CouldNotConnect));
        case Crash =>
          return Panicked;
        case Skip =>
          i := i + 3;
        case Got(ac) =>
          AfterAfter(aircrafts, [ac], Follow(st, i + 3));
          aircrafts := aircrafts + [ac];
          i := i + 3;
      }
    }
    run := Returned(aircrafts, None);
  }

  /** Each record takes three passes' worth of lines: the passes from i on yield at most a third of what remains. */
  lemma {:induction false} FollowBound(st: seq<Step>, i: nat)
    requires Chained(st) && i < |st|
    ensures Follow(st, i).Done? ==> 3 * |Follow(st, i).recs| <= |st| - 1 - i
    decreases |st| - i
  {
    if st[i].Skip? || st[i].Got? {
      FollowBound(st, i + 3);
      var rest := Follow(st, i + 3);
      if st[i].Got? && rest.Done? {
        assert Follow(st, i).recs == [st[i].ac] + rest.recs;
      }
    }
  }

  /** A run that returns aircraft returns at most a third as many as there are lines. */
  lemma CollectBound(lines: seq<string>, slow: set<nat>)
    ensures Collect(lines, slow, 0).Done? ==> 3 * |Collect(lines, slow, 0).recs| <= |lines|
  {
    StepsChained(lines, slow);
    FollowBound(Steps(lines, slow), 0);
  }

  /** Passes that yield records end at a timeout, at or after pass i. */
  lemma {:induction false} FollowEndsInTimeout(st: seq<Step>, i: nat)
    requires Chained(st) && i < |st|
    ensures Follow(st, i).Done? ==> exists j :: i <= j < |st| && st[j].Timeout?
    decreases |st| - i
  {
    if st[i].Skip? || st[i].Got? {
      FollowEndsInTimeout(st, i + 3);
    }
  }

  /**
   * The only way to return aircraft is the timer: a run that yields
   * records went through a slow read, at most at the end of the input.
   */
  lemma OnlyTimerSucceeds(lines: seq<string>, slow: set<nat>)
    ensures Collect(lines, slow, 0).Done? ==> exists j :: 0 <= j <= |lines| && j in slow
  {
    var st := Steps(lines, slow);
    StepsChained(lines, slow);
    FollowEndsInTimeout(st, 0);
    if Collect(lines, slow, 0).Done? {
      var j :| 0 <= j < |st| && st[j].Timeout?;
      SlowAt(lines, slow, j);
    }
  }

  /**
   * An input that ends right after a first line of more than ten fields
   * makes the next read give "", and indexing its single field panics.
   */
  lemma EndAfterFirstLinePanics(lines: seq<string>, slow: set<nat>, i: nat)
    requires i + 1 == |lines| && i !in slow && |Split(lines[i], ',')| > 10
    ensures Collect(lines, slow, i) == Panic
  {
    SplitEmpty();
    StepsAt(lines, slow, i);
  }

  /**
   * A group that starts with an empty line, read in time, ends the run with
   * the error, and the aircraft collected before it are dropped.
   */
  lemma EmptyLineRefuses(lines: seq<string>, slow: set<nat>, i: nat, acc: seq<AircraftCurrent>)
    requires i <= |lines| && i !in slow && Text(lines, i) == ""
    ensures Collect(lines, slow, i) == Refused
    ensures Finish(After(acc, Refused)) == Returned([], Some(CouldNotConnect))
  {
    SplitEmpty();
    StepsAt(lines, slow, i);
  }

  /**
   * In a feed of written reports, the group of the k-th report, read in
   * time, is kept with that report's record.
   */
  lemma HubStepAt(reports: seq<SbsProcessing.SbsFormat.Report>, slow: set<nat>, k: nat)
    requires SbsProcessing.AllWritable(reports) && k < |reports| && 3 * k !in slow
    ensures StepAt(SbsProcessing.Stream(reports), slow, 3 * k) == Got(SbsProcessing.Records(reports)[k])
  {
    var lines := SbsProcessing.Stream(reports);
    var f := SbsProcessing.Fields(lines);
    SbsProcessing.ReportAt(reports, k);
    assert Text(lines, 3 * k) == lines[3 * k] && Text(lines, 3 * k + 1) == lines[3 * k + 1]
      && Text(lines, 3 * k + 2) == lines[3 * k + 2];
    SbsProcessing.OutcomeOf(f, 3 * k);
    HubDecodeAgrees(f[3 * k], f[3 * k + 1], f[3 * k + 2]);
  }

  /** Passes that yield recs[j] at every third line, from the k-th on, and then time out, yield recs[k..]. */
  lemma {:induction false} FollowRecords(st: seq<Step>, recs: seq<AircraftCurrent>, k: nat)
    requires Chained(st) && |st| == 3 * |recs| + 1 && k <= |recs|
    requires forall j :: 0 <= j < |recs| ==> st[3 * j] == Got(recs[j])
    requires st[3 * |recs|] == Timeout
    ensures Follow(st, 3 * k) == Done(recs[k..])
    decreases |recs| - k
  {
    if k == |recs| {
      assert recs[k..] == [];
    } else {
      assert st[3 * k] == Got(recs[k]);
      FollowRecords(st, recs, k + 1);
      assert 3 * k + 3 == 3 * (k + 1);
      assert recs[k..] == [recs[k]] + recs[k + 1..];
    }
  }

  /**
   * A feed that sends the three lines of each written report, every group
   * read in time, followed by a read that outlasts the timer, is returned
   * as every report's record, in order, with no error.
   */
  lemma HubStream(reports: seq<SbsProcessing.SbsFormat.Report>, slow: set<nat>)
    requires SbsProcessing.AllWritable(reports)
    requires forall j :: 0 <= j < |reports| ==> 3 * j !in slow
    requires 3 * |reports| in slow
    ensures Finish(Collect(SbsProcessing.Stream(reports), slow, 0)) == Returned(SbsProcessing.Records(reports), None)
  {
    var lines, recs := SbsProcessing.Stream(reports), SbsProcessing.Records(reports);
    var st := Steps(lines, slow);
    StepsChained(lines, slow);
    forall j | 0 <= j < |recs| ensures st[3 * j] == Got(recs[j]) {
      HubStepAt(reports, slow, j);
      StepsGot(lines, slow, 3 * j, recs[j]);
    }
    SlowAt(lines, slow, 3 * |reports|);
    FollowRecords(st, recs, 0);
    assert recs[0..] == recs;
  }
}
