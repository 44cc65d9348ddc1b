/**
 The `read` and `init` actions: one pass over the selected sensors in order, each
 sensor handled inside its own `try`, so that a failure yields an error line for
 that sensor alone and the loop goes on with the next one.
 */
module Batch {
  import opened Wrappers
  import opened Conf
  import Numerals
  import opened SensorReader
  import LineProtocol
  import PyStr

  /** What one sensor contributes: a line on standard output, or an error message on
      standard error. */
  datatype Outcome = Line(text: string) | Error(message: string)

  /** The two formatted temperatures, `'{:.{}f}'.format(value, decimals)`, together with the record. */
  function SensorRecord(sensor: string, t: Reading, decimals: int, timestamp: Option<int>,
                        format: (real, int) -> string): string
  {
    LineProtocol.Record(sensor, format(t.celsius, decimals), format(t.fahrenheit, decimals), timestamp)
  }

  /** What `read_temp` did for one sensor: what it returned or raised, and the I/O errors
      it printed on the way. */
  datatype SensorRun = SensorRun(temp: Result<Reading, ReadFailure>, log: seq<string>)

  function RunOf(sensor: string, results: seq<ReadResult>): SensorRun
    requires Attempts <= |results|
  {
    var tried := Attempted(results);
    SensorRun(TempResult(DevicePath(sensor), tried), IoLog(tried[..AttemptsMade(tried)]))
  }

  predicate EnoughResults(results: seq<seq<ReadResult>>) {
    forall i :: 0 <= i < |results| ==> Attempts <= |results[i]|
  }

  /** The run of every sensor of a batch; each depends on that sensor's reads alone. */
  function Runs(sensors: seq<string>, results: seq<seq<ReadResult>>): (runs: seq<SensorRun>)
    requires |results| == |sensors| && EnoughResults(results)
    ensures |runs| == |sensors|
    ensures forall i :: 0 <= i < |sensors| ==> runs[i] == RunOf(sensors[i], results[i])
  {
    seq(|sensors|, i requires 0 <= i < |sensors| => RunOf(sensors[i], results[i]))
  }

  /** The outcome of `read` for one sensor, given what `read_temp` gave, with `now` the
      clock in milliseconds when the timestamp is taken. */
  function ReadOutcome(sensor: string, decimals: int, timestamp: bool, format: (real, int) -> string,
                       temp: Result<Reading, ReadFailure>, now: int): Outcome
  {
    match temp
    case Failure(e) => Error(FailureMessage(e))
    case Success(t) => Line(SensorRecord(sensor, t, decimals, if timestamp then Some(now) else None, format))
  }

  /** `f` applied to each sensor with its run and its clock reading, in order. */
  function PerSensor<T>(f: (string, SensorRun, int) -> T, sensors: seq<string>, runs: seq<SensorRun>,
                        clock: seq<int>): seq<T>
    requires |runs| == |sensors| && |clock| == |sensors|
    decreases |sensors|
  {
    if |sensors| == 0 then []
    else
      var n := |sensors| - 1;
      PerSensor(f, sensors[..n], runs[..n], clock[..n]) + [f(sensors[n], runs[n], clock[n])]
  }

  lemma {:induction false} PerSensorAt<T>(f: (string, SensorRun, int) -> T, sensors: seq<string>,
                                          runs: seq<SensorRun>, clock: seq<int>, i: nat)
    requires |runs| == |sensors| && |clock| == |sensors|
    requires i < |sensors|
    ensures |PerSensor(f, sensors, runs, clock)| == |sensors|
    ensures PerSensor(f, sensors, runs, clock)[i] == f(sensors[i], runs[i], clock[i])
    decreases |sensors|
  {
    var n := |sensors| - 1;
    if i < n {
      PerSensorAt(f, sensors[..n], runs[..n], clock[..n], i);
    } else if n > 0 {
      PerSensorAt(f, sensors[..n], runs[..n], clock[..n], 0);
    }
  }

  lemma PerSensorStep<T>(f: (string, SensorRun, int) -> T, sensors: seq<string>, runs: seq<SensorRun>,
                         clock: seq<int>, i: nat)
    requires |runs| == |sensors| && |clock| == |sensors|
    requires i < |sensors|
    ensures PerSensor(f, sensors[..i + 1], runs[..i + 1], clock[..i + 1])
            == PerSensor(f, sensors[..i], runs[..i], clock[..i]) + [f(sensors[i], runs[i], clock[i])]
  {
    assert sensors[..i + 1][..i] == sensors[..i];
    assert runs[..i + 1][..i] == runs[..i];
    assert clock[..i + 1][..i] == clock[..i];
  }

  /** The outcomes of `read` for a batch, sensor after sensor. */
  function ReadAll(sensors: seq<string>, decimals: int, timestamp: bool, format: (real, int) -> string,
                   runs: seq<SensorRun>, clock: seq<int>): seq<Outcome>
    requires |runs| == |sensors| && |clock| == |sensors|
  {
    PerSensor((sensor, run: SensorRun, now) => ReadOutcome(sensor, decimals, timestamp, format, run.temp, now),
              sensors, runs, clock)
  }

  /** Every sensor gets exactly one outcome, in the order given, and the outcome of each
      is that of its own run. */
  lemma ReadAllAt(sensors: seq<string>, decimals: int, timestamp: bool, format: (real, int) -> string,
                  runs: seq<SensorRun>, clock: seq<int>, i: nat)
    requires |runs| == |sensors| && |clock| == |sensors|
    requires i < |sensors|
    ensures |ReadAll(sensors, decimals, timestamp, format, runs, clock)| == |sensors|
    ensures ReadAll(sensors, decimals, timestamp, format, runs, clock)[i]
            == ReadOutcome(sensors[i], decimals, timestamp, format, runs[i].temp, clock[i])
  {
    PerSensorAt((sensor, run: SensorRun, now) => ReadOutcome(sensor, decimals, timestamp, format, run.temp, now),
                sensors, runs, clock, i);
  }

  /** Standard error for one sensor: the I/O errors `read_temp` printed, then the
      exception's message if it raised. */
  function Diagnostics(run: SensorRun): seq<string> {
    run.log + match run.temp
              case Failure(e) => [FailureMessage(e)]
              case Success(_) => []
  }

  /** Standard error for a batch, sensor after sensor. */
  function AllDiagnostics(runs: seq<SensorRun>): seq<string>
    decreases |runs|
  {
    if |runs| == 0 then [] else AllDiagnostics(runs[..|runs| - 1]) + Diagnostics(runs[|runs| - 1])
  }

  lemma DiagnosticsStep(runs: seq<SensorRun>, i: nat)
    requires i < |runs|
    ensures AllDiagnostics(runs[..i + 1]) == AllDiagnostics(runs[..i]) + Diagnostics(runs[i])
  {
    assert runs[..i + 1][..i] == runs[..i];
  }

  /** Standard error of two runs of sensors one after the other is that of the first
      followed by that of the second. */
  lemma {:induction false} AllDiagnosticsAppend(first: seq<SensorRun>, second: seq<SensorRun>)
    ensures AllDiagnostics(first + second) == AllDiagnostics(first) + AllDiagnostics(second)
    decreases |second|
  {
    if |second| > 0 {
      var n := |second| - 1;
      assert (first + second)[..|first + second| - 1] == first + second[..n];
      assert (first + second)[|first + second| - 1] == second[n];
      AllDiagnosticsAppend(first, second[..n]);
    } else {
      assert first + second == first;
    }
  }

  /** Standard error of a batch is that of the sensors before `i`, then that of sensor
      `i`, then that of the sensors after it. */
  lemma AllDiagnosticsAt(runs: seq<SensorRun>, i: nat)
    requires i < |runs|
    ensures AllDiagnostics(runs) == AllDiagnostics(runs[..i]) + Diagnostics(runs[i]) + AllDiagnostics(runs[i + 1..])
  {
    assert runs == runs[..i + 1] + runs[i + 1..];
    AllDiagnosticsAppend(runs[..i + 1], runs[i + 1..]);
    DiagnosticsStep(runs, i);
  }

  /** Each sensor of `read` sits in its own `try`: what is printed for sensor `i`, on
      standard output and its part of standard error, is the same whatever the reads of
      the other sensors are. */
  lemma ReadIsolated(sensors: seq<string>, decimals: int, timestamp: bool, format: (real, int) -> string,
                     results: seq<seq<ReadResult>>, others: seq<seq<ReadResult>>, clock: seq<int>, i: nat)
    requires |results| == |sensors| && |others| == |sensors| && |clock| == |sensors|
    requires EnoughResults(results) && EnoughResults(others)
    requires i < |sensors| && others[i] == results[i]
    ensures |ReadAll(sensors, decimals, timestamp, format, Runs(sensors, others), clock)| == |sensors|
    ensures |ReadAll(sensors, decimals, timestamp, format, Runs(sensors, results), clock)| == |sensors|
    ensures ReadAll(sensors, decimals, timestamp, format, Runs(sensors, others), clock)[i]
            == ReadAll(sensors, decimals, timestamp, format, Runs(sensors, results), clock)[i]
    ensures var runs := Runs(sensors, others);
            AllDiagnostics(runs)
            == AllDiagnostics(runs[..i]) + Diagnostics(Runs(sensors, results)[i]) + AllDiagnostics(runs[i + 1..])
  {
    ReadAllAt(sensors, decimals, timestamp, format, Runs(sensors, others), clock, i);
    ReadAllAt(sensors, decimals, timestamp, format, Runs(sensors, results), clock, i);
    AllDiagnosticsAt(Runs(sensors, others), i);
  }

  /** The `read_temp` call for one sensor of `read`. */
  method ReadSensor(sensor: string, results: seq<ReadResult>) returns (temp: Result<Reading, ReadFailure>, log: seq<string>)
    requires Attempts <= |results|
    ensures SensorRun(temp, log) == RunOf(sensor, results)
  {
    var attempts, sleeps;
    temp, attempts, sleeps, log := ReadTemp(DevicePath(sensor), results);
  }

  /** What `read` prints for one sensor once `read_temp` has returned or raised: the
      I/O errors logged during the reads, then either the exception's message on
      standard error or the sensor's line on standard output. */
  method Report(sensor: string, decimals: int, timestamp: bool, format: (real, int) -> string,
                temp: Result<Reading, ReadFailure>, log: seq<string>, now: int)
    returns (outcome: Outcome, stderr: seq<string>)
    ensures outcome == ReadOutcome(sensor, decimals, timestamp, format, temp, now)
    ensures stderr == Diagnostics(SensorRun(temp, log))
  {
    stderr := log;
    match temp
    case Failure(e) =>
      var message := FailureMessage(e);
      stderr := stderr + [message];
      outcome := Error(message);
    case Success(t) =>
      var ts: Option<int> := None;
      if timestamp {
        ts := Some(now);
      }
      outcome := Line(SensorRecord(sensor, t, decimals, ts, format));
  }

  /** `read(args)`: `results[i]` stands for the reads of the `i`-th sensor's data file and
      `clock[i]` for the time in milliseconds when its timestamp would be taken. */
  method Read(sensors: seq<string>, decimals: int, timestamp: bool, format: (real, int) -> string,
              results: seq<seq<ReadResult>>, clock: seq<int>)
    returns (outcomes: seq<Outcome>, stderr: seq<string>)
    requires |results| == |sensors| && |clock| == |sensors|
    requires EnoughResults(results)
    ensures outcomes == ReadAll(sensors, decimals, timestamp, format, Runs(sensors, results), clock)
    ensures stderr == AllDiagnostics(Runs(sensors, results))
  {
    ghost var runs := Runs(sensors, results);
    outcomes, stderr := [], [];
    for i := 0 to |sensors|
      invariant outcomes == ReadAll(sensors[..i], decimals, timestamp, format, runs[..i], clock[..i])
      invariant stderr == AllDiagnostics(runs[..i])
    {
      PerSensorStep((sensor, run: SensorRun, now) => ReadOutcome(sensor, decimals, timestamp, format, run.temp, now),
                    sensors, runs, clock, i);
      DiagnosticsStep(runs, i);
      var sensor := sensors[i];
      var temp, log := ReadSensor(sensor, results[i]);
      var outcome, errors := Report(sensor, decimals, timestamp, format, temp, log, clock[i]);
      outcomes, stderr := outcomes + [outcome], stderr + errors;
    }
    assert sensors[..|sensors|] == sensors;
    assert runs[..|runs|] == runs;
    assert clock[..|clock|] == clock;
  }

  /** A sensor's line is printed exactly when its reads succeed; otherwise its only
      entry is the error, which for used-up attempts names the sensor's data file. */
  lemma ReadOutcomeCases(sensor: string, decimals: int, timestamp: bool, format: (real, int) -> string,
                         results: seq<ReadResult>, now: int)
    requires Attempts <= |results|
    ensures var o := ReadOutcome(sensor, decimals, timestamp, format, RunOf(sensor, results).temp, now);
            o.Line? <==> TempResult(DevicePath(sensor), Attempted(results)).Success?
    ensures var o := ReadOutcome(sensor, decimals, timestamp, format, RunOf(sensor, results).temp, now);
                  (forall j :: 0 <= j < Attempts ==> !Attempted(results)[j].TempField?) ==>
              o == Error("Error reading temp from file: " + DevicePath(sensor))
  {
    ExhaustedIff(DevicePath(sensor), Attempted(results));
  }

  /** The line printed for a good read is the record of its two formatted temperatures,
      ending in the timestamp exactly when one is requested. */
  lemma ReadOutcomeLine(sensor: string, decimals: int, timestamp: bool, format: (real, int) -> string,
                        now: int, t: Reading)
    requires var f := format(t.fahrenheit, decimals); f == [] || !PyStr.IsSpace(f[|f| - 1])
    ensures var head := LineProtocol.Head(sensor, format(t.celsius, decimals)) + format(t.fahrenheit, decimals);
            ReadOutcome(sensor, decimals, timestamp, format, Success(t), now) ==
              Line(if timestamp then head + " " + Numerals.IntToDecimal(now) else head)
  {
    var c := format(t.celsius, decimals);
    var f := format(t.fahrenheit, decimals);
    if timestamp {
      LineProtocol.RecordWithTimestamp(sensor, c, f, now);
    } else {
      LineProtocol.RecordWithoutTimestamp(sensor, c, f);
    }
  }

  /** What one open-write-close of a data file gives. */
  datatype WriteResult = Written | WriteError(message: string)

  /** A file written, with the text written to it. */
  datatype FileWrite = FileWrite(path: string, text: string)

  /** The outcome of `init` for one sensor. The table lookup for the message comes after
      the write, so a resolution missing from the table is written and then reported as
      the `KeyError`, whose message is the key. */
  function InitOutcome(sensor: string, resolution: int, w: WriteResult): Outcome {
    match w
    case WriteError(message) => Error(message)
    case Written =>
      match ResolutionText(resolution)
      case None => Error(Numerals.IntToDecimal(resolution))
      case Some(step) =>
        Line("Sensor " + sensor + " resolution set to " + Numerals.IntToDecimal(resolution)
             + " which is an increment of " + step + "*C")
  }

  /** The files `init` writes, in sensor order: the data file of every sensor whose write
      went through, holding `str(resolution)`. */
  function FilesWritten(sensors: seq<string>, resolution: int, writes: seq<WriteResult>): seq<FileWrite>
    requires |writes| == |sensors|
    decreases |sensors|
  {
    if |sensors| == 0 then []
    else
      var n := |sensors| - 1;
      FilesWritten(sensors[..n], resolution, writes[..n]) +
        if writes[n].Written? then [FileWrite(DevicePath(sensors[n]), Numerals.IntToDecimal(resolution))] else []
  }

  /** The outcomes of `init` for a batch, sensor after sensor. */
  function InitAll(sensors: seq<string>, resolution: int, writes: seq<WriteResult>): (outcomes: seq<Outcome>)
    requires |writes| == |sensors|
    ensures |outcomes| == |sensors|
    ensures forall i :: 0 <= i < |sensors| ==> outcomes[i] == InitOutcome(sensors[i], resolution, writes[i])
    decreases |sensors|
  {
    if |sensors| == 0 then []
    else
      var n := |sensors| - 1;
      InitAll(sensors[..n], resolution, writes[..n]) + [InitOutcome(sensors[n], resolution, writes[n])]
  }

  /** `init(args)`: `writes[i]` stands for what writing the `i`-th sensor's data file gives. */
  method Init(sensors: seq<string>, resolution: int, writes: seq<WriteResult>)
    returns (outcomes: seq<Outcome>, files: seq<FileWrite>)
    requires |writes| == |sensors|
    ensures outcomes == InitAll(sensors, resolution, writes)
    ensures files == FilesWritten(sensors, resolution, writes)
  {
    outcomes, files := [], [];
    for i := 0 to |sensors|
      invariant outcomes == InitAll(sensors[..i], resolution, writes[..i])
      invariant files == FilesWritten(sensors[..i], resolution, writes[..i])
    {
      assert sensors[..i + 1][..i] == sensors[..i];
      assert writes[..i + 1][..i] == writes[..i];
      var sensor := sensors[i];
      match writes[i]
      case WriteError(message) =>
        outcomes := outcomes + [Error(message)];
        continue;
      case Written =>
        files := files + [FileWrite(DevicePath(sensor), Numerals.IntToDecimal(resolution))];
        var step := ResolutionText(resolution);
        if step.None? {
          outcomes := outcomes + [Error(Numerals.IntToDecimal(resolution))];
          continue;
        }
        outcomes := outcomes + [Line("Sensor " + sensor + " resolution set to " + Numerals.IntToDecimal(resolution)
                                     + " which is an increment of " + step.value + "*C")];
    }
    assert sensors[..|sensors|] == sensors;
    assert writes[..|writes|] == writes;
  }

  /** Every file `init` writes is a selected sensor's data file holding the decimal text of
      the resolution, which reads back as that resolution. */
  lemma {:induction false} FilesWrittenHoldResolution(sensors: seq<string>, resolution: int, writes: seq<WriteResult>, k: nat)
    requires |writes| == |sensors|
    requires k < |FilesWritten(sensors, resolution, writes)|
    ensures var w := FilesWritten(sensors, resolution, writes)[k];
            && w.text == Numerals.IntToDecimal(resolution)
            && Numerals.ParseInteger(w.text) == Some(resolution)
            && exists i :: 0 <= i < |sensors| && writes[i].Written? && w.path == DevicePath(sensors[i])
    decreases |sensors|
  {
    var n := |sensors| - 1;
    var before := FilesWritten(sensors[..n], resolution, writes[..n]);
    if k < |before| {
      FilesWrittenHoldResolution(sensors[..n], resolution, writes[..n], k);
      var i :| 0 <= i < n && writes[..n][i].Written? && before[k].path == DevicePath(sensors[..n][i]);
      assert writes[i] == writes[..n][i] && sensors[i] == sensors[..n][i];
    } else {
      assert writes[n].Written?;
    }
  }

  /** Every write that goes through leaves its sensor's data file, holding `str(resolution)`,
      among the files written. */
  lemma {:induction false} FilesWrittenComplete(sensors: seq<string>, resolution: int, writes: seq<WriteResult>, i: nat)
    requires |writes| == |sensors|
    requires i < |sensors| && writes[i].Written?
    ensures FileWrite(DevicePath(sensors[i]), Numerals.IntToDecimal(resolution)) in FilesWritten(sensors, resolution, writes)
    decreases |sensors|
  {
    var n := |sensors| - 1;
    if i < n {
      FilesWrittenComplete(sensors[..n], resolution, writes[..n], i);
      assert writes[..n][i] == writes[i] && sensors[..n][i] == sensors[i];
    }
  }

  /** `init` reports success exactly for a completed write of a resolution in the table. */
  lemma InitOutcomeCases(sensor: string, resolution: int, w: WriteResult)
    ensures InitOutcome(sensor, resolution, w).Line? <==> w.Written? && 9 <= resolution <= 12
    ensures w.Written? && !(9 <= resolution <= 12) ==>
              InitOutcome(sensor, resolution, w) == Error(Numerals.IntToDecimal(resolution))
  {
    ResolutionTextDenotes(resolution);
  }
}
