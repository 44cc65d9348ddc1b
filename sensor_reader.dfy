/**
 `read_temp`: up to three reads of a sensor's data file, each checked for the
 kernel driver's CRC marker, the temperature taken from the `t=` field.
 The file system is replaced by the sequence of results the successive reads
 would give; sleeps and diagnostic lines are counted and collected.
 */
module SensorReader {
  import opened Wrappers
  import opened PyStr
  import Numerals
  import opened Conf

  /** What one open-and-`readlines()` of the data file gives: an error, or the lines read. */
  datatype ReadResult = IoError(message: string) | Content(lines: seq<string>)

  /** A read that goes through on a file holding `text`. */
  function FileRead(text: string): ReadResult {
    Content(ReadLines(text))
  }

  /** A temperature in degrees Celsius and Fahrenheit. */
  datatype Reading = Reading(celsius: real, fahrenheit: real)

  /** Why `read_temp` raised: every attempt used up, or a `t=` field that is not a number. */
  datatype ReadFailure = Exhausted(filename: string) | NotANumber(text: string)

  /** How one attempt ends. */
  datatype Attempt =
    | IoFailed(message: string)   // logged, no sleep
    | CrcMiss                     // one sleep
    | NoTempField                 // accepted, but line two has no `t=`
    | TempField(text: string)     // accepted; the text after the first `t=`

  /** The message the raised exception carries (`str(e)`). */
  function FailureMessage(f: ReadFailure): string {
    match f
    case Exhausted(filename) => "Error reading temp from file: " + filename
    case NotANumber(text) => "could not convert string to float: '" + text + "'"
  }

  /** The content counts only with exactly two lines, the first ending (once stripped) in `YES`. */
  predicate CrcOk(lines: seq<string>) {
    |lines| == 2 && LastChars(Strip(lines[0]), 3) == "YES"
  }

  /** The slice comparison `lines[0].strip()[-3:] != 'YES'` is a plain suffix test. */
  lemma CrcOkIsSuffixTest(lines: seq<string>)
    ensures CrcOk(lines) <==> |lines| == 2 && EndsWith(Strip(lines[0]), "YES")
  {
    if |lines| == 2 {
      LastCharsIsSuffixTest(Strip(lines[0]), "YES");
    }
  }

  function Classify(r: ReadResult): Attempt {
    match r
    case IoError(message) => IoFailed(message)
    case Content(lines) =>
      if !CrcOk(lines) then CrcMiss
      else
        var pos := Find(lines[1], "t=");
        if pos == -1 then NoTempField else TempField(lines[1][pos + 2..])
  }

  /** `float(temp_string)` restricted to integral millidegrees: ASCII whitespace around an
      optionally signed run of ASCII digits. */
  function ParseMillidegrees(text: string): Option<int> {
    Numerals.ParseInteger(StripAscii(text))
  }

  /** What the driver writes after `t=`, a decimal integer and the line's newline, is read back exactly. */
  lemma ParseMillidegreesOfDriverText(n: int)
    ensures ParseMillidegrees(Numerals.IntToDecimal(n) + "\n") == Some(n)
  {
    var d := Numerals.IntToDecimal(n);
    StripAsciiLine(d);
  }

  /** The information separators U+001C to U+001F count as whitespace for `str.strip()`
      but are not skipped by `float()` in an ASCII text: the value is rejected. */
  lemma SeparatorNotSkipped()
    ensures ParseMillidegrees("\U{1C}25") == None
    ensures Strip("\U{1C}25") == "25"
  {
    var s := "\U{1C}25";
    assert !IsAsciiSpace(s[0]) && !IsAsciiSpace(s[|s| - 1]);
    assert StripAscii(s) == s;
    assert !Numerals.IsDigit(s[0]);
    assert s[1..] == "25";
    assert Strip(s[1..]) == "25";
  }

  /** Millidegrees Celsius to the pair of readings: `C = n / 1000`, `F = C * 9 / 5 + 32`. */
  function FromMillidegrees(n: int): (t: Reading)
    ensures t.celsius * 1000.0 == n as real
    ensures (t.fahrenheit - 32.0) * 5.0 == t.celsius * 9.0
  {
    Reading(n as real / 1000.0, n as real / 1000.0 * 9.0 / 5.0 + 32.0)
  }

  lemma FreezingAndRoomTemperature()
    ensures FromMillidegrees(0) == Reading(0.0, 32.0)
    ensures FromMillidegrees(25000) == Reading(25.0, 77.0)
    ensures FromMillidegrees(-40000) == Reading(-40.0, -40.0)
  {
  }

  /** Warmer readings in millidegrees are warmer on both scales. */
  lemma FromMillidegreesMonotonic(m: int, n: int)
    requires m < n
    ensures FromMillidegrees(m).celsius < FromMillidegrees(n).celsius
    ensures FromMillidegrees(m).fahrenheit < FromMillidegrees(n).fahrenheit
  {
  }

  /** `[f(x) for x in s]`. */
  function Map<A, B>(f: A -> B, s: seq<A>): (r: seq<B>)
    ensures |r| == |s|
    decreases |s|
  {
    if |s| == 0 then [] else Map(f, s[..|s| - 1]) + [f(s[|s| - 1])]
  }

  lemma {:induction false} MapAt<A, B>(f: A -> B, s: seq<A>, j: nat)
    requires j < |s|
    ensures Map(f, s)[j] == f(s[j])
    decreases |s|
  {
    var n := |s| - 1;
    if j < n {
      MapAt(f, s[..n], j);
      assert s[..n][j] == s[j];
    }
  }

  /** How each read of the file, taken as an attempt, would end. */
  function Attempted(results: seq<ReadResult>): (attempts: seq<Attempt>)
    ensures |attempts| == |results|
  {
    Map(Classify, results)
  }

  lemma AttemptedAt(results: seq<ReadResult>, j: nat)
    requires j < |results|
    ensures Attempted(results)[j] == Classify(results[j])
  {
    MapAt(Classify, results, j);
  }

  /** The first of the attempts from `from` on that reaches a `t=` field, or `Attempts`
      when there is none. */
  function FirstTempField(attempts: seq<Attempt>, from: nat): (k: nat)
    requires from <= Attempts <= |attempts|
    ensures from <= k <= Attempts
    ensures forall j :: from <= j < k ==> !attempts[j].TempField?
    ensures k < Attempts ==> attempts[k].TempField?
    decreases Attempts - from
  {
    if from == Attempts then Attempts
    else if attempts[from].TempField? then from
    else FirstTempField(attempts, from + 1)
  }

  /** The number of attempts `read_temp` makes. */
  function AttemptsMade(attempts: seq<Attempt>): nat
    requires Attempts <= |attempts|
  {
    if FirstTempField(attempts, 0) < Attempts then FirstTempField(attempts, 0) + 1 else Attempts
  }

  /** What `read_temp(filename)` returns or raises, given how its attempts would end. */
  function TempResult(filename: string, attempts: seq<Attempt>): Result<Reading, ReadFailure>
    requires Attempts <= |attempts|
  {
    if FirstTempField(attempts, 0) == Attempts then Failure(Exhausted(filename))
    else Convert(attempts[FirstTempField(attempts, 0)].text)
  }

  /** `float(temp_string)` and the two temperatures computed from it, or the `ValueError`. */
  function Convert(text: string): Result<Reading, ReadFailure> {
    match ParseMillidegrees(text)
    case None => Failure(NotANumber(text))
    case Some(n) => Success(FromMillidegrees(n))
  }

  /** Sleeps taken over a run of attempts: one per CRC miss. */
  function CrcMisses(attempts: seq<Attempt>): nat
    decreases |attempts|
  {
    if |attempts| == 0 then 0
    else CrcMisses(attempts[..|attempts| - 1]) + (if attempts[|attempts| - 1].CrcMiss? then 1 else 0)
  }

  /** Diagnostic lines printed over a run of attempts: one per I/O error. */
  function IoLog(attempts: seq<Attempt>): seq<string>
    decreases |attempts|
  {
    if |attempts| == 0 then []
    else
      var last := attempts[|attempts| - 1];
      IoLog(attempts[..|attempts| - 1]) + (if last.IoFailed? then [last.message] else [])
  }

  /** The body of `read_temp`'s loop up to the conversion: one open and read of the file,
      the CRC check on line one and the search for `t=` on line two. */
  method TryOnce(results: seq<ReadResult>, i: nat) returns (attempt: Attempt)
    requires i < |results|
    ensures attempt == Classify(results[i])
  {
    match results[i]
    case IoError(message) =>
      attempt := IoFailed(message);
    case Content(lines) =>
      if !CrcOk(lines) {
        attempt := CrcMiss;
      } else {
        var tempPos := Find(lines[1], "t=");
        if tempPos != -1 {
          attempt := TempField(lines[1][tempPos + 2..]);
        } else {
          attempt := NoTempField;
        }
      }
  }

  /** `read_temp(filename)`, with `results[i]` standing for what the `i`-th open and read
      of the file gives. Also returns how many attempts were made, how many retry
      sleeps were taken and the I/O error messages printed to standard error. */
  method ReadTemp(filename: string, results: seq<ReadResult>)
    returns (r: Result<Reading, ReadFailure>, attempts: nat, sleeps: nat, log: seq<string>)
    requires Attempts <= |results|
    ensures r == TempResult(filename, Attempted(results))
    ensures attempts == AttemptsMade(Attempted(results))
    ensures sleeps == CrcMisses(Attempted(results)[..attempts])
    ensures log == IoLog(Attempted(results)[..attempts])
  {
    ghost var tried := Attempted(results);
    sleeps, log := 0, [];
    attempts := 0;
    for i := 0 to Attempts
      invariant i <= FirstTempField(tried, 0)
      invariant sleeps == CrcMisses(tried[..i])
      invariant log == IoLog(tried[..i])
    {
      AttemptStep(tried, i);
      AttemptedAt(results, i);
      var attempt := TryOnce(results, i);
      match attempt
      case IoFailed(message) =>
        log := log + [message];
        continue;
      case CrcMiss =>
        sleeps := sleeps + 1;
      case NoTempField =>
      case TempField(tempString) =>
        ReturnsAt(filename, tried, i);
        attempts := i + 1;
        var n := ParseMillidegrees(tempString);
        if n.None? {
          r := Failure(NotANumber(tempString));
          return;
        }
        r := Success(FromMillidegrees(n.value));
        return;
    }
    attempts := Attempts;
    GivesUp(filename, tried);
    r := Failure(Exhausted(filename));
  }

  /** An attempt that reaches a `t=` field after attempts that did not is where
      `read_temp` returns or raises. */
  lemma ReturnsAt(filename: string, attempts: seq<Attempt>, i: nat)
    requires i < Attempts <= |attempts|
    requires i <= FirstTempField(attempts, 0) && attempts[i].TempField?
    ensures TempResult(filename, attempts) == Convert(attempts[i].text)
    ensures AttemptsMade(attempts) == i + 1
  {
    StopsAt(attempts, i);
  }

  /** Attempts all used up without a `t=` field: `read_temp` raises. */
  lemma GivesUp(filename: string, attempts: seq<Attempt>)
    requires Attempts <= |attempts| && Attempts <= FirstTempField(attempts, 0)
    ensures TempResult(filename, attempts) == Failure(Exhausted(filename))
    ensures AttemptsMade(attempts) == Attempts
    ensures attempts[..Attempts] == attempts[..AttemptsMade(attempts)]
  {
  }

  /** How one more attempt changes the sleep count and the log. */
  lemma AttemptStep(attempts: seq<Attempt>, i: nat)
    requires i < |attempts|
    ensures CrcMisses(attempts[..i + 1]) == CrcMisses(attempts[..i]) + (if attempts[i].CrcMiss? then 1 else 0)
    ensures IoLog(attempts[..i + 1]) == IoLog(attempts[..i]) + (if attempts[i].IoFailed? then [attempts[i].message] else [])
  {
    assert attempts[..i + 1][..i] == attempts[..i];
  }

  /** An attempt reaching a `t=` field after attempts that did not is the first such. */
  lemma StopsAt(attempts: seq<Attempt>, i: nat)
    requires i < Attempts <= |attempts|
    requires i <= FirstTempField(attempts, 0)
    requires attempts[i].TempField?
    ensures FirstTempField(attempts, 0) == i
  {
  }

  /** A run makes between one and three attempts. */
  lemma AttemptsBounded(attempts: seq<Attempt>)
    requires Attempts <= |attempts|
    ensures 1 <= AttemptsMade(attempts) <= 3
  {
  }

  /** `read_temp` gives up exactly when none of its three attempts reached a `t=` field,
      and the error then names the file. */
  lemma ExhaustedIff(filename: string, attempts: seq<Attempt>)
    requires Attempts <= |attempts|
    ensures TempResult(filename, attempts) == Failure(Exhausted(filename)) <==>
              forall j :: 0 <= j < Attempts ==> !attempts[j].TempField?
    ensures TempResult(filename, attempts) == Failure(Exhausted(filename)) ==>
              AttemptsMade(attempts) == Attempts &&
              EndsWith(FailureMessage(Exhausted(filename)), filename)
  {
    var k := FirstTempField(attempts, 0);
    if forall j :: 0 <= j < Attempts ==> !attempts[j].TempField? {
      assert k == Attempts;
    }
  }

  /** `read_temp` returns from the first attempt with a numeric `t=` field, converting
      its millidegrees. */
  lemma ReturnsFirstReading(filename: string, attempts: seq<Attempt>, k: nat, text: string, n: int)
    requires Attempts <= |attempts| && k < Attempts
    requires forall j :: 0 <= j < k ==> !attempts[j].TempField?
    requires attempts[k] == TempField(text) && ParseMillidegrees(text) == Some(n)
    ensures TempResult(filename, attempts) == Success(FromMillidegrees(n))
    ensures AttemptsMade(attempts) == k + 1
  {
    assert FirstTempField(attempts, 0) == k;
  }

  /** A `t=` field that is not a number raises on that attempt; no later attempt is made. */
  lemma NumericFailureEscapes(filename: string, attempts: seq<Attempt>, k: nat, text: string)
    requires Attempts <= |attempts| && k < Attempts
    requires forall j :: 0 <= j < k ==> !attempts[j].TempField?
    requires attempts[k] == TempField(text) && ParseMillidegrees(text).None?
    ensures TempResult(filename, attempts) == Failure(NotANumber(text))
    ensures AttemptsMade(attempts) == k + 1
  {
    ReturnsAt(filename, attempts, k);
    ConvertRejects(text);
  }

  lemma ConvertRejects(text: string)
    requires ParseMillidegrees(text).None?
    ensures Convert(text) == Failure(NotANumber(text))
  {
  }

  /** A success is the numeric `t=` field of the first attempt that reached one, and that
      attempt is the last one made. */
  lemma SuccessComesFromFirstTempField(filename: string, attempts: seq<Attempt>)
    requires Attempts <= |attempts| && TempResult(filename, attempts).Success?
    ensures var k := AttemptsMade(attempts) - 1;
            && k == FirstTempField(attempts, 0)
            && attempts[k].TempField?
            && ParseMillidegrees(attempts[k].text).Some?
            && TempResult(filename, attempts).value == FromMillidegrees(ParseMillidegrees(attempts[k].text).value)
  {
    var k := FirstTempField(attempts, 0);
    assert k < Attempts;
    assert AttemptsMade(attempts) - 1 == k;
  }

  /** Reads after the last attempt made have no influence: `read_temp` stops there. */
  lemma {:induction false} LaterReadsIgnored(filename: string, results: seq<ReadResult>, others: seq<ReadResult>)
    requires Attempts <= |results| && Attempts <= |others|
    requires results[..AttemptsMade(Attempted(results))] == others[..AttemptsMade(Attempted(results))]
    ensures AttemptsMade(Attempted(others)) == AttemptsMade(Attempted(results))
    ensures TempResult(filename, Attempted(others)) == TempResult(filename, Attempted(results))
  {
    var m := AttemptsMade(Attempted(results));
    var k := FirstTempField(Attempted(results), 0);
    forall j | 0 <= j < m ensures Attempted(others)[j] == Attempted(results)[j] {
      assert others[..m][j] == results[..m][j];
      AttemptedAt(others, j);
      AttemptedAt(results, j);
    }
  }

  /** The attempts that cost no sleep: an I/O error and an accepted content without `t=`. */
  lemma {:induction false} SleepsAreCrcMisses(attempts: seq<Attempt>, a: Attempt)
    ensures CrcMisses(attempts + [a]) == CrcMisses(attempts) + (if a.CrcMiss? then 1 else 0)
    ensures |IoLog(attempts + [a])| == |IoLog(attempts)| + (if a.IoFailed? then 1 else 0)
  {
    assert (attempts + [a])[..|attempts|] == attempts;
  }

  /** One attempt of each kind in turn: no sleep, one sleep, no sleep, then gives up. */
  lemma {:induction false} EveryAttemptCounts(filename: string, msg: string)
    ensures var attempts := [IoFailed(msg), CrcMiss, NoTempField];
            && TempResult(filename, attempts) == Failure(Exhausted(filename))
            && AttemptsMade(attempts) == 3
            && CrcMisses(attempts) == 1
            && IoLog(attempts) == [msg]
  {
    var attempts := [IoFailed(msg), CrcMiss, NoTempField];
    assert FirstTempField(attempts, 0) == 3;
    assert attempts == [IoFailed(msg), CrcMiss] + [NoTempField];
    assert [IoFailed(msg), CrcMiss] == [IoFailed(msg)] + [CrcMiss];
    assert [IoFailed(msg)] == [] + [IoFailed(msg)];
    SleepsAreCrcMisses([], IoFailed(msg));
    SleepsAreCrcMisses([IoFailed(msg)], CrcMiss);
    SleepsAreCrcMisses([IoFailed(msg), CrcMiss], NoTempField);
  }

  /** A file whose first line ends in `NO` is a CRC miss, whatever its second line says. */
  lemma CrcNoIsMiss(crc: string, second: string)
    requires |crc| > 0 && !IsSpace(crc[0]) && '\n' !in crc
    requires |second| > 0 && second[|second| - 1] == '\n' && '\n' !in second[..|second| - 1]
    ensures Classify(FileRead(crc + "NO\n" + second)) == CrcMiss
  {
    var p := crc + "NO";
    var first := p + "\n";
    assert first[..|first| - 1] == p;
    assert crc + "NO\n" + second == first + second;
    DriverLines(first, second);
    assert p[|p| - 1] == 'O';
    StripLine(p);
    if |p| >= 3 {
      assert LastChars(p, 3)[1] == 'N';
    }
  }

  /** The driver's file for a good read, `<crc>YES` then `<data>t=<millidegrees>`, is read
      on the first attempt as the temperature those millidegrees stand for. */
  lemma DriverFileReads(filename: string, crc: string, data: string, n: int, later: seq<ReadResult>)
    requires |crc| > 0 && !IsSpace(crc[0]) && '\n' !in crc
    requires '\n' !in data && Lacks(data, "t=")
    requires |later| >= Attempts - 1
    ensures var text := (crc + "YES\n") + (data + "t=" + Numerals.IntToDecimal(n) + "\n");
            && Classify(FileRead(text)) == TempField(Numerals.IntToDecimal(n) + "\n")
            && TempResult(filename, Attempted([FileRead(text)] + later)) == Success(FromMillidegrees(n))
            && AttemptsMade(Attempted([FileRead(text)] + later)) == 1
  {
    var text := (crc + "YES\n") + (data + "t=" + Numerals.IntToDecimal(n) + "\n");
    DriverFileClassified(crc, data, n);
    ParseMillidegreesOfDriverText(n);
    var attempts := Attempted([FileRead(text)] + later);
    AttemptedAt([FileRead(text)] + later, 0);
    StopsAt(attempts, 0);
  }

  lemma DriverFileClassified(crc: string, data: string, n: int)
    requires |crc| > 0 && !IsSpace(crc[0]) && '\n' !in crc
    requires '\n' !in data && Lacks(data, "t=")
    ensures Classify(FileRead((crc + "YES\n") + (data + "t=" + Numerals.IntToDecimal(n) + "\n")))
            == TempField(Numerals.IntToDecimal(n) + "\n")
  {
    var digits := Numerals.IntToDecimal(n);
    DriverFileLines(crc, data, digits);
    YesLineAccepted(crc);
    SecondLineField(data, digits);
    TwoLinesClassified((crc + "YES\n") + (data + "t=" + digits + "\n"), crc + "YES\n", data + "t=" + digits + "\n", |data|);
  }

  /** The driver's file splits into its two lines. */
  lemma DriverFileLines(crc: string, data: string, digits: string)
    requires '\n' !in crc && '\n' !in data && '\n' !in digits
    ensures ReadLines((crc + "YES\n") + (data + "t=" + digits + "\n")) == [crc + "YES\n", data + "t=" + digits + "\n"]
  {
    var first := crc + "YES\n";
    var second := data + "t=" + digits + "\n";
    assert first[..|first| - 1] == crc + "YES";
    assert second[..|second| - 1] == data + "t=" + digits;
    DriverLines(first, second);
  }

  /** The second line's `t=` field is the digits with the line's newline. */
  lemma SecondLineField(data: string, digits: string)
    requires Lacks(data, "t=")
    ensures Find(data + "t=" + digits + "\n", "t=") == |data|
    ensures (data + "t=" + digits + "\n")[|data| + 2..] == digits + "\n"
  {
    var second := data + "t=" + digits + "\n";
    FindAfter(data, digits + "\n");
    assert second == data + "t=" + (digits + "\n");
    assert second[|data| + 2..] == digits + "\n";
  }

  /** Content of two lines, the first ending in `YES` once stripped, reads as what follows
      the first `t=` on the second line. */
  lemma TwoLinesClassified(text: string, first: string, second: string, pos: int)
    requires ReadLines(text) == [first, second]
    requires LastChars(Strip(first), 3) == "YES"
    requires Find(second, "t=") == pos && pos != -1
    ensures Classify(FileRead(text)) == TempField(second[pos + 2..])
  {
  }

  lemma YesLineAccepted(crc: string)
    requires |crc| > 0 && !IsSpace(crc[0])
    ensures LastChars(Strip(crc + "YES\n"), 3) == "YES"
  {
    var p := crc + "YES";
    assert p[|p| - 1] == 'S';
    StripLine(p);
    assert "YES\n" == "YES" + "\n";
    AppendSplit(crc, "YES", "\n");
    assert crc + "YES\n" == p + "\n";
    assert Strip(crc + "YES\n") == p;
    assert p[|p| - 3..] == "YES";
    assert LastChars(p, 3) == "YES";
  }

  /** A literal suffix split in two: `a + (b + c)`, read with the first part attached to `a`. */
  lemma AppendSplit(a: string, b: string, c: string)
    ensures a + (b + c) == (a + b) + c
  {
  }

  /** `strip` drops the newline of a line that has no other surrounding whitespace. */
  lemma StripLine(p: string)
    requires |p| > 0 && !IsSpace(p[0]) && !IsSpace(p[|p| - 1])
    ensures Strip(p + "\n") == p
  {
    StripAppend(p, "\n");
    assert TrimEnd("\n") == "";
    assert p + "" == p;
  }

  lemma FindAfter(data: string, tail: string)
    requires Lacks(data, "t=")
    ensures Find(data + "t=" + tail, "t=") == |data|
  {
    var s := data + "t=" + tail;
    assert s[|data|..|data| + 2] == "t=";
    assert OccursAt(s, "t=", |data|);
    forall m | 0 <= m < |data| ensures !OccursAt(s, "t=", m) {
      if m + 2 <= |data| {
        assert s[m..m + 2] == data[m..m + 2];
        assert !OccursAt(data, "t=", m);
      } else {
        assert s[m..m + 2][1] == s[m + 1] == 't';
      }
    }
  }

  /** `readlines()` of a driver file: two lines, both ending in a newline. */
  lemma DriverLines(first: string, second: string)
    requires |first| > 0 && first[|first| - 1] == '\n' && '\n' !in first[..|first| - 1]
    requires |second| > 0 && second[|second| - 1] == '\n' && '\n' !in second[..|second| - 1]
    ensures ReadLines(first + second) == [first, second]
  {
    var text := first + second;
    FirstNewline(text, |first| - 1);
    assert text[..|first|] == first;
    assert text[|first|..] == second;
    FirstNewline(second, |second| - 1);
    assert second[..|second|] == second;
    assert second[|second|..] == [];
  }

  lemma FirstNewline(s: string, k: nat)
    requires k < |s| && s[k] == '\n' && '\n' !in s[..k]
    ensures Find(s, "\n") == k
  {
    OccursAtChar(s, '\n', k);
    forall j | 0 <= j < k ensures !OccursAt(s, "\n", j) {
      assert s[..k][j] == s[j];
      OccursAtChar(s, '\n', j);
    }
  }
}
