/**
 The line-protocol record `read` prints for one sensor:
 `sensors,sensor_id=<id> temp_c=<C>,temp_f=<F> <timestamp>` passed through `strip()`.
 The two temperatures arrive already formatted.
 */
module LineProtocol {
  import opened Wrappers
  import opened PyStr
  import Numerals

  /** The text the f-string puts in the timestamp slot: empty, or milliseconds as `str(int)`. */
  function TimestampField(timestamp: Option<int>): (field: string)
    ensures timestamp.None? <==> field == []
    ensures timestamp.Some? ==> Numerals.ParseInteger(field) == timestamp
  {
    match timestamp
    case None => ""
    case Some(ms) => Numerals.IntToDecimal(ms)
  }

  /** Everything up to and including `temp_f=`. */
  function Head(sensorId: string, tempC: string): (head: string)
    ensures |head| > 0 && head[0] == 's' && head[|head| - 1] == '='
  {
    var head := "sensors,sensor_id=" + sensorId + " temp_c=" + tempC + ",temp_f=";
    assert head[0] == "sensors,sensor_id="[0];
    assert head[|head| - 1] == ",temp_f="[7];
    head
  }

  /** The record: the head is always kept whole, and the line never ends in whitespace. */
  function Record(sensorId: string, tempC: string, tempF: string, timestamp: Option<int>): (line: string)
    ensures Head(sensorId, tempC) <= line
    ensures !IsSpace(line[|line| - 1])
  {
    var head := Head(sensorId, tempC);
    var tail := tempF + " " + TimestampField(timestamp);
    StripAppend(head, tail);
    var line := Strip(head + tail);
    assert line == head + TrimEnd(tail);
    assert TrimEnd(tail) != [] ==> line[|line| - 1] == TrimEnd(tail)[|TrimEnd(tail)| - 1];
    line
  }

  /** Without a timestamp the record ends with the Fahrenheit field: the separating space
      is trimmed away. */
  lemma RecordWithoutTimestamp(sensorId: string, tempC: string, tempF: string)
    requires tempF == [] || !IsSpace(tempF[|tempF| - 1])
    ensures Record(sensorId, tempC, tempF, None) == Head(sensorId, tempC) + tempF
  {
    var head := Head(sensorId, tempC);
    StripAppend(head, tempF + " " + "");
    assert tempF + " " + "" == tempF + " ";
    assert TrimEnd(tempF + " ") == TrimEnd(tempF);
    assert TrimEnd(tempF) == tempF;
  }

  /** With a timestamp the record ends with a space and the milliseconds. */
  lemma RecordWithTimestamp(sensorId: string, tempC: string, tempF: string, ms: int)
    ensures Record(sensorId, tempC, tempF, Some(ms)) == Head(sensorId, tempC) + tempF + " " + Numerals.IntToDecimal(ms)
  {
    var head := Head(sensorId, tempC);
    var digits := Numerals.IntToDecimal(ms);
    var tail := tempF + " " + digits;
    StripAppend(head, tail);
    assert tail[|tail| - 1] == digits[|digits| - 1];
    assert !IsSpace(tail[|tail| - 1]);
    assert TrimEnd(tail) == tail;
    assert head + tail == head + tempF + " " + digits;
  }

  /** The record for sensor `0123456789ab` at 25.00 and 77.00 degrees, without a timestamp. */
  lemma RecordExample(sensorId: string, tempC: string, tempF: string)
    requires sensorId == "0123456789ab" && tempC == "25.00" && tempF == "77.00"
    ensures Record(sensorId, tempC, tempF, None)
            == "sensors,sensor_id=0123456789ab temp_c=25.00,temp_f=77.00"
  {
    assert !IsSpace(tempF[|tempF| - 1]) by {
      assert tempF[|tempF| - 1] == '0';
    }
    RecordWithoutTimestamp(sensorId, tempC, tempF);
    HeadExample(sensorId, tempC, tempF);
  }

  lemma HeadExample(sensorId: string, tempC: string, tempF: string)
    requires sensorId == "0123456789ab" && tempC == "25.00" && tempF == "77.00"
    ensures Head(sensorId, tempC) + tempF == "sensors,sensor_id=0123456789ab temp_c=25.00,temp_f=77.00"
  {
    var a := "sensors,sensor_id=" + sensorId;
    assert a == "sensors,sensor_id=0123456789ab";
    var b := a + " temp_c=";
    assert b == "sensors,sensor_id=0123456789ab temp_c=";
    var c := b + tempC;
    assert c == "sensors,sensor_id=0123456789ab temp_c=25.00";
    var d := c + ",temp_f=";
    assert d == "sensors,sensor_id=0123456789ab temp_c=25.00,temp_f=";
  }
}
