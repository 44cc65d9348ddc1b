/** The logger's fixed configuration (class `Conf`) and the sensor paths built from it. */
module Conf {
  import opened Wrappers
  import Numerals
  import PyStr

  /** One-wire family code of the DS18B20. */
  const Family: int := 28
  const DeviceFile: string := "w1_slave"
  const DeviceDir: string := "/sys/bus/w1/devices"
  /** Seconds slept after a read whose CRC marker is missing; the model counts sleeps instead. */
  const RetrySleep: real := 0.2
  /** Reads made by `read_temp` before it gives up (`range(3)`). */
  const Attempts: nat := 3

  function Pow2(k: nat): nat {
    if k == 0 then 1 else 2 * Pow2(k - 1)
  }

  /** The table `Conf.resolution`: the temperature step in degrees Celsius of a
      resolution given in bits. Each extra bit halves the step, starting from half a degree. */
  function Resolution(bits: int): (step: Option<real>)
    ensures 9 <= bits <= 12 ==> step.Some? && step.value * (Pow2(bits - 8) as real) == 1.0
    ensures !(9 <= bits <= 12) ==> step.None?
  {
    assert Pow2(2) == 4 && Pow2(4) == 16;
    if bits == 9 then Some(0.5)
    else if bits == 10 then Some(0.25)
    else if bits == 11 then Some(0.125)
    else if bits == 12 then Some(0.0625)
    else None
  }

  /** `str()` of the table's entry, as the `init` message prints it. */
  function ResolutionText(bits: int): Option<string> {
    if bits == 9 then Some("0.5")
    else if bits == 10 then Some("0.25")
    else if bits == 11 then Some("0.125")
    else if bits == 12 then Some("0.0625")
    else None
  }

  function Pow10(k: nat): (p: nat)
    ensures p > 0
  {
    if k == 0 then 1 else 10 * Pow10(k - 1)
  }

  /** The printed step is `0.` followed by digits whose decimal value is the table's entry,
      the last of them not `0`: the shortest text for the value, as `str()` of a float gives. */
  lemma ResolutionTextDenotes(bits: int)
    ensures ResolutionText(bits).Some? <==> Resolution(bits).Some?
    ensures ResolutionText(bits).Some? ==>
              var t := ResolutionText(bits).value;
              |t| > 2 && t[..2] == "0." && Numerals.AllDigits(t[2..]) &&
              (Numerals.DigitsValue(t[2..]) as real) / (Pow10(|t| - 2) as real) == Resolution(bits).value &&
              t[|t| - 1] != '0'
  {
    if bits == 9 {
      assert "0.5"[2..] == "5";
    } else if bits == 10 {
      assert "0.25"[2..] == "25";
      assert "25"[..1] == "2";
    } else if bits == 11 {
      assert "0.125"[2..] == "125";
      assert "125"[..2] == "12";
      assert "12"[..1] == "1";
    } else if bits == 12 {
      assert "0.0625"[2..] == "0625";
      assert "0625"[..3] == "062";
      assert "062"[..2] == "06";
      assert "06"[..1] == "0";
    }
  }

  /** The sensor's directory, `{device_dir}/{family}-{sensor}`. */
  function SensorDir(sensor: string): string {
    DeviceDir + "/" + Numerals.IntToDecimal(Family) + "-" + sensor
  }

  /** The sensor's data file, which `read_temp` reads and `init` writes. */
  function DevicePath(sensor: string): (path: string)
    ensures DeviceDir + "/28-" <= path
    ensures PyStr.EndsWith(path, "-" + sensor + "/" + DeviceFile)
    ensures path == "/sys/bus/w1/devices/28-" + sensor + "/w1_slave"
  {
    assert Numerals.IntToDecimal(Family) == "28";
    SensorDir(sensor) + "/" + DeviceFile
  }
}
