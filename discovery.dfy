/**
 Sensor discovery in the script's entry point: every directory found under the
 device directory with the family prefix gives a sensor ID, its last twelve
 characters. The directory listing itself is an input here.
 */
module Discovery {
  import opened PyStr
  import Conf

  /** Length of a DS18B20 serial number written in hexadecimal. */
  const IdLength: nat := 12

  /** `dir[-12:]`: the last twelve characters of the path, or the whole path when shorter. */
  function SensorId(dir: string): (id: string)
    ensures |id| == if |dir| < IdLength then |dir| else IdLength
    ensures EndsWith(dir, id)
  {
    LastChars(dir, IdLength)
  }

  /** The ID read back from a sensor's directory is the one the directory was named after,
      so the data file `read` and `init` open is that sensor's. */
  lemma SensorIdOfSensorDir(id: string)
    requires |id| == IdLength
    ensures SensorId(Conf.SensorDir(id)) == id
    ensures Conf.DevicePath(SensorId(Conf.SensorDir(id))) == Conf.DevicePath(id)
  {
    LastCharsIsSuffixTest(Conf.SensorDir(id), id);
  }

  /** The loop building `sensors_lst`: one ID per directory, in listing order. */
  method SensorIds(dirs: seq<string>) returns (ids: seq<string>)
    ensures |ids| == |dirs|
    ensures forall i :: 0 <= i < |dirs| ==> ids[i] == SensorId(dirs[i])
  {
    ids := [];
    for i := 0 to |dirs|
      invariant |ids| == i
      invariant forall j :: 0 <= j < i ==> ids[j] == SensorId(dirs[j])
    {
      ids := ids + [SensorId(dirs[i])];
    }
  }
}
