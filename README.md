# poor_mans_templogger, modelled in Dafny

`src/bin/logger.py` reads DS18B20 one-wire temperature sensors through the kernel's
`w1_slave` files, prints one line-protocol record per sensor, sets the sensors'
resolution, and can mail the host's IPv4 addresses. This project models the logic of
that script with the operating system taken out:

- `read_temp`: up to three reads of a sensor's data file. Each read is checked for
  exactly two lines, the first ending in the driver's `YES` CRC marker. The millidegree
  value after `t=` on line two becomes a Celsius/Fahrenheit pair. A CRC miss costs one
  retry sleep. An I/O error is printed and retried without a sleep. The function gives up
  with an error naming the file. A non-numeric `t=` value raises on the spot, because the
  conversion sits outside the `try`.
- The record `sensors,sensor_id=<id> temp_c=<C>,temp_f=<F> <timestamp>` after `strip()`.
- The `read` and `init` loops over the selected sensors. Each sensor gets its own `try`.
  A failing sensor contributes only its error message, and the loop goes on.
- The IPv4 extraction in `send`: split on `inet `, then on `/`. Interfaces without an
  address are skipped.
- The sensor IDs taken as the last twelve characters of each device directory.
- The `Conf.resolution` table and the script's fixed paths and constants.

The files and their modules:

| file | module | contents |
|---|---|---|
| `wrappers.dfy` | `Wrappers` | `Option` and `Result` |
| `pystr.dfy` | `PyStr` | models of `str.isspace`, `strip`, `rstrip`, `find`, `split`, `s[-n:]` and `readlines()` |
| `numerals.dfy` | `Numerals` | `str()` of an integer. The integral numerals `float()` accepts. The round trip between them. |
| `conf.dfy` | `Conf` | the settings of class `Conf` (family code, paths, retry sleep, the resolution table) and the three attempts of `range(3)` in `read_temp` |
| `sensor_reader.dfy` | `SensorReader` | `read_temp` |
| `line_protocol.dfy` | `LineProtocol` | the record built on line 62 |
| `batch.dfy` | `Batch` | `read` and `init` |
| `discovery.dfy` | `Discovery` | `dir[-12:]` over the discovered directories |
| `notifier.dfy` | `Notifier` | the address-collecting loop of `send` |

The file system is replaced by inputs:

- `read_temp` takes a sequence of `ReadResult`s, one for each open-and-`readlines()` it
  would make. Each is an I/O error with its message, or the lines read.
  `FileRead(text)` gives the lines for a file holding `text`.
- `init` takes one `WriteResult` for each sensor.
- `read` takes a clock reading in milliseconds for each sensor, and the float formatting
  `'{:.{}f}'` as an opaque function from a value and a precision to a string.
- Sleeps are counted rather than slept.
- What `read_temp` prints to standard error is returned as a list.

Temperatures are exact `real`s: `C = n / 1000` and `F = C * 9 / 5 + 32` for `n`
millidegrees.

`init` writes the resolution into the same `w1_slave` file that `read_temp` reads, as
the code does on line 71. A resolution outside the table is still
written, and is only then reported, as the `KeyError` raised on line 74.
`InitOutcome` and `Init` model that order. The command line limits the resolution to
9-12 (line 142), but `init` itself takes any integer.

## Model

| member | source | states |
|---|---|---|
| PyStr.IsSpace | src/bin/logger.py:38 | `str.isspace()` on one character: the whitespace that `strip()` and `rstrip()` remove; described by Strip, StripKeepsFactor, TrimEnd and TrimEndCutsSpaces |
| PyStr.Strip | src/bin/logger.py:38 | what `str.strip()` keeps never begins or ends with whitespace, and is no longer than its input |
| PyStr.StripKeepsFactor | src/bin/logger.py:38 | the stripped text is a factor of the input with only whitespace before and after it |
| PyStr.StripAppend | src/bin/logger.py:62 | stripping a text that begins and ends with non-space followed by any tail keeps the text whole and only right-strips the tail |
| PyStr.StripUnpadded | src/bin/logger.py:62 | a text without surrounding whitespace is its own `strip()` |
| PyStr.IsAsciiSpace | src/bin/logger.py:44 | the whitespace `float()` skips around a numeral in ASCII text: space and `\t`-`\r`; described by StripAscii, StripAsciiKeepsFactor and SensorReader.SeparatorNotSkipped |
| PyStr.StripAscii | src/bin/logger.py:44 | the strip `float()` applies to ASCII text leaves no ASCII whitespace at either end, and is no longer than its input; with StripAsciiKeepsFactor it removes ASCII whitespace from the ends and nothing else |
| PyStr.StripAsciiKeepsFactor | src/bin/logger.py:44 | what the ASCII strip keeps is a factor of the input with only ASCII whitespace before and after it, so other whitespace such as U+00A0 or U+001C stays in place |
| PyStr.StripAsciiLine | src/bin/logger.py:43-44 | the newline ending a line is stripped and ends without ASCII whitespace are kept |
| PyStr.StripAsciiAgrees | src/bin/logger.py:44 | on text in which every character that `str.isspace()` accepts is a space or `\t`-`\r`, the strip of `float()` is `str.strip()` |
| PyStr.TrimEnd | src/bin/logger.py:62 | `rstrip()` gives a prefix of its input that does not end in whitespace |
| PyStr.TrimEndCutsSpaces | src/bin/logger.py:62 | everything `rstrip()` cuts off is whitespace |
| PyStr.LastChars | src/bin/logger.py:38 | `s[-n:]` is a suffix of `s` of length `min(n, len(s))` for `n > 0`, and all of `s` for `n = 0` |
| PyStr.LastCharsIsSuffixTest | src/bin/logger.py:38 | comparing `s[-len(t):]` with `t` is exactly a suffix test for `t` |
| PyStr.Find | src/bin/logger.py:41 | `str.find` is -1 or an occurrence, and no occurrence comes before it |
| PyStr.FindNoneIsLacks | src/bin/logger.py:42 | `find` gives -1 exactly when the pattern occurs nowhere |
| PyStr.Split | src/bin/logger.py:86 | `split(sep)` gives at least one piece, the pieces joined with `sep` give back the text, and no piece holds `sep` |
| PyStr.SplitFirst | src/bin/logger.py:89 | the first piece of a split is the text before the first separator, or the whole text |
| PyStr.SplitMany | src/bin/logger.py:87 | a split has two or more pieces exactly when the separator occurs, and its later pieces are the split of what follows the first separator |
| PyStr.ReadLines | src/bin/logger.py:32 | `readlines()` gives lines that concatenate back to the file's text, each holding no newline but a final one, which every line except the last has |
| Numerals.NatToDecimal | src/bin/logger.py:72 | `str(n)` of a natural number is a non-empty run of digits without a leading zero whose value is `n` |
| Numerals.IntToDecimal | src/bin/logger.py:72 | `str(n)` is an optional minus and digits, has no leading zero and no `-0`, and is read back as `n` |
| Numerals.CanonicalDecimal | src/bin/logger.py:72 | a run of digits without a leading zero is the only numeral `str()` produces for its value, so resolution 12 is written as exactly `12` |
| Numerals.ParseInteger | src/bin/logger.py:44 | the integral numerals `float()` reads, an optional sign and ASCII digits; described by IntToDecimal (round trip from `str()`) and LeadingZeros |
| Numerals.LeadingZeros | src/bin/logger.py:44 | leading zeros and a plus sign do not change the integer read |
| Numerals.DecimalUnpadded | src/bin/logger.py:57 | `str()` of an integer has no whitespace at either end |
| Conf.Resolution | src/bin/logger.py:21-26 | the table has entries for 9 to 12 bits only, and each entry times `2^(bits-8)` is one degree |
| Conf.ResolutionText | src/bin/logger.py:74 | `str()` of the table entry as the `init` message prints it; described by ResolutionTextDenotes and Batch.InitOutcomeCases |
| Conf.ResolutionTextDenotes | src/bin/logger.py:21-26 | the printed entry exists exactly when the table has one, and is `0.` followed by digits whose decimal value is that entry and whose last digit is not `0`, the shortest text for the value as `str()` of a float prints it |
| Conf.SensorDir | src/bin/logger.py:53 | the sensor's directory `{device_dir}/{family}-{sensor}` built on lines 53 and 71; described by DevicePath and Discovery.SensorIdOfSensorDir |
| Conf.DevicePath | src/bin/logger.py:53 | the data file path is exactly `/sys/bus/w1/devices/28-<sensor>/w1_slave` |
| SensorReader.CrcOkIsSuffixTest | src/bin/logger.py:38 | content is accepted exactly when there are two lines and the stripped first one ends in `YES` |
| SensorReader.FileRead | src/bin/logger.py:31-32 | a successful `open` and `readlines()` of a file holding `text`; described by ReadLines, CrcNoIsMiss and DriverFileReads |
| SensorReader.CrcOk | src/bin/logger.py:38 | the acceptance test of line 38; described by CrcOkIsSuffixTest, CrcNoIsMiss and YesLineAccepted |
| SensorReader.Classify | src/bin/logger.py:30-43 | how one read ends: I/O error, CRC miss, accepted without `t=`, or the text after the first `t=` on line two; described by TryOnce, AttemptedAt, CrcNoIsMiss and DriverFileReads |
| SensorReader.CrcNoIsMiss | src/bin/logger.py:38-39 | a file whose first line ends in `NO` is a CRC miss whatever its second line holds |
| SensorReader.ParseMillidegreesOfDriverText | src/bin/logger.py:43-44 | the text the driver writes after `t=`, the decimal value and the line's newline, converts back to that value |
| SensorReader.ParseMillidegrees | src/bin/logger.py:44 | `float(temp_string)` on integral text; described by ParseMillidegreesOfDriverText and SeparatorNotSkipped |
| SensorReader.SeparatorNotSkipped | src/bin/logger.py:44 | a leading U+001C, whitespace to `str.strip()`, makes the value unreadable, as `float()` rejects it in ASCII text |
| SensorReader.Convert | src/bin/logger.py:44-46 | the converted pair or the `ValueError`; described by NumericFailureEscapes and ReturnsFirstReading |
| SensorReader.FromMillidegrees | src/bin/logger.py:44-45 | `C * 1000` is the millidegree value and `(F - 32) * 5 == C * 9` |
| SensorReader.FreezingAndRoomTemperature | src/bin/logger.py:44-45 | 0 gives (0, 32), 25000 gives (25, 77) and -40000 gives (-40, -40) |
| SensorReader.FromMillidegreesMonotonic | src/bin/logger.py:44-45 | a higher millidegree value is warmer on both scales |
| SensorReader.AttemptedAt | src/bin/logger.py:30-43 | the `j`-th attempt ends as the `j`-th read result dictates |
| SensorReader.FirstTempField | src/bin/logger.py:29-46 | the first of the three attempts that reaches a `t=` field: none before it does, and it does unless it is 3 |
| SensorReader.TempResult | src/bin/logger.py:29-48 | what `read_temp` returns or raises given its attempts; described by ReadTemp, ExhaustedIff, ReturnsFirstReading, NumericFailureEscapes and SuccessComesFromFirstTempField |
| SensorReader.AttemptsMade | src/bin/logger.py:29-46 | the number of loop passes before the return or the end; described by AttemptsBounded, ReturnsAt and GivesUp |
| SensorReader.FailureMessage | src/bin/logger.py:48 | the message of the raised exception; described by ExhaustedIff and Batch.ReadOutcomeCases |
| SensorReader.CrcMisses | src/bin/logger.py:38-39 | the sleeps taken over the attempts, one per CRC miss; described by ReadTemp, SleepsAreCrcMisses and EveryAttemptCounts |
| SensorReader.IoLog | src/bin/logger.py:34-36 | the `print(e)` lines over the attempts, one per I/O error; described by ReadTemp, AttemptStep (each attempt adds its own message exactly when it is an I/O error), SleepsAreCrcMisses and EveryAttemptCounts |
| SensorReader.TryOnce | src/bin/logger.py:30-43 | one pass of the loop body up to the conversion ends as the read result it got dictates |
| SensorReader.ReadTemp | src/bin/logger.py:28-48 | `read_temp` returns or raises what the first attempt reaching `t=` gives, or raises when there is none; it reports the attempts made, one sleep per CRC miss among them and the message of every I/O error among them |
| SensorReader.ReturnsAt | src/bin/logger.py:41-46 | an attempt reaching `t=` after attempts that did not is where `read_temp` returns or raises, after that many attempts plus one |
| SensorReader.GivesUp | src/bin/logger.py:48 | with no attempt reaching `t=`, all three attempts are made and the error names the file |
| SensorReader.AttemptsBounded | src/bin/logger.py:29 | between one and three attempts are made |
| SensorReader.ExhaustedIff | src/bin/logger.py:48 | `read_temp` gives up exactly when none of the three attempts reached `t=`, after three attempts, and the message then ends with the file name |
| SensorReader.ReturnsFirstReading | src/bin/logger.py:41-46 | the first attempt with a numeric `t=` value, after none with `t=`, is the result and the last attempt made |
| SensorReader.NumericFailureEscapes | src/bin/logger.py:44 | a non-numeric `t=` value raises on the attempt that found it, and no later attempt is made |
| SensorReader.SuccessComesFromFirstTempField | src/bin/logger.py:41-46 | a success is the converted value found by the last attempt made, which is the first to reach `t=` |
| SensorReader.LaterReadsIgnored | src/bin/logger.py:46 | reads after the last attempt made change neither the result nor the number of attempts |
| SensorReader.SleepsAreCrcMisses | src/bin/logger.py:34-39 | one more attempt adds a sleep exactly when it is a CRC miss, and a log line exactly when it is an I/O error |
| SensorReader.EveryAttemptCounts | src/bin/logger.py:34-42 | an I/O error, a CRC miss and accepted content without `t=` use up all three attempts with one sleep and one log line, then raise |
| SensorReader.DriverFileReads | src/bin/logger.py:31-46 | a good driver file `<crc>YES` / `<data>t=<n>` is read on the first attempt as the temperature `n` millidegrees stand for |
| LineProtocol.Head | src/bin/logger.py:62 | the record up to `temp_f=` starts with `s` and ends with `=` |
| LineProtocol.TimestampField | src/bin/logger.py:54-57 | the timestamp slot is empty exactly when no timestamp is taken, and otherwise reads back as the milliseconds |
| LineProtocol.Record | src/bin/logger.py:62 | the record after `strip()` keeps `sensors,sensor_id=<id> temp_c=<C>,temp_f=` whole and never ends in whitespace |
| LineProtocol.RecordWithoutTimestamp | src/bin/logger.py:54-62 | with no timestamp the record ends with the Fahrenheit field, the separating space trimmed away |
| LineProtocol.RecordWithTimestamp | src/bin/logger.py:56-62 | with a timestamp the record is the fields, a space and the milliseconds |
| LineProtocol.RecordExample | src/bin/logger.py:62 | sensor `0123456789ab` at `25.00`/`77.00` without timestamp gives `sensors,sensor_id=0123456789ab temp_c=25.00,temp_f=77.00` |
| Batch.RunOf | src/bin/logger.py:53 | what `read_temp` on the sensor's data file returns or raises, and what it prints, given its reads; described by ReadSensor and ReadOutcomeCases |
| Batch.SensorRecord | src/bin/logger.py:59-62 | the record of the two formatted temperatures; described by ReadOutcomeLine |
| Batch.ReadOutcome | src/bin/logger.py:54-65 | the line or the error one sensor contributes to `read`; described by ReadOutcomeCases and ReadOutcomeLine |
| Batch.ReadAll | src/bin/logger.py:51-66 | the outcomes of `read`, one line or error per sensor; described by ReadAllAt, Read and ReadIsolated |
| Batch.ReadAllAt | src/bin/logger.py:51-66 | `read` gives exactly one outcome for each sensor, in order, and the `i`-th one is that of the `i`-th sensor's run |
| Batch.ReadSensor | src/bin/logger.py:53 | `read_temp` on the sensor's data file path |
| Batch.Report | src/bin/logger.py:54-66 | after `read_temp` comes either the record on standard output or the exception's message on standard error, after the I/O errors already printed |
| Batch.Read | src/bin/logger.py:50-66 | the loop of `read` prints the outcome of each sensor in order and the diagnostics of each sensor in order, each sensor's taken from its run in Runs over its own reads |
| Batch.Diagnostics | src/bin/logger.py:64-65 | one sensor's standard error: the I/O errors printed by `read_temp` (line 35), then the exception's message; described by Report |
| Batch.AllDiagnostics | src/bin/logger.py:50-66 | standard error of `read`, sensor after sensor; described by Read, AllDiagnosticsAppend and AllDiagnosticsAt |
| Batch.AllDiagnosticsAppend | src/bin/logger.py:50-66 | standard error of two groups of sensors one after the other is that of the first followed by that of the second |
| Batch.AllDiagnosticsAt | src/bin/logger.py:50-66 | standard error of `read` is that of the sensors before `i`, then sensor `i`'s, then that of the sensors after it |
| Batch.ReadIsolated | src/bin/logger.py:51-66 | each sensor has its own `try`: sensor `i`'s outcome and its part of standard error stay the same whatever the other sensors' reads are |
| Batch.ReadOutcomeCases | src/bin/logger.py:52-65 | a sensor's line is printed exactly when its read succeeds, and attempts used up give the error naming its data file |
| Batch.ReadOutcomeLine | src/bin/logger.py:56-63 | a good read prints the record of its two formatted values, ending in a space and the timestamp exactly when one is asked for |
| Batch.InitOutcome | src/bin/logger.py:71-76 | the message or the error one sensor contributes to `init`; described by InitOutcomeCases |
| Batch.FilesWritten | src/bin/logger.py:71-72 | the files `init` writes; described by FilesWrittenHoldResolution and FilesWrittenComplete |
| Batch.InitAll | src/bin/logger.py:69-77 | `init` gives exactly one outcome for each sensor, in order, each decided by that sensor's write alone |
| Batch.Init | src/bin/logger.py:68-77 | the loop of `init` prints the outcome of each sensor in order and writes the data file of each sensor whose write goes through |
| Batch.FilesWrittenHoldResolution | src/bin/logger.py:71-72 | every file written is the data file of a sensor whose write went through, holding exactly `str(resolution)`, which reads back as the resolution |
| Batch.FilesWrittenComplete | src/bin/logger.py:69-73 | the data file of every sensor whose write goes through is among the files written, holding `str(resolution)` |
| Batch.InitOutcomeCases | src/bin/logger.py:72-76 | `init` reports success exactly for a completed write of a resolution in the table, and a resolution outside it gives the `KeyError` message |
| Discovery.SensorId | src/bin/logger.py:119 | the ID is a suffix of the directory of length twelve, or the whole directory when shorter |
| Discovery.SensorIdOfSensorDir | src/bin/logger.py:118-119 | the ID taken from a sensor's directory is the one it was named after, so `read` and `init` open that sensor's file |
| Discovery.SensorIds | src/bin/logger.py:118-119 | one ID per directory, in listing order |
| Notifier.Segment | src/bin/logger.py:86 | the text before the next `inet ` is a prefix of what follows the first one |
| Notifier.ExtractIPv4 | src/bin/logger.py:86-92 | the two splits and their `continue`s; described by ExtractIPv4Unfolded and ExtractIPv4Spec |
| Notifier.ExtractIPv4Unfolded | src/bin/logger.py:86-92 | the two splits find the address between the first `inet ` and the next `/` inside the segment up to any further `inet `, and nothing when either is missing |
| Notifier.ExtractIPv4Spec | src/bin/logger.py:86-92 | an address is extracted exactly when it follows the first `inet `, is followed by `/`, and holds neither `/` nor `inet ` |
| Notifier.CollectAddresses | src/bin/logger.py:84-93 | the loop of `send` collects `[iface, ipv4]` for each interface whose output yields an address, in interface order |
| Notifier.Gather | src/bin/logger.py:84-93 | the pairs collected in interface order; described by GatherAppend, GatherMembers and GatherLength |
| Notifier.GatherAppend | src/bin/logger.py:84-93 | the pairs of a list of interfaces are those of its first part followed by those of the rest |
| Notifier.GatherMembers | src/bin/logger.py:84-93 | a pair is collected exactly when its interface's output yields that address |
| Notifier.GatherLength | src/bin/logger.py:87-91 | one interface is skipped for each output that yields no address |

## Left out

- Argument parsing, the epilog listing the sensors, and the dispatch to `read`, `init` or `send` (lines 114-116 and 121-211): library configuration with no logic of its own.
- `glob.glob` (line 20): the directory listing is the input of `SensorIds`.
- Opening, reading, writing and closing files (lines 31-33 and 71-73): what each call gives is an input. A failing `write` after a successful `open` has truncated the file, which `FilesWritten` does not record.
- Newline translation of text-mode reads: `ReadLines` cuts after `\n` only, and a `\r` stays in the line.
- `time.sleep` (line 39): sleeps are counted. The delay `Conf.RetrySleep` is kept as a constant only.
- `time.time()` and its rounding (line 57): the millisecond clock reading is an input.
- `'{:.{}f}'.format` (lines 59-60): floating-point formatting, passed in as an opaque function.
- Floating-point arithmetic: the conversion is exact over `real`, so rounding on lines 44-45 is not modelled.
- SensorReader.ParseMillidegrees: accepts only ASCII whitespace around an optional sign and ASCII digits. `float()` also accepts fractions, exponents, `inf`, `nan` and underscores, and in a text holding any non-ASCII character it also skips non-ASCII whitespace (U+0085 and above) and reads non-ASCII digits; U+001C-U+001F are never skipped. The driver writes ASCII integers.
- SensorReader.FailureMessage: the `ValueError` message quotes the text without the escaping `repr()` applies (a `\n` shows as two characters in Python).
- Batch.Read: `format` is taken as total, so a negative precision, which makes `'{:.{}f}'` raise `ValueError` inside the `try` of line 59, is not modelled; the command line limits `decimals` to 0-4 (line 157).
- `print` to standard output and standard error: outcomes and diagnostic lines are returned as lists.
- `socket.if_nameindex()`, `os.popen('ip addr show …')` and SMTP (lines 84-86 and 101-109): interface names and command outputs are inputs. The mail text, login and sending are left out.
- The `Namespace` helper (lines 8-10) and the default options `def_decimals`, `def_timestamp`, `def_resolution` (lines 13-15), which only the dispatch uses.
- The `str(e)` of an I/O exception is taken as given in the `IoError` message.
