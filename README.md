# ECi potentiostat driver — a verified Dafny model

This project models the command-and-acquisition layer of the ECi
potentiostat driver (`dev/Serial/ECi.py`). The driver talks to the
instrument over a serial line. `connect` performs a two-stage startup
handshake. The status parser `info` reads fixed-width `CELL`, `CMODE` and
`IE` tags into the session fields. `read`, `read_wait` and `reads` are the
polling, blocking and draining line readers. `cell_on`/`cell_off`, `steps`
and `ramp` write commands. `ramp` then waits for the `INI`
acknowledgement, pre-samples into a 1000-row `tempData` buffer until
`Start`, and collects up to `nr + 2` voltammetry segments. Segments split on
`change to` and stop early on `Done`. Each segment's buffer is seeded with
the previous buffer's last accepted line.

Layout, one module per file:

- `pytext.dfy` (`PyText`): the Python string operations the driver relies
  on. Slicing with clipping, `rstrip`/`strip` over Python whitespace,
  `int()` (sign, digits, single underscores between digits), `str()` of an
  integer, and `str.split` with a one-character separator, with its
  inverse `join`. `Text` distinguishes `str` from `bytes`: in Python 3 a
  `bytes` value never equals a `str`.
- `serialport.dfy` (`SerialPort`): the serial port as a class over a
  scripted incoming stream with a read cursor and a log of writes.
  `in_waiting > 0` means unread input remains. `readline(size)` stops after
  a newline, after `size` characters, or at the end of the arrived data (a
  timeout).
- `status.dfy` (`Status`): `info` as a function on the session value.
- `samples.dfy` (`Samples`): `line2data`; `append` as a function on the
  buffer contents; and class `TempData`, the in-place 1000 x 3 array with its
  cursor, proved against that function.
- `commands.dfy` (`Commands`): the outbound `CELL`, `step` and `ramp`
  commands, and the proof that their words read back unchanged.
- `protocol.dfy` (`Protocol`): every read loop of the driver as a function
  of the incoming stream. Lemmas state where each loop stops, what reaches
  the buffers, and the shape of a completed ramp.
- `eci.dfy` (`ECi`): class `ECipot`. Each reading method (`connect`,
  `read_wait`, `read`, `reads`, `steps`, `ramp`) is proved to leave the
  port and the session exactly as the matching `Protocol` function says.
  `info` is proved against `Status.Info`, and `cell_on`/`cell_off` against
  the `CELL` command of `Commands`; `close` is proved to leave the port
  closed.

Two behaviours of the code are easy to misread, and the model keeps both:

- `read` hands `info` the raw `bytes` line. A `bytes` slice never equals
  the `str` tags, so status lines that arrive through `read` (and `reads`)
  change nothing. `Status.InfoIgnoresBytes` states this.
- The second handshake loop of `connect` compares a `str` line with
  `b'Ini Done\r\n'`. That comparison is never true, so the loop always reads
  all 20 lines unless `info` raises. `Protocol.StatusLinesReadAll` states this.

The model also follows the code on these details: the `Ini start` test
is on the raw line, including `\r\n`; and `reads` returns the last line
read, even if that line is empty.

A segment reads up to 2000 lines into a 1000-row `tempData`. When more
full data lines arrive than its buffer has free rows, the numpy write past
row 999 raises, and that aborts the whole `ramp`
(`Protocol.SegmentOverflows`). Pre-sampling cannot overflow this way,
because it reads at most 1000 lines into an empty buffer.

Exceptions are values. A `ValueError` from `int()` becomes
`Fault.BadInt`. The `IndexError` of a missing tab field becomes
`Fault.MissingField`. The `IndexError` of a write past row 999 becomes
`Fault.RowOutOfRange`. Python evaluates `float(data[1])` before it indexes
row `index`, so a full buffer raises before a missing second or third field
does. Fields 1-3 are written one by one, so a short line has already
written the earlier columns of row `index` when it raises.

## Model

| member | source | states |
|---|---|---|
| `Status.InfoUpdatesTaggedField` | dev/Serial/ECi.py:52-68 | The tags are tested in the order `CELL`, `CMODE`, `IE`. A tagged line sets exactly its field to `int` of characters 4-5, 5-6 or 2-4, or raises a ValueError and changes nothing. An untagged line or a `bytes` line changes nothing. |
| `Status.InfoFrame` | dev/Serial/ECi.py:52-68 | `info` never changes `ini`. A successful call leaves every field other than the tagged one unchanged. |
| `Status.TagOf` | dev/Serial/ECi.py:54-64 | A line's tag is `CELL` iff it is a `str` starting with `CELL`. It is `CMODE` iff it is a `str` starting with `CMODE` but not `CELL`, and `IE` iff it is a `str` starting with `IE` but neither of the others. A `bytes` line has no tag. |
| `Status.InfoIgnoresBytes` | dev/Serial/ECi.py:87-93 | A status line handed over as `bytes`, as `read` does, leaves the session unchanged. |
| `Status.InfoExamples` | dev/Serial/ECi.py:54-63 | `CELL 1` sets `cell` to 1, and `CMODE 2` sets `cmode` to 2. |
| `ECi.ECipot.Info` | dev/Serial/ECi.py:52-68 | The method updates the fields exactly as `Status.Info` says, or reports its ValueError with nothing changed. |
| `ECi.ECipot.constructor` | dev/Serial/ECi.py:17-22 | A new driver has every session field 0 and no port. |
| `Protocol.ConnectEffect` | dev/Serial/ECi.py:31-46 | A handshake that does not raise reads the `Ini start` search, exactly 20 status lines and two more raw lines, then sets `ini` to 1. One that raises leaves `ini` unchanged. |
| `Protocol.StatusLinesReadAll` | dev/Serial/ECi.py:37-43 | The status loop never exits early: unless `info` raises, it reads all its lines. It never changes `ini`. |
| `ECi.ECipot.Connect` | dev/Serial/ECi.py:24-47 | `connect` opens the port and writes nothing. It leaves the cursor, the session and the fault exactly as `Protocol.Connect` gives them for the stream. |
| `ECi.ECipot.SkipToIniStart` | dev/Serial/ECi.py:32-35 | The first handshake loop stops at the position `Protocol.SeekIniStart` gives. |
| `Protocol.SeekIniStartStopsAtFirst` | dev/Serial/ECi.py:32-35 | The first handshake loop stops right after the first raw `readline(100)` line equal to `Ini start\r\n`, or after all 20 reads when none is. |
| `ECi.ECipot.ReadStatusLines` | dev/Serial/ECi.py:37-43 | The second handshake loop ends with the cursor, the session and the fault that `Protocol.StatusLines` gives. |
| `ECi.ECipot.Close` | dev/Serial/ECi.py:49-50 | After `close` the port is closed. |
| `ECi.ECipot.SetCell` | dev/Serial/ECi.py:70-75 | `CELL 1\n` or `CELL 0\n` is written exactly when the port is open. |
| `ECi.ECipot.CellOn` | dev/Serial/ECi.py:70-72 | `CELL 1\n` is written exactly when the port is open. |
| `ECi.ECipot.CellOff` | dev/Serial/ECi.py:73-75 | `CELL 0\n` is written exactly when the port is open. |
| `SerialPort.LineEndSpec` | dev/Serial/ECi.py:91 | A line read by `readline(size)` has no newline before its last character. It ends at a newline, at the size limit or at the end of the arrived data. It is never longer than `size`, and never empty while data is waiting. |
| `SerialPort.Port.InWaiting` | dev/Serial/ECi.py:90 | `in_waiting > 0` iff unread data remains. |
| `SerialPort.Port.ReadLine` | dev/Serial/ECi.py:91 | `readline` returns the stream from the cursor up to `LineEnd` and advances the cursor there. |
| `SerialPort.Port.Write` | dev/Serial/ECi.py:72 | `write` appends its data to the log of writes. |
| `ECi.ECipot.ReadWait` | dev/Serial/ECi.py:98-101 | `read_wait` returns the next line, right-stripped, and moves the cursor past it. |
| `ECi.ECipot.Read` | dev/Serial/ECi.py:87-96 | `read` returns `None` iff nothing is waiting, and otherwise one stripped line (as `Protocol.Poll`). The session never changes. |
| `Protocol.DrainResult` | dev/Serial/ECi.py:77-85 | `reads` returns `None` iff nothing was waiting. It stops having consumed all arrived data, or after its full count of lines. When it read anything, it returns the whole stripped line of its last read: the read whose end is where it stopped. |
| `ECi.ECipot.Reads` | dev/Serial/ECi.py:77-85 | `reads` ends with the line and the cursor that `Protocol.Drain` gives for 1000 reads. The session is unchanged. |
| `Protocol.AwaitIniStopsAtFirst` | dev/Serial/ECi.py:114-119 | The acknowledgement wait stops right after the first line starting with `INI` among its reads, or after all its reads when there is none. |
| `ECi.ECipot.AwaitIni` | dev/Serial/ECi.py:114-119 | The method's wait stops where `Protocol.AwaitIni` says. |
| `Commands.StepCommandWords` | dev/Serial/ECi.py:105-110 | A `step` command is one line: its only newline is its last character. Split on spaces, it gives back `step t0 v0`, then `t1 v1` only when both are given, then `t2 v2` only when both are given, in that order. |
| `ECi.ECipot.Steps` | dev/Serial/ECi.py:103-119 | While the port is open, `steps` writes exactly `StepCommand`, then waits as `AwaitIni` does for 50 reads. Otherwise it does nothing. |
| `Commands.RampCommandWords` | dev/Serial/ECi.py:125 | A `ramp` command is one line, whose only newline is its last character, and whose words are `ramp`, the four arguments and `nr`. The last word reads back as `nr`. |
| `PyText.ParseIntToStr` | dev/Serial/ECi.py:125 | The text `str(nr)` that an f-string writes reads back through `int()` as `nr`. |
| `Samples.Line2Data` | dev/Serial/ECi.py:206-210 | `line2data` returns fields iff the line starts with a tab. The fields are at least two, the first is empty, none contains a tab, and joining them with tabs gives back the line. |
| `PyText.JoinSplit` | dev/Serial/ECi.py:195 | Joining the fields of `split(sep)` with `sep` gives back the line. |
| `PyText.SplitJoin` | dev/Serial/ECi.py:195 | Splitting fields joined by `sep`, when none contains `sep`, gives back the fields. |
| `Samples.AppendedEffect` | dev/Serial/ECi.py:192-200 | A line not starting with a tab changes nothing. A data line adds exactly one row at the end and becomes `lastLine`. A data line into a full buffer raises instead of growing or overwriting. |
| `Samples.AppendedConsistent` | dev/Serial/ECi.py:188-200 | `append` keeps the cursor within 1000 and keeps `lastLine` the source of the last row. It only ever extends the rows. |
| `Samples.AppendAllRows` | dev/Serial/ECi.py:192-200 | After any run of appends without an exception, the buffer holds exactly the rows of the data lines appended, in append order, and never more than 1000. |
| `Samples.SeedCarriesLastRow` | dev/Serial/ECi.py:162-163 | Seeding a fresh buffer with another buffer's `lastLine` copies that buffer's last row. If that buffer never accepted a row, the seed adds nothing. |
| `Samples.TempData.constructor` | dev/Serial/ECi.py:187-190 | A new `tempData` has a 1000 x 3 array, cursor 0 and empty `lastLine`. |
| `Samples.TempData.Append` | dev/Serial/ECi.py:192-200 | `append` leaves the visible rows, the cursor and `lastLine` as `Appended` says, or raises with rows and cursor unchanged. It never writes a row other than row `index`, and a non-data line writes nothing. |
| `Samples.TempData.End` | dev/Serial/ECi.py:202-203 | `end` returns exactly the first `index` rows. |
| `Protocol.PreSampleFits` | dev/Serial/ECi.py:142-147 | Pre-sampling reads at most its 1000 lines and keeps its buffer consistent. With no more reads than free rows, it can never raise the full-buffer error. |
| `Protocol.PreSampleRows` | dev/Serial/ECi.py:142-147 | A completed pre-sampling holds exactly the rows of the data lines read before `Start`, in order. `Start` is never appended. |
| `Protocol.RampPreSampleNeverFull` | dev/Serial/ECi.py:141-147 | Pre-sampling inside `ramp` never overflows its buffer. |
| `ECi.ECipot.PreSample` | dev/Serial/ECi.py:141-147 | The pre-sampling loop leaves the cursor and the buffer, or the exception, as `Protocol.PreSample` gives them. |
| `Protocol.SegmentExtends` | dev/Serial/ECi.py:164-176 | A segment reads at most 2000 lines, and all of them when no sentinel came. It keeps its buffer consistent and only adds rows. |
| `Protocol.SegmentRows` | dev/Serial/ECi.py:164-176 | A completed segment holds its seed rows, then exactly the rows of the data lines read before its `change to` or `Done` line, in order. Neither sentinel is appended. |
| `ECi.ECipot.Segment` | dev/Serial/ECi.py:164-176 | The segment loop leaves the cursor, the buffer and the end kind as `Protocol.Segment` gives them. Its last line starts with `Done` iff the segment ended on `Done`. |
| `ECi.ECipot.SeededSegment` | dev/Serial/ECi.py:162-178 | One pass of the segment loop seeds a fresh buffer, runs one segment, and returns its rows and `lastLine`. |
| `Protocol.SegmentsCount` | dev/Serial/ECi.py:161-180 | The segment loop adds at most `nr + 2` segments. It stops short only on a segment that ended on `Done`, and no earlier segment ends so. |
| `Protocol.SegmentsChain` | dev/Serial/ECi.py:153-180 | Every buffer of the segment loop stays consistent. Each segment starts with the last row of the buffer before it, when that buffer has one. |
| `Protocol.SegmentsFromStart` | dev/Serial/ECi.py:161-180 | Started after a consistent buffer, the segment loop completes a `SegmentRun`: the count bounds, the `Done` rule, and a continuous chain of consistent buffers. |
| `ECi.ECipot.Segments` | dev/Serial/ECi.py:160-180 | The segment loop returns the rows of each segment, in order, or its exception, and moves the cursor as `Protocol.Segments` says. |
| `Protocol.RampShape` | dev/Serial/ECi.py:123-181 | A completed `ramp` returns a consistent pre-sampling buffer, followed by at most `nr + 2` segments. There are fewer only when the last ended on `Done`. Every buffer is consistent, and each one starts with the last row of the one before. |
| `ECi.ECipot.Ramp` | dev/Serial/ECi.py:123-181 | `ramp` returns `None` with a closed port. Otherwise it writes exactly `RampCommand` and returns the segment rows and the pre-sampling rows, or the exception, as `Protocol.Ramp` gives them. The session is unchanged. |
| `Protocol.SegmentOverflows` | dev/Serial/ECi.py:164-176 | A segment whose first reads bring more full data lines than its buffer has free rows raises the full-buffer error (the `IndexError` of the row write in `append`). |
| `Protocol.SentinelsAreNotData` | dev/Serial/ECi.py:118-171 | No line starting with `INI`, `Start`, `change to` or `Done` is a data line. |

## Left out

- Opening and configuring the serial device (baud rate, port name, the one-second timeout) and `start_potentiostat` are not modelled. The port is a scripted stream, and a read at the end of the stream stands for a read that timed out.
- Timing is not modelled: every byte the device will send is taken to have arrived already.
- `float()` parsing of the three sample fields and its ValueError are left out. Samples keep the field text, because floating point is outside the model.
- Python's float formatting of the `ramp` and `steps` arguments is left out. The arguments are taken as already-formatted strings, and `Commands.Word` assumes they contain no space and no newline.
- UTF-8 encoding and decoding are left out: characters stand for bytes, and an invalid UTF-8 line that would raise UnicodeDecodeError is not modelled.
- `int()` is modelled for ASCII digits only. Other Unicode decimal digits are not accepted.
- The `print` calls are left out, because they affect nothing the driver returns.
- The unused `np.empty` of `ini_data` in `ramp` is left out. It is overwritten before use.
- Calling `read`, `read_wait`, `reads`, `steps` or `ramp` before `connect`, which raises AttributeError on `None`, is a precondition (`Connected()`). So is reading from a closed port, which raises in pyserial.
- `ECi.ECipot.Close`, `ECi.ECipot.SetCell`, `ECi.ECipot.CellOn` and `ECi.ECipot.CellOff` require a port (`ser != null`). The AttributeError that `close`, `cell_on` and `cell_off` raise before `connect` is not modelled.
- Creating the `serial.Serial` object inside `connect` is not modelled: the port object is passed in, ready to open.
- `src/ec4py/step_datas.py` (file reading, plotting and analysis) is not part of this model.
