/** Class `ECipot`: the driver object of the potentiostat.  It holds the
    session fields the status parser maintains and the serial port, and
    every method is proved to do what the protocol functions of module
    `Protocol` say of the stream it reads. */
module ECi {
  import opened PyText
  import opened SerialPort
  import opened Samples
  import opened Commands
  import Status
  import Protocol

  class ECipot {
    var cell: int
    var ie: int
    var ini: int
    var cmode: int
    var ser: Port?

    /** The session fields as one value. */
    ghost function Session(): Status.Session
      reads this
    {
      Status.Session(cell, cmode, ie, ini)
    }

    /** `connect` has installed a port. */
    ghost predicate Connected()
      reads this, ser
    {
      ser != null && ser.Valid()
    }

    /** `ECipot()`: every session field 0, no port yet. */
    constructor ()
      ensures Session() == Status.Session(0, 0, 0, 0) && ser == null
    {
      cell := 0;
      ie := 0;
      ini := 0;
      cmode := 0;
      ser := null;
    }

    /** `connect(port)`: open the port, skip to the `Ini start` line, feed
        20 status lines to `info`, set `ini` and discard two lines.  A
        ValueError from `info` aborts it; `fault` reports that. */
    method Connect(port: Port) returns (fault: Option<Fault>)
      requires port.Valid()
      modifies this, port
      ensures ser == port && port.Valid() && port.isOpen
      ensures port.written == old(port.written)
      ensures var h := Protocol.Connect(port.input, old(port.pos), old(Session()));
        fault == h.fault && port.pos == h.pos && Session() == h.session
    {
      ser := port;
      port.Open();
      SkipToIniStart();
      fault := ReadStatusLines();
      if fault.Some? {
        return;
      }
      ini := 1;
      var discard := port.ReadLine(Protocol.HandshakeLineSize);
      discard := port.ReadLine(Protocol.HandshakeLineSize);
    }

    /** The first loop of `connect`: up to 20 raw `readline(100)` calls,
        stopping after `Ini start`. */
    method SkipToIniStart()
      requires Connected() && ser.isOpen
      modifies ser`pos
      ensures Connected()
      ensures ser.pos == Protocol.SeekIniStart(ser.input, old(ser.pos), Protocol.HandshakeReads)
    {
      for x := 0 to Protocol.HandshakeReads
        invariant Connected() && ser.isOpen
        invariant Protocol.SeekIniStart(ser.input, old(ser.pos), Protocol.HandshakeReads)
          == Protocol.SeekIniStart(ser.input, ser.pos, Protocol.HandshakeReads - x)
      {
        var line := ser.ReadLine(Protocol.HandshakeLineSize);
        if line == Protocol.IniStart {
          break;
        }
      }
    }

    /** The second loop of `connect`: 20 `read_wait()` lines, each handed to
        `info`; the exit test compares the line with a `bytes` literal. */
    method ReadStatusLines() returns (fault: Option<Fault>)
      requires Connected() && ser.isOpen
      modifies ser`pos, this`cell, this`cmode, this`ie
      ensures Connected() && ini == old(ini)
      ensures var h := Protocol.StatusLines(ser.input, old(ser.pos), Protocol.HandshakeReads, old(Session()));
        fault == h.fault && ser.pos == h.pos && Session() == h.session
    {
      fault := None;
      for x := 0 to Protocol.HandshakeReads
        invariant Connected() && ser.isOpen && ini == old(ini)
        invariant fault == None
        invariant Protocol.StatusLines(ser.input, old(ser.pos), Protocol.HandshakeReads, old(Session()))
          == Protocol.StatusLines(ser.input, ser.pos, Protocol.HandshakeReads - x, Session())
      {
        Protocol.StatusLinesStep(ser.input, ser.pos, Protocol.HandshakeReads - x, Session());
        var line := ReadWait();
        fault := Info(Str(line));
        if fault.Some? {
          return;
        }
        if Str(line) == Bytes(Protocol.IniDone) {
          break;
        }
      }
    }

    /** `close()`. */
    method Close()
      requires ser != null
      modifies ser`isOpen
      ensures !ser.isOpen
    {
      ser.Close();
    }

    /** `info(sline)`: on a ValueError from `int` nothing has changed and
        `fault` reports it. */
    method Info(line: Text) returns (fault: Option<Fault>)
      modifies this`cell, this`cmode, this`ie
      ensures match Status.Info(old(Session()), line)
        case Ok(s) => fault == None && Session() == s
        case Err(f) => fault == Some(f) && Session() == old(Session())
    {
      fault := None;
      if SliceText(line, 0, 4) == Str("CELL") {
        var s := Slice(line.chars, 4, 6);
        var n := ParseInt(s);
        if n.None? {
          return Some(BadInt(s));
        }
        cell := n.value;
      } else if SliceText(line, 0, 5) == Str("CMODE") {
        var s := Slice(line.chars, 5, 7);
        var n := ParseInt(s);
        if n.None? {
          return Some(BadInt(s));
        }
        cmode := n.value;
      } else if SliceText(line, 0, 2) == Str("IE") {
        var s := Slice(line.chars, 2, 5);
        var n := ParseInt(s);
        if n.None? {
          return Some(BadInt(s));
        }
        ie := n.value;
      }
    }

    /** `cell_on()` and `cell_off()`: the command is written only while the
        port is open. */
    method SetCell(on: bool)
      requires ser != null
      modifies ser`written
      ensures ser.written == if ser.isOpen then old(ser.written) + [CellCommand(on)] else old(ser.written)
    {
      if ser.isOpen {
        if on {
          ser.Write("CELL 1\n");
        } else {
          ser.Write("CELL 0\n");
        }
      }
    }

    method CellOn()
      requires ser != null
      modifies ser`written
      ensures ser.written == if ser.isOpen then old(ser.written) + [CellCommand(true)] else old(ser.written)
    {
      SetCell(true);
    }

    method CellOff()
      requires ser != null
      modifies ser`written
      ensures ser.written == if ser.isOpen then old(ser.written) + [CellCommand(false)] else old(ser.written)
    {
      SetCell(false);
    }

    /** `read_wait()`: one line, decoded and right-stripped. */
    method ReadWait() returns (line: string)
      requires Connected() && ser.isOpen
      modifies ser`pos
      ensures Connected()
      ensures line == Protocol.WaitText(ser.input, old(ser.pos))
      ensures ser.pos == Protocol.WaitEnd(ser.input, old(ser.pos))
    {
      var raw := ser.ReadLine(-1);
      line := RStrip(raw);
    }

    /** `read()`: `None` when nothing is waiting; otherwise the line, which
        is first handed to `info` still as `bytes`. */
    method Read() returns (line: Option<string>)
      requires Connected() && ser.isOpen
      modifies ser`pos, this`cell, this`cmode, this`ie
      ensures Connected() && Session() == old(Session())
      ensures (line, ser.pos) == Protocol.Poll(ser.input, old(ser.pos))
    {
      var waiting := ser.InWaiting();
      if waiting > 0 {
        var raw := ser.ReadLine(-1);
        Status.InfoIgnoresBytes(Session(), raw);
        var fault := Info(Bytes(raw));
        line := Some(RStrip(raw));
      } else {
        line := None;
      }
    }

    /** `reads()`: up to 1000 `read()` calls; the last line read, or `None`. */
    method Reads() returns (line: Option<string>)
      requires Connected() && ser.isOpen
      modifies ser`pos, this`cell, this`cmode, this`ie
      ensures Connected() && Session() == old(Session())
      ensures (line, ser.pos) == Protocol.Drain(ser.input, old(ser.pos), Protocol.DrainReads, None)
    {
      line := None;
      for x := 0 to Protocol.DrainReads
        invariant Connected() && ser.isOpen && Session() == old(Session())
        invariant Protocol.Drain(ser.input, old(ser.pos), Protocol.DrainReads, None)
          == Protocol.Drain(ser.input, ser.pos, Protocol.DrainReads - x, line)
      {
        var tline := Read();
        if tline.None? {
          break;
        }
        line := tline;
      }
    }

    /** The acknowledgement wait inside `steps` and `ramp`: up to `n`
        `read_wait()` calls, stopping after a line that starts with `INI`. */
    method AwaitIni(n: nat)
      requires Connected() && ser.isOpen
      modifies ser`pos
      ensures Connected()
      ensures ser.pos == Protocol.AwaitIni(ser.input, old(ser.pos), n)
    {
      for x := 0 to n
        invariant Connected() && ser.isOpen
        invariant Protocol.AwaitIni(ser.input, old(ser.pos), n) == Protocol.AwaitIni(ser.input, ser.pos, n - x)
      {
        var line := ReadWait();
        if Slice(line, 0, 3) == "INI" {
          break;
        }
      }
    }

    /** `steps(t0, v0, t1, v1, t2, v2)`: while the port is open, write the
        `step` command and wait up to 50 lines for its acknowledgement. */
    method Steps(t0: string, v0: string, t1: Option<string>, v1: Option<string>,
                 t2: Option<string>, v2: Option<string>)
      requires Connected()
      modifies ser`pos, ser`written
      ensures Connected()
      ensures old(ser.isOpen) ==>
        ser.written == old(ser.written) + [StepCommand(t0, v0, t1, v1, t2, v2)] &&
        ser.pos == Protocol.AwaitIni(ser.input, old(ser.pos), Protocol.StepAckReads)
      ensures !old(ser.isOpen) ==> ser.written == old(ser.written) && ser.pos == old(ser.pos)
    {
      if ser.isOpen {
        var s := "step " + t0 + " " + v0;
        if v1.Some? && t1.Some? {
          s := s + " " + t1.value + " " + v1.value;
        }
        if v2.Some? && t2.Some? {
          s := s + " " + t2.value + " " + v2.value;
        }
        s := s + "\n";
        ser.Write(s);
        AwaitIni(Protocol.StepAckReads);
      }
    }

    /** The pre-sampling loop of `ramp`: up to 1000 lines into `buf`,
        stopping at a line that starts with `Start`. */
    method PreSample(buf: TempData) returns (fault: Option<Fault>)
      requires Connected() && ser.isOpen && buf.Valid()
      modifies ser`pos, buf, buf.data
      ensures Connected() && buf.Valid()
      ensures match Protocol.PreSample(ser.input, old(ser.pos), Protocol.PreSampleReads, old(buf.Model()))
        case Raised(f, p) => fault == Some(f) && ser.pos == p
        case Returned(b, p) => fault == None && ser.pos == p && buf.Model() == b
    {
      fault := None;
      for x := 0 to Protocol.PreSampleReads
        invariant Connected() && ser.isOpen && buf.Valid() && fault == None
        invariant Protocol.PreSample(ser.input, old(ser.pos), Protocol.PreSampleReads, old(buf.Model()))
          == Protocol.PreSample(ser.input, ser.pos, Protocol.PreSampleReads - x, buf.Model())
      {
        Protocol.PreSampleStep(ser.input, ser.pos, Protocol.PreSampleReads - x, buf.Model());
        var line := ReadWait();
        if Slice(line, 0, 5) == "Start" {
          break;
        }
        fault := buf.Append(line);
        if fault.Some? {
          return;
        }
      }
    }

    /** One segment of `ramp`: up to 2000 lines into `buf`, stopping at a
        line that starts with `change to` or `Done`.  `line` is the last
        line read, which `ramp` tests for `Done` afterwards. */
    method Segment(buf: TempData) returns (fault: Option<Fault>, line: string, ghost end: Protocol.End)
      requires Connected() && ser.isOpen && buf.Valid()
      modifies ser`pos, buf, buf.data
      ensures Connected() && buf.Valid()
      ensures match Protocol.Segment(ser.input, old(ser.pos), Protocol.SegmentReads, old(buf.Model()))
        case Raised(f, p) => fault == Some(f) && ser.pos == p
        case Returned(seg, p) =>
          && fault == None && ser.pos == p && buf.Model() == seg.buf
          && end == seg.end && (Slice(line, 0, 4) == "Done" <==> end == Protocol.DoneLine)
    {
      fault := None;
      line := "";
      end := Protocol.Exhausted;
      for x := 0 to Protocol.SegmentReads
        invariant Connected() && ser.isOpen && buf.Valid() && fault == None
        invariant x > 0 ==> Slice(line, 0, 4) != "Done"
        invariant Protocol.Segment(ser.input, old(ser.pos), Protocol.SegmentReads, old(buf.Model()))
          == Protocol.Segment(ser.input, ser.pos, Protocol.SegmentReads - x, buf.Model())
      {
        Protocol.SegmentStep(ser.input, ser.pos, Protocol.SegmentReads - x, buf.Model());
        line := ReadWait();
        if Slice(line, 0, 9) == "change to" {
          ChangeIsNotDone(line);
          end := Protocol.ChangeTo;
          break;
        } else if Slice(line, 0, 4) == "Done" {
          end := Protocol.DoneLine;
          break;
        } else {
          fault := buf.Append(line);
          if fault.Some? {
            return;
          }
        }
      }
    }

    /** One pass of the segment loop of `ramp`: a fresh buffer, seeded with
        `seed`, filled by one segment.  `line` is the last line read. */
    method SeededSegment(seed: string)
      returns (fault: Option<Fault>, rows: seq<Sample>, lastLine: string, line: string, ghost seg: Protocol.Seg)
      requires Connected() && ser.isOpen
      modifies ser`pos
      ensures Connected()
      ensures Appended(Empty, seed).Err? ==> fault == Some(Appended(Empty, seed).fault) && ser.pos == old(ser.pos)
      ensures Appended(Empty, seed).Ok? ==>
        match Protocol.Segment(ser.input, old(ser.pos), Protocol.SegmentReads, Appended(Empty, seed).value)
        case Raised(f, p) => fault == Some(f) && ser.pos == p
        case Returned(s, p) =>
          && fault == None && ser.pos == p && seg == s
          && rows == s.buf.rows && lastLine == s.buf.lastLine
          && (Slice(line, 0, 4) == "Done" <==> s.end == Protocol.DoneLine)
    {
      rows, lastLine, line := [], "", "";
      seg := Protocol.Seg(Empty, Protocol.Exhausted);
      var tdata := new TempData();
      fault := tdata.Append(seed);
      if fault.Some? {
        return;
      }
      ghost var end;
      fault, line, end := Segment(tdata);
      if fault.Some? {
        return;
      }
      seg := Protocol.Seg(tdata.Model(), end);
      rows := tdata.End();
      lastLine := tdata.lastLine;
    }

    /** The segment loop of `ramp`: `count` segments, each in a fresh
        buffer seeded with the previous buffer's `lastLine`, stopping after
        a segment that ended on `Done`; the rows of each, in order. */
    method Segments(seed: string, count: nat) returns (r: Result<seq<seq<Sample>>>)
      requires Connected() && ser.isOpen
      modifies ser`pos
      ensures Connected()
      ensures match Protocol.Segments(ser.input, old(ser.pos), count, seed, [])
        case Raised(f, p) => r == Err(f) && ser.pos == p
        case Returned(segs, p) => r == Ok(Protocol.SegRows(segs)) && ser.pos == p
    {
      var lastLine := seed;
      var lsv: seq<seq<Sample>> := [];
      ghost var segs: seq<Protocol.Seg> := [];
      for k := 0 to count
        invariant Connected() && ser.isOpen
        invariant lsv == Protocol.SegRows(segs)
        invariant Protocol.Segments(ser.input, old(ser.pos), count, seed, [])
          == Protocol.Segments(ser.input, ser.pos, count - k, lastLine, segs)
      {
        Protocol.SegmentsStep(ser.input, ser.pos, count - k, lastLine, segs);
        var fault, rows, last, line, seg := SeededSegment(lastLine);
        if fault.Some? {
          return Err(fault.value);
        }
        lsv := lsv + [rows];
        segs := segs + [seg];
        assert lsv == Protocol.SegRows(segs);
        lastLine := last;
        if Slice(line, 0, 4) == "Done" {
          break;
        }
      }
      assert Protocol.Segments(ser.input, old(ser.pos), count, seed, []) == Protocol.Returned(segs, ser.pos);
      return Ok(lsv);
    }

    /** `ramp(start, v1, v2, rate, nr)`: `None` when the port is closed;
        otherwise the command is written and the segments' rows and the
        pre-sampling rows are returned, or the exception raised on the way. */
    method Ramp(start: string, v1: string, v2: string, rate: string, nr: int)
      returns (r: Option<Result<(seq<seq<Sample>>, seq<Sample>)>>)
      requires Connected()
      modifies ser`pos, ser`written, this`cell, this`cmode, this`ie
      ensures Connected() && Session() == old(Session())
      ensures !old(ser.isOpen) ==> r == None && ser.written == old(ser.written) && ser.pos == old(ser.pos)
      ensures old(ser.isOpen) ==>
        && ser.written == old(ser.written) + [RampCommand(start, v1, v2, rate, nr)]
        && match Protocol.Ramp(ser.input, old(ser.pos), nr)
           case Raised(f, p) => r == Some(Err(f)) && ser.pos == p
           case Returned(v, p) => r == Some(Ok((Protocol.SegRows(v.0), v.1.rows))) && ser.pos == p
    {
      if !ser.isOpen {
        return None;
      }
      ser.Write("ramp " + start + " " + v1 + " " + v2 + " " + rate + " " + IntToStr(nr) + "\n");
      AwaitIni(Protocol.RampAckReads);
      var inidata := new TempData();
      var fault := PreSample(inidata);
      if fault.Some? {
        return Some(Err(fault.value));
      }
      var iniData := inidata.End();
      var lastLine := inidata.lastLine;
      var skipped := Read();
      skipped := Read();
      skipped := Read();
      var lsv := Segments(lastLine, Protocol.SegmentCount(nr));
      if lsv.Err? {
        return Some(Err(lsv.fault));
      }
      return Some(Ok((lsv.value, iniData)));
    }
  }

  /** A line that starts with `change to` does not start with `Done`. */
  lemma ChangeIsNotDone(line: string)
    requires Slice(line, 0, 9) == "change to"
    ensures Slice(line, 0, 4) != "Done"
  {
    assert Slice(line, 0, 4)[0] == Slice(line, 0, 9)[0] == 'c';
  }
}
