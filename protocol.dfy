/** The controller's protocols as functions of the incoming stream: where
    each bounded read loop of `ECipot` stops, what it hands to the status
    parser and the sample buffers, and what it returns.  The methods of
    class `ECipot` are proved to do exactly this. */
module Protocol {
  import opened PyText
  import opened SerialPort
  import opened Status
  import opened Samples

  /** The iteration caps of the source's `for ... in range(...)` loops. */
  const HandshakeReads: nat := 20
  const StepAckReads: nat := 50
  const RampAckReads: nat := 1000
  const PreSampleReads: nat := 1000
  const DrainReads: nat := 1000
  const SegmentReads: nat := 2000

  /** The length limit of the handshake's `readline(100)`. */
  const HandshakeLineSize: int := 100

  const IniStart := "Ini start\r\n"
  const IniDone := "Ini Done\r\n"

  /** A protocol run: its value, or the exception it raised, together with
      how far it read the stream. */
  datatype Outcome<T> = Returned(value: T, pos: nat) | Raised(fault: Fault, pos: nat)

  /** Where one `read_wait()` stops: a `readline()` without length limit. */
  function WaitEnd(input: string, pos: nat): (e: nat)
    requires pos <= |input|
    ensures pos <= e <= |input|
  {
    LineEnd(input, pos, -1)
  }

  /** The text `read_wait()` returns: the line, decoded and right-stripped. */
  function WaitText(input: string, pos: nat): string
    requires pos <= |input|
  {
    RStrip(input[pos..WaitEnd(input, pos)])
  }

  /** Where `n` consecutive `read_wait()` calls stop. */
  function WaitN(input: string, pos: nat, n: nat): (p: nat)
    requires pos <= |input|
    ensures pos <= p <= |input|
    decreases n
  {
    if n == 0 then pos else WaitN(input, WaitEnd(input, pos), n - 1)
  }

  lemma {:induction false} WaitNMonotone(input: string, pos: nat, m: nat, n: nat)
    requires pos <= |input| && m <= n
    ensures WaitN(input, pos, m) <= WaitN(input, pos, n)
    decreases m
  {
    if m > 0 {
      WaitNMonotone(input, WaitEnd(input, pos), m - 1, n - 1);
    }
  }

  /** The lines `n` consecutive `read_wait()` calls return. */
  function WaitLines(input: string, pos: nat, n: nat): (lines: seq<string>)
    requires pos <= |input|
    ensures |lines| == n
    decreases n
  {
    if n == 0 then [] else [WaitText(input, pos)] + WaitLines(input, WaitEnd(input, pos), n - 1)
  }

  /** Whether `line` starts with one of `stops`. */
  predicate StartsWithAny(line: string, stops: seq<string>)
    decreases |stops|
  {
    stops != [] && (StartsWith(line, stops[0]) || StartsWithAny(line, stops[1..]))
  }

  /** The lines before the first one that starts with one of `stops`. */
  function Before(lines: seq<string>, stops: seq<string>): (r: seq<string>)
    ensures r <= lines
    decreases |lines|
  {
    if lines == [] || StartsWithAny(lines[0], stops) then [] else [lines[0]] + Before(lines[1..], stops)
  }

  // ---------------------------------------------------------------- connect

  /** The first handshake loop: up to 20 `readline(100)` calls, stopping
      after the raw line `Ini start\r\n`. */
  function SeekIniStart(input: string, pos: nat, n: nat): (p: nat)
    requires pos <= |input|
    ensures pos <= p <= |input|
    decreases n
  {
    if n == 0 then pos
    else
      var e := LineEnd(input, pos, HandshakeLineSize);
      if input[pos..e] == IniStart then e else SeekIniStart(input, e, n - 1)
  }

  /** Where `i` consecutive `readline(100)` calls stop. */
  function RawN(input: string, pos: nat, i: nat): (p: nat)
    requires pos <= |input|
    ensures pos <= p <= |input|
    decreases i
  {
    if i == 0 then pos else RawN(input, LineEnd(input, pos, HandshakeLineSize), i - 1)
  }

  /** The raw (undecoded, unstripped) line the `i`-th `readline(100)` call
      returns, counting from 0. */
  function RawLine(input: string, pos: nat, i: nat): string
    requires pos <= |input|
  {
    var p := RawN(input, pos, i);
    input[p..LineEnd(input, p, HandshakeLineSize)]
  }

  /** The first handshake loop stops right after the first raw line equal
      to `Ini start\r\n`, or after all of its `n` reads when none is. */
  lemma {:induction false} SeekIniStartStopsAtFirst(input: string, pos: nat, n: nat, k: nat)
    requires pos <= |input| && k <= n
    requires forall i :: 0 <= i < k ==> RawLine(input, pos, i) != IniStart
    ensures k < n && RawLine(input, pos, k) == IniStart ==>
      SeekIniStart(input, pos, n) == RawN(input, pos, k + 1)
    ensures k == n ==> SeekIniStart(input, pos, n) == RawN(input, pos, n)
    decreases k
  {
    var e := LineEnd(input, pos, HandshakeLineSize);
    if k > 0 {
      assert RawLine(input, pos, 0) != IniStart;
      forall i | 0 <= i < k - 1
        ensures RawLine(input, e, i) != IniStart
      {
        assert RawN(input, pos, i + 1) == RawN(input, e, i);
        assert RawLine(input, pos, i + 1) == RawLine(input, e, i);
      }
      SeekIniStartStopsAtFirst(input, e, n - 1, k - 1);
      assert RawN(input, pos, k) == RawN(input, e, k - 1);
      assert RawN(input, pos, k + 1) == RawN(input, e, k);
      assert RawN(input, pos, n) == RawN(input, e, n - 1);
    } else if n > 0 && RawLine(input, pos, 0) == IniStart {
      assert RawN(input, pos, 1) == e;
    }
  }

  /** The session after the handshake, the exception it raised if any, and
      where it stopped reading. */
  datatype Handshake = Handshake(session: Session, fault: Option<Fault>, pos: nat)

  /** The second handshake loop: up to 20 `read_wait()` calls, each line
      passed to `info`.  Its exit test compares the `str` line with the
      `bytes` value `b'Ini Done\r\n'`, which is never equal. */
  function StatusLines(input: string, pos: nat, n: nat, s: Session): (h: Handshake)
    requires pos <= |input|
    ensures pos <= h.pos <= |input|
    decreases n
  {
    if n == 0 then Handshake(s, None, pos)
    else
      var e := WaitEnd(input, pos);
      var line := WaitText(input, pos);
      match Info(s, Str(line))
      case Err(f) => Handshake(s, Some(f), e)
      case Ok(s') =>
        if Str(line) == Bytes(IniDone) then Handshake(s', None, e)
        else StatusLines(input, e, n - 1, s')
  }

  /** `connect`, once the port is open: both loops, then `ini = 1`, then two
      discarded `readline(100)` calls. */
  function Connect(input: string, pos: nat, s: Session): (h: Handshake)
    requires pos <= |input|
    ensures pos <= h.pos <= |input|
  {
    var p := SeekIniStart(input, pos, HandshakeReads);
    var h := StatusLines(input, p, HandshakeReads, s);
    if h.fault.Some? then h
    else
      var p1 := LineEnd(input, h.pos, HandshakeLineSize);
      Handshake(h.session.(ini := 1), None, LineEnd(input, p1, HandshakeLineSize))
  }

  /** The second handshake loop never stops early: unless `info` raises, it
      reads all of its lines, and it never changes `ini`. */
  lemma {:induction false} StatusLinesReadAll(input: string, pos: nat, n: nat, s: Session)
    requires pos <= |input|
    ensures StatusLines(input, pos, n, s).session.ini == s.ini
    ensures StatusLines(input, pos, n, s).fault.None? ==>
      StatusLines(input, pos, n, s).pos == WaitN(input, pos, n)
    decreases n
  {
    if n > 0 {
      var line := WaitText(input, pos);
      InfoFrame(s, Str(line));
      match Info(s, Str(line))
      case Err(f) =>
      case Ok(s') =>
        StatusLinesReadAll(input, WaitEnd(input, pos), n - 1, s');
    }
  }

  /** One status line: `info` raises, or the loop goes on with the updated
      session (the `Ini Done` test never succeeds). */
  lemma StatusLinesStep(input: string, pos: nat, n: nat, s: Session)
    requires pos <= |input| && n > 0
    ensures var r := Info(s, Str(WaitText(input, pos)));
      StatusLines(input, pos, n, s) ==
        if r.Err? then Handshake(s, Some(r.fault), WaitEnd(input, pos))
        else StatusLines(input, WaitEnd(input, pos), n - 1, r.value)
  {
    assert Str(WaitText(input, pos)) != Bytes(IniDone);
  }

  /** A handshake that does not raise reads exactly 20 status lines after
      the `Ini start` search and then two more raw lines, and sets `ini`;
      one that raises leaves `ini` as it was. */
  lemma ConnectEffect(input: string, pos: nat, s: Session)
    requires pos <= |input|
    ensures var h := Connect(input, pos, s);
      && (h.fault.None? ==>
            && h.session.ini == 1
            && h.pos == LineEnd(input, LineEnd(input,
                 WaitN(input, SeekIniStart(input, pos, HandshakeReads), HandshakeReads),
                 HandshakeLineSize), HandshakeLineSize))
      && (h.fault.Some? ==> h.session.ini == s.ini)
  {
    StatusLinesReadAll(input, SeekIniStart(input, pos, HandshakeReads), HandshakeReads, s);
  }

  // --------------------------------------------------------- read and reads

  /** `read()`: `None` when nothing is waiting, otherwise one line (the
      bytes handed to `info` change nothing). */
  function Poll(input: string, pos: nat): (r: (Option<string>, nat))
    requires pos <= |input|
    ensures pos <= r.1 <= |input|
  {
    if pos < |input| then (Some(WaitText(input, pos)), WaitEnd(input, pos)) else (None, pos)
  }

  /** `reads()`: up to 1000 `read()` calls, stopping when nothing is waiting;
      returns the last line read. */
  function Drain(input: string, pos: nat, n: nat, last: Option<string>): (r: (Option<string>, nat))
    requires pos <= |input|
    ensures pos <= r.1 <= |input|
    decreases n
  {
    if n == 0 then (last, pos)
    else
      match Poll(input, pos).0
      case None => (last, pos)
      case Some(line) => Drain(input, Poll(input, pos).1, n - 1, Some(line))
  }

  /** `reads()` returns `None` exactly when nothing was waiting, and it
      stops either having consumed everything that had arrived or after its
      full count of lines.  When it read anything, it returns the last line
      it read: the whole stripped line of its `j`-th read, for the `j` whose
      read ends where the drain stopped. */
  lemma {:induction false} DrainResult(input: string, pos: nat, n: nat, last: Option<string>)
    requires pos <= |input|
    ensures n > 0 ==> (Drain(input, pos, n, last).0.None? <==> last.None? && pos == |input|)
    ensures Drain(input, pos, n, last).1 == |input| || Drain(input, pos, n, last).1 == WaitN(input, pos, n)
    ensures n > 0 && pos < |input| ==>
      exists j :: 0 <= j < n && WaitN(input, pos, j) < |input| &&
        WaitN(input, pos, j + 1) == Drain(input, pos, n, last).1 &&
        Drain(input, pos, n, last).0 == Some(WaitText(input, WaitN(input, pos, j)))
    decreases n
  {
    if n > 0 && pos < |input| {
      var e := WaitEnd(input, pos);
      DrainResult(input, e, n - 1, Some(WaitText(input, pos)));
      var r := Drain(input, pos, n, last);
      assert r == Drain(input, e, n - 1, Some(WaitText(input, pos)));
      if n - 1 == 0 || e == |input| {
        assert r == (Some(WaitText(input, pos)), e);
        assert WaitN(input, pos, 0) == pos && WaitN(input, pos, 1) == e;
      } else {
        var j :| 0 <= j < n - 1 && WaitN(input, e, j) < |input| &&
          WaitN(input, e, j + 1) == r.1 && r.0 == Some(WaitText(input, WaitN(input, e, j)));
        assert WaitN(input, pos, j + 1) == WaitN(input, e, j);
        assert WaitN(input, pos, j + 2) == WaitN(input, e, j + 1);
      }
    }
  }

  // ----------------------------------------------- acknowledgement (INI) wait

  /** The acknowledgement wait of `steps` (50 reads) and `ramp` (1000
      reads): `read_wait()` until a line starts with `INI`. */
  function AwaitIni(input: string, pos: nat, n: nat): (p: nat)
    requires pos <= |input|
    ensures pos <= p <= |input|
    decreases n
  {
    if n == 0 then pos
    else if StartsWith(WaitText(input, pos), "INI") then WaitEnd(input, pos)
    else AwaitIni(input, WaitEnd(input, pos), n - 1)
  }

  /** The wait stops right after the first line that starts with `INI`
      when one is among its `n` reads, and after exactly `n` reads when none
      is. */
  lemma {:induction false} AwaitIniStopsAtFirst(input: string, pos: nat, n: nat, k: nat)
    requires pos <= |input| && k <= n
    requires forall i :: 0 <= i < k ==> !StartsWith(WaitText(input, WaitN(input, pos, i)), "INI")
    ensures k < n && StartsWith(WaitText(input, WaitN(input, pos, k)), "INI") ==>
      AwaitIni(input, pos, n) == WaitN(input, pos, k + 1)
    ensures k == n ==> AwaitIni(input, pos, n) == WaitN(input, pos, n)
    decreases k
  {
    if k > 0 {
      var e := WaitEnd(input, pos);
      assert !StartsWith(WaitText(input, WaitN(input, pos, 0)), "INI");
      assert AwaitIni(input, pos, n) == AwaitIni(input, e, n - 1);
      forall i | 0 <= i < k - 1
        ensures !StartsWith(WaitText(input, WaitN(input, e, i)), "INI")
      {
        assert WaitN(input, pos, i + 1) == WaitN(input, e, i);
      }
      AwaitIniStopsAtFirst(input, e, n - 1, k - 1);
    }
  }

  // ------------------------------------------------------------------ ramp

  /** Pre-sampling: up to 1000 `read_wait()` calls into the initialisation
      buffer, stopping (without appending) at a line starting with `Start`. */
  function PreSample(input: string, pos: nat, n: nat, b: Buf): (o: Outcome<Buf>)
    requires pos <= |input|
    ensures pos <= o.pos <= |input|
    decreases n
  {
    if n == 0 then Returned(b, pos)
    else
      var e := WaitEnd(input, pos);
      var line := WaitText(input, pos);
      if StartsWith(line, "Start") then Returned(b, e)
      else match Appended(b, line)
        case Err(f) => Raised(f, e)
        case Ok(b') => PreSample(input, e, n - 1, b')
  }

  /** One pre-sampling read: stop at `Start`, or append the line. */
  lemma PreSampleStep(input: string, pos: nat, n: nat, b: Buf)
    requires pos <= |input| && n > 0
    ensures var line := WaitText(input, pos);
      PreSample(input, pos, n, b) ==
        if Slice(line, 0, 5) == "Start" then Returned(b, WaitEnd(input, pos))
        else if Appended(b, line).Err? then Raised(Appended(b, line).fault, WaitEnd(input, pos))
        else PreSample(input, WaitEnd(input, pos), n - 1, Appended(b, line).value)
  {
  }

  /** Pre-sampling reads at most its `n` lines, keeps its buffer consistent,
      and, having fewer reads than free rows, can never overflow the buffer. */
  lemma {:induction false} PreSampleFits(input: string, pos: nat, n: nat, b: Buf)
    requires pos <= |input| && Consistent(b)
    ensures PreSample(input, pos, n, b).pos <= WaitN(input, pos, n)
    ensures PreSample(input, pos, n, b).Returned? ==>
      Consistent(PreSample(input, pos, n, b).value) && b.rows <= PreSample(input, pos, n, b).value.rows
    ensures |b.rows| + n <= Capacity ==> PreSample(input, pos, n, b) != Raised(RowOutOfRange, PreSample(input, pos, n, b).pos)
    decreases n
  {
    if n > 0 {
      var e := WaitEnd(input, pos);
      var line := WaitText(input, pos);
      WaitNMonotone(input, e, 0, n - 1);
      if !StartsWith(line, "Start") {
        match Appended(b, line)
        case Err(f) =>
        case Ok(b') =>
          AppendedConsistent(b, line);
          PreSampleFits(input, e, n - 1, b');
      }
    }
  }

  /** A completed pre-sampling holds exactly the rows of the data lines
      read before the `Start` line, in order, after those it started with:
      `Start` itself is never appended. */
  lemma {:induction false} PreSampleRows(input: string, pos: nat, n: nat, b: Buf)
    requires pos <= |input|
    ensures PreSample(input, pos, n, b).Returned? ==>
      PreSample(input, pos, n, b).value.rows == b.rows + DataRows(Before(WaitLines(input, pos, n), ["Start"]))
    decreases n
  {
    var lines := WaitLines(input, pos, n);
    if n > 0 {
      var e := WaitEnd(input, pos);
      var line := WaitText(input, pos);
      assert lines[0] == line && lines[1..] == WaitLines(input, e, n - 1);
      if StartsWith(line, "Start") {
        assert StartsWithAny(line, ["Start"]);
      } else {
        assert !StartsWithAny(line, ["Start"]) by {
          assert ["Start"][1..] == [];
        }
        var before := Before(lines, ["Start"]);
        assert before == [line] + Before(lines[1..], ["Start"]);
        assert before[1..] == Before(lines[1..], ["Start"]);
        match Appended(b, line)
        case Err(f) =>
        case Ok(b') =>
          PreSampleRows(input, e, n - 1, b');
          AppendedEffect(b, line);
      }
    } else {
      assert Before(lines, ["Start"]) == [];
    }
  }

  /** How a segment's read loop ended. */
  datatype End = ChangeTo | DoneLine | Exhausted

  /** One finished segment: its buffer and how its loop ended. */
  datatype Seg = Seg(buf: Buf, end: End)

  /** One segment: up to 2000 `read_wait()` calls into `b`, stopping at a
      line starting with `change to` or `Done`; neither is appended. */
  function Segment(input: string, pos: nat, n: nat, b: Buf): (o: Outcome<Seg>)
    requires pos <= |input|
    ensures pos <= o.pos <= |input|
    decreases n
  {
    if n == 0 then Returned(Seg(b, Exhausted), pos)
    else
      var e := WaitEnd(input, pos);
      var line := WaitText(input, pos);
      if StartsWith(line, "change to") then Returned(Seg(b, ChangeTo), e)
      else if StartsWith(line, "Done") then Returned(Seg(b, DoneLine), e)
      else match Appended(b, line)
        case Err(f) => Raised(f, e)
        case Ok(b') => Segment(input, e, n - 1, b')
  }

  /** One segment read: stop at `change to` or `Done`, or append the line. */
  lemma SegmentStep(input: string, pos: nat, n: nat, b: Buf)
    requires pos <= |input| && n > 0
    ensures var line := WaitText(input, pos);
      Segment(input, pos, n, b) ==
        if Slice(line, 0, 9) == "change to" then Returned(Seg(b, ChangeTo), WaitEnd(input, pos))
        else if Slice(line, 0, 4) == "Done" then Returned(Seg(b, DoneLine), WaitEnd(input, pos))
        else if Appended(b, line).Err? then Raised(Appended(b, line).fault, WaitEnd(input, pos))
        else Segment(input, WaitEnd(input, pos), n - 1, Appended(b, line).value)
  {
  }

  /** A segment reads at most its `n` lines, and all of them when no
      sentinel came; it only ever adds rows to its buffer and keeps it
      consistent. */
  lemma {:induction false} SegmentExtends(input: string, pos: nat, n: nat, b: Buf)
    requires pos <= |input| && Consistent(b)
    ensures Segment(input, pos, n, b).pos <= WaitN(input, pos, n)
    ensures Segment(input, pos, n, b).Returned? ==>
      var seg := Segment(input, pos, n, b).value;
      Consistent(seg.buf) && b.rows <= seg.buf.rows &&
      (seg.end == Exhausted ==> Segment(input, pos, n, b).pos == WaitN(input, pos, n))
    decreases n
  {
    if n > 0 {
      var e := WaitEnd(input, pos);
      var line := WaitText(input, pos);
      WaitNMonotone(input, e, 0, n - 1);
      if !StartsWith(line, "change to") && !StartsWith(line, "Done") {
        match Appended(b, line)
        case Err(f) =>
        case Ok(b') =>
          AppendedConsistent(b, line);
          SegmentExtends(input, e, n - 1, b');
      }
    }
  }

  /** A completed segment holds exactly the rows of the data lines read
      before its `change to` or `Done` line, in order, after its seed row:
      neither sentinel is ever appended. */
  lemma {:induction false} SegmentRows(input: string, pos: nat, n: nat, b: Buf)
    requires pos <= |input|
    ensures Segment(input, pos, n, b).Returned? ==>
      Segment(input, pos, n, b).value.buf.rows == b.rows + DataRows(Before(WaitLines(input, pos, n), ["change to", "Done"]))
    decreases n
  {
    var stops := ["change to", "Done"];
    var lines := WaitLines(input, pos, n);
    if n > 0 {
      var e := WaitEnd(input, pos);
      var line := WaitText(input, pos);
      assert lines[0] == line && lines[1..] == WaitLines(input, e, n - 1);
      assert stops[1..] == ["Done"] && ["Done"][1..] == [];
      if StartsWith(line, "change to") || StartsWith(line, "Done") {
        assert StartsWithAny(line, stops);
      } else {
        assert !StartsWithAny(line, stops);
        var before := Before(lines, stops);
        assert before == [line] + Before(lines[1..], stops);
        assert before[1..] == Before(lines[1..], stops);
        match Appended(b, line)
        case Err(f) =>
        case Ok(b') =>
          SegmentRows(input, e, n - 1, b');
          AppendedEffect(b, line);
      }
    } else {
      assert Before(lines, stops) == [];
    }
  }

  /** A data line with all three value fields: one that `append` turns
      into a row whenever the buffer has room. */
  predicate FullData(line: string)
  {
    IsDataLine(line) && RowOf(line).Some?
  }

  /** A segment reads up to 2000 lines into a 1000-row buffer: once the
      full data lines it reads outnumber the free rows, it raises the
      full-buffer error, which ends the whole `ramp`. */
  lemma {:induction false} SegmentOverflows(input: string, pos: nat, n: nat, b: Buf, k: nat)
    requires pos <= |input| && k <= n
    requires |b.rows| <= Capacity < |b.rows| + k
    requires forall i :: 0 <= i < k ==> FullData(WaitLines(input, pos, n)[i])
    ensures Segment(input, pos, n, b).Raised? && Segment(input, pos, n, b).fault == RowOutOfRange
    decreases n
  {
    var e := WaitEnd(input, pos);
    var line := WaitText(input, pos);
    assert FullData(WaitLines(input, pos, n)[0]);
    assert line == WaitLines(input, pos, n)[0];
    SentinelsAreNotData(line);
    if |b.rows| < Capacity {
      var b' := Appended(b, line).value;
      assert WaitLines(input, pos, n)[1..] == WaitLines(input, e, n - 1);
      SegmentOverflows(input, e, n - 1, b', k - 1);
    }
  }

  /** `range(nr + 2)` is empty when `nr + 2` is not positive. */
  function SegmentCount(nr: int): nat
  {
    if nr + 2 > 0 then nr + 2 else 0
  }

  /** The segment loop: each segment starts a fresh buffer, appends the
      previous buffer's `lastLine` to it, and runs `Segment`; a segment
      that ended on `Done` ends the loop. */
  function Segments(input: string, pos: nat, n: nat, seed: string, acc: seq<Seg>): (o: Outcome<seq<Seg>>)
    requires pos <= |input|
    ensures pos <= o.pos <= |input|
    decreases n
  {
    if n == 0 then Returned(acc, pos)
    else match Appended(Empty, seed)
      case Err(f) => Raised(f, pos)
      case Ok(b0) =>
        match Segment(input, pos, SegmentReads, b0)
        case Raised(f, p) => Raised(f, p)
        case Returned(seg, p) =>
          if seg.end == DoneLine then Returned(acc + [seg], p)
          else Segments(input, p, n - 1, seg.buf.lastLine, acc + [seg])
  }

  /** One pass of the segment loop: seed a fresh buffer, run a segment,
      and stop after a `Done` segment. */
  lemma SegmentsStep(input: string, pos: nat, n: nat, seed: string, acc: seq<Seg>)
    requires pos <= |input| && n > 0
    ensures Appended(Empty, seed).Err? ==>
      Segments(input, pos, n, seed, acc) == Raised(Appended(Empty, seed).fault, pos)
    ensures Appended(Empty, seed).Ok? ==>
      var o := Segment(input, pos, SegmentReads, Appended(Empty, seed).value);
      Segments(input, pos, n, seed, acc) ==
        if o.Raised? then Raised(o.fault, o.pos)
        else if o.value.end == DoneLine then Returned(acc + [o.value], o.pos)
        else Segments(input, o.pos, n - 1, o.value.buf.lastLine, acc + [o.value])
  {
  }

  /** The first row of `next` repeats the last row of `prev`, if `prev` has one. */
  ghost predicate Link(prev: seq<Sample>, next: seq<Sample>)
  {
    prev != [] ==> next != [] && next[0] == prev[|prev| - 1]
  }

  ghost predicate SegLink(segs: seq<Seg>, i: nat)
    requires 0 < i < |segs|
  {
    Link(segs[i - 1].buf.rows, segs[i].buf.rows)
  }

  /** The segment loop keeps what it already had, adds at most `n`
      segments, and stops short only on a segment that ended on `Done`;
      only the last segment ends so. */
  lemma {:induction false} SegmentsCount(input: string, pos: nat, n: nat, seed: string, acc: seq<Seg>)
    requires pos <= |input|
    ensures Segments(input, pos, n, seed, acc).Returned? ==>
      var segs := Segments(input, pos, n, seed, acc).value;
      && |acc| <= |segs| <= |acc| + n
      && segs[..|acc|] == acc
      && (forall i :: |acc| <= i < |segs| - 1 ==> segs[i].end != DoneLine)
      && (|segs| < |acc| + n ==> |segs| > |acc| && segs[|segs| - 1].end == DoneLine)
    decreases n
  {
    if n > 0 && Appended(Empty, seed).Ok? {
      var b0 := Appended(Empty, seed).value;
      var o1 := Segment(input, pos, SegmentReads, b0);
      if o1.Returned? && o1.value.end != DoneLine {
        var seg := o1.value;
        var acc' := acc + [seg];
        SegmentsCount(input, o1.pos, n - 1, seg.buf.lastLine, acc');
        var o := Segments(input, o1.pos, n - 1, seg.buf.lastLine, acc');
        assert Segments(input, pos, n, seed, acc) == o;
        if o.Returned? {
          var segs := o.value;
          assert segs[..|acc|] == segs[..|acc'|][..|acc|];
          assert segs[|acc|] == seg;
        }
      }
    }
  }

  /** The last buffer of a chain that starts with `first`. */
  function LastBuf(first: Buf, segs: seq<Seg>): Buf
  {
    if segs == [] then first else segs[|segs| - 1].buf
  }

  /** Every buffer is consistent, and each segment's rows start with the
      last row of the buffer before it, if that buffer has one. */
  ghost predicate Chained(first: Buf, segs: seq<Seg>)
  {
    && Consistent(first)
    && (forall i :: 0 <= i < |segs| ==> Consistent(segs[i].buf))
    && (|segs| > 0 ==> Link(first.rows, segs[0].buf.rows))
    && (forall i :: 0 < i < |segs| ==> SegLink(segs, i))
  }

  lemma ChainedSnoc(first: Buf, segs: seq<Seg>, seg: Seg)
    requires Chained(first, segs)
    requires Consistent(seg.buf) && Link(LastBuf(first, segs).rows, seg.buf.rows)
    ensures Chained(first, segs + [seg])
  {
    var segs' := segs + [seg];
    forall i | 0 < i < |segs'|
      ensures SegLink(segs', i)
    {
      if i < |segs| {
        assert SegLink(segs, i);
      }
    }
  }

  lemma LastBufConsistent(first: Buf, segs: seq<Seg>)
    requires Chained(first, segs)
    ensures Consistent(LastBuf(first, segs))
  {
    if segs != [] {
      assert Consistent(segs[|segs| - 1].buf);
    }
  }

  /** A segment seeded with the `lastLine` of a consistent buffer starts
      with that buffer's last row and ends consistent. */
  lemma SeededSegment(input: string, pos: nat, prev: Buf)
    requires pos <= |input| && Consistent(prev)
    ensures Appended(Empty, prev.lastLine).Ok?
    ensures var o := Segment(input, pos, SegmentReads, Appended(Empty, prev.lastLine).value);
      o.Returned? ==> Consistent(o.value.buf) && Link(prev.rows, o.value.buf.rows)
  {
    SeedCarriesLastRow(prev);
    var b0 := Appended(Empty, prev.lastLine).value;
    SegmentExtends(input, pos, SegmentReads, b0);
  }

  /** The segment loop keeps its chain: every buffer stays consistent, and
      each new segment is seeded with the last row of the buffer before it. */
  lemma {:induction false} SegmentsChain(input: string, pos: nat, n: nat, first: Buf, acc: seq<Seg>)
    requires pos <= |input| && Chained(first, acc)
    ensures Segments(input, pos, n, LastBuf(first, acc).lastLine, acc).Returned? ==>
      Chained(first, Segments(input, pos, n, LastBuf(first, acc).lastLine, acc).value)
    decreases n
  {
    var prev := LastBuf(first, acc);
    LastBufConsistent(first, acc);
    if n > 0 {
      SeededSegment(input, pos, prev);
      var o1 := Segment(input, pos, SegmentReads, Appended(Empty, prev.lastLine).value);
      if o1.Returned? {
        var seg := o1.value;
        ChainedSnoc(first, acc, seg);
        var acc' := acc + [seg];
        assert LastBuf(first, acc') == seg.buf;
        if seg.end != DoneLine {
          SegmentsChain(input, o1.pos, n - 1, first, acc');
        }
      }
    }
  }

  /** `ramp`, after its command is written: the acknowledgement wait, the
      pre-sampling, three `read()` calls whose lines are dropped, and the
      segment loop seeded with the initialisation buffer's `lastLine`. */
  function Ramp(input: string, pos: nat, nr: int): (o: Outcome<(seq<Seg>, Buf)>)
    requires pos <= |input|
    ensures pos <= o.pos <= |input|
  {
    var p1 := AwaitIni(input, pos, RampAckReads);
    match PreSample(input, p1, PreSampleReads, Empty)
    case Raised(f, p) => Raised(f, p)
    case Returned(ini, p2) =>
      var p3 := Poll(input, Poll(input, Poll(input, p2).1).1).1;
      match Segments(input, p3, SegmentCount(nr), ini.lastLine, [])
      case Raised(f, p) => Raised(f, p)
      case Returned(segs, p) => Returned((segs, ini), p)
  }

  /** The rows of each segment, in order: the list `ramp` returns. */
  function SegRows(segs: seq<Seg>): (rows: seq<seq<Sample>>)
    ensures |rows| == |segs|
  {
    seq(|segs|, i requires 0 <= i < |segs| => segs[i].buf.rows)
  }

  /** Each buffer of a chain starts with the last row of the one before it. */
  ghost predicate Continuous(chain: seq<seq<Sample>>)
  {
    forall i :: 0 < i < |chain| ==> LinkAt(chain, i)
  }

  ghost predicate LinkAt(chain: seq<seq<Sample>>, i: nat)
    requires 0 < i < |chain|
  {
    Link(chain[i - 1], chain[i])
  }

  /** A chain of consistent, linked buffers is continuous once listed as
      rows. */
  lemma ChainedContinuous(first: Buf, segs: seq<Seg>)
    requires Chained(first, segs)
    ensures Continuous([first.rows] + SegRows(segs))
  {
    var chain := [first.rows] + SegRows(segs);
    forall i | 0 < i < |chain|
      ensures LinkAt(chain, i)
    {
      if i == 1 {
        assert chain[1] == segs[0].buf.rows;
      } else {
        assert SegLink(segs, i - 1);
        assert chain[i - 1] == segs[i - 2].buf.rows;
        assert chain[i] == segs[i - 1].buf.rows;
      }
    }
  }

  /** A complete run of `n` segment loops after the buffer `first`: at most
      `n` segments, fewer only when the last one ended on `Done`, no earlier
      one ending so; every buffer consistent (so within capacity); and
      `first` followed by the segments forms a continuous chain. */
  ghost predicate SegmentRun(n: nat, first: Buf, segs: seq<Seg>)
  {
    && |segs| <= n
    && (|segs| < n ==> |segs| > 0 && segs[|segs| - 1].end == DoneLine)
    && (forall i :: 0 <= i < |segs| - 1 ==> segs[i].end != DoneLine)
    && Chained(first, segs)
    && Continuous([first.rows] + SegRows(segs))
  }

  /** The segment loop, started after a consistent buffer, completes a
      segment run. */
  lemma SegmentsFromStart(input: string, pos: nat, n: nat, first: Buf)
    requires pos <= |input| && Consistent(first)
    ensures Segments(input, pos, n, first.lastLine, []).Returned? ==>
      SegmentRun(n, first, Segments(input, pos, n, first.lastLine, []).value)
  {
    var none: seq<Seg> := [];
    SegmentsCount(input, pos, n, first.lastLine, none);
    assert LastBuf(first, none) == first;
    SegmentsChain(input, pos, n, first, none);
    var o := Segments(input, pos, n, first.lastLine, none);
    if o.Returned? {
      ChainedContinuous(first, o.value);
    }
  }

  /** What a completed `ramp` returns: the pre-sampling buffer, consistent,
      followed by a complete run of `nr + 2` segment loops. */
  lemma RampShape(input: string, pos: nat, nr: int)
    requires pos <= |input|
    ensures Ramp(input, pos, nr).Returned? ==>
      var (segs, ini) := Ramp(input, pos, nr).value;
      Consistent(ini) && SegmentRun(SegmentCount(nr), ini, segs)
  {
    var p1 := AwaitIni(input, pos, RampAckReads);
    PreSampleFits(input, p1, PreSampleReads, Empty);
    match PreSample(input, p1, PreSampleReads, Empty)
    case Raised(f, p) =>
    case Returned(ini, p2) =>
      var p3 := Poll(input, Poll(input, Poll(input, p2).1).1).1;
      SegmentsFromStart(input, p3, SegmentCount(nr), ini);
  }

  /** Pre-sampling inside `ramp` never overflows its buffer: it reads at
      most 1000 lines into 1000 rows. */
  lemma RampPreSampleNeverFull(input: string, pos: nat)
    requires pos <= |input|
    ensures var o := PreSample(input, AwaitIni(input, pos, RampAckReads), PreSampleReads, Empty);
      o != Raised(RowOutOfRange, o.pos)
  {
    PreSampleFits(input, AwaitIni(input, pos, RampAckReads), PreSampleReads, Empty);
  }

  /** None of the sentinels is a data line, so none is ever appended as a row. */
  lemma SentinelsAreNotData(line: string)
    ensures StartsWith(line, "INI") ==> !IsDataLine(line)
    ensures StartsWith(line, "Start") ==> !IsDataLine(line)
    ensures StartsWith(line, "change to") ==> !IsDataLine(line)
    ensures StartsWith(line, "Done") ==> !IsDataLine(line)
  {
    if IsDataLine(line) {
      StartsWithPrefix(line, "\t");
      assert line[0] == '\t';
      StartsWithPrefix(line, "INI");
      StartsWithPrefix(line, "Start");
      StartsWithPrefix(line, "change to");
      StartsWithPrefix(line, "Done");
    }
  }
}
