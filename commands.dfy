/** The outbound commands: `CELL 1`/`CELL 0`, `step ...` and `ramp ...`.
    Numeric arguments are the text Python's f-string formatting produced
    for them; the segment count of `ramp` is an integer formatted with
    `str`. */
module Commands {
  import opened PyText

  /** The command written by `cell_on` (`on`) or `cell_off`. */
  function CellCommand(on: bool): string
  {
    if on then "CELL 1\n" else "CELL 0\n"
  }

  /** `steps(t0, v0, t1, v1, t2, v2)`: the first (time, voltage) pair always,
      each further pair only when both of its members are given. */
  function StepCommand(t0: string, v0: string, t1: Option<string>, v1: Option<string>,
                       t2: Option<string>, v2: Option<string>): string
  {
    var s := "step " + t0 + " " + v0;
    var s := if v1.Some? && t1.Some? then s + " " + t1.value + " " + v1.value else s;
    var s := if v2.Some? && t2.Some? then s + " " + t2.value + " " + v2.value else s;
    s + "\n"
  }

  /** Reference definition: the words a `step` command carries, in order. */
  function StepWords(t0: string, v0: string, t1: Option<string>, v1: Option<string>,
                     t2: Option<string>, v2: Option<string>): seq<string>
  {
    ["step", t0, v0]
    + (if t1.Some? && v1.Some? then [t1.value, v1.value] else [])
    + (if t2.Some? && v2.Some? then [t2.value, v2.value] else [])
  }

  /** `ramp(start, v1, v2, rate, nr)`. */
  function RampCommand(start: string, v1: string, v2: string, rate: string, nr: int): string
  {
    "ramp " + start + " " + v1 + " " + v2 + " " + rate + " " + IntToStr(nr) + "\n"
  }

  /** A formatted argument: Python's formatting of a number never produces
      a space or a newline. */
  predicate Word(s: string)
  {
    ' ' !in s && '\n' !in s
  }

  predicate OptWord(o: Option<string>)
  {
    o.None? || Word(o.value)
  }

  lemma {:induction false} JoinSpaced(w: seq<string>, x: string)
    requires |w| >= 1
    ensures Join(w + [x], ' ') == Join(w, ' ') + " " + x
    decreases |w|
  {
    var wx := w + [x];
    assert wx[0] == w[0];
    if |w| > 1 {
      JoinSpaced(w[1..], x);
      assert wx[1..] == w[1..] + [x];
      calc {
        Join(wx, ' ');
        w[0] + [' '] + Join(w[1..] + [x], ' ');
        w[0] + [' '] + (Join(w[1..], ' ') + " " + x);
        (w[0] + [' '] + Join(w[1..], ' ')) + " " + x;
      }
    } else {
      assert wx[1..] == [x];
      assert Join(w, ' ') == w[0];
    }
  }

  lemma {:induction false} JoinPair(w: seq<string>, x: string, y: string)
    requires |w| >= 1
    ensures Join(w + [x, y], ' ') == Join(w, ' ') + " " + x + " " + y
  {
    JoinSpaced(w, x);
    JoinSpaced(w + [x], y);
    assert w + [x] + [y] == w + [x, y];
  }

  /** A `step` command is one line (its only newline is the last
      character), and splitting its text on spaces gives
      back the command word and exactly the pairs that were included, in
      order: nothing is lost or merged. */
  lemma {:induction false} StepCommandWords(t0: string, v0: string, t1: Option<string>, v1: Option<string>,
                                            t2: Option<string>, v2: Option<string>)
    requires Word(t0) && Word(v0) && OptWord(t1) && OptWord(v1) && OptWord(t2) && OptWord(v2)
    ensures var c := StepCommand(t0, v0, t1, v1, t2, v2);
      |c| > 0 && c[|c| - 1] == '\n' && '\n' !in c[..|c| - 1] &&
      Split(c[..|c| - 1], ' ') == StepWords(t0, v0, t1, v1, t2, v2)
  {
    var w0 := ["step", t0, v0];
    var s0 := "step " + t0 + " " + v0;
    JoinSpaced(["step"], t0);
    JoinSpaced(["step", t0], v0);
    assert ["step"] + [t0] == ["step", t0];
    assert ["step", t0] + [v0] == w0;
    assert Join(w0, ' ') == s0;
    var w1 := w0 + (if t1.Some? && v1.Some? then [t1.value, v1.value] else []);
    var s1 := if v1.Some? && t1.Some? then s0 + " " + t1.value + " " + v1.value else s0;
    if t1.Some? && v1.Some? {
      JoinPair(w0, t1.value, v1.value);
    } else {
      assert w1 == w0;
    }
    assert Join(w1, ' ') == s1;
    var w2 := w1 + (if t2.Some? && v2.Some? then [t2.value, v2.value] else []);
    var s2 := if v2.Some? && t2.Some? then s1 + " " + t2.value + " " + v2.value else s1;
    if t2.Some? && v2.Some? {
      JoinPair(w1, t2.value, v2.value);
    } else {
      assert w2 == w1;
    }
    assert Join(w2, ' ') == s2;
    assert w2 == StepWords(t0, v0, t1, v1, t2, v2);
    var c := StepCommand(t0, v0, t1, v1, t2, v2);
    assert c == s2 + "\n";
    assert c[..|c| - 1] == s2;
    assert forall k :: 0 <= k < |w2| ==> ' ' !in w2[k] && '\n' !in w2[k];
    SplitJoin(w2, ' ');
    JoinFree(w2, ' ', '\n');
  }

  /** A `ramp` command is one line (its only newline is the last
      character) whose space-separated words are the
      command word, the four arguments and the segment count, and the
      count reads back as the integer given. */
  lemma {:induction false} RampCommandWords(start: string, v1: string, v2: string, rate: string, nr: int)
    requires Word(start) && Word(v1) && Word(v2) && Word(rate)
    ensures var c := RampCommand(start, v1, v2, rate, nr);
      |c| > 0 && c[|c| - 1] == '\n' && '\n' !in c[..|c| - 1] &&
      Split(c[..|c| - 1], ' ') == ["ramp", start, v1, v2, rate, IntToStr(nr)] &&
      ParseInt(Split(c[..|c| - 1], ' ')[5]) == Some(nr)
  {
    var n := IntToStr(nr);
    var w := ["ramp", start, v1, v2, rate, n];
    JoinSpaced(["ramp"], start);
    JoinSpaced(["ramp", start], v1);
    JoinSpaced(["ramp", start, v1], v2);
    JoinSpaced(["ramp", start, v1, v2], rate);
    JoinSpaced(["ramp", start, v1, v2, rate], n);
    assert ["ramp"] + [start] == ["ramp", start];
    assert ["ramp", start] + [v1] == ["ramp", start, v1];
    assert ["ramp", start, v1] + [v2] == ["ramp", start, v1, v2];
    assert ["ramp", start, v1, v2] + [rate] == ["ramp", start, v1, v2, rate];
    assert ["ramp", start, v1, v2, rate] + [n] == w;
    var body := "ramp " + start + " " + v1 + " " + v2 + " " + rate + " " + n;
    assert Join(w, ' ') == body;
    var c := RampCommand(start, v1, v2, rate, nr);
    assert c == body + "\n";
    assert c[..|c| - 1] == body;
    assert ' ' !in n && '\n' !in n by {
      if nr < 0 {
        assert n == "-" + NatToStr(-nr);
      }
    }
    assert forall k :: 0 <= k < |w| ==> ' ' !in w[k] && '\n' !in w[k];
    SplitJoin(w, ' ');
    JoinFree(w, ' ', '\n');
    ParseIntToStr(nr);
  }
}
