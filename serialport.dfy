/** The serial link as the driver sees it.  Everything the device sends
    during a session is a scripted character stream `input`; `pos` is how
    much of it has been read, so "bytes are waiting" means `pos < |input|`,
    and a read that reaches the end of the stream is a read that timed out.
    Everything written to the device is logged in `written`. */
module SerialPort {

  /** Where `readline(size)` stops when it starts at `pos`: just after the
      first newline, after `size` characters when `size` is non-negative,
      or at the end of what has arrived (the read timed out). */
  function LineEnd(input: string, pos: nat, size: int): (e: nat)
    requires pos <= |input|
    ensures pos <= e <= |input|
    decreases |input| - pos
  {
    if pos == |input| || size == 0 then pos
    else if input[pos] == '\n' then pos + 1
    else LineEnd(input, pos + 1, if size < 0 then size else size - 1)
  }

  /** A line read by `readline(size)` holds no newline except as its last
      character, and it ends at a newline, at the length limit, or where
      the arrived data ends; it is never empty while data is waiting. */
  lemma {:induction false} LineEndSpec(input: string, pos: nat, size: int)
    requires pos <= |input|
    ensures var e := LineEnd(input, pos, size);
      && (forall k :: pos <= k < e - 1 ==> input[k] != '\n')
      && (e == |input| || (e > pos && input[e - 1] == '\n') || (size >= 0 && e - pos == size))
      && (size >= 0 ==> e - pos <= size)
      && (pos < |input| && size != 0 ==> pos < e)
    decreases |input| - pos
  {
    if pos < |input| && size != 0 && input[pos] != '\n' {
      LineEndSpec(input, pos + 1, if size < 0 then size else size - 1);
    }
  }

  class Port {
    const input: string
    var pos: nat
    var written: seq<string>
    var isOpen: bool

    ghost predicate Valid()
      reads this
    {
      pos <= |input|
    }

    /** A closed port to a device that will send `input`. */
    constructor (input: string)
      ensures Valid() && this.input == input
      ensures pos == 0 && written == [] && !isOpen
    {
      this.input := input;
      pos := 0;
      written := [];
      isOpen := false;
    }

    method Open()
      modifies this`isOpen
      ensures isOpen
    {
      isOpen := true;
    }

    method Close()
      modifies this`isOpen
      ensures !isOpen
    {
      isOpen := false;
    }

    /** `in_waiting`: the number of bytes that have arrived and are unread. */
    method InWaiting() returns (n: nat)
      requires Valid() && isOpen
      ensures n == |input| - pos
      ensures n > 0 <==> pos < |input|
    {
      n := |input| - pos;
    }

    /** `readline(size)`; `size < 0` reads without a length limit. */
    method ReadLine(size: int) returns (line: string)
      requires Valid() && isOpen
      modifies this`pos
      ensures Valid()
      ensures pos == LineEnd(input, old(pos), size)
      ensures line == input[old(pos)..pos]
    {
      var e := LineEnd(input, pos, size);
      line := input[pos..e];
      pos := e;
    }

    /** `write(data)`. */
    method Write(data: string)
      requires isOpen
      modifies this`written
      ensures written == old(written) + [data]
    {
      written := written + [data];
    }
  }
}
