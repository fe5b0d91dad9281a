/** The status parser: `ECipot.info` recognises three fixed-prefix,
    fixed-width status tags and updates the session fields. */
module Status {
  import opened PyText

  /** The session fields of `ECipot`: `cell`, `cmode`, `IE` and `ini`. */
  datatype Session = Session(cell: int, cmode: int, ie: int, ini: int)

  /** What the source's `info(sline)` does to the session.  The prefixes are
      compared with `str` literals, so a `bytes` line never matches. */
  function Info(s: Session, line: Text): Result<Session>
  {
    if SliceText(line, 0, 4) == Str("CELL") then
      var f := Slice(line.chars, 4, 6);
      match ParseInt(f)
      case Some(n) => Ok(s.(cell := n))
      case None => Err(BadInt(f))
    else if SliceText(line, 0, 5) == Str("CMODE") then
      var f := Slice(line.chars, 5, 7);
      match ParseInt(f)
      case Some(n) => Ok(s.(cmode := n))
      case None => Err(BadInt(f))
    else if SliceText(line, 0, 2) == Str("IE") then
      var f := Slice(line.chars, 2, 5);
      match ParseInt(f)
      case Some(n) => Ok(s.(ie := n))
      case None => Err(BadInt(f))
    else Ok(s)
  }

  /** Which of the three tags a line carries, if any, in the order `info`
      tests them. */
  datatype Tag = CellTag | CModeTag | IETag | NoTag

  function TagOf(line: Text): (t: Tag)
    ensures line.Bytes? ==> t == NoTag
    ensures t == CellTag <==> line.Str? && StartsWith(line.chars, "CELL")
    ensures t == CModeTag <==> line.Str? && !StartsWith(line.chars, "CELL") && StartsWith(line.chars, "CMODE")
    ensures t == IETag <==> line.Str? && !StartsWith(line.chars, "CELL") && !StartsWith(line.chars, "CMODE") && StartsWith(line.chars, "IE")
  {
    if line.Bytes? then NoTag
    else if StartsWith(line.chars, "CELL") then CellTag
    else if StartsWith(line.chars, "CMODE") then CModeTag
    else if StartsWith(line.chars, "IE") then IETag
    else NoTag
  }

  /** The value field of a tagged line: characters 4-5 after `CELL`, 5-6
      after `CMODE`, 2-4 after `IE`. */
  function Field(line: Text, t: Tag): string
  {
    match t
    case CellTag => Slice(line.chars, 4, 6)
    case CModeTag => Slice(line.chars, 5, 7)
    case IETag => Slice(line.chars, 2, 5)
    case NoTag => []
  }

  /** `info` changes exactly the field its tag names, to the integer in the
      tag's fixed-width field; it raises a ValueError, changing nothing, when
      that field is not an integer; a line without a tag, and every `bytes`
      line, changes nothing. */
  lemma InfoUpdatesTaggedField(s: Session, line: Text)
    ensures var r := Info(s, line);
      match TagOf(line)
      case NoTag => r == Ok(s)
      case CellTag =>
        (ParseInt(Field(line, CellTag)).Some? ==> r == Ok(s.(cell := ParseInt(Field(line, CellTag)).value))) &&
        (ParseInt(Field(line, CellTag)).None? ==> r == Err(BadInt(Field(line, CellTag))))
      case CModeTag =>
        (ParseInt(Field(line, CModeTag)).Some? ==> r == Ok(s.(cmode := ParseInt(Field(line, CModeTag)).value))) &&
        (ParseInt(Field(line, CModeTag)).None? ==> r == Err(BadInt(Field(line, CModeTag))))
      case IETag =>
        (ParseInt(Field(line, IETag)).Some? ==> r == Ok(s.(ie := ParseInt(Field(line, IETag)).value))) &&
        (ParseInt(Field(line, IETag)).None? ==> r == Err(BadInt(Field(line, IETag))))
  {
    StartsWithPrefix(line.chars, "CELL");
    StartsWithPrefix(line.chars, "CMODE");
    StartsWithPrefix(line.chars, "IE");
  }

  /** `info` never touches `ini`, and a successful call leaves every field
      other than the tagged one as it was. */
  lemma InfoFrame(s: Session, line: Text)
    ensures Info(s, line).Ok? ==> Info(s, line).value.ini == s.ini
    ensures Info(s, line).Ok? && TagOf(line) != CellTag ==> Info(s, line).value.cell == s.cell
    ensures Info(s, line).Ok? && TagOf(line) != CModeTag ==> Info(s, line).value.cmode == s.cmode
    ensures Info(s, line).Ok? && TagOf(line) != IETag ==> Info(s, line).value.ie == s.ie
  {
    InfoUpdatesTaggedField(s, line);
  }

  /** A status line as a `bytes` value (how `read()` hands it over) is never
      recognised. */
  lemma InfoIgnoresBytes(s: Session, raw: string)
    ensures Info(s, Bytes(raw)) == Ok(s)
  {
  }

  /** `int(" d")` is `d` for a single digit. */
  lemma ParsePaddedDigit(d: nat)
    requires d < 10
    ensures ParseInt([' ', DigitChar(d)]) == Some(d)
  {
    var c := DigitChar(d);
    var s := [' ', c];
    assert RStrip(s) == s;
    assert s[1..] == [c];
    assert LStrip([c]) == [c];
    assert Strip(s) == [c];
    assert Grouped([c]);
    assert [c][..0] == [];
    assert DigitsValue([c]) == 10 * DigitsValue([]) + (c as int - '0' as int);
  }

  /** A decoded, stripped `CELL 1` status line sets `cell` to 1 and a
      `CMODE 2` line sets `cmode` to 2. */
  lemma InfoExamples(s: Session)
    ensures Info(s, Str("CELL 1")) == Ok(s.(cell := 1))
    ensures Info(s, Str("CMODE 2")) == Ok(s.(cmode := 2))
  {
    assert Slice("CELL 1", 4, 6) == [' ', DigitChar(1)];
    ParsePaddedDigit(1);
    assert Slice("CMODE 2", 0, 4) == "CMOD" != "CELL";
    assert Slice("CMODE 2", 0, 5) == "CMODE";
    assert Slice("CMODE 2", 5, 7) == [' ', DigitChar(2)];
    ParsePaddedDigit(2);
  }
}
