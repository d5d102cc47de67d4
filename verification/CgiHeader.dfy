/**
  The incremental parser of CGI response headers (section 6.3 of RFC 3875). The class follows
  Header.Parse, which is fed one chunk at a time; `Scan` says what feeding means.
 */
module CgiHeader {
  import opened Results
  import opened Bytes
  import opened Sequences

  const CR: byte := 13
  const LF: byte := 10
  const COLON: byte := 58
  const BLANKS: set<byte> := {32, 9}

  datatype Field = Field(name: bytes, value: bytes)

  datatype FieldError = MissingColon | EmptyName

  function ParseField(data: bytes): (r: Result<Field, FieldError>)
  {
    match IndexOf(data, COLON)
    case None => Err(MissingColon)
    case Some(colon) =>
      if colon == 0 then Err(EmptyName)
      else Ok(Field(data[..colon], Trim(data[colon + 1..], BLANKS)))
  }

  /** What follows a line end at the front of the data; a lone CR is not one. */
  function SkipEOL(data: bytes): (rest: Option<bytes>)
    ensures rest.Some? ==> data == [10] + rest.value || data == [13, 10] + rest.value
    ensures rest.None? <==> !([10] <= data) && !([13, 10] <= data)
  {
    if data == [] then None
    else if data[0] == LF then Some(data[1..])
    else if data[0] == CR && |data| > 1 && data[1] == LF then Some(data[2..])
    else None
  }

  /** The line before a line feed at `eol`, without the CR that may end it. */
  function LineAt(data: bytes, eol: nat): (line: bytes)
    requires eol < |data|
  {
    if eol > 0 && data[eol - 1] == CR then data[..eol - 1] else data[..eol]
  }

  /** Where parsing stands: waiting with unread data, past the blank line, or refused. */
  datatype Outcome =
    | More(fields: seq<Field>, pending: bytes)
    | End(fields: seq<Field>, rest: bytes)
    | Bad(fields: seq<Field>, unread: bytes, error: FieldError)

  /** What the parser makes of data that arrives when `fields` have been read. */
  function Scan(fields: seq<Field>, data: bytes): (o: Outcome)
    decreases |data|
  {
    match SkipEOL(data)
    case Some(rest) => End(fields, rest)
    case None =>
      match IndexOf(data, LF)
      case None => More(fields, data)
      case Some(eol) =>
        match ParseField(LineAt(data, eol))
        case Err(e) => Bad(fields, data, e)
        case Ok(field) => Scan(fields + [field], data[eol + 1..])
  }

  class Header {
    var fields: seq<Field>
    var data: bytes

    constructor ()
      ensures fields == [] && data == []
    {
      fields, data := [], [];
    }

    /** Feeds one chunk: whether the header has ended, what follows it, or the error. */
    method Parse(chunk: bytes) returns (r: Result<Option<bytes>, FieldError>)
      modifies this
      ensures match Scan(old(fields), old(data) + chunk)
              case More(f, pending) => r == Ok(None) && fields == f && data == pending
              case End(f, rest) => r == Ok(Some(rest)) && fields == f && data == []
              case Bad(f, unread, e) => r == Err(e) && fields == f && data == unread
    {
      data := data + chunk;
      while |data| > 0
        invariant Scan(old(fields), old(data) + chunk) == Scan(fields, data)
        decreases |data|
      {
        var rest := SkipEOL(data);
        if rest.Some? {
          data := [];
          return Ok(rest);
        }
        var eol := IndexOf(data, LF);
        if eol.None? {
          return Ok(None);
        }
        match ParseField(LineAt(data, eol.value))
        case Err(e) =>
          return Err(e);
        case Ok(field) =>
          fields := fields + [field];
          data := data[eol.value + 1..];
      }
      return Ok(None);
    }
  }

  /** An outcome when more data follows what has been scanned. */
  function Resume(o: Outcome, more: bytes): (r: Outcome)
  {
    match o
    case More(f, pending) => Scan(f, pending + more)
    case End(f, rest) => End(f, rest + more)
    case Bad(f, unread, e) => Bad(f, unread + more, e)
  }

  /** Scanning can stop anywhere, even between CR and LF, and go on with what was left. */
  lemma {:induction false} ScanAppend(fields: seq<Field>, data: bytes, more: bytes)
    ensures Scan(fields, data + more) == Resume(Scan(fields, data), more)
    decreases |data|
  {
    if SkipEOL(data).None? && LF in data {
      var eol := IndexOf(data, LF).value;
      IndexOfAppend(data, more, LF);
      assert LineAt(data + more, eol) == LineAt(data, eol) by {
        assert (data + more)[..eol] == data[..eol];
        if eol > 0 {
          assert (data + more)[..eol - 1] == data[..eol - 1];
        }
      }
      var line := ParseField(LineAt(data, eol));
      if line.Ok? {
        assert (data + more)[eol + 1..] == data[eol + 1..] + more;
        ScanAppend(fields + [line.value], data[eol + 1..], more);
      }
    }
  }

  /** Feeds chunks until the header ends or is refused; what is not fed is left over. */
  function Feed(o: Outcome, chunks: seq<bytes>): (r: Outcome)
    decreases |chunks|
  {
    if chunks == [] then o else Feed(Resume(o, chunks[0]), chunks[1..])
  }

  lemma ResumeTwice(o: Outcome, a: bytes, b: bytes)
    ensures Resume(Resume(o, a), b) == Resume(o, a + b)
  {
    match o
    case More(f, pending) =>
      ScanAppend(f, pending + a, b);
      Associative(pending, a, b);
    case End(f, rest) =>
      Associative(rest, a, b);
    case Bad(f, unread, e) =>
      Associative(unread, a, b);
  }

  lemma {:induction false} FeedIsResume(o: Outcome, chunks: seq<bytes>)
    requires Resume(o, []) == o
    ensures Feed(o, chunks) == Resume(o, Flatten(chunks))
    decreases |chunks|
  {
    if chunks != [] {
      ResumeTwice(o, chunks[0], []);
      assert chunks[0] + [] == chunks[0];
      FeedIsResume(Resume(o, chunks[0]), chunks[1..]);
      ResumeTwice(o, chunks[0], Flatten(chunks[1..]));
    }
  }

  /** However a byte stream is cut, the fields, the verdict and the remaining body are the same. */
  lemma ChunkInvariance(chunks: seq<bytes>)
    ensures Feed(More([], []), chunks) == Scan([], Flatten(chunks))
  {
    FeedIsResume(More([], []), chunks);
    assert [] + Flatten(chunks) == Flatten(chunks);
  }

  datatype LineEnd = Bare | WithCR

  function LineEndBytes(e: LineEnd): (b: bytes)
  {
    if e.Bare? then [LF] else [CR, LF]
  }

  /** A header line as an application may write it, with blanks around the value. */
  datatype HeaderLine = HeaderLine(field: Field, before: bytes, after: bytes, end: LineEnd)

  predicate ValidLine(l: HeaderLine)
  {
    && l.field.name != [] && COLON !in l.field.name && LF !in l.field.name
    && LF !in l.field.value && Trim(l.field.value, BLANKS) == l.field.value
    && AllIn(l.before, BLANKS) && AllIn(l.after, BLANKS)
    && (l.end == Bare && l.after == [] && l.field.value != [] ==> l.field.value[|l.field.value| - 1] != CR)
  }

  function LineText(l: HeaderLine): (t: bytes)
  {
    l.field.name + [COLON] + (l.before + l.field.value + l.after)
  }

  function LineBytes(l: HeaderLine): (b: bytes)
  {
    LineText(l) + LineEndBytes(l.end)
  }

  function HeaderBytes(lines: seq<HeaderLine>, end: LineEnd): (b: bytes)
  {
    if lines == [] then LineEndBytes(end) else LineBytes(lines[0]) + HeaderBytes(lines[1..], end)
  }

  function FieldsOf(lines: seq<HeaderLine>): (fields: seq<Field>)
  {
    if lines == [] then [] else [lines[0].field] + FieldsOf(lines[1..])
  }

  lemma LineTextClean(l: HeaderLine)
    requires ValidLine(l)
    ensures LF !in LineText(l) && |LineText(l)| > 0
    ensures l.end == Bare ==> LineText(l)[|LineText(l)| - 1] != CR
  {
    var value := l.before + l.field.value + l.after;
    assert LF !in value;
    var text := l.field.name + [COLON] + value;
    if value == [] {
      assert text[|text| - 1] == COLON;
    } else {
      assert text[|text| - 1] == value[|value| - 1];
      if l.after != [] {
        assert value[|value| - 1] == l.after[|l.after| - 1];
      } else if l.field.value == [] {
        assert value[|value| - 1] == l.before[|l.before| - 1];
      }
    }
  }

  lemma LineTextField(l: HeaderLine)
    requires ValidLine(l)
    ensures ParseField(LineText(l)) == Ok(l.field)
  {
    var value := l.before + l.field.value + l.after;
    var text := l.field.name + [COLON] + value;
    assert text[..|l.field.name|] == l.field.name;
    assert forall j :: 0 <= j < |l.field.name| ==> text[j] == l.field.name[j];
    IndexOfIs(text, COLON, |l.field.name|);
    assert text[|l.field.name| + 1..] == value;
    TrimAround(l.before, l.field.value, l.after, BLANKS);
  }

  /** The first line of data that starts with a text and a line end. */
  lemma CutLine(text: bytes, end: LineEnd, rest: bytes)
    requires LF !in text && |text| > 0 && (end == Bare ==> text[|text| - 1] != CR)
    ensures var data, eol := text + LineEndBytes(end) + rest, |text + LineEndBytes(end)| - 1;
            && IndexOf(data, LF) == Some(eol) && LineAt(data, eol) == text && data[eol + 1..] == rest
            && SkipEOL(data).None?
  {
    var data, eol := text + LineEndBytes(end) + rest, |text + LineEndBytes(end)| - 1;
    assert data[..eol] == if end.Bare? then text else text + [CR];
    IndexOfIs(data, LF, eol);
    if end.WithCR? {
      assert data[..eol - 1] == text;
    }
  }

  /** A written line is read as its field, and scanning goes on behind it. */
  lemma ScanLine(fields: seq<Field>, l: HeaderLine, rest: bytes)
    requires ValidLine(l)
    ensures Scan(fields, LineBytes(l) + rest) == Scan(fields + [l.field], rest)
  {
    LineTextClean(l);
    LineTextField(l);
    CutLine(LineText(l), l.end, rest);
  }

  /** A header in any mix of line ends, with its blank line, is read as its fields and the body. */
  lemma {:induction false} ScanHeader(fields: seq<Field>, lines: seq<HeaderLine>, end: LineEnd, body: bytes)
    requires forall l <- lines :: ValidLine(l)
    ensures Scan(fields, HeaderBytes(lines, end) + body)
         == End(fields + FieldsOf(lines), body)
    decreases |lines|
  {
    if lines == [] {
      assert (HeaderBytes(lines, end) + body)[|LineEndBytes(end)|..] == body;
    } else {
      assert HeaderBytes(lines, end) + body == LineBytes(lines[0]) + (HeaderBytes(lines[1..], end) + body);
      ScanLine(fields, lines[0], HeaderBytes(lines[1..], end) + body);
      ScanHeader(fields + [lines[0].field], lines[1..], end, body);
      assert fields + [lines[0].field] + FieldsOf(lines[1..]) == fields + FieldsOf(lines);
    }
  }

  /** What makes a field: a first colon with a name in front; a line without one, or without a name, is refused. */
  lemma {:induction false} FieldMeaning(data: bytes, colon: nat)
    ensures 58 !in data <==> ParseField(data) == Err(MissingColon)
    ensures data != [] && data[0] == 58 <==> ParseField(data) == Err(EmptyName)
    ensures 0 < colon < |data| && data[colon] == 58 && 58 !in data[..colon] ==>
              ParseField(data) == Ok(Field(data[..colon], Trim(data[colon + 1..], {9, 32})))
  {
    if 0 < colon < |data| && data[colon] == 58 && 58 !in data[..colon] {
      assert forall j :: 0 <= j < colon ==> data[j] == data[..colon][j];
      IndexOfIs(data, 58, colon);
      assert BLANKS == {9, 32};
    }
  }

  lemma {:induction false} BadLineAlone(fields: seq<Field>, text: bytes, end: LineEnd, rest: bytes)
    requires LF !in text && |text| > 0 && (end == Bare ==> text[|text| - 1] != CR) && ParseField(text).Err?
    ensures var bad := text + LineEndBytes(end) + rest;
            Scan(fields, bad) == Bad(fields, bad, ParseField(text).error)
  {
    CutLine(text, end, rest);
  }

  /** A line that is no field stops the header, behind the fields in front of it, with its error. */
  lemma {:induction false} BadLineStops(
    fields: seq<Field>, lines: seq<HeaderLine>, text: bytes, end: LineEnd, rest: bytes)
    requires forall l <- lines :: ValidLine(l)
    requires LF !in text && |text| > 0 && (end == Bare ==> text[|text| - 1] != CR) && ParseField(text).Err?
    ensures var bad := text + LineEndBytes(end) + rest;
            Scan(fields, LinesBytes(lines) + bad) == Bad(fields + FieldsOf(lines), bad, ParseField(text).error)
    decreases |lines|
  {
    var bad := text + LineEndBytes(end) + rest;
    if lines == [] {
      assert LinesBytes(lines) + bad == bad && fields + FieldsOf(lines) == fields;
      BadLineAlone(fields, text, end, rest);
    } else {
      var more := LinesBytes(lines[1..]) + bad;
      LinesSplit(fields, lines, bad);
      ScanLine(fields, lines[0], more);
      BadLineStops(fields + [lines[0].field], lines[1..], text, end, rest);
    }
  }

  lemma {:induction false} LinesSplit(fields: seq<Field>, lines: seq<HeaderLine>, rest: bytes)
    requires lines != []
    ensures LinesBytes(lines) + rest == LineBytes(lines[0]) + (LinesBytes(lines[1..]) + rest)
    ensures fields + [lines[0].field] + FieldsOf(lines[1..]) == fields + FieldsOf(lines)
  {
    Associative(LineBytes(lines[0]), LinesBytes(lines[1..]), rest);
    Associative(fields, [lines[0].field], FieldsOf(lines[1..]));
  }

  function LinesBytes(lines: seq<HeaderLine>): (b: bytes)
  {
    if lines == [] then [] else LineBytes(lines[0]) + LinesBytes(lines[1..])
  }
}
