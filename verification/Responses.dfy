/**
  Reading a FastCGI response (sections 5.5 and 6.2 of FastCGI 1.0): `Receiver` follows
  Connection.readResponse. What the loop does to each record is `Step`; the theorems say what whole
  record sequences produce, however the application splits, interleaves and pads them.
 */
module Responses {
  import opened Results
  import opened Bytes
  import opened Sequences
  import opened NameValue
  import opened Records
  import opened CgiHeader
  import opened SpillBuffers

  datatype ResponseError =
    | ReadFailed(cause: ReadError)
    | UnsupportedRecordType(code: byte)
    | ServerOverloaded
    | UnknownRequestRole
    | ApplicationFailed(status: uint32, output: bytes)
    | NoResponse
    | HeaderNotParsable(fieldError: FieldError)
    | StdoutFull
    | UnhandledRecord(recordType: RecordType)

  /** What the loop has gathered so far; `values` belongs to the connection. */
  datatype Progress = Progress(
    fields: seq<Field>, pending: bytes, headerRead: bool,
    stdout: bytes, stderr: bytes, values: seq<Pair>)

  datatype StepResult =
    | Continue(state: Progress)
    | Finished(state: Progress)
    | Failed(state: Progress, error: ResponseError)

  /** Writing to a body buffer that holds at most `capacity` bytes. */
  function WriteBody(p: Progress, body: bytes, capacity: int): (r: StepResult)
  {
    var (stdout, result) := PlainWrite(p.stdout, body, capacity);
    if result.err.Some? then Failed(p, StdoutFull) else Continue(p.(stdout := stdout))
  }

  function EndOfRequest(p: Progress, appStatus: uint32, status: ProtocolStatus): (r: StepResult)
  {
    if status == CannotMultiplexConnection || status == Overloaded then Failed(p, ServerOverloaded)
    else if status == UnknownRole then Failed(p, UnknownRequestRole)
    else if appStatus != 0 then Failed(p, ApplicationFailed(appStatus, p.stderr))
    else if !p.headerRead then Failed(p, NoResponse)
    else Finished(p)
  }

  /**
    One turn of the loop. While the header is not complete, a STDOUT body is parsed as header data
    and then written to stdout as well.
   */
  function Step(p: Progress, r: Record, capacity: int): (s: StepResult)
  {
    match r.body
    case GetValuesResultBody(pairs) => Continue(p.(values := pairs))
    case UnknownTypeBody(code) => Failed(p, UnsupportedRecordType(code))
    case EndRequestBody(appStatus, status) => EndOfRequest(p, appStatus, status)
    case Raw(data) =>
      if r.recordType.Stdout? then
        if p.headerRead then WriteBody(p, data, capacity)
        else (match Scan(p.fields, p.pending + data)
              case Bad(f, unread, e) => Failed(p.(fields := f, pending := unread), HeaderNotParsable(e))
              case More(f, pending) => WriteBody(p.(fields := f, pending := pending), data, capacity)
              case End(f, rest) => WriteBody(p.(fields := f, pending := [], headerRead := true), rest, capacity))
      else if r.recordType.Stderr? then Continue(p.(stderr := p.stderr + data))
      else Failed(p, UnhandledRecord(r.recordType))
    case _ => Failed(p, UnhandledRecord(r.recordType))
  }

  /** The whole loop over the bytes of a connection, and what it leaves unread. */
  function Respond(p: Progress, input: bytes, capacity: int): (r: (StepResult, bytes))
    decreases |input|
  {
    match ReadRecord(input)
    case Err(e) => (Failed(p, ReadFailed(e)), input)
    case Ok((record, rest)) =>
      match Step(p, record, capacity)
      case Continue(next) => Respond(next, rest, capacity)
      case stop => (stop, rest)
  }

  method WriteStdout(stdout: SpillBuffer, body: bytes) returns (ok: bool)
    requires Sound(stdout.View())
    modifies stdout
    ensures Sound(stdout.View())
    ensures ok <==> |old(Content(stdout.View()))| + |body| <= stdout.maxBufferSize
    ensures Content(stdout.View()) == if ok then old(Content(stdout.View())) + body else old(Content(stdout.View()))
  {
    WriteIsPlain(stdout.View(), body, WORKING);
    var written := stdout.Write(body, WORKING);
    ok := written.err.None?;
  }

  /** A STDOUT record: header data until the header has ended, and written in any case. */
  method TakeStdout(
    header: Header, headerRead: bool, record: Record, stdout: SpillBuffer, ghost stderr: bytes, ghost values: seq<Pair>)
    returns (nowRead: bool, err: Option<ResponseError>)
    requires record.body.Raw? && record.recordType.Stdout?
    requires Sound(stdout.View()) && (headerRead ==> header.data == [])
    modifies header, stdout
    ensures Sound(stdout.View()) && (nowRead ==> header.data == [])
    ensures var p := Progress(old(header.fields), old(header.data), headerRead, old(Content(stdout.View())), stderr, values);
            var q := Progress(header.fields, header.data, nowRead, Content(stdout.View()), stderr, values);
            Step(p, record, stdout.maxBufferSize) == if err.Some? then Failed(q, err.value) else Continue(q)
  {
    var body := record.body.data;
    nowRead, err := headerRead, None;
    if !headerRead {
      var parsed := header.Parse(body);
      if parsed.Err? {
        err := Some(HeaderNotParsable(parsed.error));
        return;
      }
      if parsed.value.Some? {
        nowRead, body := true, parsed.value.value;
      }
    }
    var ok := WriteStdout(stdout, body);
    if !ok {
      err := Some(StdoutFull);
    }
  }

  /** An END_REQUEST record: the statuses are looked at before the header. */
  method TakeEnd(appStatus: uint32, status: ProtocolStatus, headerRead: bool, stderr: bytes, ghost p: Progress)
    returns (err: Option<ResponseError>)
    requires p.headerRead == headerRead && p.stderr == stderr
    ensures EndOfRequest(p, appStatus, status) == if err.Some? then Failed(p, err.value) else Finished(p)
    ensures err.None? <==> status.RequestComplete? && appStatus == 0 && headerRead
    ensures err == Some(ServerOverloaded) <==> status.CannotMultiplexConnection? || status.Overloaded?
    ensures err == Some(UnknownRequestRole) <==> status.UnknownRole?
    ensures err == Some(ApplicationFailed(appStatus, stderr)) <==> status.RequestComplete? && appStatus != 0
    ensures err == Some(NoResponse) <==> status.RequestComplete? && appStatus == 0 && !headerRead
  {
    if status == CannotMultiplexConnection || status == Overloaded {
      return Some(ServerOverloaded);
    } else if status == UnknownRole {
      return Some(UnknownRequestRole);
    } else if appStatus != 0 {
      return Some(ApplicationFailed(appStatus, stderr));
    } else if !headerRead {
      return Some(NoResponse);
    }
    return None;
  }

  class ErrorBuffer {
    var content: bytes

    constructor ()
      ensures content == []
    {
      content := [];
    }
  }

  /** The receiving side of a connection. */
  class Receiver {
    var incoming: bytes
    var values: seq<Pair>

    constructor (incoming: bytes)
      ensures this.incoming == incoming && values == []
    {
      this.incoming, values := incoming, [];
    }

    ghost function View(header: Header, headerRead: bool, stdout: SpillBuffer, stderr: ErrorBuffer): (p: Progress)
      reads this, header, stdout, stderr
    {
      Progress(header.fields, header.data, headerRead, Content(stdout.View()), stderr.content, values)
    }

    /** The body goes to a spill buffer on a working file system. */
    method ReadResponse(stdout: SpillBuffer, stderr: ErrorBuffer) returns (res: Result<Header, ResponseError>)
      requires Sound(stdout.View())
      modifies this, stdout, stderr
      ensures Sound(stdout.View())
      ensures var start := Progress([], [], false, old(Content(stdout.View())), old(stderr.content), old(values));
              var end := Respond(start, old(incoming), stdout.maxBufferSize);
              && (end.0.Finished? <==> res.Ok?)
              && (res.Ok? ==> res.value.fields == end.0.state.fields)
              && (res.Err? ==> end.0 == Failed(end.0.state, res.error))
              && Content(stdout.View()) == end.0.state.stdout && stderr.content == end.0.state.stderr
              && values == end.0.state.values
              && incoming == end.1
    {
      var header := new Header();
      var headerRead := false;
      ghost var start := View(header, headerRead, stdout, stderr);
      while true
        invariant fresh(header)
        invariant Sound(stdout.View())
        invariant Respond(start, old(incoming), stdout.maxBufferSize)
               == Respond(View(header, headerRead, stdout, stderr), incoming, stdout.maxBufferSize)
        invariant headerRead ==> header.data == []
        decreases |incoming|
      {
        var read := ReadRecord(incoming);
        if read.Err? {
          return Err(ReadFailed(read.error));
        }
        var (record, rest) := read.value;
        incoming := rest;
        match record.body
        case GetValuesResultBody(pairs) =>
          values := pairs;
        case UnknownTypeBody(code) =>
          return Err(UnsupportedRecordType(code));
        case EndRequestBody(appStatus, status) =>
          var err := TakeEnd(appStatus, status, headerRead, stderr.content, View(header, headerRead, stdout, stderr));
          return if err.Some? then Err(err.value) else Ok(header);
        case Raw(data) =>
          if record.recordType.Stdout? {
            var err;
            headerRead, err := TakeStdout(header, headerRead, record, stdout, stderr.content, values);
            if err.Some? {
              return Err(err.value);
            }
          } else if record.recordType.Stderr? {
            stderr.content := stderr.content + data;
          } else {
            return Err(UnhandledRecord(record.recordType));
          }
        case _ =>
          return Err(UnhandledRecord(record.recordType));
      }
    }
  }

  /** The loop over records instead of bytes; it continues when the records run out. */
  function Run(p: Progress, rs: seq<Record>, capacity: int): (r: StepResult)
    decreases |rs|
  {
    if rs == [] then Continue(p)
    else match Step(p, rs[0], capacity)
      case Continue(next) => Run(next, rs[1..], capacity)
      case stop => stop
  }

  /** Padding and framing make no difference to the loop. */
  lemma {:induction false} RespondToFrames(p: Progress, frames: seq<Frame>, tail: bytes, capacity: int)
    requires forall f <- frames :: ValidFrame(f)
    ensures var r := Run(p, FrameRecords(frames), capacity);
            && (r.Continue? ==> Respond(p, WireBytes(frames) + tail, capacity) == Respond(r.state, tail, capacity))
            && (!r.Continue? ==> Respond(p, WireBytes(frames) + tail, capacity).0 == r)
    decreases |frames|
  {
    if frames == [] {
      assert WireBytes(frames) + tail == tail;
    } else {
      var rest := WireBytes(frames[1..]) + tail;
      Associative(FrameBytes(frames[0]), WireBytes(frames[1..]), tail);
      ReadFrame(frames[0], rest);
      var rs := FrameRecords(frames);
      assert rs[1..] == FrameRecords(frames[1..]);
      var s := Step(p, rs[0], capacity);
      if s.Continue? {
        RespondToFrames(s.state, frames[1..], tail, capacity);
      }
    }
  }

  /** The records that may come before the end of a request. */
  predicate Payload(r: Record)
  {
    || (r.body.Raw? && (r.recordType.Stdout? || r.recordType.Stderr?))
    || (r.body.GetValuesResultBody? && r.recordType.GetValuesResult?)
  }

  function StdoutChunks(rs: seq<Record>): (chunks: seq<bytes>)
  {
    if rs == [] then []
    else (if rs[0].body.Raw? && rs[0].recordType.Stdout? then [rs[0].body.data] else []) + StdoutChunks(rs[1..])
  }

  function StderrBytes(rs: seq<Record>): (b: bytes)
  {
    if rs == [] then []
    else (if rs[0].body.Raw? && rs[0].recordType.Stderr? then rs[0].body.data else []) + StderrBytes(rs[1..])
  }

  function LastValues(values: seq<Pair>, rs: seq<Record>): (v: seq<Pair>)
    decreases |rs|
  {
    if rs == [] then values
    else LastValues(if rs[0].body.GetValuesResultBody? then rs[0].body.pairs else values, rs[1..])
  }

  /** The header parser's view of the loop: past the header, all data is body. */
  function HeaderState(p: Progress): (o: Outcome)
  {
    if p.headerRead then End(p.fields, []) else More(p.fields, p.pending)
  }

  /** The STDOUT bodies that end up on stdout although they are header data. */
  function Leak(o: Outcome, chunks: seq<bytes>): (b: bytes)
    decreases |chunks|
  {
    if chunks == [] || !o.More? then []
    else
      var next := Resume(o, chunks[0]);
      if next.More? then chunks[0] + Leak(next, chunks[1..]) else []
  }

  function BodyOf(o: Outcome): (b: bytes)
  {
    if o.End? then o.rest else []
  }

  /** What payload records write to stdout: the leaked header records, then the body. */
  function Written(o: Outcome, chunks: seq<bytes>): (b: bytes)
  {
    Leak(o, chunks) + BodyOf(Resume(o, Flatten(chunks)))
  }

  /** The bytes one STDOUT record writes itself, when the parser goes from `o` to `next` on it. */
  function Own(next: Outcome, chunk: bytes): (b: bytes)
  {
    if next.End? then next.rest else chunk
  }

  /** The parser's view once a record has been written. */
  function After(next: Outcome): (o: Outcome)
  {
    if next.End? then End(next.fields, []) else next
  }

  /** One STDOUT record first: what it writes itself, then what the rest writes. */
  lemma {:induction false} WrittenFirst(o: Outcome, chunk: bytes, chunks: seq<bytes>)
    requires !o.Bad? && (o.End? ==> o.rest == []) && !Resume(o, chunk).Bad?
    ensures var next := Resume(o, chunk);
            var whole, later := Resume(o, Flatten([chunk] + chunks)), Resume(After(next), Flatten(chunks));
            && Written(o, [chunk] + chunks) == Own(next, chunk) + Written(After(next), chunks)
            && (next.More? ==> whole == later)
            && (next.End? ==> whole.End? && later.End? && whole.fields == later.fields)
  {
    var next := Resume(o, chunk);
    assert ([chunk] + chunks)[1..] == chunks;
    ResumeTwice(o, chunk, Flatten(chunks));
    if next.More? {
      Associative(chunk, Leak(next, chunks), BodyOf(Resume(next, Flatten(chunks))));
    } else {
      assert Leak(o, [chunk] + chunks) == [];
      assert [] + (next.rest + Flatten(chunks)) == next.rest + ([] + ([] + Flatten(chunks)));
    }
  }

  /** A record on which the header goes bad writes nothing, and keeps its error. */
  lemma BadFirst(o: Outcome, chunk: bytes, chunks: seq<bytes>)
    requires Resume(o, chunk).Bad?
    ensures Written(o, [chunk] + chunks) == []
    ensures var whole := Resume(o, Flatten([chunk] + chunks)); whole.Bad? && whole.error == Resume(o, chunk).error
  {
    assert ([chunk] + chunks)[1..] == chunks;
    ResumeTwice(o, chunk, Flatten(chunks));
  }

  /** The loop's invariant while payload records come in. */
  ghost predicate Ready(p: Progress, capacity: int)
  {
    && |p.stdout| <= capacity
    && (p.headerRead ==> p.pending == [])
    && Resume(HeaderState(p), []) == HeaderState(p)
  }

  /** The parser's fields after a STDOUT record. */
  function Parsed(p: Progress, next: Outcome): (q: Progress)
    requires !next.Bad?
  {
    p.(fields := next.fields, pending := if next.More? then next.pending else [], headerRead := next.End?)
  }

  lemma {:induction false} StdoutStepIs(p: Progress, r: Record, capacity: int)
    requires r.body.Raw? && r.recordType.Stdout? && (p.headerRead ==> p.pending == [])
    ensures var next := Resume(HeaderState(p), r.body.data);
            Step(p, r, capacity) ==
            if next.Bad? then Failed(p.(fields := next.fields, pending := next.unread), HeaderNotParsable(next.error))
            else WriteBody(Parsed(p, next), Own(next, r.body.data), capacity)
  {
    if p.headerRead {
      BodyStepIs(p, r.body.data);
    }
  }

  lemma {:induction false} BodyStepIs(p: Progress, data: bytes)
    requires p.headerRead && p.pending == []
    ensures Resume(HeaderState(p), data) == End(p.fields, data) && Parsed(p, End(p.fields, data)) == p
  {
    assert [] + data == data;
  }

  lemma {:induction false} StdoutStep(p: Progress, r: Record, capacity: int)
    requires Ready(p, capacity) && r.body.Raw? && r.recordType.Stdout?
    ensures var next := Resume(HeaderState(p), r.body.data);
            var own := Own(next, r.body.data);
            var s := Step(p, r, capacity);
            && (next.Bad? ==> s.Failed? && s.error == HeaderNotParsable(next.error) && s.state.stdout == p.stdout)
            && (!next.Bad? && |p.stdout| + |own| > capacity ==> s.Failed? && s.error == StdoutFull)
            && (!next.Bad? && |p.stdout| + |own| <= capacity ==>
                  && s.Continue? && Ready(s.state, capacity) && HeaderState(s.state) == After(next)
                  && s.state.stdout == p.stdout + own
                  && s.state.stderr == p.stderr && s.state.values == p.values)
  {
    var data := r.body.data;
    StdoutStepIs(p, r, capacity);
    assert data + [] == data;
    ResumeTwice(HeaderState(p), data, []);
  }

  /** What a run over payload records amounts to. */
  function PayloadResult(p: Progress, rs: seq<Record>): (q: Progress)
  {
    var chunks := StdoutChunks(rs);
    var o := Resume(HeaderState(p), Flatten(chunks));
    Progress(o.fields, if o.More? then o.pending else [], o.End?, p.stdout + Written(HeaderState(p), chunks),
             p.stderr + StderrBytes(rs), LastValues(p.values, rs))
  }

  /**
    Payload records in any order: the header is the one that the STDOUT concatenation holds, stdout
    gets exactly `Written`, stderr the STDERR concatenation. The loop stops only on a header that
    cannot be parsed or on a full stdout, whichever comes first.
   */
  lemma {:induction false} RunPayload(p: Progress, rs: seq<Record>, capacity: int)
    requires forall r <- rs :: Payload(r)
    requires Ready(p, capacity)
    ensures var o := Resume(HeaderState(p), Flatten(StdoutChunks(rs)));
            var q, r := PayloadResult(p, rs), Run(p, rs, capacity);
            && (|q.stdout| > capacity ==> r.Failed? && r.error == StdoutFull)
            && (|q.stdout| <= capacity && o.Bad? ==>
                  r.Failed? && r.error == HeaderNotParsable(o.error) && r.state.stdout == q.stdout)
            && (|q.stdout| <= capacity && !o.Bad? ==> r == Continue(q))
    decreases |rs|
  {
    if rs == [] {
      assert p.stdout + ([] + []) == p.stdout && p.stderr + [] == p.stderr;
    } else if rs[0].body.Raw? && rs[0].recordType.Stdout? {
      RunStdoutFirst(p, rs, capacity);
    } else {
      OtherStep(p, rs, capacity);
      RunPayload(Step(p, rs[0], capacity).state, rs[1..], capacity);
    }
  }

  /** STDERR and values records leave the header and stdout alone. */
  lemma OtherStep(p: Progress, rs: seq<Record>, capacity: int)
    requires Ready(p, capacity)
    requires rs != [] && Payload(rs[0]) && !rs[0].recordType.Stdout?
    ensures var s := Step(p, rs[0], capacity);
            && s.Continue? && Ready(s.state, capacity) && HeaderState(s.state) == HeaderState(p)
            && PayloadResult(s.state, rs[1..]) == PayloadResult(p, rs)
            && StdoutChunks(rs) == StdoutChunks(rs[1..])
  {
    OtherGathered(p.stderr, p.values, rs);
    OtherStepIs(p, rs[0], capacity);
  }

  lemma OtherStepIs(p: Progress, r: Record, capacity: int)
    requires Payload(r) && !r.recordType.Stdout?
    ensures var data := if r.body.Raw? then r.body.data else [];
            Step(p, r, capacity)
            == Continue(p.(stderr := p.stderr + data, values := if r.body.Raw? then p.values else r.body.pairs))
  {
    assert p.stderr + [] == p.stderr;
  }

  lemma OtherGathered(stderr: bytes, values: seq<Pair>, rs: seq<Record>)
    requires rs != [] && Payload(rs[0]) && !rs[0].recordType.Stdout?
    ensures StdoutChunks(rs) == StdoutChunks(rs[1..])
    ensures var data := if rs[0].body.Raw? then rs[0].body.data else [];
            stderr + StderrBytes(rs) == (stderr + data) + StderrBytes(rs[1..])
    ensures LastValues(values, rs)
         == LastValues(if rs[0].body.Raw? then values else rs[0].body.pairs, rs[1..])
  {
    assert [] + StdoutChunks(rs[1..]) == StdoutChunks(rs[1..]);
    var data := if rs[0].body.Raw? then rs[0].body.data else [];
    Associative(stderr, data, StderrBytes(rs[1..]));
  }

  lemma {:induction false} RunStdoutFirst(p: Progress, rs: seq<Record>, capacity: int)
    requires forall r <- rs :: Payload(r)
    requires Ready(p, capacity)
    requires rs != [] && rs[0].body.Raw? && rs[0].recordType.Stdout?
    ensures var o := Resume(HeaderState(p), Flatten(StdoutChunks(rs)));
            var q, r := PayloadResult(p, rs), Run(p, rs, capacity);
            && (|q.stdout| > capacity ==> r.Failed? && r.error == StdoutFull)
            && (|q.stdout| <= capacity && o.Bad? ==>
                  r.Failed? && r.error == HeaderNotParsable(o.error) && r.state.stdout == q.stdout)
            && (|q.stdout| <= capacity && !o.Bad? ==> r == Continue(q))
    decreases |rs|, 0
  {
    var data, chunks := rs[0].body.data, StdoutChunks(rs[1..]);
    var o := HeaderState(p);
    var next := Resume(o, data);
    StdoutStep(p, rs[0], capacity);
    assert [] + StderrBytes(rs[1..]) == StderrBytes(rs[1..]);
    assert StdoutChunks(rs) == [data] + chunks;
    if next.Bad? {
      BadFirst(o, data, chunks);
      assert p.stdout + [] == p.stdout;
    } else {
      WrittenFirst(o, data, chunks);
      Associative(p.stdout, Own(next, data), Written(After(next), chunks));
      var s := Step(p, rs[0], capacity);
      if s.Continue? {
        RunPayload(s.state, rs[1..], capacity);
      }
    }
  }

  /** Whether the first STDOUT record that is not empty holds the whole header. */
  predicate HeaderInFirst(chunks: seq<bytes>)
    decreases |chunks|
  {
    chunks != [] && (if chunks[0] == [] then HeaderInFirst(chunks[1..]) else Scan([], chunks[0]).End?)
  }

  /** Nothing leaks exactly when the header comes in one record. */
  lemma {:induction false} LeakFreedom(chunks: seq<bytes>)
    requires Scan([], Flatten(chunks)).End?
    ensures Leak(More([], []), chunks) == [] <==> HeaderInFirst(chunks)
    decreases |chunks|
  {
    if chunks != [] {
      assert [] + chunks[0] == chunks[0];
      if chunks[0] == [] {
        assert Flatten(chunks) == Flatten(chunks[1..]);
        LeakFreedom(chunks[1..]);
      } else {
        ScanAppend([], chunks[0], Flatten(chunks[1..]));
      }
    }
  }

  function StartOf(values: seq<Pair>): (p: Progress)
  {
    Progress([], [], false, [], [], values)
  }

  /** A run from the start, with the header scanned from the STDOUT concatenation. */
  lemma {:induction false} RunFromStart(values: seq<Pair>, rs: seq<Record>, capacity: nat)
    requires forall r <- rs :: Payload(r)
    ensures var chunks := StdoutChunks(rs);
            var o, r := Scan([], Flatten(chunks)), Run(StartOf(values), rs, capacity);
            var stdout := Leak(More([], []), chunks) + BodyOf(o);
            && (|stdout| > capacity ==> r.Failed? && r.error == StdoutFull)
            && (|stdout| <= capacity && o.Bad? ==>
                  r.Failed? && r.error == HeaderNotParsable(o.error) && r.state.stdout == stdout)
            && (|stdout| <= capacity && !o.Bad? ==>
                  r == Continue(Progress(o.fields, if o.More? then o.pending else [], o.End?, stdout,
                                         StderrBytes(rs), LastValues(values, rs))))
  {
    var p, chunks := StartOf(values), StdoutChunks(rs);
    RunPayload(p, rs, capacity);
    NothingBefore(Flatten(chunks));
    NothingBefore(StderrBytes(rs));
    NothingBefore(Written(More([], []), chunks));
  }

  lemma {:induction false} NothingBefore(b: bytes)
    ensures [] + b == b
  {
  }

  /** A response that stopped on STDOUT record `k` holds exactly what the records before it make. */
  ghost predicate StoppedAt(values: seq<Pair>, rs: seq<Record>, k: nat, r: StepResult)
  {
    && k < |rs| && rs[k].body.Raw? && rs[k].recordType.Stdout? && r.Failed?
    && var chunks := StdoutChunks(rs[..k]);
    && r.state.stdout == Leak(More([], []), chunks) + BodyOf(Scan([], Flatten(chunks)))
    && r.state.stderr == StderrBytes(rs[..k]) && r.state.values == LastValues(values, rs[..k])
  }

  /** A run that does not get to the end stops on one record, having taken all before it. */
  lemma {:induction false} StopsSomewhere(p: Progress, rs: seq<Record>, capacity: int) returns (k: nat)
    requires !Run(p, rs, capacity).Continue?
    ensures k < |rs| && Run(p, rs[..k], capacity).Continue?
    ensures Step(Run(p, rs[..k], capacity).state, rs[k], capacity) == Run(p, rs, capacity)
    decreases |rs|
  {
    var s := Step(p, rs[0], capacity);
    if s.Continue? {
      var rest := StopsSomewhere(s.state, rs[1..], capacity);
      k := rest + 1;
      assert rs[..k][0] == rs[0] && rs[..k][1..] == rs[1..][..rest];
    } else {
      k := 0;
      assert rs[..0] == [];
    }
  }

  lemma StopsOnStdout(values: seq<Pair>, rs: seq<Record>, capacity: nat) returns (k: nat)
    requires forall r <- rs :: Payload(r)
    requires !Run(StartOf(values), rs, capacity).Continue?
    ensures StoppedAt(values, rs, k, Run(StartOf(values), rs, capacity))
  {
    k := StopsSomewhere(StartOf(values), rs, capacity);
    RunFromStart(values, rs[..k], capacity);
    assert rs[k] in rs;
    StepStops(Run(StartOf(values), rs[..k], capacity).state, rs[k], capacity);
  }

  /** Only a STDOUT record can stop the loop before the end of the request, and it adds nothing then. */
  lemma StepStops(p: Progress, r: Record, capacity: int)
    requires Payload(r) && !Step(p, r, capacity).Continue?
    ensures r.body.Raw? && r.recordType.Stdout?
    ensures var s := Step(p, r, capacity);
            s.Failed? && s.state.stdout == p.stdout && s.state.stderr == p.stderr && s.state.values == p.values
  {
  }

  /** Payload records on the wire bring the loop to the run's result, in front of what follows. */
  lemma RespondToPayload(values: seq<Pair>, frames: seq<Frame>, behind: bytes, capacity: nat)
    requires forall f <- frames :: ValidFrame(f) && Payload(Canonical(f.record))
    ensures var rs := FrameRecords(frames);
            var chunks := StdoutChunks(rs);
            var o, r := Scan([], Flatten(chunks)), Respond(StartOf(values), WireBytes(frames) + behind, capacity);
            var stdout := Leak(More([], []), chunks) + BodyOf(o);
            && (|stdout| > capacity ==> r.0.Failed? && r.0.error == StdoutFull)
            && (|stdout| <= capacity && o.Bad? ==>
                  r.0.Failed? && r.0.error == HeaderNotParsable(o.error) && r.0.state.stdout == stdout)
            && (|stdout| > capacity || o.Bad? ==> exists k: nat :: StoppedAt(values, rs, k, r.0))
            && (|stdout| <= capacity && !o.Bad? ==>
                  r == Respond(Progress(o.fields, if o.More? then o.pending else [], o.End?, stdout,
                                        StderrBytes(rs), LastValues(values, rs)), behind, capacity))
  {
    var rs := FrameRecords(frames);
    RunFromStart(values, rs, capacity);
    RespondToFrames(StartOf(values), frames, behind, capacity);
    if !Run(StartOf(values), rs, capacity).Continue? {
      var k := StopsOnStdout(values, rs, capacity);
    }
  }

  /**
    An end record ends the loop in any case, and leaves what was gathered and what is behind it
    alone. Success takes all three conditions; of several failures the server's comes first, then the
    application's.
   */
  lemma EndVerdict(p: Progress, end: Frame, tail: bytes, capacity: nat)
    requires ValidFrame(end) && end.record.body.EndRequestBody?
    ensures var body := end.record.body;
            var (r, unread) := Respond(p, FrameBytes(end) + tail, capacity);
            && unread == tail && !r.Continue? && r.state == p
            && (r.Finished? <==> body.protocolStatus.RequestComplete? && body.appStatus == 0 && p.headerRead)
            && (r.Failed? ==>
                  && (r.error.ServerOverloaded? <==>
                        body.protocolStatus.CannotMultiplexConnection? || body.protocolStatus.Overloaded?)
                  && (r.error.UnknownRequestRole? <==> body.protocolStatus.UnknownRole?)
                  && (body.protocolStatus.RequestComplete? && body.appStatus != 0 <==>
                        r.error == ApplicationFailed(body.appStatus, p.stderr))
                  && (body.protocolStatus.RequestComplete? && body.appStatus == 0 <==> r.error.NoResponse?))
  {
    ReadFrame(end, tail);
    assert Canonical(end.record) == end.record;
  }

  /** A successful end finishes the response if the header has been read, and fails it otherwise. */
  lemma RespondToEnd(p: Progress, end: Frame, tail: bytes, capacity: nat)
    requires ValidFrame(end) && end.record.body == EndRequestBody(0, RequestComplete)
    ensures Respond(p, FrameBytes(end) + tail, capacity)
         == (if p.headerRead then Finished(p) else Failed(p, NoResponse), tail)
  {
    ReadFrame(end, tail);
  }

  /**
    A whole response on the wire: payload records and a successful end, each padded in any way, with
    anything behind. The loop leaves what is behind unread. With a header that can be parsed it
    returns that header and all of STDERR, and stdout holds the body preceded by `Leak`: exactly the
    body if and only if the header came in one record. It fails when stdout overflows, otherwise on a
    header that cannot be parsed, and then holds what came before the record it stopped on.
   */
  lemma {:induction false} CompleteResponse(values: seq<Pair>, frames: seq<Frame>, end: Frame, tail: bytes, capacity: nat)
    requires forall f <- frames :: ValidFrame(f) && Payload(Canonical(f.record))
    requires ValidFrame(end) && end.record.body == EndRequestBody(0, RequestComplete)
    ensures var rs := FrameRecords(frames);
            var chunks := StdoutChunks(rs);
            var o := Scan([], Flatten(chunks));
            var stdout := Leak(More([], []), chunks) + BodyOf(o);
            var (r, unread) := Respond(StartOf(values), WireBytes(frames) + (FrameBytes(end) + tail), capacity);
            && (|stdout| > capacity ==> r.Failed? && r.error == StdoutFull)
            && (o.Bad? && |stdout| <= capacity ==>
                  r.Failed? && r.error == HeaderNotParsable(o.error) && r.state.stdout == stdout)
            && (o.Bad? || |stdout| > capacity ==> exists k: nat :: StoppedAt(values, rs, k, r))
            && (o.More? && |stdout| <= capacity ==> r.Failed? && r.error == NoResponse && r.state.stdout == Flatten(chunks))
            && (o.End? && |stdout| <= capacity ==>
                  && r == Finished(Progress(o.fields, [], true, stdout, StderrBytes(rs), LastValues(values, rs)))
                  && unread == tail
                  && (r.state.stdout == o.rest <==> HeaderInFirst(chunks)))
  {
    var rs := FrameRecords(frames);
    var chunks := StdoutChunks(rs);
    var o := Scan([], Flatten(chunks));
    var stdout := Leak(More([], []), chunks) + BodyOf(o);
    RespondToPayload(values, frames, FrameBytes(end) + tail, capacity);
    RespondToEnd(Progress(o.fields, if o.More? then o.pending else [], o.End?, stdout,
                          StderrBytes(rs), LastValues(values, rs)), end, tail, capacity);
    StdoutIs(chunks);
  }

  /** What stdout holds: all of STDOUT without a header, the body alone when the header came in one record. */
  lemma {:induction false} StdoutIs(chunks: seq<bytes>)
    ensures var o := Scan([], Flatten(chunks));
            var stdout := Leak(More([], []), chunks) + BodyOf(o);
            && (o.More? ==> stdout == Flatten(chunks))
            && (o.End? ==> (stdout == o.rest <==> HeaderInFirst(chunks)))
  {
    var o, leak := Scan([], Flatten(chunks)), Leak(More([], []), chunks);
    if o.End? {
      LeakFreedom(chunks);
      LeakOrBody(leak, o.rest);
    } else if o.More? {
      NothingBefore(Flatten(chunks));
      AllLeaks(More([], []), chunks);
      assert leak + [] == leak;
    }
  }

  lemma LeakOrBody(leak: bytes, body: bytes)
    ensures leak + body == body <==> leak == []
  {
    assert |leak + body| == |leak| + |body|;
  }

  /** While the header does not end, every STDOUT record is written as it came. */
  lemma {:induction false} AllLeaks(o: Outcome, chunks: seq<bytes>)
    requires o.More? && Resume(o, Flatten(chunks)).More?
    ensures Leak(o, chunks) == Flatten(chunks)
    decreases |chunks|
  {
    if chunks != [] {
      ResumeTwice(o, chunks[0], Flatten(chunks[1..]));
      AllLeaks(Resume(o, chunks[0]), chunks[1..]);
    }
  }

  /** What leaks is exactly the records before the one in which the header ends. */
  lemma {:induction false} LeakedRecords(o: Outcome, chunks: seq<bytes>, k: nat)
    requires o.More? && Resume(o, []) == o && k < |chunks|
    requires Resume(o, Flatten(chunks[..k])).More? && Resume(o, Flatten(chunks[..k + 1])).End?
    ensures Leak(o, chunks) == Flatten(chunks[..k])
    decreases |chunks|
  {
    var next, rest := Resume(o, chunks[0]), chunks[1..];
    FirstOfTake(o, chunks, k + 1);
    if k > 0 {
      FirstOfTake(o, chunks, k);
      assert next.More?;
      ResumeTwice(o, chunks[0], []);
      assert chunks[0] + [] == chunks[0];
      LeakedRecords(next, rest, k - 1);
    } else {
      assert Flatten(rest[..0]) == [];
      ResumeTwice(o, chunks[0], []);
      assert chunks[0] + [] == chunks[0];
    }
  }

  lemma FirstOfTake(o: Outcome, chunks: seq<bytes>, k: nat)
    requires 0 < k <= |chunks|
    ensures Flatten(chunks[..k]) == chunks[0] + Flatten(chunks[1..][..k - 1])
    ensures Resume(o, Flatten(chunks[..k])) == Resume(Resume(o, chunks[0]), Flatten(chunks[1..][..k - 1]))
  {
    assert chunks[..k][0] == chunks[0] && chunks[..k][1..] == chunks[1..][..k - 1];
    ResumeTwice(o, chunks[0], Flatten(chunks[1..][..k - 1]));
  }

  /**
    A connection that gives no further record behind the payload, for whatever reason: reading has
    failed, even when the header and a part of the body have arrived, and nothing more is taken. A
    payload that stops the loop earlier does so as before.
   */
  lemma {:induction false} UnreadableTail(values: seq<Pair>, frames: seq<Frame>, tail: bytes, capacity: nat)
    requires forall f <- frames :: ValidFrame(f) && Payload(Canonical(f.record))
    requires ReadRecord(tail).Err?
    ensures var rs := FrameRecords(frames);
            var chunks := StdoutChunks(rs);
            var o, (r, unread) := Scan([], Flatten(chunks)), Respond(StartOf(values), WireBytes(frames) + tail, capacity);
            var stdout := Leak(More([], []), chunks) + BodyOf(o);
            && r.Failed?
            && (|stdout| > capacity ==> r.error == StdoutFull)
            && (|stdout| <= capacity && o.Bad? ==> r.error == HeaderNotParsable(o.error))
            && (|stdout| <= capacity && !o.Bad? ==>
                  && r.error == ReadFailed(ReadRecord(tail).error) && unread == tail
                  && r.state.stdout == stdout && r.state.stderr == StderrBytes(rs)
                  && r.state.values == LastValues(values, rs))
  {
    RespondToPayload(values, frames, tail, capacity);
  }

  /** The connection ends behind complete records, or inside one. */
  lemma {:induction false} ConnectionEnds(values: seq<Pair>, frames: seq<Frame>, f: Frame, k: nat, capacity: nat)
    requires forall g <- frames :: ValidFrame(g) && Payload(Canonical(g.record))
    requires ValidFrame(f) && k < |FrameBytes(f)|
    ensures Respond(StartOf(values), WireBytes(frames) + FrameBytes(f)[..k], capacity).0.Failed?
  {
    CutFrame(f, k);
    UnreadableTail(values, frames, FrameBytes(f)[..k], capacity);
  }

  /**
    Success over all inputs: whatever the connection delivers, the response is finished only by an
    END_REQUEST record with both statuses of success, right in front of what is left unread, and
    only with a header.
   */
  lemma {:induction false} FinishedByEnd(p: Progress, input: bytes, capacity: int) returns (taken: nat)
    requires Respond(p, input, capacity).0.Finished?
    ensures taken <= |input|
    ensures var (r, unread) := Respond(p, input, capacity);
            var last := ReadRecord(input[taken..]);
            && last.Ok? && last.value.1 == unread
            && last.value.0.body == EndRequestBody(0, RequestComplete) && r.state.headerRead
    decreases |input|
  {
    var (record, rest) := ReadRecord(input).value;
    if Step(p, record, capacity).Continue? {
      var more := FinishedByEnd(Step(p, record, capacity).state, rest, capacity);
      ReadLeavesSuffix(input);
      taken := |input| - |rest| + more;
      assert input[taken..] == rest[more..];
    } else {
      taken := 0;
      assert input[0..] == input;
    }
  }

  /** Any other record stops the loop, with its type in the error, and adds nothing. */
  lemma {:induction false} UnexpectedRecord(p: Progress, f: Frame, tail: bytes, capacity: int)
    requires ValidFrame(f) && !Payload(Canonical(f.record)) && !f.record.body.EndRequestBody?
    ensures Respond(p, FrameBytes(f) + tail, capacity)
         == (Failed(p, if f.record.body.UnknownTypeBody? then UnsupportedRecordType(f.record.body.unknownType)
                       else UnhandledRecord(f.record.recordType)), tail)
  {
    ReadFrame(f, tail);
  }
}
