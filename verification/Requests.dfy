/**
  Sending a FastCGI request (sections 5.1, 6.1 and 6.4 of FastCGI 1.0): `Sender` follows
  Connection.writeRequest and writeStream; `Receive` is an application that reads the request back.
 */
module Requests {
  import opened Results
  import opened Bytes
  import opened Sequences
  import opened NameValue
  import opened Records

  const BUFFER_SIZE := 16 * 1024

  /** What one read into the stream buffer can return. */
  type Chunk = b: bytes | |b| <= BUFFER_SIZE

  datatype ReaderEnd = EndOfFile | ReadFailure

  /**
    All that an io.Reader can do before it stops: reads without error, then one read with an error,
    which may carry bytes too.
   */
  datatype Script = Script(chunks: seq<Chunk>, last: Chunk, end: ReaderEnd)

  /** What is left of a reader that has been read to its end; a second reading finds nothing more. */
  function Exhausted(s: Script): (e: Script)
  {
    Script([], [], s.end)
  }

  class Reader {
    var script: Script

    constructor (script: Script)
      ensures this.script == script
    {
      this.script := script;
    }

    method Read() returns (data: Chunk, err: Option<ReaderEnd>)
      modifies this
      ensures if old(script.chunks) == []
              then data == old(script.last) && err == Some(old(script.end)) && script == Script([], [], old(script.end))
              else data == old(script.chunks)[0] && err == None
                   && script == old(script).(chunks := old(script.chunks)[1..])
    {
      if script.chunks == [] {
        data, err := script.last, Some(script.end);
        script := script.(last := []);
      } else {
        data, err := script.chunks[0], None;
        script := script.(chunks := script.chunks[1..]);
      }
    }
  }

  /** A bytes.Reader: full buffers, then the rest, then end of file without bytes. */
  function BytesScript(data: bytes): (s: Script)
    ensures s.end == EndOfFile && s.last == [] && Flatten<byte>(s.chunks) == data
    ensures forall i :: 0 <= i < |s.chunks| ==>
              if i < |s.chunks| - 1 then |s.chunks[i]| == 16384 else 0 < |s.chunks[i]| <= 16384
  {
    Script(BufferChunks(data), [], EndOfFile)
  }

  function BufferChunks(data: bytes): (chunks: seq<Chunk>)
    ensures Flatten<byte>(chunks) == data
    ensures forall i :: 0 <= i < |chunks| ==>
              if i < |chunks| - 1 then |chunks[i]| == BUFFER_SIZE else 0 < |chunks[i]| <= BUFFER_SIZE
    ensures forall c <- chunks :: c != []
  {
    if data == [] then []
    else if |data| <= BUFFER_SIZE then
      assert Flatten<byte>([data][1..]) == [];
      [data]
    else
      var rest := BufferChunks(data[BUFFER_SIZE..]);
      var chunks: seq<Chunk> := [data[..BUFFER_SIZE]] + rest;
      assert chunks[1..] == rest;
      chunks
  }

  function ChunkRecords(t: RecordType, id: uint16, chunks: seq<Chunk>): (rs: seq<Record>)
    ensures |rs| == |chunks|
  {
    if chunks == [] then []
    else [Record(1, t, id, Raw(chunks[0]))] + ChunkRecords(t, id, chunks[1..])
  }

  /** The records of a stream: one a read, then an empty one unless the reader failed. */
  function StreamRecords(t: RecordType, id: uint16, s: Script): (rs: seq<Record>)
  {
    ChunkRecords(t, id, s.chunks)
    + if s.end == EndOfFile then [Record(1, t, id, NoBody)] else []
  }

  datatype SendError =
    | ParametersNotEncodable(cause: CodecError)
    | StreamNotReadable(stream: RecordType)
    | ConnectionBroken

  function BeginRecord(role: Role, id: uint16): (r: Record)
  {
    Record(1, BeginRequest, id, BeginRequestBody(role, true))
  }

  function EffectiveStdin(role: Role, stdin: Option<Script>): (s: Option<Script>)
  {
    if (role == Responder || role == Filter) && stdin == None then Some(BytesScript([])) else stdin
  }

  function EffectiveData(role: Role, data: Option<Script>): (s: Option<Script>)
  {
    if role == Filter && data == None then Some(BytesScript([])) else data
  }

  function OptionalStream(t: RecordType, id: uint16, s: Option<Script>): (rs: seq<Record>)
  {
    if s.None? then [] else StreamRecords(t, id, s.value)
  }

  predicate Fails(s: Option<Script>)
  {
    s.Some? && s.value.end == ReadFailure
  }

  /** The records in front of the streams, and whether the parameters could be encoded. */
  function HeadRecords(role: Role, params: seq<Pair>, id: uint16): (r: (seq<Record>, Option<SendError>))
  {
    match EncodePairs(params)
    case Err(e) => ([BeginRecord(role, id)], Some(ParametersNotEncodable(e)))
    case Ok(paramData) => ([BeginRecord(role, id)] + StreamRecords(Params, id, BytesScript(paramData)), None)
  }

  /** The records of stdin and data, up to a reader that fails. */
  function InputPlan(role: Role, stdin: Option<Script>, data: Option<Script>, id: uint16)
    : (r: (seq<Record>, Option<SendError>))
  {
    var stdinRecords := OptionalStream(Stdin, id, EffectiveStdin(role, stdin));
    if Fails(stdin) then (stdinRecords, Some(StreamNotReadable(Stdin)))
    else (stdinRecords + OptionalStream(Data, id, EffectiveData(role, data)),
          if Fails(data) then Some(StreamNotReadable(Data)) else None)
  }

  /** Everything a request puts on the wire, and how it ends. */
  function RequestRecords(role: Role, params: seq<Pair>, stdin: Option<Script>, data: Option<Script>, id: uint16)
    : (r: (seq<Record>, Option<SendError>))
  {
    var (head, err) := HeadRecords(role, params, id);
    if err.Some? then (head, err)
    else
      var (inputs, planned) := InputPlan(role, stdin, data, id);
      (head + inputs, planned)
  }

  /** The bytes of records that can all be written. */
  function Emitted(rs: seq<Record>): (b: bytes)
    requires forall r <- rs :: WriteRecord(r).Ok?
  {
    if rs == [] then [] else WriteRecord(rs[0]).value + Emitted(rs[1..])
  }

  /** What reaches the peer over a connection that breaks behind `limit` bytes. */
  function Cut(b: bytes, limit: nat): (c: bytes)
  {
    if |b| <= limit then b else b[..limit]
  }

  /** Whether writing `rs` behind `before` breaks the connection. */
  ghost predicate Breaks(before: bytes, rs: seq<Record>, limit: nat)
    requires forall r <- rs :: WriteRecord(r).Ok?
  {
    |before + Emitted(rs)| > limit
  }

  /** `after` is `before` with the bytes of `rs` written behind it, as far as the connection takes them. */
  ghost predicate Sends(before: bytes, rs: seq<Record>, after: bytes, limit: nat)
  {
    (forall r <- rs :: WriteRecord(r).Ok?) && after == Cut(before + Emitted(rs), limit)
  }

  lemma SendsTwice(a: bytes, rs: seq<Record>, b: bytes, more: seq<Record>, c: bytes, limit: nat)
    requires Sends(a, rs, b, limit) && !Breaks(a, rs, limit) && Sends(b, more, c, limit)
    ensures Sends(a, rs + more, c, limit) && (Breaks(a, rs + more, limit) <==> Breaks(b, more, limit))
  {
    EmittedAppend(rs, more);
    Associative(a, Emitted(rs), Emitted(more));
  }

  /** Behind a break nothing more arrives. */
  lemma SendsNoMore(a: bytes, rs: seq<Record>, b: bytes, more: seq<Record>, limit: nat)
    requires Sends(a, rs, b, limit) && Breaks(a, rs, limit) && forall r <- more :: WriteRecord(r).Ok?
    ensures Sends(a, rs + more, b, limit) && Breaks(a, rs + more, limit)
  {
    EmittedAppend(rs, more);
    Associative(a, Emitted(rs), Emitted(more));
  }

  lemma EmittedAppend(a: seq<Record>, b: seq<Record>)
    requires (forall r <- a :: WriteRecord(r).Ok?) && forall r <- b :: WriteRecord(r).Ok?
    ensures Emitted(a + b) == Emitted(a) + Emitted(b)
  {
    if a == [] {
      assert a + b == b;
    } else {
      assert (a + b)[1..] == a[1..] + b;
      EmittedAppend(a[1..], b);
    }
  }

  /** The next read decides the next record of a stream. */
  lemma StreamFirst(t: RecordType, id: uint16, s: Script)
    ensures s.chunks != [] ==>
              StreamRecords(t, id, s)
              == [Record(1, t, id, Raw(s.chunks[0]))] + StreamRecords(t, id, s.(chunks := s.chunks[1..]))
    ensures s.chunks == [] ==>
              StreamRecords(t, id, s) == if s.end == EndOfFile then [Record(1, t, id, NoBody)] else []
  {
  }

  lemma HeadReadable(role: Role, params: seq<Pair>, id: uint16)
    ensures forall r <- HeadRecords(role, params, id).0 :: Readable(r) && WriteRecord(r).Ok?
  {
    if EncodePairs(params).Ok? {
      StreamReadable(Params, id, BytesScript(EncodePairs(params).value));
    }
  }

  /** Every record of a request is written without error and can be read. */
  lemma RequestReadable(role: Role, params: seq<Pair>, stdin: Option<Script>, data: Option<Script>, id: uint16)
    ensures forall r <- RequestRecords(role, params, stdin, data, id).0 :: Readable(r) && WriteRecord(r).Ok?
  {
    HeadReadable(role, params, id);
    InputsReadable(role, stdin, data, id);
  }

  lemma InputsReadable(role: Role, stdin: Option<Script>, data: Option<Script>, id: uint16)
    ensures forall r <- InputPlan(role, stdin, data, id).0 :: Readable(r) && WriteRecord(r).Ok?
  {
    if EffectiveStdin(role, stdin).Some? {
      StreamReadable(Stdin, id, EffectiveStdin(role, stdin).value);
    }
    if EffectiveData(role, data).Some? {
      StreamReadable(Data, id, EffectiveData(role, data).value);
    }
  }

  lemma StreamReadable(t: RecordType, id: uint16, s: Script)
    requires IsStreamType(t)
    ensures forall r <- StreamRecords(t, id, s) :: Readable(r) && WriteRecord(r).Ok?
  {
    ChunksReadable(t, id, s.chunks);
  }

  lemma {:induction false} ChunksReadable(t: RecordType, id: uint16, chunks: seq<Chunk>)
    requires IsStreamType(t)
    ensures forall r <- ChunkRecords(t, id, chunks) :: Readable(r) && WriteRecord(r).Ok?
  {
    if chunks != [] {
      ChunksReadable(t, id, chunks[1..]);
    }
  }

  /** The sending side of a connection that takes `limit` bytes: `sent` is what the peer receives. */
  class Sender {
    const limit: nat
    var sent: bytes

    constructor (limit: nat)
      ensures sent == [] && this.limit == limit
    {
      sent, this.limit := [], limit;
    }

    method WriteOne(r: Record) returns (ok: bool)
      requires WriteRecord(r).Ok? && |sent| <= limit
      modifies this
      ensures Sends(old(sent), [r], sent, limit) && (ok <==> !Breaks(old(sent), [r], limit))
    {
      var b := WriteRecord(r).value;
      assert b + [] == b == Emitted([r]);
      ok := |sent + b| <= limit;
      sent := Cut(sent + b, limit);
    }

    method WriteStream(t: RecordType, id: uint16, stream: Reader) returns (err: Option<SendError>)
      requires IsStreamType(t) && |sent| <= limit
      modifies this, stream
      ensures var rs := StreamRecords(t, id, old(stream.script));
              && Sends(old(sent), rs, sent, limit)
              && err == if Breaks(old(sent), rs, limit) then Some(ConnectionBroken)
                        else if old(stream.script.end) == EndOfFile then None else Some(StreamNotReadable(t))
      ensures err != Some(ConnectionBroken) ==> stream.script == Exhausted(old(stream.script))
    {
      ghost var all := StreamRecords(t, id, stream.script);
      ghost var done: seq<Record> := [];
      StreamReadable(t, id, stream.script);
      assert sent + Emitted([]) == sent;
      while true
        invariant all == done + StreamRecords(t, id, stream.script)
        invariant stream.script.end == old(stream.script.end)
        invariant Sends(old(sent), done, sent, limit) && !Breaks(old(sent), done, limit)
        decreases |stream.script.chunks|
      {
        ghost var script := stream.script;
        StreamFirst(t, id, script);
        var data, stop := stream.Read();
        if stop.Some? {
          if stop.value == EndOfFile {
            break;
          }
          assert done + [] == done;
          return Some(StreamNotReadable(t));
        }
        var record := Record(1, t, id, Raw(data));
        ghost var rest := StreamRecords(t, id, stream.script);
        assert all == (done + [record]) + rest;
        StreamReadable(t, id, stream.script);
        ghost var before := sent;
        var ok := WriteOne(record);
        SendsTwice(old(sent), done, before, [record], sent, limit);
        done := done + [record];
        if !ok {
          SendsNoMore(old(sent), done, sent, rest, limit);
          return Some(ConnectionBroken);
        }
      }
      var terminator := Record(1, t, id, NoBody);
      assert all == done + [terminator];
      ghost var before := sent;
      var ok := WriteOne(terminator);
      SendsTwice(old(sent), done, before, [terminator], sent, limit);
      return if ok then None else Some(ConnectionBroken);
    }

    /** A stream that is written when there is a reader for it, or empty when the role needs it. */
    method WriteOptionalStream(t: RecordType, id: uint16, stream: Reader?, needed: bool, ghost s: Option<Script>)
      returns (err: Option<SendError>)
      requires IsStreamType(t) && |sent| <= limit
      requires s == if stream != null then Some(stream.script) else if needed then Some(BytesScript([])) else None
      modifies this, stream
      ensures var rs := OptionalStream(t, id, s);
              && Sends(old(sent), rs, sent, limit)
              && err == if Breaks(old(sent), rs, limit) then Some(ConnectionBroken)
                        else if Fails(s) then Some(StreamNotReadable(t)) else None
      ensures stream != null && err != Some(ConnectionBroken) ==>
                stream.script == Exhausted(old(stream.script))
    {
      if stream != null {
        err := WriteStream(t, id, stream);
      } else if needed {
        var empty := new Reader(BytesScript([]));
        err := WriteStream(t, id, empty);
      } else {
        assert sent + Emitted([]) == sent;
        err := None;
      }
    }

    /** The head of a request: its first record and its parameters. */
    method WriteHead(role: Role, params: seq<Pair>, id: uint16) returns (err: Option<SendError>)
      requires |sent| <= limit
      modifies this
      ensures var (rs, planned) := HeadRecords(role, params, id);
              && Sends(old(sent), rs, sent, limit)
              && err == if Breaks(old(sent), rs, limit) then Some(ConnectionBroken) else planned
    {
      var begin := BeginRecord(role, id);
      ghost var rs := HeadRecords(role, params, id).0;
      HeadReadable(role, params, id);
      assert rs == [begin] + rs[1..] && forall r <- rs[1..] :: r in rs;
      var ok := WriteOne(begin);
      if !ok {
        SendsNoMore(old(sent), [begin], sent, rs[1..], limit);
        return Some(ConnectionBroken);
      }
      var encoded := EncodePairList(params);
      if encoded.Err? {
        return Some(ParametersNotEncodable(encoded.error));
      }
      var paramReader := new Reader(BytesScript(encoded.value));
      ghost var before := sent;
      err := WriteStream(Params, id, paramReader);
      SendsTwice(old(sent), [begin], before, StreamRecords(Params, id, BytesScript(encoded.value)), sent, limit);
    }

    /** The streams behind the head. */
    method WriteInputs(role: Role, stdin: Reader?, data: Reader?, id: uint16,
                       ghost stdinScript: Option<Script>, ghost dataScript: Option<Script>)
      returns (err: Option<SendError>)
      requires |sent| <= limit
      requires stdinScript == if stdin == null then None else Some(stdin.script)
      requires dataScript == if data == null then None
                             else if data == stdin then Some(Exhausted(data.script)) else Some(data.script)
      modifies this, stdin, data
      ensures var (rs, planned) := InputPlan(role, stdinScript, dataScript, id);
              && Sends(old(sent), rs, sent, limit)
              && err == if Breaks(old(sent), rs, limit) then Some(ConnectionBroken) else planned
    {
      ghost var all := InputPlan(role, stdinScript, dataScript, id).0;
      InputsReadable(role, stdinScript, dataScript, id);
      ghost var stdinRecords := OptionalStream(Stdin, id, EffectiveStdin(role, stdinScript));
      err := WriteOptionalStream(
        Stdin, id, stdin, role == Responder || role == Filter, EffectiveStdin(role, stdinScript));
      if err.Some? {
        StopsHere(old(sent), stdinRecords, sent, all, limit, err);
        return;
      }
      ghost var before := sent;
      ghost var dataRecords := OptionalStream(Data, id, EffectiveData(role, dataScript));
      err := WriteOptionalStream(Data, id, data, role == Filter, EffectiveData(role, dataScript));
      SendsTwice(old(sent), stdinRecords, before, dataRecords, sent, limit);
    }

    method WriteRequest(role: Role, params: seq<Pair>, stdin: Reader?, data: Reader?, id: uint16)
      returns (err: Option<SendError>)
      requires |sent| <= limit
      modifies this, stdin, data
      ensures var stdinScript := if stdin == null then None else Some(old(stdin.script));
              var dataScript := if data == null then None
                                else if data == stdin then Some(Exhausted(old(data.script))) else Some(old(data.script));
              var (rs, planned) := RequestRecords(role, params, stdinScript, dataScript, id);
              && Sends(old(sent), rs, sent, limit)
              && err == if Breaks(old(sent), rs, limit) then Some(ConnectionBroken) else planned
    {
      ghost var stdinScript := if stdin == null then None else Some(stdin.script);
      ghost var dataScript := if data == null then None
                              else if data == stdin then Some(Exhausted(data.script)) else Some(data.script);
      ghost var all := RequestRecords(role, params, stdinScript, dataScript, id).0;
      RequestReadable(role, params, stdinScript, dataScript, id);

      err := WriteHead(role, params, id);
      ghost var head := HeadRecords(role, params, id).0;
      if err.Some? {
        StopsHere(old(sent), head, sent, all, limit, err);
        return;
      }
      ghost var before := sent;
      err := WriteInputs(role, stdin, data, id, stdinScript, dataScript);
      SendsTwice(old(sent), head, before, InputPlan(role, stdinScript, dataScript, id).0, sent, limit);
    }
  }

  /** Where a request stops early: on a break, or because these are all its records. */
  lemma StopsHere(
    before: bytes, written: seq<Record>, sent: bytes, all: seq<Record>, limit: nat, err: Option<SendError>)
    requires (forall r <- all :: WriteRecord(r).Ok?) && written <= all && Sends(before, written, sent, limit)
    requires (err == Some(ConnectionBroken) && Breaks(before, written, limit)) || written == all
    ensures Sends(before, all, sent, limit) && (Breaks(before, all, limit) <==> Breaks(before, written, limit))
  {
    if written != all {
      var rest := all[|written|..];
      assert all == written + rest && forall r <- rest :: r in all;
      SendsNoMore(before, written, sent, rest, limit);
    }
  }

  /** What an application makes of a request. */
  datatype Request =
    Request(id: uint16, role: Role, keepConnection: bool, params: seq<Pair>, stdin: Option<bytes>, data: Option<bytes>)

  /** Takes the records of one stream up to its first empty record, and returns what follows. */
  function TakeStream(rs: seq<Record>, t: RecordType, id: uint16): (r: Option<(bytes, seq<Record>)>)
  {
    if rs == [] || rs[0].recordType != t || rs[0].requestId != id || !rs[0].body.Raw? then None
    else if rs[0].body.data == [] then Some(([], rs[1..]))
    else match TakeStream(rs[1..], t, id)
      case None => None
      case Some((content, rest)) => Some((rs[0].body.data + content, rest))
  }

  /** A stream that may be missing: it is there when a record of its type comes next. */
  function TakeOptional(rs: seq<Record>, t: RecordType, id: uint16): (r: Option<(Option<bytes>, seq<Record>)>)
  {
    if rs == [] || rs[0].recordType != t then Some((None, rs))
    else match TakeStream(rs, t, id)
      case None => None
      case Some((content, rest)) => Some((Some(content), rest))
  }

  /** The streams behind the parameters, with nothing left over. */
  function ReceiveInputs(id: uint16, role: Role, keep: bool, params: seq<Pair>, rs: seq<Record>): (r: Option<Request>)
  {
    match TakeOptional(rs, Stdin, id)
    case None => None
    case Some((stdin, afterStdin)) =>
      match TakeOptional(afterStdin, Data, id)
      case None => None
      case Some((data, rest)) =>
        if rest != [] then None else Some(Request(id, role, keep, params, stdin, data))
  }

  /** An application's reading of a whole request; anything out of place is refused. */
  function Receive(rs: seq<Record>): (r: Option<Request>)
  {
    if rs == [] || !rs[0].body.BeginRequestBody? then None
    else
      var id := rs[0].requestId;
      match TakeStream(rs[1..], Params, id)
      case None => None
      case Some((paramData, afterParams)) =>
        match DecodePairs(paramData)
        case Err(_) => None
        case Ok(params) =>
          ReceiveInputs(id, rs[0].body.role, rs[0].body.keepConnection, params, afterParams)
  }

  /** The bytes a reader carries. */
  function Content(s: Script): (b: bytes)
  {
    Flatten<byte>(s.chunks) + s.last
  }

  function OptionalContent(s: Option<Script>): (b: Option<bytes>)
  {
    if s.None? then None else Some(Content(s.value))
  }

  /** A reader that never returns zero bytes without error, and none with the end of file. */
  predicate Clean(s: Script)
  {
    s.last == [] && forall c <- s.chunks :: c != []
  }

  function CanonicalAll(rs: seq<Record>): (cs: seq<Record>)
    ensures |cs| == |rs|
    ensures forall i :: 0 <= i < |rs| ==> cs[i] == Canonical(rs[i])
  {
    seq(|rs|, i requires 0 <= i < |rs| => Canonical(rs[i]))
  }

  /** Reading the emitted bytes back gives the records, with absent bodies read as empty ones. */
  lemma ReadEmitted(rs: seq<Record>)
    requires forall r <- rs :: Readable(r)
    ensures (forall r <- rs :: WriteRecord(r).Ok?) && ReadAll(Emitted(rs)) == Ok(CanonicalAll(rs))
  {
    var frames := seq(|rs|, i requires 0 <= i < |rs| => Frame(rs[i], [], 0));
    EmittedFrames(rs, frames);
    ReadAllFrames(frames);
    assert FrameRecords(frames) == CanonicalAll(rs);
  }

  lemma {:induction false} EmittedFrames(rs: seq<Record>, frames: seq<Frame>)
    requires |rs| == |frames|
    requires forall i :: 0 <= i < |rs| ==> Readable(rs[i]) && frames[i] == Frame(rs[i], [], 0)
    ensures forall f <- frames :: ValidFrame(f)
    ensures forall r <- rs :: WriteRecord(r).Ok?
    ensures Emitted(rs) == WireBytes(frames)
  {
    if rs != [] {
      WrittenFrame(rs[0]);
      EmittedFrames(rs[1..], frames[1..]);
      assert frames == [frames[0]] + frames[1..];
    }
  }

  /**
    A stream sent to the end is taken back whole when no read was empty; an empty read makes the
    receiver stop early, in front of more records of the same stream.
   */
  lemma {:induction false} TakeSentStream(t: RecordType, id: uint16, s: Script, rest: seq<Record>)
    requires s.end == EndOfFile
    ensures var r := TakeStream(CanonicalAll(StreamRecords(t, id, s)) + rest, t, id);
            && r.Some?
            && ((forall c <- s.chunks :: c != []) ==> r.value == (Flatten<byte>(s.chunks), rest))
            && ((exists c <- s.chunks :: c == []) ==>
                  r.value.1 != [] && r.value.1[0].recordType == t)
    decreases |s.chunks|
  {
    TakeSentFirst(t, id, s, rest);
    if s.chunks != [] {
      var first, next := s.chunks[0], s.(chunks := s.chunks[1..]);
      TakeSentStream(t, id, next, rest);
      assert first in s.chunks && forall c <- next.chunks :: c in s.chunks;
      assert s.chunks == [first] + next.chunks;
      assert Flatten<byte>(s.chunks) == first + Flatten<byte>(next.chunks);
    }
  }

  /** Taking the records of a stream back, one read of it at a time. */
  lemma {:induction false} TakeSentFirst(t: RecordType, id: uint16, s: Script, rest: seq<Record>)
    requires s.end == EndOfFile
    ensures var rs := CanonicalAll(StreamRecords(t, id, s)) + rest;
            if s.chunks == [] then TakeStream(rs, t, id) == Some(([], rest))
            else
              var left := CanonicalAll(StreamRecords(t, id, s.(chunks := s.chunks[1..]))) + rest;
              && left != [] && left[0].recordType == t
              && TakeStream(rs, t, id)
                 == if s.chunks[0] == [] then Some(([], left))
                    else match TakeStream(left, t, id)
                      case None => None
                      case Some((content, behind)) => Some((s.chunks[0] + content, behind))
  {
    var rs := CanonicalAll(StreamRecords(t, id, s)) + rest;
    StreamFirst(t, id, s);
    if s.chunks == [] {
      assert rs[1..] == rest;
    } else {
      var next := s.(chunks := s.chunks[1..]);
      StreamFirst(t, id, next);
      assert rs[1..] == CanonicalAll(StreamRecords(t, id, next)) + rest;
    }
  }

  /** The same for a stream that may be missing, in front of records of another type. */
  lemma TakeSentOptional(t: RecordType, id: uint16, s: Option<Script>, rest: seq<Record>)
    requires s.Some? ==> s.value.end == EndOfFile
    requires rest == [] || rest[0].recordType != t
    ensures var r := TakeOptional(CanonicalAll(OptionalStream(t, id, s)) + rest, t, id);
            && r.Some?
            && ((s.Some? ==> Clean(s.value)) ==> r.value == (OptionalContent(s), rest))
            && ((s.Some? && !Clean(s.value)) ==>
                  r.value.0 != OptionalContent(s) || (r.value.1 != [] && r.value.1[0].recordType == t))
  {
    var rs := CanonicalAll(OptionalStream(t, id, s)) + rest;
    if s.Some? {
      TakeSentStream(t, id, s.value, rest);
      assert rs[0].recordType == t;
      assert Flatten<byte>(s.value.chunks) + [] == Flatten<byte>(s.value.chunks);
    } else {
      assert rs == rest;
    }
  }

  /** The records of a request, up to what reading them back identifies. */
  function SentRecords(role: Role, paramData: bytes, stdin: Option<Script>, data: Option<Script>, id: uint16)
    : (rs: seq<Record>)
  {
    [BeginRecord(role, id)]
    + (CanonicalAll(StreamRecords(Params, id, BytesScript(paramData)))
       + (CanonicalAll(OptionalStream(Stdin, id, stdin)) + CanonicalAll(OptionalStream(Data, id, data))))
  }

  lemma RequestShape(role: Role, params: seq<Pair>, stdin: Option<Script>, data: Option<Script>, id: uint16)
    requires EncodePairs(params).Ok? && !Fails(stdin) && !Fails(data)
    ensures CanonicalAll(RequestRecords(role, params, stdin, data, id).0)
         == SentRecords(role, EncodePairs(params).value, EffectiveStdin(role, stdin), EffectiveData(role, data), id)
  {
  }

  lemma {:induction false} ReceiveSent(role: Role, params: seq<Pair>, stdin: Option<Script>, data: Option<Script>, id: uint16)
    requires EncodePairs(params).Ok? && !Fails(stdin) && !Fails(data)
    ensures Receive(SentRecords(role, EncodePairs(params).value, stdin, data, id))
            == Some(Request(id, role, true, params, OptionalContent(stdin), OptionalContent(data)))
            <==> AllFit(params) && (stdin.Some? ==> Clean(stdin.value)) && (data.Some? ==> Clean(data.value))
  {
    var paramData := EncodePairs(params).value;
    ReceiveHead(role, paramData, stdin, data, id);
    PairsRoundTrip(params);
    if DecodePairs(paramData).Ok? {
      ReceiveStreams(role, DecodePairs(paramData).value, stdin, data, id);
    }
  }

  function InputRecords(stdin: Option<Script>, data: Option<Script>, id: uint16): (rs: seq<Record>)
  {
    CanonicalAll(OptionalStream(Stdin, id, stdin)) + CanonicalAll(OptionalStream(Data, id, data))
  }

  /** The parameters are taken back whole, and decoded. */
  lemma {:induction false} ReceiveHead(
    role: Role, paramData: bytes, stdin: Option<Script>, data: Option<Script>, id: uint16)
    ensures Receive(SentRecords(role, paramData, stdin, data, id))
         == match DecodePairs(paramData)
            case Err(_) => None
            case Ok(params) => ReceiveInputs(id, role, true, params, InputRecords(stdin, data, id))
  {
    var rs, inputs := SentRecords(role, paramData, stdin, data, id), InputRecords(stdin, data, id);
    assert rs[1..] == CanonicalAll(StreamRecords(Params, id, BytesScript(paramData))) + inputs;
    TakeSentStream(Params, id, BytesScript(paramData), inputs);
  }

  /** The other streams arrive whole exactly when their readers are clean. */
  lemma {:induction false} ReceiveStreams(
    role: Role, params: seq<Pair>, stdin: Option<Script>, data: Option<Script>, id: uint16)
    requires !Fails(stdin) && !Fails(data)
    ensures var r := ReceiveInputs(id, role, true, params, InputRecords(stdin, data, id));
            && (r.Some? ==> r.value.id == id && r.value.role == role && r.value.keepConnection && r.value.params == params)
            && (r == Some(Request(id, role, true, params, OptionalContent(stdin), OptionalContent(data)))
                <==> (stdin.Some? ==> Clean(stdin.value)) && (data.Some? ==> Clean(data.value)))
  {
    var dataPart := CanonicalAll(OptionalStream(Data, id, data));
    TakeSentOptional(Stdin, id, stdin, dataPart);
    assert dataPart + [] == dataPart;
    TakeSentOptional(Data, id, data, []);
  }

  /** What an application is to receive for a stream: the reader's bytes, or an empty stream if the role needs one. */
  function Expected(s: Option<Script>, needed: bool): (b: Option<bytes>)
  {
    if s.Some? then Some(Content(s.value)) else if needed then Some([]) else None
  }

  lemma {:induction false} EffectiveContent(role: Role, stdin: Option<Script>, data: Option<Script>)
    ensures OptionalContent(EffectiveStdin(role, stdin)) == Expected(stdin, role == Responder || role == Filter)
    ensures OptionalContent(EffectiveData(role, data)) == Expected(data, role == Filter)
  {
    assert Content(BytesScript([])) == [];
  }

  /**
    End to end: the emitted bytes read back, record by record, as the request that was sent,
    exactly when the parameters fit their length fields and the readers are clean. A responder and a
    filter get a stdin in any case, and a filter its data.
   */
  lemma EndToEnd(role: Role, params: seq<Pair>, stdin: Option<Script>, data: Option<Script>, id: uint16)
    requires EncodePairs(params).Ok? && !Fails(stdin) && !Fails(data)
    ensures var rs := RequestRecords(role, params, stdin, data, id).0;
            && (forall r <- rs :: WriteRecord(r).Ok?)
            && ReadAll(Emitted(rs)).Ok?
            && (Receive(ReadAll(Emitted(rs)).value)
                == Some(Request(id, role, true, params,
                                Expected(stdin, role == Responder || role == Filter), Expected(data, role == Filter)))
                <==> AllFit(params) && (stdin.Some? ==> Clean(stdin.value)) && (data.Some? ==> Clean(data.value)))
  {
    var rs := RequestRecords(role, params, stdin, data, id).0;
    RequestReadable(role, params, stdin, data, id);
    ReadEmitted(rs);
    var stdinScript, dataScript := EffectiveStdin(role, stdin), EffectiveData(role, data);
    EffectiveContent(role, stdin, data);
    RequestShape(role, params, stdin, data, id);
    ReceiveSent(role, params, stdinScript, dataScript, id);
  }

  /**
    The readers that break the round trip, for every role and for both streams: one that once returns
    no bytes and no error ends its stream early, and bytes returned with the end of file are dropped.
   */
  lemma UncleanIsLost(role: Role, params: seq<Pair>, stdin: Option<Script>, data: Option<Script>, id: uint16)
    requires EncodePairs(params).Ok? && !Fails(stdin) && !Fails(data)
    requires (stdin.Some? && !Clean(stdin.value)) || (data.Some? && !Clean(data.value))
    ensures var rs := RequestRecords(role, params, stdin, data, id).0;
            && (forall r <- rs :: WriteRecord(r).Ok?) && ReadAll(Emitted(rs)).Ok?
            && Receive(ReadAll(Emitted(rs)).value)
               != Some(Request(id, role, true, params,
                               Expected(stdin, role == Responder || role == Filter), Expected(data, role == Filter)))
  {
    EndToEnd(role, params, stdin, data, id);
  }

  /** The records of one type, in order. */
  function OfType(rs: seq<Record>, t: RecordType): (selected: seq<Record>)
  {
    if rs == [] then []
    else (if rs[0].recordType == t then [rs[0]] else []) + OfType(rs[1..], t)
  }

  lemma {:induction false} OfTypeAppend(a: seq<Record>, b: seq<Record>, t: RecordType)
    ensures OfType(a + b, t) == OfType(a, t) + OfType(b, t)
    decreases |a|
  {
    if a == [] {
      assert a + b == b;
      assert [] + OfType(b, t) == OfType(b, t);
    } else {
      assert (a + b)[1..] == a[1..] + b;
      OfTypeAppend(a[1..], b, t);
      Associative(if a[0].recordType == t then [a[0]] else [], OfType(a[1..], t), OfType(b, t));
    }
  }

  lemma {:induction false} OfOneType(rs: seq<Record>, u: RecordType, t: RecordType)
    requires forall r <- rs :: r.recordType == u
    ensures OfType(rs, t) == if u == t then rs else []
    decreases |rs|
  {
    if rs != [] {
      OfOneType(rs[1..], u, t);
      assert rs == [rs[0]] + rs[1..];
    }
  }

  lemma {:induction false} ChunkRecordsAre(t: RecordType, id: uint16, chunks: seq<Chunk>)
    ensures var rs := ChunkRecords(t, id, chunks);
            forall i :: 0 <= i < |rs| ==> rs[i] == Record(1, t, id, Raw(chunks[i]))
    decreases |chunks|
  {
    if chunks != [] {
      ChunkRecordsAre(t, id, chunks[1..]);
    }
  }

  lemma {:induction false} StreamOfType(u: RecordType, id: uint16, s: Option<Script>, t: RecordType)
    ensures OfType(OptionalStream(u, id, s), t) == if u == t then OptionalStream(u, id, s) else []
  {
    if s.Some? {
      ChunkRecordsAre(u, id, s.value.chunks);
      OfOneType(OptionalStream(u, id, s), u, t);
    }
  }

  /** The records of a stream as they are to be: one for each read, and an empty one at the end of file. */
  ghost predicate IsStream(rs: seq<Record>, t: RecordType, id: uint16, chunks: seq<Chunk>, ended: bool)
  {
    && |rs| == |chunks| + (if ended then 1 else 0)
    && (forall i :: 0 <= i < |chunks| ==> rs[i] == Record(1, t, id, Raw(chunks[i])))
    && (ended ==> rs[|chunks|] == Record(1, t, id, NoBody))
  }

  lemma {:induction false} StreamIs(t: RecordType, id: uint16, s: Script)
    ensures IsStream(StreamRecords(t, id, s), t, id, s.chunks, s.end == EndOfFile)
  {
    ChunkRecordsAre(t, id, s.chunks);
  }

  /** What a stream of a request is to be: the reader's, or an empty one if the role needs it, or none. */
  ghost predicate IsInput(rs: seq<Record>, t: RecordType, id: uint16, s: Option<Script>, needed: bool)
  {
    if s.Some? then IsStream(rs, t, id, s.value.chunks, s.value.end == EndOfFile)
    else if needed then rs == [Record(1, t, id, NoBody)] else rs == []
  }

  lemma {:induction false} InputsAre(role: Role, stdin: Option<Script>, data: Option<Script>, id: uint16)
    ensures IsInput(OptionalStream(Stdin, id, EffectiveStdin(role, stdin)), Stdin, id, stdin,
                    role == Responder || role == Filter)
    ensures IsInput(OptionalStream(Data, id, EffectiveData(role, data)), Data, id, data, role == Filter)
  {
    if stdin.Some? {
      StreamIs(Stdin, id, stdin.value);
    }
    if data.Some? {
      StreamIs(Data, id, data.value);
    }
  }

  /** The records of a request, type by type, before anything that its readers can do wrong. */
  lemma {:induction false} SelectedInputs(
    role: Role, params: seq<Pair>, stdin: Option<Script>, data: Option<Script>, id: uint16, t: RecordType)
    requires EncodePairs(params).Ok?
    ensures var rs := RequestRecords(role, params, stdin, data, id).0;
            OfType(rs, t) == match t
                             case BeginRequest => [BeginRecord(role, id)]
                             case Params => StreamRecords(Params, id, BytesScript(EncodePairs(params).value))
                             case Stdin => OptionalStream(Stdin, id, EffectiveStdin(role, stdin))
                             case Data => if Fails(stdin) then [] else OptionalStream(Data, id, EffectiveData(role, data))
                             case _ => []
  {
    var paramScript := Some(BytesScript(EncodePairs(params).value));
    var begin := [BeginRecord(role, id)];
    RequestParts(role, params, stdin, data, id);
    OfOneType(begin, BeginRequest, t);
    StreamOfType(Params, id, paramScript, t);
    StreamOfType(Stdin, id, EffectiveStdin(role, stdin), t);
    StreamOfType(Data, id, EffectiveData(role, data), t);
    SelectedParts(begin, OptionalStream(Params, id, paramScript), OptionalStream(Stdin, id, EffectiveStdin(role, stdin)),
                  if Fails(stdin) then [] else OptionalStream(Data, id, EffectiveData(role, data)), t);
  }

  lemma {:induction false} RequestParts(
    role: Role, params: seq<Pair>, stdin: Option<Script>, data: Option<Script>, id: uint16)
    requires EncodePairs(params).Ok?
    ensures var head := [BeginRecord(role, id)] + OptionalStream(Params, id, Some(BytesScript(EncodePairs(params).value)));
            RequestRecords(role, params, stdin, data, id).0
            == head + (OptionalStream(Stdin, id, EffectiveStdin(role, stdin))
                       + if Fails(stdin) then [] else OptionalStream(Data, id, EffectiveData(role, data)))
  {
    var stdinRecords := OptionalStream(Stdin, id, EffectiveStdin(role, stdin));
    assert stdinRecords + [] == stdinRecords;
  }

  lemma {:induction false} SelectedParts(
    begin: seq<Record>, params: seq<Record>, stdin: seq<Record>, data: seq<Record>, t: RecordType)
    requires OfType(begin, t) == if t.BeginRequest? then begin else []
    requires OfType(params, t) == if t.Params? then params else []
    requires OfType(stdin, t) == if t.Stdin? then stdin else []
    requires OfType(data, t) == if t.Data? then data else []
    ensures OfType(begin + params + (stdin + data), t)
         == match t
            case BeginRequest => begin
            case Params => params
            case Stdin => stdin
            case Data => data
            case _ => []
  {
    OfTypeAppend(begin + params, stdin + data, t);
    OfTypeAppend(begin, params, t);
    OfTypeAppend(stdin, data, t);
  }

  /**
    The records of a request, selected by type: one BEGIN_REQUEST, the encoded parameters, and each
    input as it is to be. Behind a stdin that cannot be read there is no end of it, and no data.
   */
  lemma {:induction false} RequestByType(
    role: Role, params: seq<Pair>, stdin: Option<Script>, data: Option<Script>, id: uint16)
    requires EncodePairs(params).Ok?
    ensures var (rs, err) := RequestRecords(role, params, stdin, data, id);
            && rs[..1] == OfType(rs, BeginRequest) == [Record(1, BeginRequest, id, BeginRequestBody(role, true))]
            && IsStream(OfType(rs, Params), Params, id, BufferChunks(EncodePairs(params).value), true)
            && IsInput(OfType(rs, Stdin), Stdin, id, stdin, role == Responder || role == Filter)
            && (if stdin.Some? && stdin.value.end == ReadFailure
                then err == Some(StreamNotReadable(Stdin)) && OfType(rs, Data) == []
                else IsInput(OfType(rs, Data), Data, id, data, role == Filter)
                     && err == if data.Some? && data.value.end == ReadFailure then Some(StreamNotReadable(Data)) else None)
  {
    SelectedInputs(role, params, stdin, data, id, BeginRequest);
    SelectedInputs(role, params, stdin, data, id, Params);
    SelectedInputs(role, params, stdin, data, id, Stdin);
    SelectedInputs(role, params, stdin, data, id, Data);
    InputsAre(role, stdin, data, id);
    StreamIs(Params, id, BytesScript(EncodePairs(params).value));
  }

  /** Without parameters that can be encoded, only the first record is sent. */
  lemma UnencodableParameters(role: Role, params: seq<Pair>, stdin: Option<Script>, data: Option<Script>, id: uint16)
    requires EncodePairs(params).Err?
    ensures RequestRecords(role, params, stdin, data, id)
         == ([Record(1, BeginRequest, id, BeginRequestBody(role, true))],
             Some(ParametersNotEncodable(EncodePairs(params).error)))
  {
  }

  /** A stream that ends in its one empty record. */
  ghost predicate EndsOnce(rs: seq<Record>)
  {
    rs != [] && forall i :: 0 <= i < |rs| ==> (EncodeBody(rs[i].body) == Ok([]) <==> i == |rs| - 1)
  }

  /** Each stream that is sent ends in exactly one empty record, and exactly the streams that are due are sent. */
  lemma {:induction false} StreamsEndOnce(
    role: Role, params: seq<Pair>, stdin: Option<Script>, data: Option<Script>, id: uint16)
    requires EncodePairs(params).Ok? && !Fails(stdin) && !Fails(data)
    requires (stdin.Some? ==> Clean(stdin.value)) && (data.Some? ==> Clean(data.value))
    ensures var rs := RequestRecords(role, params, stdin, data, id).0;
            && EndsOnce(OfType(rs, Params))
            && (if stdin.Some? || role == Responder || role == Filter
                then EndsOnce(OfType(rs, Stdin)) else OfType(rs, Stdin) == [])
            && (if data.Some? || role == Filter then EndsOnce(OfType(rs, Data)) else OfType(rs, Data) == [])
  {
    RequestByType(role, params, stdin, data, id);
    var rs := RequestRecords(role, params, stdin, data, id).0;
    StreamEndsOnce(OfType(rs, Params), Params, id, BufferChunks(EncodePairs(params).value));
    if stdin.Some? {
      StreamEndsOnce(OfType(rs, Stdin), Stdin, id, stdin.value.chunks);
    }
    if data.Some? {
      StreamEndsOnce(OfType(rs, Data), Data, id, data.value.chunks);
    }
  }

  lemma {:induction false} StreamEndsOnce(rs: seq<Record>, t: RecordType, id: uint16, chunks: seq<Chunk>)
    requires IsStream(rs, t, id, chunks, true) && forall c <- chunks :: c != []
    ensures EndsOnce(rs)
  {
    forall i | 0 <= i < |rs|
      ensures EncodeBody(rs[i].body) == Ok([]) <==> i == |rs| - 1
    {
      if i < |chunks| {
        assert chunks[i] in chunks;
      }
    }
  }
}
