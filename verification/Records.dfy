/**
  FastCGI records (section 3.3 of FastCGI 1.0): an eight-byte header, a body whose length the
  header gives, and padding. `WriteRecord` and `ReadRecord` follow Record.Write and Record.Read.
 */
module Records {
  import opened Results
  import opened Bytes
  import opened Sequences
  import opened NameValue

  const HEADER_SIZE := 8
  const MAX_BODY := 0xFFFF

  datatype RecordType =
    | BeginRequest | AbortRequest | EndRequest | Params | Stdin | Stdout | Stderr | Data
    | GetValues | GetValuesResult | UnknownType

  datatype Role = Responder | Authorizer | Filter

  datatype ProtocolStatus = RequestComplete | CannotMultiplexConnection | Overloaded | UnknownRole

  datatype Body =
    | NoBody
    | Raw(data: bytes)
    | BeginRequestBody(role: Role, keepConnection: bool)
    | AbortRequestBody
    | EndRequestBody(appStatus: uint32, protocolStatus: ProtocolStatus)
    | GetValuesBody(names: seq<bytes>)
    | GetValuesResultBody(pairs: seq<Pair>)
    | UnknownTypeBody(unknownType: byte)

  datatype Record = Record(version: byte, recordType: RecordType, requestId: uint16, body: Body)

  datatype WriteError = BodyNotEncodable(cause: CodecError) | BodyTooLarge

  datatype ReadError =
    | TruncatedHeader
    | UnhandledVersion(version: byte)
    | InvalidRecordType(code: byte)
    | TruncatedBody
    | InvalidBodyLength
    | InvalidRole(roleCode: uint16)
    | InvalidProtocolStatus(code: byte)
    | InvalidPairs(cause: CodecError)

  function EncodeRecordType(t: RecordType): (r: byte)
  {
    match t
    case BeginRequest => 1
    case AbortRequest => 2
    case EndRequest => 3
    case Params => 4
    case Stdin => 5
    case Stdout => 6
    case Stderr => 7
    case Data => 8
    case GetValues => 9
    case GetValuesResult => 10
    case UnknownType => 11
  }

  function DecodeRecordType(code: byte): (r: Option<RecordType>)
  {
    match code
    case 1 => Some(BeginRequest)
    case 2 => Some(AbortRequest)
    case 3 => Some(EndRequest)
    case 4 => Some(Params)
    case 5 => Some(Stdin)
    case 6 => Some(Stdout)
    case 7 => Some(Stderr)
    case 8 => Some(Data)
    case 9 => Some(GetValues)
    case 10 => Some(GetValuesResult)
    case 11 => Some(UnknownType)
    case _ => None
  }

  function EncodeRole(role: Role): (r: uint16)
  {
    match role
    case Responder => 1
    case Authorizer => 2
    case Filter => 3
  }

  function DecodeRole(code: uint16): (r: Option<Role>)
  {
    match code
    case 1 => Some(Responder)
    case 2 => Some(Authorizer)
    case 3 => Some(Filter)
    case _ => None
  }

  function EncodeStatus(status: ProtocolStatus): (r: byte)
  {
    match status
    case RequestComplete => 0
    case CannotMultiplexConnection => 1
    case Overloaded => 2
    case UnknownRole => 3
  }

  function DecodeStatus(code: byte): (r: Option<ProtocolStatus>)
  {
    match code
    case 0 => Some(RequestComplete)
    case 1 => Some(CannotMultiplexConnection)
    case 2 => Some(Overloaded)
    case 3 => Some(UnknownRole)
    case _ => None
  }

  function PairsOfNames(names: seq<bytes>): (ps: seq<Pair>)
  {
    seq(|names|, i requires 0 <= i < |names| => Pair(names[i], []))
  }

  function NamesOfPairs(pairs: seq<Pair>): (names: seq<bytes>)
  {
    seq(|pairs|, i requires 0 <= i < |pairs| => pairs[i].name)
  }

  predicate IsStreamType(t: RecordType)
  {
    t.Params? || t.Stdin? || t.Stdout? || t.Stderr? || t.Data?
  }

  function EncodeBody(body: Body): (r: Result<bytes, WriteError>)
  {
    match body
    case NoBody => Ok([])
    case Raw(data) => Ok(data)
    case BeginRequestBody(role, keep) =>
      Ok(PutUint16(EncodeRole(role)) + [if keep then 1 else 0, 0, 0, 0, 0, 0])
    case AbortRequestBody => Ok([])
    case EndRequestBody(appStatus, status) =>
      Ok(PutUint32(appStatus) + [EncodeStatus(status), 0, 0, 0])
    case GetValuesBody(names) => EncodePairsBody(PairsOfNames(names))
    case GetValuesResultBody(pairs) => EncodePairsBody(pairs)
    case UnknownTypeBody(t) => Ok([t, 0, 0, 0, 0, 0, 0, 0])
  }

  function EncodePairsBody(ps: seq<Pair>): (r: Result<bytes, WriteError>)
  {
    match EncodePairs(ps)
    case Err(e) => Err(BodyNotEncodable(e))
    case Ok(data) => if |data| > MAX_BODY then Err(BodyTooLarge) else Ok(data)
  }

  function DecodeBody(t: RecordType, data: bytes): (r: Result<Body, ReadError>)
  {
    match t
    case BeginRequest =>
      if |data| != 8 then Err(InvalidBodyLength)
      else (match DecodeRole(GetUint16(data))
            case None => Err(InvalidRole(GetUint16(data)))
            case Some(role) => Ok(BeginRequestBody(role, data[2] % 2 != 0)))
    case AbortRequest => Ok(AbortRequestBody)
    case EndRequest =>
      if |data| != 8 then Err(InvalidBodyLength)
      else (match DecodeStatus(data[4])
            case None => Err(InvalidProtocolStatus(data[4]))
            case Some(status) => Ok(EndRequestBody(GetUint32(data), status)))
    case GetValues =>
      (match DecodePairs(data)
       case Err(e) => Err(InvalidPairs(e))
       case Ok(ps) => Ok(GetValuesBody(NamesOfPairs(ps))))
    case GetValuesResult =>
      (match DecodePairs(data)
       case Err(e) => Err(InvalidPairs(e))
       case Ok(ps) => Ok(GetValuesResultBody(ps)))
    case UnknownType =>
      if |data| != 8 then Err(InvalidBodyLength) else Ok(UnknownTypeBody(data[0]))
    case _ => Ok(Raw(data))
  }

  /** The header declares the body length modulo 2^16: stream bodies are not checked before that. */
  function RecordHeader(r: Record, bodyLength: nat, padding: byte, reserved: byte): (h: bytes)
    ensures |h| == HEADER_SIZE
  {
    [r.version, EncodeRecordType(r.recordType)] + PutUint16(r.requestId)
    + PutUint16(bodyLength % 0x1_0000) + [padding, reserved]
  }

  function WriteRecord(r: Record): (w: Result<bytes, WriteError>)
  {
    match EncodeBody(r.body)
    case Err(e) => Err(e)
    case Ok(data) => Ok(RecordHeader(r, |data|, 0, 0) + data)
  }

  /** Reads one record from what is left of a connection, and returns what is left then. */
  function ReadRecord(input: bytes): (r: Result<(Record, bytes), ReadError>)
    ensures r.Ok? ==> |r.value.1| + HEADER_SIZE <= |input|
  {
    if |input| < HEADER_SIZE then Err(TruncatedHeader)
    else if input[0] != 1 then Err(UnhandledVersion(input[0]))
    else match DecodeRecordType(input[1])
      case None => Err(InvalidRecordType(input[1]))
      case Some(t) =>
        var contentLength, paddingLength := GetUint16(input[4..]), input[6];
        var bodyLength: int := contentLength + paddingLength as int;
        if |input| < HEADER_SIZE + bodyLength then Err(TruncatedBody)
        else match DecodeBody(t, input[HEADER_SIZE..HEADER_SIZE + contentLength])
          case Err(e) => Err(e)
          case Ok(body) =>
            Ok((Record(input[0], t, GetUint16(input[2..]), body), input[HEADER_SIZE + bodyLength..]))
  }

  /** Reading identifies an absent body with an empty stream body. */
  function Canonical(r: Record): (c: Record)
  {
    if r.body.NoBody? then r.(body := Raw([])) else r
  }

  predicate BodyMatches(t: RecordType, body: Body)
  {
    match body
    case NoBody => IsStreamType(t)
    case Raw(_) => IsStreamType(t)
    case BeginRequestBody(_, _) => t.BeginRequest?
    case AbortRequestBody => t.AbortRequest?
    case EndRequestBody(_, _) => t.EndRequest?
    case GetValuesBody(_) => t.GetValues?
    case GetValuesResultBody(_) => t.GetValuesResult?
    case UnknownTypeBody(_) => t.UnknownType?
  }

  /** The records that survive the wire. */
  predicate Readable(r: Record)
  {
    && r.version == 1
    && BodyMatches(r.recordType, r.body)
    && EncodeBody(r.body).Ok?
    && |EncodeBody(r.body).value| <= MAX_BODY
  }

  lemma RecordTypeRoundTrip(t: RecordType)
    ensures DecodeRecordType(EncodeRecordType(t)) == Some(t)
  {
  }

  lemma BeginRequestRoundTrip(role: Role, keep: bool)
    ensures DecodeBody(BeginRequest, EncodeBody(BeginRequestBody(role, keep)).value) == Ok(BeginRequestBody(role, keep))
  {
    var rest: bytes := [if keep then 1 else 0, 0, 0, 0, 0, 0];
    Uint16RoundTrip(EncodeRole(role), rest);
    assert (PutUint16(EncodeRole(role)) + rest)[2] == rest[0];
  }

  lemma EndRequestRoundTrip(appStatus: uint32, status: ProtocolStatus)
    ensures DecodeBody(EndRequest, EncodeBody(EndRequestBody(appStatus, status)).value)
         == Ok(EndRequestBody(appStatus, status))
  {
    var rest := [EncodeStatus(status), 0, 0, 0];
    Uint32RoundTrip(appStatus, rest);
    assert (PutUint32(appStatus) + rest)[4] == rest[0];
  }

  lemma MatchingBodyRoundTrip(t: RecordType, body: Body)
    requires EncodeBody(body).Ok? && |EncodeBody(body).value| <= MAX_BODY && BodyMatches(t, body)
    ensures DecodeBody(t, EncodeBody(body).value) == Ok(if body.NoBody? then Raw([]) else body)
  {
    match body
    case BeginRequestBody(role, keep) => BeginRequestRoundTrip(role, keep);
    case EndRequestBody(appStatus, status) => EndRequestRoundTrip(appStatus, status);
    case GetValuesBody(names) =>
      PairsBodyRoundTrip(PairsOfNames(names));
      assert NamesOfPairs(PairsOfNames(names)) == names;
    case GetValuesResultBody(ps) => PairsBodyRoundTrip(ps);
    case _ =>
  }

  /** A decoded body is of the kind of its record type. */
  lemma DecodedKind(t: RecordType, data: bytes)
    ensures DecodeBody(t, data).Ok? ==> BodyMatches(t, DecodeBody(t, data).value)
  {
  }

  /** A body that EncodeBody produces decodes to itself exactly under a record type of its own kind. */
  lemma BodyRoundTrip(t: RecordType, body: Body)
    requires EncodeBody(body).Ok? && |EncodeBody(body).value| <= MAX_BODY
    ensures DecodeBody(t, EncodeBody(body).value) == Ok(if body.NoBody? then Raw([]) else body)
            <==> BodyMatches(t, body)
  {
    DecodedKind(t, EncodeBody(body).value);
    if BodyMatches(t, body) {
      MatchingBodyRoundTrip(t, body);
    }
  }

  /** A body of pairs is short enough for all of them to fit. */
  lemma PairsBodyRoundTrip(ps: seq<Pair>)
    requires EncodePairs(ps).Ok? && |EncodePairs(ps).value| <= MAX_BODY
    ensures DecodePairs(EncodePairs(ps).value) == Ok(ps)
  {
    PairsRoundTrip(ps);
    EncodedLengths(ps);
    SmallPairsFit(ps);
  }

  /** An encoding is at least as long as each name and each value in it. */
  lemma {:induction false} EncodedLengths(ps: seq<Pair>)
    requires EncodePairs(ps).Ok?
    ensures forall p <- ps :: |p.name| + |p.value| <= |EncodePairs(ps).value|
  {
    if ps != [] {
      EncodedLengths(ps[1..]);
      assert ps == [ps[0]] + ps[1..];
      assert |EncodePairs(ps).value| == |EncodePair(ps[0]).value| + |EncodePairs(ps[1..]).value|;
    }
  }

  /** The slices that Record.Read takes of a header followed by body, padding and more input. */
  lemma HeaderFields(r: Record, bodyLength: nat, padding: byte, reserved: byte, tail: bytes)
    ensures var input := RecordHeader(r, bodyLength, padding, reserved) + tail;
            && input[0] == r.version && input[1] == EncodeRecordType(r.recordType)
            && GetUint16(input[2..]) == r.requestId
            && GetUint16(input[4..]) == bodyLength % 0x1_0000
            && input[6] == padding
            && input[HEADER_SIZE..] == tail
  {
    var input := RecordHeader(r, bodyLength, padding, reserved) + tail;
    assert input[2..][..2] == PutUint16(r.requestId);
    assert input[4..][..2] == PutUint16(bodyLength % 0x1_0000);
    Uint16RoundTrip(r.requestId, []);
    Uint16RoundTrip(bodyLength % 0x1_0000, []);
  }

  /** Record.Read after its header: it takes the declared body, and skips the declared padding. */
  lemma ReadAfterHeader(r: Record, bodyLength: nat, padding: byte, reserved: byte, tail: bytes)
    requires r.version == 1 && |tail| >= bodyLength % 0x1_0000 + padding
    ensures ReadRecord(RecordHeader(r, bodyLength, padding, reserved) + tail)
         == match DecodeBody(r.recordType, tail[..bodyLength % 0x1_0000])
            case Err(e) => Err(e)
            case Ok(body) => Ok((r.(body := body), tail[bodyLength % 0x1_0000 + padding..]))
  {
    var input := RecordHeader(r, bodyLength, padding, reserved) + tail;
    var n := bodyLength % 0x1_0000;
    HeaderFields(r, bodyLength, padding, reserved, tail);
    RecordTypeRoundTrip(r.recordType);
    assert input[HEADER_SIZE..HEADER_SIZE + n] == tail[..n];
    assert input[HEADER_SIZE + (n + padding)..] == tail[n + padding..];
  }

  /** A record whose header declares its body and padding is read as the decoded body. */
  lemma ReadPadded(r: Record, data: bytes, padding: bytes, reserved: byte, rest: bytes, body: Body)
    requires r.version == 1 && |data| <= MAX_BODY && |padding| < 256
    requires DecodeBody(r.recordType, data) == Ok(body)
    ensures ReadRecord(RecordHeader(r, |data|, |padding|, reserved) + (data + padding + rest))
         == Ok((r.(body := body), rest))
  {
    var tail := data + padding + rest;
    PartsOfTail(data, padding, rest);
    assert |data| % 0x1_0000 == |data|;
    ReadAfterHeader(r, |data|, |padding|, reserved, tail);
  }

  lemma PartsOfTail(data: bytes, padding: bytes, rest: bytes)
    ensures var tail := data + padding + rest;
            tail[..|data|] == data && tail[|data| + |padding|..] == rest
  {
  }

  lemma CanonicalBody(r: Record)
    requires Readable(r)
    ensures DecodeBody(r.recordType, EncodeBody(r.body).value) == Ok(Canonical(r).body)
  {
    BodyRoundTrip(r.recordType, r.body);
  }

  lemma UnreadableRecord(r: Record, data: bytes, rest: bytes)
    requires EncodeBody(r.body) == Ok(data) && !Readable(r)
    ensures ReadRecord(RecordHeader(r, |data|, 0, 0) + (data + rest)) != Ok((Canonical(r), rest))
  {
    if r.version != 1 {
      HeaderFields(r, |data|, 0, 0, data + rest);
    } else {
      ReadAfterHeader(r, |data|, 0, 0, data + rest);
      if |data| <= MAX_BODY {
        assert (data + rest)[..|data| % 0x1_0000] == data;
        BodyRoundTrip(r.recordType, r.body);
      } else {
        assert |(data + rest)[|data| % 0x1_0000..]| != |rest|;
      }
    }
  }

  /** Record.Read undoes Record.Write, whatever follows, exactly on the readable records. */
  lemma RecordRoundTrip(r: Record, rest: bytes)
    requires WriteRecord(r).Ok?
    ensures ReadRecord(WriteRecord(r).value + rest) == Ok((Canonical(r), rest)) <==> Readable(r)
  {
    var data := EncodeBody(r.body).value;
    assert WriteRecord(r).value + rest == RecordHeader(r, |data|, 0, 0) + (data + rest);
    if Readable(r) {
      CanonicalBody(r);
      ReadPadded(r, data, [], 0, rest, Canonical(r).body);
      assert data + [] == data;
    } else {
      UnreadableRecord(r, data, rest);
    }
  }

  /** A stream body of 2^16 bytes is written without error, and is not read back. */
  lemma LargeBodyIsLost(r: Record, rest: bytes)
    requires r.body == Raw(seq(0x1_0000, i => 0))
    ensures WriteRecord(r).Ok? && ReadRecord(WriteRecord(r).value + rest) != Ok((r, rest))
  {
    RecordRoundTrip(r, rest);
  }

  /** A record as a peer may send it: with declared padding, and any reserved byte. */
  datatype Frame = Frame(record: Record, padding: bytes, reserved: byte)

  predicate ValidFrame(f: Frame)
  {
    Readable(f.record) && |f.padding| < 256
  }

  function FrameBytes(f: Frame): (b: bytes)
    requires ValidFrame(f)
    ensures |b| >= HEADER_SIZE
  {
    var data := EncodeBody(f.record.body).value;
    RecordHeader(f.record, |data|, |f.padding|, f.reserved) + data + f.padding
  }

  function WireBytes(frames: seq<Frame>): (b: bytes)
    requires forall f <- frames :: ValidFrame(f)
  {
    if frames == [] then [] else FrameBytes(frames[0]) + WireBytes(frames[1..])
  }

  function FrameRecords(frames: seq<Frame>): (rs: seq<Record>)
    ensures |rs| == |frames|
  {
    seq(|frames|, i requires 0 <= i < |frames| => Canonical(frames[i].record))
  }

  /** What Record.Write emits is the frame without padding. */
  lemma WrittenFrame(r: Record)
    requires Readable(r)
    ensures WriteRecord(r) == Ok(FrameBytes(Frame(r, [], 0)))
  {
    var data := EncodeBody(r.body).value;
    assert RecordHeader(r, |data|, 0, 0) + data + [] == RecordHeader(r, |data|, 0, 0) + data;
  }

  lemma ReadFrame(f: Frame, rest: bytes)
    requires ValidFrame(f)
    ensures ReadRecord(FrameBytes(f) + rest) == Ok((Canonical(f.record), rest))
  {
    var r, data := f.record, EncodeBody(f.record.body).value;
    var header := RecordHeader(r, |data|, |f.padding|, f.reserved);
    CanonicalBody(r);
    ReadPadded(r, data, f.padding, f.reserved, rest, Canonical(r).body);
    assert header + data + f.padding + rest == header + (data + f.padding + rest);
  }

  /** Repeated Record.Read until the input is exhausted. */
  function ReadAll(input: bytes): (r: Result<seq<Record>, ReadError>)
    decreases |input|
  {
    if input == [] then Ok([])
    else match ReadRecord(input)
      case Err(e) => Err(e)
      case Ok((record, rest)) =>
        Prefixed([record], ReadAll(rest))
  }

  /** Repeated reading gives back every record written, however it was padded. */
  lemma {:induction false} ReadAllFrames(frames: seq<Frame>)
    requires forall f <- frames :: ValidFrame(f)
    ensures ReadAll(WireBytes(frames)) == Ok(FrameRecords(frames))
  {
    if frames != [] {
      ReadFrame(frames[0], WireBytes(frames[1..]));
      ReadAllFrames(frames[1..]);
      assert FrameRecords(frames) == [Canonical(frames[0].record)] + FrameRecords(frames[1..]);
    } else {
      assert FrameRecords(frames) == [];
    }
  }

  /** What is left of the input is its end. */
  lemma {:induction false} ReadLeavesSuffix(input: bytes)
    requires ReadRecord(input).Ok?
    ensures var rest := ReadRecord(input).value.1; |rest| < |input| && input[|input| - |rest|..] == rest
  {
  }

  /** A frame of which something is missing is not read as any record. */
  lemma {:induction false} CutFrame(f: Frame, k: nat)
    requires ValidFrame(f) && k < |FrameBytes(f)|
    ensures ReadRecord(FrameBytes(f)[..k]) == Err(if k < HEADER_SIZE then TruncatedHeader else TruncatedBody)
  {
    if k >= HEADER_SIZE {
      var r, data := f.record, EncodeBody(f.record.body).value;
      var header := RecordHeader(r, |data|, |f.padding|, f.reserved);
      var tail := (data + f.padding)[..k - HEADER_SIZE];
      assert FrameBytes(f)[..k] == header + tail;
      CutBody(r, |data|, |f.padding|, f.reserved, tail);
    }
  }

  lemma {:induction false} CutBody(r: Record, bodyLength: nat, padding: byte, reserved: byte, tail: bytes)
    requires r.version == 1 && bodyLength <= MAX_BODY && |tail| < bodyLength + padding
    ensures ReadRecord(RecordHeader(r, bodyLength, padding, reserved) + tail) == Err(TruncatedBody)
  {
    HeaderFields(r, bodyLength, padding, reserved, tail);
    RecordTypeRoundTrip(r.recordType);
    assert bodyLength % 0x1_0000 == bodyLength;
  }

  /** The codes of the standard (section 8 of FastCGI 1.0), in order from one on, and no others. */
  lemma {:induction false} RecordTypeCodes(code: byte)
    ensures var types := [BeginRequest, AbortRequest, EndRequest, Params, Stdin, Stdout, Stderr, Data, GetValues,
                          GetValuesResult, UnknownType];
            && DecodeRecordType(code) == (if 1 <= code <= 11 then Some(types[code - 1]) else None)
            && (1 <= code <= 11 ==> EncodeRecordType(types[code - 1]) == code)
  {
  }

  lemma {:induction false} RoleCodes(code: uint16)
    ensures var roles := [Responder, Authorizer, Filter];
            && DecodeRole(code) == (if 1 <= code <= 3 then Some(roles[code - 1]) else None)
            && (1 <= code <= 3 ==> EncodeRole(roles[code - 1]) == code)
  {
  }

  lemma {:induction false} StatusCodes(code: byte)
    ensures var statuses := [RequestComplete, CannotMultiplexConnection, Overloaded, UnknownRole];
            && DecodeStatus(code) == (if code <= 3 then Some(statuses[code]) else None)
            && (code <= 3 ==> EncodeStatus(statuses[code]) == code)
  {
  }

  /** The bytes of a record on the wire (section 3.3 of FastCGI 1.0), numbers with their high byte first. */
  lemma {:induction false} WireLayout(r: Record)
    requires Readable(r)
    ensures var data := EncodeBody(r.body).value;
            WriteRecord(r) == Ok([1, EncodeRecordType(r.recordType), r.requestId / 256, r.requestId % 256,
                                  |data| / 256, |data| % 256, 0, 0] + data)
  {
    var data := EncodeBody(r.body).value;
    assert |data| % 0x1_0000 == |data|;
    assert RecordHeader(r, |data|, 0, 0)
        == [1, EncodeRecordType(r.recordType), r.requestId / 256, r.requestId % 256, |data| / 256, |data| % 256, 0, 0];
  }

  /** Bodies of fixed length: which bytes are a request's begin or end, or an unknown type. */
  lemma {:induction false} FixedBodies(t: RecordType, data: bytes)
    requires t.BeginRequest? || t.EndRequest? || t.UnknownType?
    ensures |data| != 8 ==> DecodeBody(t, data) == Err(InvalidBodyLength)
    ensures |data| == 8 && t.BeginRequest? ==>
              var b: seq<int> := data;
              var code := b[0] * 256 + b[1];
              DecodeBody(t, data) == if 1 <= code <= 3
                                     then Ok(BeginRequestBody([Responder, Authorizer, Filter][code - 1], data[2] % 2 == 1))
                                     else Err(InvalidRole(code))
    ensures |data| == 8 && t.EndRequest? ==>
              var b: seq<int> := data;
              DecodeBody(t, data) ==
              if data[4] <= 3
              then Ok(EndRequestBody(b[0] * 0x100_0000 + b[1] * 0x1_0000 + b[2] * 0x100 + b[3],
                                     [RequestComplete, CannotMultiplexConnection, Overloaded, UnknownRole][data[4]]))
              else Err(InvalidProtocolStatus(data[4]))
    ensures |data| == 8 && t.UnknownType? ==> DecodeBody(t, data) == Ok(UnknownTypeBody(data[0]))
  {
    if |data| == 8 {
      var high: int, low: int := data[0], data[1];
      assert GetUint16(data) == high * 256 + low;
      assert data[2..][0] == data[2] && data[2..][1] == data[3];
    }
  }

  /** A list of pairs is written only when its encoding fits the length field. */
  lemma {:induction false} PairBodiesAreChecked(ps: seq<Pair>)
    ensures EncodeBody(GetValuesResultBody(ps)).Ok? <==> EncodePairs(ps).Ok? && |EncodePairs(ps).value| <= 65535
  {
  }

  /** The reserved bytes of a body of fixed length are written as zeros. */
  lemma {:induction false} ReservedAreZero(b: Body, k: nat)
    requires b.BeginRequestBody? || b.EndRequestBody? || b.UnknownTypeBody?
    ensures |EncodeBody(b).value| == 8
    ensures (if b.BeginRequestBody? then 3 else if b.EndRequestBody? then 5 else 1) <= k < 8
            ==> EncodeBody(b).value[k] == 0
    ensures b.BeginRequestBody? ==> EncodeBody(b).value[2] == if b.keepConnection then 1 else 0
  {
    if b.BeginRequestBody? {
      assert |PutUint16(EncodeRole(b.role))| == 2;
    } else if b.EndRequestBody? {
      assert |PutUint32(b.appStatus)| == 4;
    }
  }

  /** A header is refused for its version first, and then for its type, whatever else it says. */
  lemma {:induction false} HeaderRefused(input: bytes)
    ensures |input| >= 8 && input[0] != 1 ==> ReadRecord(input) == Err(UnhandledVersion(input[0]))
    ensures |input| >= 8 && input[0] == 1 && (input[1] == 0 || input[1] > 11)
            ==> ReadRecord(input) == Err(InvalidRecordType(input[1]))
    ensures ReadRecord(input).Ok? ==> |input| >= 8 && input[0] == 1 && 1 <= input[1] <= 11
  {
  }
}
