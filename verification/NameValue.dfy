/**
  The name/value codec of FastCGI 1.0 (section 3.4): a pair is two lengths, each one byte
  below 128 and four bytes otherwise, followed by the name and the value.
 */
module NameValue {
  import opened Results
  import opened Bytes
  import opened Sequences

  const MAX_UINT32 := 0xFFFF_FFFF
  const LENGTH_BOUND := 0x8000_0000
  const WORD := 0x1_0000_0000

  datatype Pair = Pair(name: bytes, value: bytes)

  datatype CodecError =
    | LengthTooLarge(n: nat)
    | TruncatedLength
    | TruncatedLongLength
    | TruncatedName
    | TruncatedValue

  /** The encoder ORs the top bit into the first byte, so it is lost when it was already set. */
  function SetTopBit(b: byte): (r: byte)
    ensures 128 <= r && (r == b || r == b + 128)
  {
    if b < 128 then b + 128 else b
  }

  function EncodeLength(n: nat): (r: Result<bytes, CodecError>)
  {
    if n > MAX_UINT32 then Err(LengthTooLarge(n))
    else if n < 128 then Ok([n])
    else
      var word := PutUint32(n);
      Ok([SetTopBit(word[0])] + word[1..])
  }

  function DecodeLength(data: bytes): (r: Result<(uint32, bytes), CodecError>)
    ensures r.Ok? ==> r.value.0 < LENGTH_BOUND && |r.value.1| < |data|
  {
    if data == [] then Err(TruncatedLength)
    else if data[0] < 128 then Ok((data[0], data[1..]))
    else if |data| < 4 then Err(TruncatedLongLength)
    else Ok((GetUint32([data[0] - 128] + data[1..4]), data[4..]))
  }

  function EncodePair(p: Pair): (r: Result<bytes, CodecError>)
  {
    match EncodeLength(|p.name|)
    case Err(e) => Err(e)
    case Ok(nameLength) =>
      match EncodeLength(|p.value|)
      case Err(e) => Err(e)
      case Ok(valueLength) => Ok(nameLength + valueLength + p.name + p.value)
  }

  /** The name and the value behind their lengths. */
  function TakePair(body: bytes, nameLength: nat, valueLength: nat): (r: Result<(Pair, bytes), CodecError>)
    ensures r.Ok? ==> |r.value.1| <= |body|
  {
    if |body| % WORD < nameLength then Err(TruncatedName)
    else
      var rest := body[nameLength..];
      if |rest| % WORD < valueLength then Err(TruncatedValue)
      else Ok((Pair(body[..nameLength], rest[..valueLength]), rest[valueLength..]))
  }

  /**
    Reads one pair and returns what follows it. The length tests compare a 32-bit length with the
    remaining length truncated to 32 bits.
   */
  function DecodePair(data: bytes): (r: Result<(Pair, bytes), CodecError>)
    ensures r.Ok? ==> |r.value.1| + 2 <= |data|
  {
    match DecodeLength(data)
    case Err(e) => Err(e)
    case Ok((nameLength, afterName)) =>
      match DecodeLength(afterName)
      case Err(e) => Err(e)
      case Ok((valueLength, body)) =>
        TakePair(body, nameLength, valueLength)
  }

  function EncodePairs(ps: seq<Pair>): (r: Result<bytes, CodecError>)
  {
    if ps == [] then Ok([])
    else match EncodePair(ps[0])
      case Err(e) => Err(e)
      case Ok(first) =>
        Prefixed(first, EncodePairs(ps[1..]))
  }

  function DecodePairs(data: bytes): (r: Result<seq<Pair>, CodecError>)
    decreases |data|
  {
    if data == [] then Ok([])
    else match DecodePair(data)
      case Err(e) => Err(e)
      case Ok((p, rest)) =>
        Prefixed([p], DecodePairs(rest))
  }

  /** The encoding loop: pairs are appended to one buffer, the first failure wins. */
  method EncodePairList(ps: seq<Pair>) returns (r: Result<bytes, CodecError>)
    ensures r == EncodePairs(ps)
  {
    var buf: bytes := [];
    PrefixedNone(EncodePairs(ps));
    assert ps[0..] == ps;
    for i := 0 to |ps|
      invariant EncodePairs(ps) == Prefixed(buf, EncodePairs(ps[i..]))
    {
      assert ps[i..][1..] == ps[i + 1..];
      match EncodePair(ps[i])
      case Err(e) =>
        return Err(e);
      case Ok(bs) =>
        PrefixedTwice(buf, bs, EncodePairs(ps[i + 1..]));
        buf := buf + bs;
    }
    assert buf + [] == buf;
    return Ok(buf);
  }

  /** The decoding loop: it consumes the whole input and stops at the first malformed pair. */
  method DecodePairList(input: bytes) returns (r: Result<seq<Pair>, CodecError>)
    ensures r == DecodePairs(input)
  {
    var data, ps := input, [];
    PrefixedNone(DecodePairs(input));
    while |data| > 0
      invariant DecodePairs(input) == Prefixed(ps, DecodePairs(data))
      decreases |data|
    {
      match DecodePair(data)
      case Err(e) =>
        return Err(e);
      case Ok((p, rest)) =>
        PrefixedTwice(ps, [p], DecodePairs(rest));
        ps, data := ps + [p], rest;
    }
    assert ps + [] == ps;
    return Ok(ps);
  }

  /** What a length field carries: the top bit is lost. */
  function Carried(n: nat): (m: nat)
    requires n <= MAX_UINT32
  {
    if n < LENGTH_BOUND then n else n - LENGTH_BOUND
  }

  /** Without its top bit, a number keeps its lower half, and its upper half loses that bit. */
  lemma {:induction false} CarriedHalves(n: uint32)
    ensures Carried(n) % 0x1_0000 == n % 0x1_0000
    ensures Carried(n) / 0x1_0000 == if n < LENGTH_BOUND then n / 0x1_0000 else n / 0x1_0000 - 0x8000
  {
  }

  lemma {:induction false} TopBitOfHalf(high: uint16)
    ensures SetTopBit(high / 0x100) - 128 == (if high < 0x8000 then high else high - 0x8000) / 0x100
    ensures high % 0x100 == (if high < 0x8000 then high else high - 0x8000) % 0x100
  {
  }

  /** Setting the top bit and taking it off again leaves the number that the length field carries. */
  lemma {:induction false} TopBit(n: uint32)
    ensures var word := PutUint32(n); [SetTopBit(word[0]) - 128] + word[1..] == PutUint32(Carried(n))
  {
    CarriedHalves(n);
    TopBitOfHalf(n / 0x1_0000);
    var word := PutUint32(n);
    assert word[0] == n / 0x1_0000 / 0x100;
    assert word[1..] == [n / 0x1_0000 % 0x100] + PutUint16(n % 0x1_0000);
  }

  /** The lengths below 2^31 are exactly those that the 31-bit length field carries. */
  lemma {:induction false} LengthRoundTrip(n: nat, rest: bytes)
    requires n <= MAX_UINT32
    ensures EncodeLength(n).Ok?
    ensures DecodeLength(EncodeLength(n).value + rest) == Ok((Carried(n), rest))
  {
    if n >= 128 {
      LongLengthRoundTrip(n, PutUint32(n), rest);
    }
  }

  lemma {:induction false} LongLengthRoundTrip(n: uint32, word: bytes, rest: bytes)
    requires n >= 128 && word == PutUint32(n)
    ensures DecodeLength(([SetTopBit(word[0])] + word[1..]) + rest) == Ok((Carried(n), rest))
  {
    var data := ([SetTopBit(word[0])] + word[1..]) + rest;
    TopBit(n);
    assert [data[0] - 128] + data[1..4] == [SetTopBit(word[0]) - 128] + word[1..];
    Uint32RoundTrip(Carried(n), []);
    assert PutUint32(Carried(n)) + [] == PutUint32(Carried(n));
    assert data[4..] == rest;
  }

  /** Whether a pair followed by `restLength` more bytes can be read back. */
  predicate Fits(p: Pair, restLength: nat)
  {
    && |p.name| < LENGTH_BOUND && |p.value| < LENGTH_BOUND
    && |p.name| <= (|p.name| + |p.value| + restLength) % WORD
    && |p.value| <= (|p.value| + restLength) % WORD
  }

  lemma {:induction false} DecodedLengths(p: Pair, rest: bytes)
    requires EncodePair(p).Ok?
    ensures DecodePair(EncodePair(p).value + rest)
         == TakePair(p.name + p.value + rest, Carried(|p.name|), Carried(|p.value|))
  {
    var nameLength, valueLength := EncodeLength(|p.name|).value, EncodeLength(|p.value|).value;
    var body := p.name + p.value + rest;
    assert EncodePair(p).value + rest == nameLength + (valueLength + body);
    LengthRoundTrip(|p.name|, valueLength + body);
    LengthRoundTrip(|p.value|, body);
  }

  /**
    Decoding an encoded pair gives it back, with what followed it, exactly when it fits;
    otherwise it fails or gives another pair.
   */
  lemma {:induction false} PairRoundTrip(p: Pair, rest: bytes)
    requires EncodePair(p).Ok?
    ensures var r := DecodePair(EncodePair(p).value + rest);
            && (r == Ok((p, rest)) <==> Fits(p, |rest|))
            && (Fits(p, |rest|) <==> r.Ok? && r.value.0 == p)
  {
    DecodedLengths(p, rest);
    TakeCarried(p, rest);
  }

  lemma {:induction false} TakeCarried(p: Pair, rest: bytes)
    requires |p.name| <= MAX_UINT32 && |p.value| <= MAX_UINT32
    ensures var r := TakePair(p.name + p.value + rest, Carried(|p.name|), Carried(|p.value|));
            && (r == Ok((p, rest)) <==> Fits(p, |rest|))
            && (Fits(p, |rest|) <==> r.Ok? && r.value.0 == p)
  {
    if |p.name| < LENGTH_BOUND && |p.value| < LENGTH_BOUND {
      TakeWhole(p, rest);
    } else {
      TakeLess(p, rest);
    }
  }

  lemma {:induction false} TakeWhole(p: Pair, rest: bytes)
    ensures var r := TakePair(p.name + p.value + rest, |p.name|, |p.value|);
            if |p.name| <= (|p.name| + |p.value| + |rest|) % WORD && |p.value| <= (|p.value| + |rest|) % WORD
            then r == Ok((p, rest)) else r.Err?
  {
    CutPair(p, rest);
  }

  lemma {:induction false} TakeLess(p: Pair, rest: bytes)
    requires |p.name| <= MAX_UINT32 && |p.value| <= MAX_UINT32
    requires |p.name| >= LENGTH_BOUND || |p.value| >= LENGTH_BOUND
    ensures var r := TakePair(p.name + p.value + rest, Carried(|p.name|), Carried(|p.value|));
            r.Ok? ==> r.value.0 != p
  {
  }

  lemma CutPair(p: Pair, rest: bytes)
    ensures var body := p.name + p.value + rest;
            && body[..|p.name|] == p.name
            && body[|p.name|..] == p.value + rest
            && (p.value + rest)[..|p.value|] == p.value
            && (p.value + rest)[|p.value|..] == rest
  {
  }

  /** A name of 2^31 bytes is encoded without error, and is not read back. */
  lemma LongNameIsLost(value: bytes, rest: bytes)
    requires |value| < LENGTH_BOUND
    ensures var p := Pair(seq(LENGTH_BOUND, i => 0), value);
            EncodePair(p).Ok? && DecodePair(EncodePair(p).value + rest) != Ok((p, rest))
  {
    var p := Pair(seq(LENGTH_BOUND, i => 0), value);
    LengthRoundTrip(|p.name|, []);
    LengthRoundTrip(|p.value|, []);
    PairRoundTrip(p, rest);
  }

  /** Every pair of the list fits before the encoding of the pairs that follow it. */
  predicate AllFit(ps: seq<Pair>)
    requires EncodePairs(ps).Ok?
  {
    ps == [] || (Fits(ps[0], |EncodePairs(ps[1..]).value|) && AllFit(ps[1..]))
  }

  /** List decoding inverts list encoding exactly on the lists whose pairs all fit. */
  lemma {:induction false} PairsRoundTrip(ps: seq<Pair>)
    requires EncodePairs(ps).Ok?
    ensures DecodePairs(EncodePairs(ps).value) == Ok(ps) <==> AllFit(ps)
  {
    if ps != [] {
      var p, rest := ps[0], EncodePairs(ps[1..]).value;
      PairRoundTrip(p, rest);
      PairsRoundTrip(ps[1..]);
      var data := EncodePairs(ps).value;
      if DecodePairs(data) == Ok(ps) {
        var (q, tail) := DecodePair(data).value;
        assert DecodePairs(tail).Ok? && ps == [q] + DecodePairs(tail).value;
        assert q == ps[0];
        assert ([q] + DecodePairs(tail).value)[1..] == DecodePairs(tail).value;
      }
      assert [p] + ps[1..] == ps;
    }
  }

  /** Below 4 GiB, lengths under 2^31 are all a list needs. */
  lemma {:induction false} SmallPairsFit(ps: seq<Pair>)
    requires EncodePairs(ps).Ok? && |EncodePairs(ps).value| < WORD
    ensures AllFit(ps) <==> forall p <- ps :: |p.name| < LENGTH_BOUND && |p.value| < LENGTH_BOUND
  {
    if ps != [] {
      var first, rest := EncodePair(ps[0]).value, EncodePairs(ps[1..]).value;
      assert EncodePairs(ps).value == first + rest;
      assert |first| >= |ps[0].name| + |ps[0].value|;
      SmallPairsFit(ps[1..]);
      SmallFits(ps[0], |rest|);
      assert ps == [ps[0]] + ps[1..];
    }
  }

  lemma SmallFits(p: Pair, restLength: nat)
    requires |p.name| + |p.value| + restLength < WORD
    ensures Fits(p, restLength) <==> |p.name| < LENGTH_BOUND && |p.value| < LENGTH_BOUND
  {
  }

  /** The encoder picks the shortest length form that the decoder accepts for a value. */
  lemma ShortestLength(data: bytes)
    requires DecodeLength(data).Ok?
    ensures EncodeLength(DecodeLength(data).value.0).Ok?
    ensures |EncodeLength(DecodeLength(data).value.0).value| + |DecodeLength(data).value.1| <= |data|
  {
  }

  /**
    Whatever the decoder accepts re-encodes to a body that is no longer. It means the same exactly when
    all pairs fit before what now follows them, which is always so below 4 GiB.
   */
  lemma {:induction false} Reencode(data: bytes)
    requires DecodePairs(data).Ok?
    ensures EncodePairs(DecodePairs(data).value).Ok?
    ensures |EncodePairs(DecodePairs(data).value).value| <= |data|
    ensures var ps := DecodePairs(data).value;
            && (DecodePairs(EncodePairs(ps).value) == DecodePairs(data) <==> AllFit(ps))
            && (|data| < WORD ==> AllFit(ps))
    decreases |data|
  {
    var ps := DecodePairs(data).value;
    ReencodeBounds(data);
    PairsRoundTrip(ps);
    if |data| < WORD {
      SmallPairsFit(ps);
    }
  }

  lemma {:induction false} ReencodeBounds(data: bytes)
    requires DecodePairs(data).Ok?
    ensures EncodePairs(DecodePairs(data).value).Ok?
    ensures |EncodePairs(DecodePairs(data).value).value| <= |data|
    ensures forall p <- DecodePairs(data).value :: |p.name| < LENGTH_BOUND && |p.value| < LENGTH_BOUND
    decreases |data|
  {
    if data != [] {
      var (p, rest) := DecodePair(data).value;
      ShortestLength(data);
      var afterName := DecodeLength(data).value.1;
      ShortestLength(afterName);
      ReencodeBounds(rest);
      assert DecodePairs(data).value[1..] == DecodePairs(rest).value;
    }
  }
}
