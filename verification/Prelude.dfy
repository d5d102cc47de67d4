/** Results of operations that can fail, and of lookups that can miss. */
module Results {
  datatype Option<+T> = None | Some(value: T)
  {
    function GetOr(other: T): (v: T)
    {
      if None? then other else value
    }
  }

  datatype Result<+T, +E> = Ok(value: T) | Err(error: E)
}

/** What several components compute with. */
module Numbers {
  function Max(a: int, b: int): (m: int)
  {
    if a >= b then a else b
  }
}

/** The byte-level vocabulary of the wire protocols: octets and big-endian integers. */
module Bytes {
  type byte = x: int | 0 <= x < 256

  type bytes = seq<byte>

  type uint16 = x: int | 0 <= x < 0x1_0000

  type uint32 = x: int | 0 <= x < 0x1_0000_0000

  function PutUint16(n: uint16): (r: bytes)
    ensures |r| == 2
  {
    [n / 256, n % 256]
  }

  function GetUint16(b: bytes): (n: uint16)
    requires |b| >= 2
  {
    var high: int, low: int := b[0], b[1];
    high * 256 + low
  }

  function PutUint32(n: uint32): (r: bytes)
    ensures |r| == 4
  {
    PutUint16(n / 0x1_0000) + PutUint16(n % 0x1_0000)
  }

  function GetUint32(b: bytes): (n: uint32)
    requires |b| >= 4
  {
    GetUint16(b) * 0x1_0000 + GetUint16(b[2..])
  }

  lemma Uint16RoundTrip(n: uint16, rest: bytes)
    ensures GetUint16(PutUint16(n) + rest) == n
  {
  }

  lemma Uint32RoundTrip(n: uint32, rest: bytes)
    ensures GetUint32(PutUint32(n) + rest) == n
  {
    var b := PutUint32(n) + rest;
    assert b[2..] == PutUint16(n % 0x1_0000) + rest;
  }
}

/** Sequence operations that several components share. */
module Sequences {
  import opened Results

  /** The first position of an element, as Go's IndexByte finds it. */
  function IndexOf<T(==)>(s: seq<T>, x: T): (r: Option<nat>)
    ensures r.Some? ==> r.value < |s| && s[r.value] == x && forall i :: 0 <= i < r.value ==> s[i] != x
    ensures r.None? <==> x !in s
  {
    if s == [] then None
    else if s[0] == x then Some(0)
    else match IndexOf(s[1..], x)
      case None => None
      case Some(i) => Some(i + 1)
  }

  /** A first position is the only position with nothing equal before it. */
  lemma IndexOfIs<T>(s: seq<T>, x: T, i: nat)
    requires i < |s| && s[i] == x && forall j :: 0 <= j < i ==> s[j] != x
    ensures IndexOf(s, x) == Some(i)
  {
  }

  lemma IndexOfAppend<T>(s: seq<T>, t: seq<T>, x: T)
    requires x in s
    ensures IndexOf(s + t, x) == IndexOf(s, x)
  {
    IndexOfIs(s + t, x, IndexOf(s, x).value);
  }

  /** A result with more elements in front; failures stay as they are. */
  function Prefixed<T, E>(head: seq<T>, r: Result<seq<T>, E>): (p: Result<seq<T>, E>)
  {
    match r
    case Err(e) => Err(e)
    case Ok(tail) => Ok(head + tail)
  }

  lemma PrefixedTwice<T, E>(a: seq<T>, b: seq<T>, r: Result<seq<T>, E>)
    ensures Prefixed(a, Prefixed(b, r)) == Prefixed(a + b, r)
  {
    if r.Ok? {
      Associative(a, b, r.value);
    }
  }

  lemma PrefixedNone<T, E>(r: Result<seq<T>, E>)
    ensures Prefixed([], r) == r
  {
    if r.Ok? {
      assert [] + r.value == r.value;
    }
  }

  lemma Associative<T>(a: seq<T>, b: seq<T>, c: seq<T>)
    ensures a + b + c == a + (b + c)
  {
  }

  function Flatten<T>(parts: seq<seq<T>>): (r: seq<T>)
  {
    if parts == [] then [] else parts[0] + Flatten(parts[1..])
  }

  /** Go's strings.Split for a one-element separator: never empty. */
  function Split<T(==)>(s: seq<T>, sep: T): (parts: seq<seq<T>>)
    ensures |parts| >= 1
    ensures forall p <- parts :: sep !in p
  {
    match IndexOf(s, sep)
    case None => [s]
    case Some(i) => [s[..i]] + Split(s[i + 1..], sep)
  }

  /** Go's strings.Join. */
  function Join<T>(parts: seq<seq<T>>, sep: seq<T>): (s: seq<T>)
  {
    if parts == [] then []
    else if |parts| == 1 then parts[0]
    else parts[0] + sep + Join(parts[1..], sep)
  }

  lemma {:induction false} SplitPrepend<T>(a: seq<T>, s: seq<T>, sep: T)
    requires sep !in a
    ensures Split(a + [sep] + s, sep) == [a] + Split(s, sep)
  {
    var w := a + [sep] + s;
    assert w[..|a|] == a;
    IndexOfIs(w, sep, |a|);
    assert w[|a| + 1..] == s;
  }

  /** Joining separator-free parts and splitting again gives them back. */
  lemma {:induction false} SplitJoin<T>(parts: seq<seq<T>>, sep: T)
    requires |parts| >= 1
    requires forall p <- parts :: sep !in p
    ensures Split(Join(parts, [sep]), sep) == parts
  {
    if |parts| > 1 {
      SplitJoin(parts[1..], sep);
      SplitPrepend(parts[0], Join(parts[1..], [sep]), sep);
      assert parts == [parts[0]] + parts[1..];
    }
  }

  /** Splitting and joining again gives the text back. */
  lemma {:induction false} JoinSplit<T>(s: seq<T>, sep: T)
    ensures Join(Split(s, sep), [sep]) == s
    decreases |s|
  {
    match IndexOf(s, sep)
    case None =>
    case Some(i) =>
      JoinSplit(s[i + 1..], sep);
      var parts := [s[..i]] + Split(s[i + 1..], sep);
      assert parts[1..] == Split(s[i + 1..], sep);
      assert s == s[..i] + [sep] + s[i + 1..];
  }

  /** Go's strings.TrimLeft and TrimRight for a cut set of single elements. */
  function TrimLeft<T(==)>(s: seq<T>, cut: set<T>): (r: seq<T>)
    ensures r == [] || r[0] !in cut
  {
    if s != [] && s[0] in cut then TrimLeft(s[1..], cut) else s
  }

  function TrimRight<T(==)>(s: seq<T>, cut: set<T>): (r: seq<T>)
    ensures r == [] || r[|r| - 1] !in cut
    ensures r <= s
  {
    if s != [] && s[|s| - 1] in cut then TrimRight(s[..|s| - 1], cut) else s
  }

  function Trim<T(==)>(s: seq<T>, cut: set<T>): (r: seq<T>)
    ensures r == [] || (r[0] !in cut && r[|r| - 1] !in cut)
  {
    TrimRight(TrimLeft(s, cut), cut)
  }

  lemma {:induction false} TrimShortens<T>(s: seq<T>, cut: set<T>)
    ensures |Trim(s, cut)| <= |s|
  {
    TrimLeftShortens(s, cut);
  }

  lemma {:induction false} TrimLeftShortens<T>(s: seq<T>, cut: set<T>)
    ensures |TrimLeft(s, cut)| <= |s|
    decreases |s|
  {
    if s != [] && s[0] in cut {
      TrimLeftShortens(s[1..], cut);
    }
  }

  lemma TrimFixed<T>(s: seq<T>, cut: set<T>)
    requires s == [] || (s[0] !in cut && s[|s| - 1] !in cut)
    ensures Trim(s, cut) == s
  {
  }

  predicate AllIn<T(==)>(s: seq<T>, cut: set<T>)
  {
    forall i :: 0 <= i < |s| ==> s[i] in cut
  }

  lemma TrimLeftCut<T>(a: seq<T>, s: seq<T>, cut: set<T>)
    requires AllIn(a, cut)
    ensures TrimLeft(a + s, cut) == TrimLeft(s, cut)
  {
    if a == [] {
      assert a + s == s;
    } else {
      assert (a + s)[1..] == a[1..] + s;
      TrimLeftCut(a[1..], s, cut);
    }
  }

  lemma TrimRightCut<T>(s: seq<T>, b: seq<T>, cut: set<T>)
    requires AllIn(b, cut)
    ensures TrimRight(s + b, cut) == TrimRight(s, cut)
  {
    if b == [] {
      assert s + b == s;
    } else {
      assert (s + b)[..|s + b| - 1] == s + b[..|b| - 1];
      TrimRightCut(s, b[..|b| - 1], cut);
    }
  }

  /** Trimming removes what surrounds a trimmed text, and nothing else. */
  lemma TrimAround<T>(before: seq<T>, s: seq<T>, after: seq<T>, cut: set<T>)
    requires AllIn(before, cut) && AllIn(after, cut) && Trim(s, cut) == s
    ensures Trim(before + s + after, cut) == s
  {
    Associative(before, s, after);
    TrimLeftCut(before, s + after, cut);
    TrimOneSide(s, after, cut);
  }

  lemma TrimOneSide<T>(s: seq<T>, after: seq<T>, cut: set<T>)
    requires AllIn(after, cut) && Trim(s, cut) == s
    ensures Trim(s + after, cut) == s
  {
    if s == [] {
      TrimLeftCut(after, [], cut);
      assert s + after == after + [];
    } else {
      assert (s + after)[0] == s[0];
      assert TrimLeft(s, cut) == s;
      TrimRightCut(s, after, cut);
    }
  }

  lemma {:induction false} TrimLeftSubset<T>(s: seq<T>, cut: set<T>)
    ensures forall x <- TrimLeft(s, cut) :: x in s
    decreases |s|
  {
    if s != [] && s[0] in cut {
      TrimLeftSubset(s[1..], cut);
    }
  }

  /** Trimming adds nothing, and trimming again removes nothing. */
  lemma TrimSubset<T>(s: seq<T>, cut: set<T>)
    ensures forall x <- Trim(s, cut) :: x in s
    ensures Trim(Trim(s, cut), cut) == Trim(s, cut)
  {
    TrimLeftSubset(s, cut);
    TrimFixed(Trim(s, cut), cut);
  }
}

/** The blanks of HTTP field values, as texts. */
module Texts {
  const BLANKS: set<char> := {' ', '\t'}
}
