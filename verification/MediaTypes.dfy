/** Media types and ranges: parsing, printing, and negotiation (section 12.5.1 of RFC 9110). */
module MediaTypes {
  import opened Results
  import opened Sequences
  import opened Texts

  datatype Parameter = Parameter(name: string, value: string)

  datatype MediaType = MediaType(mainType: string, subtype: string, parameters: seq<Parameter>)

  /** A range; an empty type or subtype is a wildcard. */
  datatype MediaRange = MediaRange(mainType: string, subtype: string, quality: real, parameters: seq<Parameter>)

  function ParseParameter(s: string): (r: Option<Parameter>)
  {
    match IndexOf(s, '=')
    case None => None
    case Some(equal) =>
      var name, value := Trim(s[..equal], BLANKS), Trim(s[equal + 1..], BLANKS);
      if name == "" || value == "" then None else Some(Parameter(name, value))
  }

  function ParseParameters(parts: seq<string>): (r: Option<seq<Parameter>>)
    ensures r.Some? ==> |r.value| == |parts|
  {
    if parts == [] then Some([])
    else
      var first, rest := ParseParameter(parts[0]), ParseParameters(parts[1..]);
      if first.None? || rest.None? then None else Some([first.value] + rest.value)
  }

  function ParseMediaType(s: string): (r: Option<MediaType>)
  {
    match IndexOf(s, '/')
    case None => None
    case Some(slash) =>
      var mainType, rest := Trim(s[..slash], BLANKS), s[slash + 1..];
      var semicolon := IndexOf(rest, ';');
      var subtype := Trim(if semicolon.None? then rest else rest[..semicolon.value], BLANKS);
      if mainType == "" || subtype == "" then None
      else if semicolon.None? then Some(MediaType(mainType, subtype, []))
      else match ParseParameters(Split(rest[semicolon.value + 1..], ';'))
        case None => None
        case Some(parameters) => Some(MediaType(mainType, subtype, parameters))
  }

  function ShowParameter(p: Parameter): (s: string)
  {
    p.name + "=" + p.value
  }

  function ShowParameters(ps: seq<Parameter>): (s: string)
  {
    if ps == [] then "" else [';'] + (ShowParameter(ps[0]) + ShowParameters(ps[1..]))
  }

  function ShowMediaType(t: MediaType): (s: string)
  {
    t.mainType + "/" + (t.subtype + ShowParameters(t.parameters))
  }

  lemma {:induction false} ShownSnoc(ps: seq<Parameter>, p: Parameter)
    ensures ShowParameters(ps + [p]) == ShowParameters(ps) + ([';'] + ShowParameter(p))
    decreases |ps|
  {
    if ps == [] {
      assert [p][1..] == [] && ShowParameters([p]) == [';'] + (ShowParameter(p) + ShowParameters([p][1..]));
    } else {
      assert (ps + [p])[1..] == ps[1..] + [p];
      ShownSnoc(ps[1..], p);
    }
  }

  lemma {:induction false} ParsedUpTo(parts: seq<string>, i: nat)
    requires i < |parts|
    ensures ParseParameter(parts[i]).None? ==> ParseParameters(parts).None?
    ensures ParseParameters(parts).Some? ==>
              ParseParameter(parts[i]).Some? && ParseParameters(parts).value[i] == ParseParameter(parts[i]).value
    decreases i
  {
    if i > 0 {
      ParsedUpTo(parts[1..], i - 1);
    }
  }

  lemma {:induction false} AllParsed(parts: seq<string>)
    requires forall part <- parts :: ParseParameter(part).Some?
    ensures ParseParameters(parts).Some?
  {
    if parts != [] {
      AllParsed(parts[1..]);
    }
  }

  /** What a failed parse leaves: the parts that were set before the failure. */
  function Unfinished(text: string, t: MediaType): (r: MediaType)
  {
    match IndexOf(text, '/')
    case None => t
    case Some(slash) =>
      var mainType, rest := Trim(text[..slash], BLANKS), text[slash + 1..];
      if mainType == "" then t
      else
        var subtype := Trim(rest[..IndexOf(rest, ';').GetOr(|rest|)], BLANKS);
        if subtype == "" then t.(mainType := mainType) else t.(mainType := mainType, subtype := subtype)
  }

  /** How far a failed parse gets: to the type, which a slash ends, and then to the subtype, unless they are blank. */
  lemma {:induction false} UnfinishedIs(text: string, t: MediaType, slash: nat, end: nat)
    requires '/' in text <==> slash < |text| && text[slash] == '/' && '/' !in text[..slash]
    requires slash < end <= |text| ==> ';' !in text[slash + 1..end] && (end == |text| || text[end] == ';')
    ensures '/' !in text ==> Unfinished(text, t) == t
    ensures '/' in text && slash < end <= |text| ==>
              var mainType, subtype := Trim(text[..slash], {' ', '\t'}), Trim(text[slash + 1..end], {' ', '\t'});
              Unfinished(text, t) == if mainType == "" then t
                                     else if subtype == "" then MediaType(mainType, t.subtype, t.parameters)
                                     else MediaType(mainType, subtype, t.parameters)
  {
    if '/' in text && slash < end <= |text| {
      IndexOfIs(text, '/', slash);
      var rest := text[slash + 1..];
      assert rest[..end - slash - 1] == text[slash + 1..end];
      if end < |text| {
        assert rest[end - slash - 1] == ';';
        IndexOfIs(rest, ';', end - slash - 1);
      } else {
        assert rest == text[slash + 1..end];
      }
    }
  }

  /** Parsing step by step: the type in front of the slash, the subtype up to a semicolon, the parameters behind it. */
  lemma {:induction false} ParseSteps(text: string, slash: nat, s: string, end: nat, first: string, second: string)
    requires IndexOf(text, '/') == Some(slash) && s == text[slash + 1..]
    requires end == if IndexOf(s, ';').None? then |s| else IndexOf(s, ';').value
    requires first == Trim(text[..slash], BLANKS) && second == Trim(s[..end], BLANKS)
    ensures first == "" || second == "" ==> ParseMediaType(text) == None
    ensures first != "" && second != "" ==>
              ParseMediaType(text)
              == if IndexOf(s, ';').None? then Some(MediaType(first, second, []))
                 else match ParseParameters(Split(s[end + 1..], ';'))
                   case None => None
                   case Some(parameters) => Some(MediaType(first, second, parameters))
  {
    assert s[..|s|] == s;
  }

  /** A media type whose fields parsing sets. */
  class ParsedType {
    var mainType: string
    var subtype: string
    var parameters: seq<Parameter>

    constructor ()
      ensures View() == MediaType("", "", [])
    {
      mainType, subtype, parameters := "", "", [];
    }

    ghost function View(): (t: MediaType)
      reads this
    {
      MediaType(mainType, subtype, parameters)
    }

    /** Text without parameters leaves those that were there before. */
    method Parse(text: string) returns (ok: bool)
      modifies this
      ensures ok <==> ParseMediaType(text).Some?
      ensures ok ==> var t := ParseMediaType(text).value;
                     View() == if t.parameters == [] then t.(parameters := old(parameters)) else t
      ensures !ok ==> View() == Unfinished(text, old(View()))
    {
      ghost var before := View();
      var slash := IndexOf(text, '/');
      if slash.None? {
        return false;
      }
      var first := Trim(text[..slash.value], BLANKS);
      if first == "" {
        return false;
      }
      mainType := first;
      var s := text[slash.value + 1..];
      var semicolon := IndexOf(s, ';');
      var end := if semicolon.None? then |s| else semicolon.value;
      var second := Trim(s[..end], BLANKS);
      ParseSteps(text, slash.value, s, end, first, second);
      if second == "" {
        return false;
      }
      subtype := second;
      assert Unfinished(text, before) == View();
      if semicolon.Some? {
        var parsed := ParseAll(Split(s[semicolon.value + 1..], ';'));
        if parsed.None? {
          return false;
        }
        assert ParseMediaType(text) == Some(MediaType(first, second, parsed.value));
        parameters := parsed.value;
      } else {
        assert ParseMediaType(text) == Some(MediaType(first, second, []));
      }
      return true;
    }

    method Show() returns (s: string)
      ensures s == ShowMediaType(View())
    {
      s := mainType + "/" + subtype;
      assert parameters[..0] == [];
      for i := 0 to |parameters|
        invariant s == mainType + "/" + (subtype + ShowParameters(parameters[..i]))
      {
        assert parameters[..i + 1] == parameters[..i] + [parameters[i]];
        ShownSnoc(parameters[..i], parameters[i]);
        s := s + [';'] + ShowParameter(parameters[i]);
      }
      assert parameters[..|parameters|] == parameters;
    }
  }

  /** The loop over parameters. */
  method ParseAll(parts: seq<string>) returns (r: Option<seq<Parameter>>)
    ensures r == ParseParameters(parts)
  {
    var ps := [];
    for i := 0 to |parts|
      invariant |ps| == i
      invariant forall j :: 0 <= j < i ==> ParseParameter(parts[j]) == Some(ps[j])
    {
      var p := ParseParameter(parts[i]);
      if p.None? {
        ParsedUpTo(parts, i);
        return None;
      }
      ps := ps + [p.value];
    }
    AllParsed(parts);
    forall j | 0 <= j < |parts|
      ensures ps[j] == ParseParameters(parts).value[j]
    {
      ParsedUpTo(parts, j);
    }
    assert ps == ParseParameters(parts).value;
    return Some(ps);
  }

  predicate Trimmed(s: string)
  {
    s != "" && Trim(s, BLANKS) == s
  }

  predicate ValidParameter(p: Parameter)
  {
    Trimmed(p.name) && Trimmed(p.value) && '=' !in p.name && ';' !in p.name && ';' !in p.value
  }

  /** The media types that parsing can give. */
  predicate ValidMediaType(t: MediaType)
  {
    && Trimmed(t.mainType) && '/' !in t.mainType
    && Trimmed(t.subtype) && ';' !in t.subtype
    && forall p <- t.parameters :: ValidParameter(p)
  }

  predicate Matches(r: MediaRange, t: MediaType)
  {
    (r.mainType == "" || r.mainType == t.mainType) && (r.subtype == "" || r.subtype == t.subtype)
  }

  function Specificity(r: MediaRange): (n: nat)
  {
    (if r.mainType != "" then 1 else 0) + (if r.subtype != "" then 1 else 0) + (if r.parameters != [] then 1 else 0)
  }

  predicate PreferableTo(r: MediaRange, s: MediaRange)
  {
    r.quality > s.quality || (r.quality == s.quality && Specificity(r) > Specificity(s))
  }

  ghost predicate SortedByPreference(rs: seq<MediaRange>)
  {
    forall i, j :: 0 <= i < j < |rs| ==> !PreferableTo(rs[j], rs[i])
  }

  /** The first supported type that a range matches. */
  function FirstSupported(r: MediaRange, supported: seq<MediaType>): (t: Option<MediaType>)
  {
    if supported == [] then None
    else if Matches(r, supported[0]) then Some(supported[0])
    else FirstSupported(r, supported[1..])
  }

  function Negotiated(sorted: seq<MediaRange>, supported: seq<MediaType>): (t: MediaType)
    requires supported != []
  {
    if sorted == [] then supported[0]
    else match FirstSupported(sorted[0], supported)
      case Some(t) => t
      case None => Negotiated(sorted[1..], supported)
  }

  /**
    Negotiation, given the order into which the library sort has brought the ranges; that sort is
    not stable, so any order without an inversion can come out.
   */
  method NegotiateMediaType(ranges: seq<MediaRange>, sorted: seq<MediaRange>, supported: seq<MediaType>)
    returns (t: MediaType)
    requires supported != []
    requires multiset(sorted) == multiset(ranges) && SortedByPreference(sorted)
    ensures t == Negotiated(sorted, supported)
  {
    for i := 0 to |sorted|
      invariant Negotiated(sorted, supported) == Negotiated(sorted[i..], supported)
    {
      assert sorted[i..][1..] == sorted[i + 1..];
      for j := 0 to |supported|
        invariant FirstSupported(sorted[i], supported) == FirstSupported(sorted[i], supported[j..])
      {
        assert supported[j..][1..] == supported[j + 1..];
        if Matches(sorted[i], supported[j]) {
          return supported[j];
        }
      }
    }
    return supported[0];
  }

  /** A supported type that a range matches, with none that it matches earlier in the list. */
  ghost predicate FirstMatch(r: MediaRange, supported: seq<MediaType>, t: MediaType)
  {
    exists i :: 0 <= i < |supported| && t == supported[i] && Matches(r, supported[i])
                && forall j :: 0 <= j < i ==> !Matches(r, supported[j])
  }

  lemma {:induction false} FirstSupportedIs(r: MediaRange, supported: seq<MediaType>)
    ensures var t := FirstSupported(r, supported);
            && (t.None? <==> forall i :: 0 <= i < |supported| ==> !Matches(r, supported[i]))
            && (t.Some? ==> FirstMatch(r, supported, t.value))
    decreases |supported|
  {
    if supported != [] && !Matches(r, supported[0]) {
      var rest := supported[1..];
      FirstSupportedIs(r, rest);
      assert forall i :: 0 < i < |supported| ==> supported[i] == rest[i - 1];
      if FirstSupported(r, rest).Some? {
        var i :| 0 <= i < |rest| && FirstSupported(r, rest).value == rest[i] && Matches(r, rest[i])
                 && forall j :: 0 <= j < i ==> !Matches(r, rest[j]);
        assert supported[i + 1] == rest[i];
      }
    }
  }

  /** A range that some supported type meets. */
  ghost predicate Usable(r: MediaRange, supported: seq<MediaType>)
    ensures Usable(r, supported) <==> FirstSupported(r, supported).Some?
  {
    FirstSupportedIs(r, supported);
    exists i :: 0 <= i < |supported| && Matches(r, supported[i])
  }

  /** A usable range with no preferable usable one. */
  ghost predicate Best(ranges: seq<MediaRange>, supported: seq<MediaType>, r: MediaRange)
  {
    r in ranges && Usable(r, supported)
    && forall s <- ranges :: Usable(s, supported) ==> !PreferableTo(s, r)
  }

  lemma {:induction false} FirstUsable(sorted: seq<MediaRange>, supported: seq<MediaType>) returns (r: MediaRange)
    requires supported != [] && SortedByPreference(sorted)
    requires exists s <- sorted :: Usable(s, supported)
    ensures Best(sorted, supported, r) && FirstSupported(r, supported) == Some(Negotiated(sorted, supported))
    decreases |sorted|
  {
    r := sorted[0];
    if Usable(r, supported) {
      forall s | s in sorted
        ensures !PreferableTo(s, r)
      {
        var i :| 0 <= i < |sorted| && sorted[i] == s;
      }
    } else {
      assert sorted == [sorted[0]] + sorted[1..];
      r := FirstUsable(sorted[1..], supported);
    }
  }

  lemma {:induction false} NothingUsable(sorted: seq<MediaRange>, supported: seq<MediaType>)
    requires supported != [] && forall s <- sorted :: !Usable(s, supported)
    ensures Negotiated(sorted, supported) == supported[0]
    decreases |sorted|
  {
    if sorted != [] {
      assert sorted[0] in sorted;
      NothingUsable(sorted[1..], supported);
    }
  }

  /**
    Optimality: whatever order the sort chooses, the result is the first supported type that a best
    usable range matches; without a usable range it is the first supported type.
   */
  lemma Optimality(ranges: seq<MediaRange>, sorted: seq<MediaRange>, supported: seq<MediaType>)
    requires supported != [] && multiset(sorted) == multiset(ranges) && SortedByPreference(sorted)
    ensures if exists s <- ranges :: Usable(s, supported)
            then exists r :: Best(ranges, supported, r) && FirstMatch(r, supported, Negotiated(sorted, supported))
            else Negotiated(sorted, supported) == supported[0]
  {
    SameElements(ranges, sorted);
    if exists s <- ranges :: Usable(s, supported) {
      var r := FirstUsable(sorted, supported);
      FirstSupportedIs(r, supported);
      assert Best(ranges, supported, r);
    } else {
      NothingUsable(sorted, supported);
    }
  }

  lemma SameElements(a: seq<MediaRange>, b: seq<MediaRange>)
    requires multiset(a) == multiset(b)
    ensures forall r :: r in a <==> r in b
  {
    forall r
      ensures r in a <==> r in b
    {
      assert r in a <==> r in multiset(a);
      assert r in b <==> r in multiset(b);
    }
  }

  /** The best ranges of a request all have the same quality and specificity. */
  lemma BestIsUnique(ranges: seq<MediaRange>, supported: seq<MediaType>, r: MediaRange, s: MediaRange)
    requires Best(ranges, supported, r) && Best(ranges, supported, s)
    ensures r.quality == s.quality && Specificity(r) == Specificity(s)
  {
  }

  /**
    A quality of zero, which rules a type out in section 12.4.2 of RFC 9110, does not rule it out
    here: the result comes from such a range exactly when no usable range has a positive quality.
   */
  lemma ZeroQualityIsUsed(ranges: seq<MediaRange>, supported: seq<MediaType>, r: MediaRange)
    requires Best(ranges, supported, r) && forall s <- ranges :: s.quality >= 0.0
    ensures r.quality == 0.0 <==> forall s <- ranges :: Usable(s, supported) ==> s.quality == 0.0
  {
  }

  lemma ParameterRoundTrip(p: Parameter)
    requires ValidParameter(p)
    ensures ParseParameter(ShowParameter(p)) == Some(p)
    ensures ';' !in ShowParameter(p)
  {
    var s := ShowParameter(p);
    assert s[..|p.name|] == p.name;
    IndexOfIs(s, '=', |p.name|);
    assert s[|p.name| + 1..] == p.value;
  }

  lemma {:induction false} ParametersRoundTrip(ps: seq<Parameter>)
    requires ps != [] && forall p <- ps :: ValidParameter(p)
    ensures ShowParameters(ps) != "" && ShowParameters(ps)[0] == ';'
    ensures ParseParameters(Split(ShowParameters(ps)[1..], ';')) == Some(ps)
    decreases |ps|
  {
    if |ps| == 1 {
      assert ps == [ps[0]];
      LastParameter(ps[0]);
    } else {
      ParametersRoundTrip(ps[1..]);
      FirstParameter(ps);
    }
  }

  lemma FirstParameter(ps: seq<Parameter>)
    requires |ps| > 1 && ValidParameter(ps[0])
    requires ShowParameters(ps[1..]) != "" && ShowParameters(ps[1..])[0] == ';'
    requires ParseParameters(Split(ShowParameters(ps[1..])[1..], ';')) == Some(ps[1..])
    ensures ShowParameters(ps) != "" && ShowParameters(ps)[0] == ';'
    ensures ParseParameters(Split(ShowParameters(ps)[1..], ';')) == Some(ps)
  {
    ParameterRoundTrip(ps[0]);
    MoreParameters(ps);
    ParseMore(ShowParameter(ps[0]), ps[0], Split(ShowParameters(ps[1..])[1..], ';'), ps[1..]);
    assert ps == [ps[0]] + ps[1..];
  }

  lemma ParseOne(text: string, p: Parameter)
    requires ParseParameter(text) == Some(p)
    ensures ParseParameters([text]) == Some([p])
  {
    assert [text][1..] == [] && [p] + [] == [p];
  }

  lemma ParseMore(text: string, p: Parameter, parts: seq<string>, ps: seq<Parameter>)
    requires ParseParameter(text) == Some(p) && ParseParameters(parts) == Some(ps)
    ensures ParseParameters([text] + parts) == Some([p] + ps)
  {
    assert ([text] + parts)[1..] == parts;
  }

  lemma LastParameter(p: Parameter)
    requires ValidParameter(p)
    ensures ShowParameters([p]) != "" && ShowParameters([p])[0] == ';'
    ensures ParseParameters(Split(ShowParameters([p])[1..], ';')) == Some([p])
  {
    var text := ShowParameter(p);
    ParameterRoundTrip(p);
    assert [p][1..] == [] && text + "" == text;
    assert ShowParameters([p])[1..] == text;
    assert Split(text, ';') == [text];
    ParseOne(text, p);
  }

  lemma MoreParameters(ps: seq<Parameter>)
    requires |ps| > 1 && ValidParameter(ps[0])
    requires ShowParameters(ps[1..]) != "" && ShowParameters(ps[1..])[0] == ';'
    ensures ShowParameters(ps)[0] == ';'
    ensures Split(ShowParameters(ps)[1..], ';')
         == [ShowParameter(ps[0])] + Split(ShowParameters(ps[1..])[1..], ';')
  {
    var text, rest := ShowParameter(ps[0]), ShowParameters(ps[1..]);
    ParameterRoundTrip(ps[0]);
    assert ShowParameters(ps)[1..] == text + rest;
    assert rest == [';'] + rest[1..];
    Associative(text, [';'], rest[1..]);
    SplitPrepend(text, rest[1..], ';');
  }

  /** Printing and parsing again gives back every valid media type. */
  lemma PrintedIsParsed(t: MediaType)
    requires ValidMediaType(t)
    ensures ParseMediaType(ShowMediaType(t)) == Some(t)
  {
    var shown := ShowParameters(t.parameters);
    var rest := t.subtype + shown;
    CutAt(t.mainType, '/', rest);
    if t.parameters == [] {
      assert rest == t.subtype;
    } else {
      ParametersRoundTrip(t.parameters);
      assert shown == [';'] + shown[1..];
      Associative(t.subtype, [';'], shown[1..]);
      CutAt(t.subtype, ';', shown[1..]);
    }
  }

  /** Cutting a text at its first separator. */
  lemma CutAt(before: string, separator: char, after: string)
    requires separator !in before
    ensures var s := before + [separator] + after;
            IndexOf(s, separator) == Some(|before|) && s[..|before|] == before && s[|before| + 1..] == after
  {
    IndexOfIs(before + [separator] + after, separator, |before|);
  }

  lemma {:induction false} ParsedParametersValid(parts: seq<string>)
    requires forall p <- parts :: ';' !in p
    ensures ParseParameters(parts).Some? ==> forall p <- ParseParameters(parts).value :: ValidParameter(p)
    decreases |parts|
  {
    if parts != [] {
      assert parts[0] in parts;
      ParsedParametersValid(parts[1..]);
      if IndexOf(parts[0], '=').Some? {
        var equal := IndexOf(parts[0], '=').value;
        TrimSubset(parts[0][..equal], BLANKS);
        TrimSubset(parts[0][equal + 1..], BLANKS);
      }
    }
  }

  lemma ParsedIsValid(s: string)
    requires ParseMediaType(s).Some?
    ensures ValidMediaType(ParseMediaType(s).value)
  {
    var slash := IndexOf(s, '/').value;
    var rest := s[slash + 1..];
    TrimSubset(s[..slash], BLANKS);
    match IndexOf(rest, ';')
    case None => TrimSubset(rest, BLANKS);
    case Some(semicolon) =>
      TrimSubset(rest[..semicolon], BLANKS);
      ParsedParametersValid(Split(rest[semicolon + 1..], ';'));
  }

  /** The round trip holds for the valid media types and no others; what is parsed is always valid. */
  lemma MediaTypeRoundTrip(t: MediaType, s: string)
    ensures ParseMediaType(ShowMediaType(t)) == Some(t) <==> ValidMediaType(t)
    ensures ParseMediaType(s).Some? ==> ParseMediaType(ShowMediaType(ParseMediaType(s).value)) == ParseMediaType(s)
  {
    if ValidMediaType(t) {
      PrintedIsParsed(t);
    }
    if ParseMediaType(ShowMediaType(t)).Some? {
      ParsedIsValid(ShowMediaType(t));
    }
    if ParseMediaType(s).Some? {
      ParsedIsValid(s);
      PrintedIsParsed(ParseMediaType(s).value);
    }
  }

  /** A type and a range, part by part; an empty part of the range accepts any. */
  ghost predicate Accepts(r: MediaRange, t: MediaType)
  {
    (r.mainType != "" ==> r.mainType == t.mainType) && (r.subtype != "" ==> r.subtype == t.subtype)
  }

  /** How many of type, subtype and parameters a range gives. */
  function Filled(r: MediaRange): (n: nat)
  {
    |(if r.mainType == "" then "" else "t") + (if r.subtype == "" then "" else "s") + (if r.parameters == [] then "" else "p")|
  }

  /** Whether the second range is wanted less than the first, or as much and told less precisely. */
  ghost predicate Yields(r: MediaRange, s: MediaRange)
  {
    s.quality < r.quality || (s.quality == r.quality && Filled(s) < Filled(r))
  }

  ghost predicate Serves(r: MediaRange, supported: seq<MediaType>)
  {
    exists i :: 0 <= i < |supported| && Accepts(r, supported[i])
  }

  lemma {:induction false} PreferenceIs(r: MediaRange, s: MediaRange)
    ensures PreferableTo(r, s) <==> Yields(r, s)
  {
  }

  lemma {:induction false} ServesIs(r: MediaRange, supported: seq<MediaType>)
    ensures Usable(r, supported) <==> Serves(r, supported)
  {
    assert forall t :: Matches(r, t) <==> Accepts(r, t);
  }

  /**
    Negotiation in full: for every order in which no range stands behind one that yields to it, the
    result is the first supported type that a range accepts to which every range that serves yields
    or is equal; without a range that serves it is the first supported type.
   */
  lemma {:induction false} NegotiationMeaning(
    ranges: seq<MediaRange>, sorted: seq<MediaRange>, supported: seq<MediaType>)
    requires supported != [] && multiset(sorted) == multiset(ranges)
    requires forall i, j :: 0 <= i < j < |sorted| ==> !Yields(sorted[j], sorted[i])
    ensures if exists s <- ranges :: Serves(s, supported)
            then exists r, i :: && r in ranges && 0 <= i < |supported| && Negotiated(sorted, supported) == supported[i]
                                && Accepts(r, supported[i]) && (forall j :: 0 <= j < i ==> !Accepts(r, supported[j]))
                                && forall s <- ranges :: Serves(s, supported) ==> !Yields(s, r)
            else Negotiated(sorted, supported) == supported[0]
  {
    forall r: MediaRange, s: MediaRange
      ensures PreferableTo(r, s) <==> Yields(r, s)
    {
      PreferenceIs(r, s);
    }
    forall r: MediaRange
      ensures Usable(r, supported) <==> Serves(r, supported)
    {
      ServesIs(r, supported);
    }
    Optimality(ranges, sorted, supported);
    if exists s <- ranges :: Serves(s, supported) {
      var r :| Best(ranges, supported, r) && FirstMatch(r, supported, Negotiated(sorted, supported));
      var i :| 0 <= i < |supported| && Negotiated(sorted, supported) == supported[i] && Matches(r, supported[i])
               && forall j :: 0 <= j < i ==> !Matches(r, supported[j]);
      assert Accepts(r, supported[i]) && forall j :: 0 <= j < i ==> !Accepts(r, supported[j]);
    }
  }

  /** At equal quality, and without parameters, a type that a range names in full beats all others. */
  lemma {:induction false} FullRangeWins(
    ranges: seq<MediaRange>, sorted: seq<MediaRange>, supported: seq<MediaType>, full: MediaRange)
    requires supported != [] && multiset(sorted) == multiset(ranges)
    requires forall i, j :: 0 <= i < j < |sorted| ==> !Yields(sorted[j], sorted[i])
    requires forall r <- ranges :: r.quality == full.quality && r.parameters == []
    requires full in ranges && full.mainType != "" && full.subtype != "" && Serves(full, supported)
    ensures var t := Negotiated(sorted, supported);
            exists r <- ranges :: r.mainType == t.mainType != "" && r.subtype == t.subtype != ""
  {
    NegotiationMeaning(ranges, sorted, supported);
    var r, i :| && r in ranges && 0 <= i < |supported| && Negotiated(sorted, supported) == supported[i]
                && Accepts(r, supported[i]) && (forall j :: 0 <= j < i ==> !Accepts(r, supported[j]))
                && forall s <- ranges :: Serves(s, supported) ==> !Yields(s, r);
    assert !Yields(full, r);
  }
}
