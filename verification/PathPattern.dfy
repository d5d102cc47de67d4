/** Path patterns: parsing, printing and matching, and how nested patterns compose. */
module PathPatterns {
  import opened Results
  import opened Sequences

  const SLASH := '/'

  /** A pattern; an empty segment is a wildcard. */
  datatype PathPattern = PathPattern(segments: seq<string>, relative: bool, prefix: bool)

  datatype PatternError = EmptyPattern | EmptySegment

  /** A segment's value: a backslash takes the rest literally, a lone star is a wildcard. */
  function SegmentValue(text: string): (value: string)
    requires text != ""
  {
    if text[0] == '\\' then text[1..] else if text == "*" then "" else text
  }

  /** The values of split segments; an empty last segment makes a prefix pattern. */
  function ParseSegments(texts: seq<string>): (r: Result<(seq<string>, bool), PatternError>)
  {
    if texts == [] then Ok(([], false))
    else if texts[0] == "" then (if |texts| == 1 then Ok(([], true)) else Err(EmptySegment))
    else match ParseSegments(texts[1..])
      case Err(e) => Err(e)
      case Ok((values, prefix)) => Ok(([SegmentValue(texts[0])] + values, prefix))
  }

  function Parse(s: string): (r: Result<PathPattern, PatternError>)
  {
    if s == "" then Err(EmptyPattern)
    else
      var relative := s[0] != SLASH;
      match ParseSegments(Split(if relative then s else s[1..], SLASH))
      case Err(e) => Err(e)
      case Ok((values, prefix)) => Ok(PathPattern(values, relative, prefix))
  }

  method ParsePattern(s: string) returns (r: Result<PathPattern, PatternError>)
    ensures r == Parse(s)
  {
    if s == "" {
      return Err(EmptyPattern);
    }
    var relative := s[0] != SLASH;
    var texts := Split(if relative then s else s[1..], SLASH);
    var segments, prefix := [], false;
    var i := 0;
    PrependNone(ParseSegments(texts));
    assert texts[0..] == texts;
    while i < |texts|
      invariant 0 <= i <= |texts| && !prefix
      invariant ParseSegments(texts) == Prepend(segments, ParseSegments(texts[i..]))
    {
      assert texts[i..][1..] == texts[i + 1..];
      if texts[i] == "" {
        if i == |texts| - 1 {
          prefix := true;
          break;
        }
        return Err(EmptySegment);
      }
      PrependTwice(segments, SegmentValue(texts[i]), ParseSegments(texts[i + 1..]));
      segments := segments + [SegmentValue(texts[i])];
      i := i + 1;
    }
    assert segments + [] == segments;
    return Ok(PathPattern(segments, relative, prefix));
  }

  function Prepend(values: seq<string>, r: Result<(seq<string>, bool), PatternError>)
    : (p: Result<(seq<string>, bool), PatternError>)
  {
    if r.Err? then r else Ok((values + r.value.0, r.value.1))
  }

  lemma PrependNone(r: Result<(seq<string>, bool), PatternError>)
    ensures Prepend([], r) == r
  {
    if r.Ok? {
      assert [] + r.value.0 == r.value.0;
    }
  }

  lemma PrependTwice(values: seq<string>, v: string, r: Result<(seq<string>, bool), PatternError>)
    ensures Prepend(values, Prepend([v], r)) == Prepend(values + [v], r)
  {
    if r.Ok? {
      Associative(values, [v], r.value.0);
    }
  }

  function ShowSegment(value: string): (text: string)
    ensures text != ""
  {
    if value == "" then "*" else value
  }

  function ShowSegments(values: seq<string>): (texts: seq<string>)
    ensures |texts| == |values|
    ensures forall i :: 0 <= i < |texts| ==> texts[i] == ShowSegment(values[i])
  {
    seq(|values|, i requires 0 <= i < |values| => ShowSegment(values[i]))
  }

  function Show(p: PathPattern): (s: string)
  {
    if p.segments == [] then "/"
    else (if p.relative then "" else "/") + Join(ShowSegments(p.segments), "/") + (if p.prefix then "/" else "")
  }

  method ShowPattern(p: PathPattern) returns (s: string)
    ensures s == Show(p)
  {
    if p.segments == [] {
      return "/";
    }
    var texts := ShowSegments(p.segments);
    ghost var lead := if p.relative then "" else "/";
    s := "";
    for i := 0 to |texts|
      invariant i == 0 ==> s == ""
      invariant i > 0 ==> s == lead + Join(texts[..i], "/")
    {
      ghost var before := s;
      if i > 0 || !p.relative {
        s := s + "/";
      }
      s := s + texts[i];
      if i == 0 {
        assert texts[..1] == [texts[0]] && s == lead + texts[0];
      } else {
        assert s == before + "/" + texts[i];
        JoinOneMore(lead, texts, i);
      }
    }
    assert texts[..|texts|] == texts;
    if p.prefix {
      s := s + "/";
    } else {
      assert s + "" == s;
    }
  }

  /** The segments of a path, without the slashes around it. */
  function PathSegments(path: string): (segments: seq<string>)
  {
    var trimmed := Trim(path, {SLASH});
    if trimmed == "" then [] else Split(trimmed, SLASH)
  }

  /** What is left of a path's segments behind a pattern's. */
  function MatchSegments(values: seq<string>, segments: seq<string>): (rest: Option<seq<string>>)
    ensures rest.Some? ==> |values| <= |segments| && rest.value == segments[|values|..]
  {
    if values == [] then Some(segments)
    else if segments == [] || (values[0] != "" && values[0] != segments[0]) then None
    else MatchSegments(values[1..], segments[1..])
  }

  /** Whether a path matches, and the subpath it leaves. */
  function Match(p: PathPattern, path: string): (r: (bool, string))
  {
    match MatchSegments(p.segments, PathSegments(path))
    case None => (false, "")
    case Some(rest) => if rest != [] && !p.prefix then (false, "") else (true, Join(rest, "/"))
  }

  method MatchPath(p: PathPattern, path: string) returns (ok: bool, subpath: string)
    ensures (ok, subpath) == Match(p, path)
  {
    var pathSegments := PathSegments(path);
    for i := 0 to |p.segments|
      invariant MatchSegments(p.segments, PathSegments(path)) == MatchSegments(p.segments[i..], pathSegments)
    {
      if |pathSegments| == 0 {
        return false, "";
      }
      var segment := pathSegments[0];
      if p.segments[i] != "" && p.segments[i] != segment {
        return false, "";
      }
      assert p.segments[i..][1..] == p.segments[i + 1..];
      pathSegments := pathSegments[1..];
    }
    if |pathSegments| > 0 && !p.prefix {
      return false, "";
    }
    return true, Join(pathSegments, "/");
  }

  predicate SegmentFits(value: string, segment: string)
  {
    value == "" || value == segment
  }

  /** Segments match position by position, a wildcard any segment. */
  predicate AllFit(values: seq<string>, segments: seq<string>)
  {
    |values| <= |segments| && forall i :: 0 <= i < |values| ==> SegmentFits(values[i], segments[i])
  }

  lemma AllFitFirst(values: seq<string>, segments: seq<string>)
    requires values != [] && segments != []
    ensures AllFit(values, segments) <==> SegmentFits(values[0], segments[0]) && AllFit(values[1..], segments[1..])
  {
    if AllFit(values[1..], segments[1..]) {
      forall i | 0 < i < |values|
        ensures SegmentFits(values[i], segments[i])
      {
        assert SegmentFits(values[1..][i - 1], segments[1..][i - 1]);
      }
    }
    if AllFit(values, segments) {
      forall i | 0 <= i < |values| - 1
        ensures SegmentFits(values[1..][i], segments[1..][i])
      {
        assert SegmentFits(values[i + 1], segments[i + 1]);
      }
    }
  }

  lemma {:induction false} MatchSegmentsIs(values: seq<string>, segments: seq<string>)
    ensures MatchSegments(values, segments).Some? <==> AllFit(values, segments)
    decreases |values|
  {
    if values != [] && segments != [] {
      AllFitFirst(values, segments);
      MatchSegmentsIs(values[1..], segments[1..]);
    }
  }

  /** What a match means, in positions: only a prefix pattern leaves segments of the path over. */
  lemma MatchMeaning(p: PathPattern, path: string)
    ensures var segments := PathSegments(path);
            var (ok, subpath) := Match(p, path);
            && (ok <==> AllFit(p.segments, segments) && (p.prefix || |p.segments| == |segments|))
            && (ok ==> subpath == Join(segments[|p.segments|..], "/"))
  {
    MatchSegmentsIs(p.segments, PathSegments(path));
  }

  /** A pattern followed by another one. */
  function Nest(a: PathPattern, b: PathPattern): (p: PathPattern)
  {
    PathPattern(a.segments + b.segments, a.relative, b.prefix)
  }

  lemma {:induction false} MatchConcat(a: seq<string>, b: seq<string>, segments: seq<string>)
    ensures MatchSegments(a + b, segments)
         == match MatchSegments(a, segments) case None => None case Some(rest) => MatchSegments(b, rest)
    decreases |a|
  {
    if a == [] {
      assert a + b == b;
    } else if segments != [] {
      assert (a + b)[1..] == a[1..] + b;
      MatchConcat(a[1..], b, segments[1..]);
    }
  }

  lemma {:induction false} JoinSnoc(parts: seq<string>, last: string, sep: string)
    requires parts != []
    ensures Join(parts + [last], sep) == Join(parts, sep) + sep + last
    decreases |parts|
  {
    if |parts| > 1 {
      assert (parts + [last])[1..] == parts[1..] + [last];
      JoinSnoc(parts[1..], last, sep);
      assert parts[0] + sep + (Join(parts[1..], sep) + sep + last) == Join(parts, sep) + sep + last;
    } else {
      assert (parts + [last])[1..] == [last];
    }
  }

  lemma JoinOneMore(lead: string, texts: seq<string>, i: nat)
    requires 0 < i < |texts|
    ensures lead + Join(texts[..i], "/") + "/" + texts[i] == lead + Join(texts[..i + 1], "/")
  {
    assert texts[..i + 1] == texts[..i] + [texts[i]];
    JoinSnoc(texts[..i], texts[i], "/");
    assert lead + Join(texts[..i], "/") + "/" + texts[i] == lead + (Join(texts[..i], "/") + "/" + texts[i]);
  }

  /** The last part of a text that does not end in the separator is not empty. */
  lemma {:induction false} LastPart(s: string)
    requires s != "" && s[|s| - 1] != SLASH
    ensures var parts := Split(s, SLASH); parts[|parts| - 1] != ""
    decreases |s|
  {
    if SLASH in s {
      var i := IndexOf(s, SLASH).value;
      var rest := s[i + 1..];
      assert rest != "" && rest[|rest| - 1] == s[|s| - 1];
      LastPart(rest);
      assert Split(s, SLASH) == [s[..i]] + Split(rest, SLASH);
    }
  }

  lemma SegmentsOfPath(path: string)
    ensures var segments := PathSegments(path);
            && (forall t <- segments :: SLASH !in t)
            && (segments != [] ==> segments[|segments| - 1] != "")
  {
    if Trim(path, {SLASH}) != "" {
      LastPart(Trim(path, {SLASH}));
    }
  }

  lemma {:induction false} JoinDropShortens(parts: seq<string>, k: nat)
    requires 0 < k <= |parts| && parts[0] != ""
    ensures |Join(parts[k..], "/")| < |Join(parts, "/")|
    decreases k
  {
    if |parts| > 1 && k > 1 {
      JoinLongest(parts[1..], k - 1);
      assert parts[1..][k - 1..] == parts[k..];
    }
  }

  lemma {:induction false} JoinLongest(parts: seq<string>, k: nat)
    requires k <= |parts|
    ensures |Join(parts[k..], "/")| <= |Join(parts, "/")|
    decreases k
  {
    if k == 0 {
      assert parts[0..] == parts;
    } else {
      JoinLongest(parts[1..], k - 1);
      assert parts[1..][k - 1..] == parts[k..];
    }
  }

  lemma FirstPart(s: string)
    requires s != "" && s[0] != SLASH
    ensures Split(s, SLASH)[0] != ""
  {
  }

  /**
    What a match leaves of the path it matched is that path again only for a pattern without
    segments, on a path without slashes around it.
   */
  lemma LeavesItself(p: PathPattern, path: string)
    requires Match(p, path).0
    ensures Match(p, path).1 == path <==> p.segments == [] && Trim(path, {SLASH}) == path
  {
    var trimmed, k := Trim(path, {SLASH}), |p.segments|;
    MatchMeaning(p, path);
    if k == 0 {
      assert PathSegments(path)[0..] == PathSegments(path);
      JoinSplit(trimmed, SLASH);
    } else {
      TrimShortens(path, {SLASH});
      FirstPart(trimmed);
      JoinSplit(trimmed, SLASH);
      JoinDropShortens(PathSegments(path), k);
    }
  }

  /** The subpath that a request starts with: its path without one leading slash. */
  function InitialSubpath(path: string): (subpath: string)
    ensures if "/" <= path then path == "/" + subpath else subpath == path
  {
    if path != "" && path[0] == SLASH then path[1..] else path
  }

  lemma {:induction false} InitialSegments(p: PathPattern, path: string)
    ensures PathSegments(InitialSubpath(path)) == PathSegments(path)
    ensures Match(p, InitialSubpath(path)) == Match(p, path)
  {
  }

  /** The ends of joined parts are the ends of the first and the last part. */
  lemma {:induction false} JoinEnds(parts: seq<string>)
    requires parts != [] && parts[|parts| - 1] != ""
    ensures var s, last := Join(parts, "/"), parts[|parts| - 1];
            && s != "" && s[|s| - 1] == last[|last| - 1]
            && s[0] == if parts[0] != "" then parts[0][0] else SLASH
    decreases |parts|
  {
    if |parts| > 1 {
      JoinEnds(parts[1..]);
    }
  }

  /** A subpath that does not start with a slash has the segments it was joined from. */
  lemma {:induction false} SubpathSegments(rest: seq<string>)
    requires rest != [] && rest[0] != "" && rest[|rest| - 1] != ""
    requires forall t <- rest :: SLASH !in t
    ensures PathSegments(Join(rest, "/")) == rest
  {
    JoinEnds(rest);
    assert rest[0][0] != SLASH by {
      assert rest[0] in rest;
    }
    assert rest[|rest| - 1] in rest;
    var last := rest[|rest| - 1];
    assert last[|last| - 1] in last;
    TrimFixed(Join(rest, "/"), {SLASH});
    SplitJoin(rest, SLASH);
  }

  /** A leading slash of a subpath is lost, and with it at least one segment. */
  lemma {:induction false} LeadingSlashLost(s: string)
    requires s != "" && s[|s| - 1] != SLASH
    ensures TrimLeft(s, {SLASH}) != "" && TrimLeft(s, {SLASH})[|TrimLeft(s, {SLASH})| - 1] != SLASH
    ensures |Split(TrimLeft(s, {SLASH}), SLASH)| <= |Split(s, SLASH)|
    ensures s[0] == SLASH ==> |Split(TrimLeft(s, {SLASH}), SLASH)| < |Split(s, SLASH)|
    decreases |s|
  {
    if s[0] == SLASH {
      assert s == [] + [SLASH] + s[1..];
      SplitPrepend([], s[1..], SLASH);
      LeadingSlashLost(s[1..]);
    }
  }

  /** A pattern of wildcards. */
  function Wildcards(n: nat): (p: PathPattern)
  {
    PathPattern(seq(n, i => ""), true, false)
  }

  lemma {:induction false} WildcardsMatch(n: nat, segments: seq<string>)
    ensures MatchSegments(seq(n, i => ""), segments) == if n <= |segments| then Some(segments[n..]) else None
    decreases n
  {
    if n > 0 && segments != [] {
      assert (seq(n, i => ""))[1..] == seq(n - 1, i => "");
      WildcardsMatch(n - 1, segments[1..]);
    }
  }

  /**
    Nested patterns: a path that a prefix pattern refuses is refused by the pattern followed by any
    other one. A path that it accepts can be matched in two steps, by every inner pattern, exactly
    when the segment behind the match is not empty.
   */
  lemma NestedMatch(a: PathPattern, path: string)
    requires a.prefix
    ensures !Match(a, path).0 ==> forall b :: Match(Nest(a, b), path) == (false, "")
    ensures Match(a, path).0 ==>
              ((forall b :: Match(b, Match(a, path).1) == Match(Nest(a, b), path)) <==> NonEmptyNext(a, path))
  {
    forall b
      ensures !Match(a, path).0 ==> Match(Nest(a, b), path) == (false, "")
      ensures Match(a, path).0 && NonEmptyNext(a, path) ==> Match(b, Match(a, path).1) == Match(Nest(a, b), path)
    {
      NestedPair(a, b, path);
    }
    if Match(a, path).0 && !NonEmptyNext(a, path) {
      SegmentsOfPath(path);
      EmptySegmentLost(a, path, PathSegments(path)[|a.segments|..]);
    }
  }

  /** The segment behind a match is there and empty only when the path has two slashes in a row. */
  predicate NonEmptyNext(a: PathPattern, path: string)
    requires Match(a, path).0
  {
    var rest := PathSegments(path)[|a.segments|..];
    rest == [] || rest[0] != ""
  }

  lemma NestedPair(a: PathPattern, b: PathPattern, path: string)
    requires a.prefix
    ensures !Match(a, path).0 ==> Match(Nest(a, b), path) == (false, "")
    ensures Match(a, path).0 && NonEmptyNext(a, path) ==> Match(b, Match(a, path).1) == Match(Nest(a, b), path)
  {
    MatchConcat(a.segments, b.segments, PathSegments(path));
    assert Nest(a, b).segments == a.segments + b.segments;
    if Match(a, path).0 && NonEmptyNext(a, path) {
      SubpathKeepsSegments(a, path);
    }
  }

  lemma {:induction false} SubpathKeepsSegments(a: PathPattern, path: string)
    requires a.prefix && Match(a, path).0 && NonEmptyNext(a, path)
    ensures PathSegments(Match(a, path).1) == PathSegments(path)[|a.segments|..]
  {
    SegmentsOfPath(path);
    MatchMeaning(a, path);
    TailKeepsSegments(PathSegments(path), |a.segments|);
  }

  lemma {:induction false} TailKeepsSegments(segments: seq<string>, k: nat)
    requires k <= |segments| && (k < |segments| ==> segments[k] != "" && segments[|segments| - 1] != "")
    requires forall t <- segments :: SLASH !in t
    ensures PathSegments(Join(segments[k..], "/")) == segments[k..]
  {
    var rest := segments[k..];
    if rest == [] {
      assert PathSegments("") == [];
    } else {
      assert rest[|rest| - 1] == segments[|segments| - 1];
      SubpathSegments(rest);
    }
  }

  /** A subpath that starts with an empty segment has fewer segments than it was joined from. */
  lemma {:induction false} FewerSegments(rest: seq<string>)
    requires rest != [] && rest[0] == "" && rest[|rest| - 1] != "" && forall t <- rest :: SLASH !in t
    ensures |PathSegments(Join(rest, "/"))| < |rest|
  {
    var subpath := Join(rest, "/");
    JoinEnds(rest);
    assert rest[|rest| - 1] in rest;
    LeadingSlashLost(subpath);
    SplitJoin(rest, SLASH);
  }

  lemma EmptySegmentLost(a: PathPattern, path: string, rest: seq<string>)
    requires rest != [] && rest[0] == "" && rest[|rest| - 1] != "" && forall t <- rest :: SLASH !in t
    requires MatchSegments(a.segments, PathSegments(path)) == Some(rest)
    ensures exists b :: Match(b, Join(rest, "/")) != Match(Nest(a, b), path)
  {
    var b := Wildcards(|rest|);
    WildcardsAcceptNested(a, path, rest);
    WildcardsRefuse(rest);
    assert Match(b, Join(rest, "/")).0 != Match(Nest(a, b), path).0;
  }

  lemma WildcardsAcceptNested(a: PathPattern, path: string, rest: seq<string>)
    requires MatchSegments(a.segments, PathSegments(path)) == Some(rest)
    ensures Match(Nest(a, Wildcards(|rest|)), path).0
  {
    MatchConcat(a.segments, Wildcards(|rest|).segments, PathSegments(path));
    WildcardsMatch(|rest|, rest);
  }

  lemma WildcardsRefuse(rest: seq<string>)
    requires rest != [] && rest[0] == "" && rest[|rest| - 1] != "" && forall t <- rest :: SLASH !in t
    ensures !Match(Wildcards(|rest|), Join(rest, "/")).0
  {
    FewerSegments(rest);
    WildcardsMatch(|rest|, PathSegments(Join(rest, "/")));
  }

  /** A literal segment that printing leaves readable. */
  predicate PrintableSegment(value: string)
  {
    value == "" || (value != "*" && value[0] != '\\')
  }

  /** The patterns that parsing can give, as far as slashes and emptiness are concerned. */
  predicate WellFormed(p: PathPattern)
  {
    && (forall v <- p.segments :: SLASH !in v)
    && (p.segments == [] ==> !p.relative && p.prefix)
  }

  lemma {:induction false} ParseShown(values: seq<string>, prefix: bool)
    ensures ParseSegments(ShowSegments(values) + if prefix then [""] else []).Ok?
    ensures ParseSegments(ShowSegments(values) + if prefix then [""] else []) == Ok((values, prefix))
            <==> forall v <- values :: PrintableSegment(v)
    decreases |values|
  {
    var end := if prefix then [""] else [];
    var texts := ShowSegments(values) + end;
    if values == [] {
      assert texts == end;
    } else {
      assert texts[1..] == ShowSegments(values[1..]) + end;
      ParseShown(values[1..], prefix);
      assert values == [values[0]] + values[1..];
      var rest := ParseSegments(texts[1..]).value;
      var all := [SegmentValue(texts[0])] + rest.0;
      assert ParseSegments(texts) == Ok((all, rest.1));
      assert all[0] == SegmentValue(texts[0]) && all[1..] == rest.0;
      assert values[0] in values;
      assert SegmentValue(ShowSegment(values[0])) == values[0] <==> PrintableSegment(values[0]);
    }
  }

  /** Parsing a printed pattern gives it back exactly when no literal segment needs an escape. */
  lemma PrintRoundTrip(p: PathPattern)
    requires WellFormed(p)
    ensures Parse(Show(p)) == Ok(p) <==> forall v <- p.segments :: PrintableSegment(v)
  {
    if p.segments == [] {
      assert Show(p)[1..] == "";
      assert Split("", SLASH) == [""];
    } else {
      var texts := ShowSegments(p.segments) + if p.prefix then [""] else [];
      ShownBody(p);
      if p.relative {
        assert Show(p) == Join(texts, "/");
      } else {
        assert Show(p)[0] == SLASH && Show(p)[1..] == Join(texts, "/");
      }
      SplitJoin(texts, SLASH);
      assert ParseSegments(Split(if p.relative then Show(p) else Show(p)[1..], SLASH)) == ParseSegments(texts);
      ParseShown(p.segments, p.prefix);
    }
  }

  /** What printing writes behind the leading slash. */
  lemma ShownBody(p: PathPattern)
    requires WellFormed(p) && p.segments != []
    ensures var texts := ShowSegments(p.segments) + if p.prefix then [""] else [];
            var body := Join(texts, "/");
            && body != "" && body[0] != SLASH && forall t <- texts :: SLASH !in t
    ensures var texts := ShowSegments(p.segments) + if p.prefix then [""] else [];
            Show(p) == (if p.relative then "" else "/") + Join(texts, "/")
  {
    var shown := ShowSegments(p.segments);
    var texts := shown + if p.prefix then [""] else [];
    assert p.segments[0] in p.segments;
    assert Join(texts, "/") == Join(shown, "/") + if p.prefix then "/" else "" by {
      if p.prefix {
        JoinSnoc(shown, "", "/");
        assert Join(shown, "/") + "/" + "" == Join(shown, "/") + "/";
      } else {
        assert texts == shown && Join(shown, "/") + "" == Join(shown, "/");
      }
    }
    JoinEndsFirst(texts);
    Associative(if p.relative then "" else "/", Join(shown, "/"), if p.prefix then "/" else "");
  }

  lemma JoinEndsFirst(parts: seq<string>)
    requires parts != [] && parts[0] != ""
    ensures var s := Join(parts, "/"); s != "" && s[0] == parts[0][0]
  {
  }

  /** The values that segments are to have: an escape takes the rest literally, a lone star is a wildcard. */
  ghost predicate ValuesOf(texts: seq<string>, values: seq<string>)
    requires forall i :: 0 <= i < |texts| ==> texts[i] != ""
  {
    |values| == |texts| && forall i :: 0 <= i < |texts| ==>
      if texts[i][0] == '\\' then texts[i] == "\\" + values[i]
      else if texts[i] == "*" then values[i] == "" else values[i] == texts[i]
  }

  lemma {:induction false} SegmentsWritten(texts: seq<string>, prefix: bool)
    requires forall i :: 0 <= i < |texts| ==> texts[i] != ""
    ensures var r := ParseSegments(texts + if prefix then [""] else []);
            r.Ok? && r.value.1 == prefix && ValuesOf(texts, r.value.0)
    decreases |texts|
  {
    var end := if prefix then [""] else [];
    if texts == [] {
      assert texts + end == end;
    } else {
      assert (texts + end)[1..] == texts[1..] + end;
      SegmentsWritten(texts[1..], prefix);
      var rest := ParseSegments(texts[1..] + end).value.0;
      assert forall i :: 0 < i < |texts| ==> texts[i] == texts[1..][i - 1];
      assert ParseSegments(texts + end).value.0 == [SegmentValue(texts[0])] + rest;
      assert texts[0][0] == '\\' ==> texts[0] == "\\" + texts[0][1..];
    }
  }

  lemma {:induction false} SplitBody(texts: seq<string>, prefix: bool)
    requires texts != [] && forall i :: 0 <= i < |texts| ==> SLASH !in texts[i]
    ensures Split(Join(texts, "/") + (if prefix then "/" else ""), SLASH) == texts + if prefix then [""] else []
  {
    if prefix {
      JoinSnoc(texts, "", "/");
      assert Join(texts, "/") + "/" + "" == Join(texts, "/") + "/";
      SplitJoin(texts + [""], SLASH);
    } else {
      assert Join(texts, "/") + "" == Join(texts, "/") && texts + [] == texts;
      SplitJoin(texts, SLASH);
    }
  }

  /** A pattern is what its text says: relative without a leading slash, a prefix with a last one. */
  lemma {:induction false} PatternWritten(texts: seq<string>, relative: bool, prefix: bool)
    requires texts != [] && forall i :: 0 <= i < |texts| ==> texts[i] != "" && SLASH !in texts[i]
    ensures var r := Parse((if relative then "" else "/") + (Join(texts, "/") + (if prefix then "/" else "")));
            r.Ok? && r.value.relative == relative && r.value.prefix == prefix && ValuesOf(texts, r.value.segments)
  {
    var body := Join(texts, "/") + if prefix then "/" else "";
    JoinEnds(texts);
    assert texts[0][0] in texts[0];
    SegmentsWritten(texts, prefix);
    SplitBody(texts, prefix);
    if relative {
      assert "" + body == body;
    } else {
      assert ("/" + body)[1..] == body;
    }
  }

  /** A text is refused exactly when it is empty, or has a segment without text that is not the last. */
  lemma {:induction false} SegmentsRefused(texts: seq<string>)
    ensures ParseSegments(texts).Err? <==> exists i :: 0 <= i < |texts| - 1 && texts[i] == ""
    decreases |texts|
  {
    if texts != [] && texts[0] != "" {
      SegmentsRefused(texts[1..]);
      assert forall i :: 0 < i < |texts| ==> texts[i] == texts[1..][i - 1];
      if i :| 0 <= i < |texts| - 1 && texts[i] == "" {
        assert texts[1..][i - 1] == "";
      }
    }
  }

  lemma {:induction false} PatternRefused(s: string)
    ensures var texts := Split(if s != "" && s[0] == SLASH then s[1..] else s, SLASH);
            Parse(s).Err? <==> s == "" || exists i :: 0 <= i < |texts| - 1 && texts[i] == ""
  {
    SegmentsRefused(Split(if s != "" && s[0] == SLASH then s[1..] else s, SLASH));
  }

  /** The segments of a path are what is between its slashes; slashes around it do not count. */
  lemma {:induction false} PathSegmentsAre(lead: string, segments: seq<string>, trail: string)
    requires AllIn(lead, {'/'}) && AllIn(trail, {'/'}) && forall t <- segments :: SLASH !in t
    requires segments != [] ==> segments[0] != "" && segments[|segments| - 1] != ""
    ensures PathSegments(lead + Join(segments, "/") + trail) == segments
  {
    var body := Join(segments, "/");
    if segments != [] {
      JoinEnds(segments);
      assert segments[0] in segments && segments[|segments| - 1] in segments;
      assert segments[0][0] in segments[0];
      var last := segments[|segments| - 1];
      assert last[|last| - 1] in last;
      TrimFixed(body, {SLASH});
      TrimAround(lead, body, trail, {SLASH});
      SplitJoin(segments, SLASH);
    } else {
      TrimFixed(body, {SLASH});
      TrimAround(lead, body, trail, {SLASH});
    }
  }
}
