/**
  Request routing: the recursive search for a handler, which threads a request context that every
  matching handler may change. The theorems say which handler is selected, which settings the
  request ends up with, and that settings-only handlers never change the selection.
 */
module Routing {
  import opened Results
  import opened Sequences
  import opened PathPatterns

  datatype HTTPVersion = HTTP10 | HTTP11 | HTTP2 | HTTP3

  /** The parts of a request that matching looks at; header names are resolved by `header`. */
  datatype Request = Request(
    tls: bool, major: int, minor: int, verb: string, host: string, header: string -> seq<string>, path: string)

  type TextMatcher = string -> bool

  /** The constraints of a handler. Host patterns and regular expressions are predicates on texts. */
  datatype MatchCfg = MatchCfg(
    tls: Option<bool>,
    versions: seq<HTTPVersion>,
    methods: seq<string>,
    hosts: seq<TextMatcher>,
    hostRegexps: seq<TextMatcher>,
    headerValues: seq<(string, seq<string>)>,
    headerRegexps: seq<(string, seq<TextMatcher>)>,
    paths: seq<PathPattern>,
    pathRegexps: seq<TextMatcher>)

  datatype LimiterRef = LimiterRef(id: nat, empty: bool)

  /** A handler with its settings; `action` identifies what it does. */
  datatype Handler = Handler(
    action: nat, matching: MatchCfg, accessLogger: Option<nat>, auth: Option<nat>, limiter: Option<LimiterRef>,
    nextHandler: bool, handlers: seq<Handler>)

  predicate VersionMatches(v: HTTPVersion, req: Request)
  {
    match v
    case HTTP10 => req.major == 1 && req.minor == 0
    case HTTP11 => req.major == 1 && req.minor == 1
    case HTTP2 => req.major == 2
    case HTTP3 => req.major == 3
  }

  predicate AnyText(ms: seq<TextMatcher>, text: string)
  {
    exists i :: 0 <= i < |ms| && ms[i](text)
  }

  predicate SharesValue(values: seq<string>, expected: seq<string>)
  {
    exists i :: 0 <= i < |values| && values[i] in expected
  }

  predicate AnyValueMatches(values: seq<string>, res: seq<TextMatcher>)
  {
    exists i :: 0 <= i < |values| && AnyText(res, values[i])
  }

  /**
    The loop over expected header values, in the order in which the map is iterated. An entry
    without values overwrites the verdict so far; an entry with values can only make it true.
   */
  predicate HeaderValuesMatch(entries: seq<(string, seq<string>)>, req: Request, verdict: bool)
    decreases |entries|
  {
    if entries == [] then verdict
    else
      var (name, expected) := entries[0];
      if expected == [] then HeaderValuesMatch(entries[1..], req, |req.header(name)| > 0)
      else SharesValue(req.header(name), expected) || HeaderValuesMatch(entries[1..], req, verdict)
  }

  predicate HeaderRegexpsMatch(entries: seq<(string, seq<TextMatcher>)>, req: Request)
  {
    exists i :: 0 <= i < |entries| && AnyValueMatches(req.header(entries[i].0), entries[i].1)
  }

  predicate HeaderMatches(m: MatchCfg, req: Request)
  {
    (m.headerValues == [] && m.headerRegexps == [])
    || HeaderValuesMatch(m.headerValues, req, false) || HeaderRegexpsMatch(m.headerRegexps, req)
  }

  /** Everything but the path. */
  predicate ConstraintsHold(m: MatchCfg, req: Request)
  {
    && (m.tls.Some? ==> m.tls.value == req.tls)
    && (m.versions != [] ==> exists i :: 0 <= i < |m.versions| && VersionMatches(m.versions[i], req))
    && (m.methods != [] ==> req.verb in m.methods)
    && (m.hosts != [] || m.hostRegexps != [] ==> AnyText(m.hosts, req.host) || AnyText(m.hostRegexps, req.host))
    && HeaderMatches(m, req)
  }

  predicate HasPaths(m: MatchCfg)
  {
    |m.paths| > 0 || |m.pathRegexps| > 0
  }

  /** The subpath that the first matching pattern leaves; relative patterns match the current subpath. */
  function FirstPathMatch(patterns: seq<PathPattern>, path: string, subpath: string): (r: Option<string>)
    decreases |patterns|
  {
    if patterns == [] then None
    else
      var (ok, rest) := Match(patterns[0], if patterns[0].relative then subpath else path);
      if ok then Some(rest) else FirstPathMatch(patterns[1..], path, subpath)
  }

  /** The new subpath if the path constraints hold; without path patterns it is empty. */
  function PathMatch(m: MatchCfg, path: string, subpath: string): (r: Option<string>)
  {
    if !HasPaths(m) then Some("")
    else match FirstPathMatch(m.paths, path, subpath)
      case Some(rest) => Some(rest)
      case None => if AnyText(m.pathRegexps, path) then Some("") else None
  }

  /** A full match of a handler, with the subpath it would set. */
  function FullMatch(h: Handler, req: Request, subpath: string): (r: Option<string>)
  {
    if ConstraintsHold(h.matching, req) then PathMatch(h.matching, req.path, subpath) else None
  }

  const SUBPATH_VAR := "http.match.subpath"

  /** The part of the request context that routing changes. */
  datatype Context = Context(
    accessLogger: Option<nat>, auth: Option<nat>, limiter: Option<nat>, subpath: string, vars: map<string, string>)

  /** The settings that a fully matching handler passes on; an empty limiter cancels the current one. */
  function Settle(ctx: Context, h: Handler): (r: Context)
  {
    ctx.(accessLogger := if h.accessLogger.Some? then h.accessLogger else ctx.accessLogger,
         auth := if h.auth.Some? then h.auth else ctx.auth,
         limiter := if h.limiter.None? then ctx.limiter
                    else if h.limiter.value.empty then None else Some(h.limiter.value.id))
  }

  function MatchRequest(h: Handler, req: Request, ctx: Context): (r: (Context, bool))
  {
    match FullMatch(h, req, ctx.subpath)
    case None => (ctx, false)
    case Some(rest) =>
      var settled := Settle(ctx, h);
      if h.nextHandler then (settled, false)
      else (settled.(subpath := rest, vars := settled.vars[SUBPATH_VAR := rest]), true)
  }

  function Find(handlers: seq<Handler>, lastMatch: Option<Handler>, req: Request, ctx: Context)
    : (r: (Option<Handler>, Context))
    ensures lastMatch.Some? ==> r.0.Some?
    decreases handlers
  {
    if handlers == [] then (lastMatch, ctx)
    else
      var (next, selected) := MatchRequest(handlers[0], req, ctx);
      if selected then Find(handlers[0].handlers, Some(handlers[0]), req, next)
      else Find(handlers[1..], lastMatch, req, next)
  }

  class RequestContext {
    const request: Request
    var accessLogger: Option<nat>
    var auth: Option<nat>
    var limiter: Option<nat>
    var subpath: string
    var vars: map<string, string>

    ghost function View(): (c: Context)
      reads this
    {
      Context(accessLogger, auth, limiter, subpath, vars)
    }

    constructor (request: Request, accessLogger: Option<nat>)
      ensures this.request == request
      ensures View() == Context(accessLogger, None, None,
                                if request.path != "" && request.path[0] == '/' then request.path[1..] else request.path,
                                map[])
    {
      this.request, this.accessLogger := request, accessLogger;
      auth, limiter, vars := None, None, map[];
      subpath := if request.path != "" && request.path[0] == '/' then request.path[1..] else request.path;
    }
  }

  method AnyTextMatches(ms: seq<TextMatcher>, text: string) returns (found: bool)
    ensures found == AnyText(ms, text)
  {
    for i := 0 to |ms|
      invariant forall j :: 0 <= j < i ==> !ms[j](text)
    {
      if ms[i](text) {
        return true;
      }
    }
    return false;
  }

  method MatchHeader(m: MatchCfg, req: Request) returns (ok: bool)
    ensures ok == (HeaderValuesMatch(m.headerValues, req, false) || HeaderRegexpsMatch(m.headerRegexps, req))
  {
    ok := false;
    var i := 0;
    while i < |m.headerValues|
      invariant 0 <= i <= |m.headerValues|
      invariant HeaderValuesMatch(m.headerValues, req, false) == HeaderValuesMatch(m.headerValues[i..], req, ok)
    {
      assert m.headerValues[i..][1..] == m.headerValues[i + 1..];
      var (name, expected) := m.headerValues[i];
      if expected == [] {
        ok := |req.header(name)| > 0;
      } else if SharesValue(req.header(name), expected) {
        return true;
      }
      i := i + 1;
    }
    if !ok {
      for j := 0 to |m.headerRegexps|
        invariant forall k :: 0 <= k < j ==> !AnyValueMatches(req.header(m.headerRegexps[k].0), m.headerRegexps[k].1)
      {
        if AnyValueMatches(req.header(m.headerRegexps[j].0), m.headerRegexps[j].1) {
          return true;
        }
      }
    }
  }

  /** The path part of matching, for a handler that has path constraints or none. */
  method MatchPaths(m: MatchCfg, path: string, subpath: string) returns (r: Option<string>)
    ensures r == PathMatch(m, path, subpath)
  {
    var rest := "";
    if |m.paths| == 0 && |m.pathRegexps| == 0 {
      return Some(rest);
    }
    for i := 0 to |m.paths|
      invariant FirstPathMatch(m.paths, path, subpath) == FirstPathMatch(m.paths[i..], path, subpath)
      invariant rest == ""
    {
      assert m.paths[i..][1..] == m.paths[i + 1..];
      var refPath := path;
      if m.paths[i].relative {
        refPath := subpath;
      }
      var ok;
      ok, rest := MatchPath(m.paths[i], refPath);
      if ok {
        return Some(rest);
      }
    }
    var found := AnyTextMatches(m.pathRegexps, path);
    return if found then Some(rest) else None;
  }

  /** The part of matching that looks at everything but the path. */
  method CheckConstraints(m: MatchCfg, req: Request) returns (ok: bool)
    ensures ok == ConstraintsHold(m, req)
  {
    if m.tls.Some? {
      if m.tls.value && !req.tls {
        return false;
      }
      if !m.tls.value && req.tls {
        return false;
      }
    }
    if |m.versions| > 0 {
      var versionMatch := false;
      for i := 0 to |m.versions|
        invariant versionMatch == exists j :: 0 <= j < i && VersionMatches(m.versions[j], req)
      {
        if VersionMatches(m.versions[i], req) {
          versionMatch := true;
        }
      }
      if !versionMatch {
        return false;
      }
    }
    if |m.methods| > 0 && req.verb !in m.methods {
      return false;
    }
    if |m.hosts| > 0 || |m.hostRegexps| > 0 {
      var hostMatch := AnyTextMatches(m.hosts, req.host);
      if !hostMatch {
        hostMatch := AnyTextMatches(m.hostRegexps, req.host);
      }
      if !hostMatch {
        return false;
      }
    }
    if |m.headerValues| > 0 || |m.headerRegexps| > 0 {
      var headerMatch := MatchHeader(m, req);
      return headerMatch;
    }
    return true;
  }

  /** Tries one handler; the context changes only on a full match. */
  method MatchHandler(h: Handler, ctx: RequestContext) returns (selected: bool)
    modifies ctx
    ensures (ctx.View(), selected) == MatchRequest(h, ctx.request, old(ctx.View()))
  {
    var m, req := h.matching, ctx.request;
    var holds := CheckConstraints(m, req);
    if !holds {
      return false;
    }
    var rest := MatchPaths(m, req.path, ctx.subpath);
    if rest.None? {
      return false;
    }

    if h.accessLogger.Some? {
      ctx.accessLogger := h.accessLogger;
    }
    if h.auth.Some? {
      ctx.auth := h.auth;
    }
    if h.limiter.Some? {
      if h.limiter.value.empty {
        ctx.limiter := None;
      } else {
        ctx.limiter := Some(h.limiter.value.id);
      }
    }
    if h.nextHandler {
      return false;
    }
    ctx.subpath := rest.value;
    ctx.vars := ctx.vars[SUBPATH_VAR := rest.value];
    return true;
  }

  /** The recursive search among siblings. */
  method FindAmong(handlers: seq<Handler>, lastMatch: Option<Handler>, ctx: RequestContext)
    returns (found: Option<Handler>)
    modifies ctx
    ensures (found, ctx.View()) == Find(handlers, lastMatch, ctx.request, old(ctx.View()))
    decreases handlers
  {
    ghost var start := ctx.View();
    for i := 0 to |handlers|
      invariant Find(handlers, lastMatch, ctx.request, start) == Find(handlers[i..], lastMatch, ctx.request, ctx.View())
    {
      assert handlers[i..][1..] == handlers[i + 1..];
      var selected := MatchHandler(handlers[i], ctx);
      if selected {
        found := FindAmong(handlers[i].handlers, Some(handlers[i]), ctx);
        return;
      }
    }
    return lastMatch;
  }

  method FindHandler(handlers: seq<Handler>, ctx: RequestContext) returns (found: Option<Handler>)
    modifies ctx
    ensures (found, ctx.View()) == Find(handlers, None, ctx.request, old(ctx.View()))
  {
    found := FindAmong(handlers, None, ctx);
  }

  /** A handler that ends the search among its siblings. */
  predicate Selects(h: Handler, req: Request, subpath: string)
  {
    FullMatch(h, req, subpath).Some? && !h.nextHandler
  }

  /** The position of the first selecting sibling. */
  ghost predicate FirstSelecting(handlers: seq<Handler>, req: Request, subpath: string, i: nat)
  {
    i < |handlers| && Selects(handlers[i], req, subpath)
    && forall j :: 0 <= j < i ==> !Selects(handlers[j], req, subpath)
  }

  /**
    A chain of positions down the tree: each is the first selecting sibling under the subpath that
    the one above has set, and nothing selects below the last one.
   */
  ghost predicate IsChain(handlers: seq<Handler>, req: Request, subpath: string, chain: seq<nat>)
    decreases |chain|
  {
    if chain == [] then forall i :: 0 <= i < |handlers| ==> !Selects(handlers[i], req, subpath)
    else
      && FirstSelecting(handlers, req, subpath, chain[0])
      && var h := handlers[chain[0]];
      && IsChain(h.handlers, req, FullMatch(h, req, subpath).value, chain[1..])
  }

  /** The handler at the end of a chain of positions, and the subpath there. */
  function EndOf(handlers: seq<Handler>, req: Request, subpath: string, chain: seq<nat>, above: Option<Handler>)
    : (r: (Option<Handler>, string))
    decreases |chain|
  {
    if chain == [] || chain[0] >= |handlers| then (above, subpath)
    else
      var h := handlers[chain[0]];
      EndOf(h.handlers, req, FullMatch(h, req, subpath).GetOr(subpath), chain[1..], Some(h))
  }

  /** The handlers that fully match in a list of siblings, in order. */
  function FullyMatching(handlers: seq<Handler>, req: Request, subpath: string): (hs: seq<Handler>)
  {
    if handlers == [] then []
    else (if FullMatch(handlers[0], req, subpath).Some? then [handlers[0]] else [])
         + FullyMatching(handlers[1..], req, subpath)
  }

  /** All handlers that pass on their settings: on each level those that fully match, up to the selected one. */
  function Passing(handlers: seq<Handler>, req: Request, subpath: string, chain: seq<nat>): (hs: seq<Handler>)
    decreases |chain|
  {
    if chain == [] || chain[0] >= |handlers| then FullyMatching(handlers, req, subpath)
    else
      var h := handlers[chain[0]];
      FullyMatching(handlers[..chain[0] + 1], req, subpath)
      + Passing(h.handlers, req, FullMatch(h, req, subpath).GetOr(subpath), chain[1..])
  }

  function SettleAll(ctx: Context, hs: seq<Handler>): (r: Context)
    decreases |hs|
  {
    if hs == [] then ctx else SettleAll(Settle(ctx, hs[0]), hs[1..])
  }

  function ChainOf(handlers: seq<Handler>, req: Request, subpath: string): (chain: seq<nat>)
    decreases handlers
  {
    if handlers == [] then []
    else if Selects(handlers[0], req, subpath) then
      [0] + ChainOf(handlers[0].handlers, req, FullMatch(handlers[0], req, subpath).value)
    else
      var rest := ChainOf(handlers[1..], req, subpath);
      if rest == [] then [] else [rest[0] + 1] + rest[1..]
  }

  /** Every tree, request and subpath have a chain. */
  lemma {:induction false} ChainExists(handlers: seq<Handler>, req: Request, subpath: string)
    ensures IsChain(handlers, req, subpath, ChainOf(handlers, req, subpath))
    decreases handlers
  {
    if handlers != [] {
      var h, chain := handlers[0], ChainOf(handlers, req, subpath);
      if Selects(h, req, subpath) {
        ChainExists(h.handlers, req, FullMatch(h, req, subpath).value);
        assert chain[1..] == ChainOf(h.handlers, req, FullMatch(h, req, subpath).value);
      } else {
        var rest := ChainOf(handlers[1..], req, subpath);
        ChainExists(handlers[1..], req, subpath);
        if rest != [] {
          assert chain[1..] == rest[1..];
          assert handlers[chain[0]] == handlers[1..][rest[0]];
          forall j | 0 <= j < chain[0]
            ensures !Selects(handlers[j], req, subpath)
          {
            if j > 0 {
              assert handlers[j] == handlers[1..][j - 1];
            }
          }
        } else {
          forall i | 0 <= i < |handlers|
            ensures !Selects(handlers[i], req, subpath)
          {
            if i > 0 {
              assert handlers[i] == handlers[1..][i - 1];
            }
          }
        }
      }
    }
  }

  /** There is only one chain. */
  lemma {:induction false} ChainUnique(handlers: seq<Handler>, req: Request, subpath: string, a: seq<nat>, b: seq<nat>)
    requires IsChain(handlers, req, subpath, a) && IsChain(handlers, req, subpath, b)
    ensures a == b
    decreases |a|
  {
    ChainStart(handlers, req, subpath, a, b);
    if a != [] {
      var h := handlers[a[0]];
      ChainUnique(h.handlers, req, FullMatch(h, req, subpath).value, a[1..], b[1..]);
      assert a == [a[0]] + a[1..] && b == [b[0]] + b[1..];
    }
  }

  /** Two chains start alike, if they start at all. */
  lemma {:induction false} ChainStart(handlers: seq<Handler>, req: Request, subpath: string, a: seq<nat>, b: seq<nat>)
    requires IsChain(handlers, req, subpath, a) && IsChain(handlers, req, subpath, b)
    ensures (a == [] <==> b == []) && (a != [] ==> a[0] == b[0])
  {
  }

  /** A sibling that does not select is skipped; it may leave its settings behind. */
  lemma SkipSibling(handlers: seq<Handler>, req: Request, ctx: Context, lastMatch: Option<Handler>)
    requires handlers != [] && !Selects(handlers[0], req, ctx.subpath)
    ensures var next := SettleAll(ctx, FullyMatching(handlers[..1], req, ctx.subpath));
            && next.subpath == ctx.subpath && next.vars == ctx.vars
            && Find(handlers, lastMatch, req, ctx) == Find(handlers[1..], lastMatch, req, next)
  {
    assert handlers[..1] == [handlers[0]] && handlers[..1][1..] == [];
    var passed := if FullMatch(handlers[0], req, ctx.subpath).Some? then [handlers[0]] else [];
    assert FullyMatching(handlers[..1], req, ctx.subpath) == passed;
  }

  lemma {:induction false} SettleSplit(ctx: Context, a: seq<Handler>, b: seq<Handler>)
    ensures SettleAll(ctx, a + b) == SettleAll(SettleAll(ctx, a), b)
    decreases |a|
  {
    if a == [] {
      assert a + b == b;
    } else {
      assert (a + b)[1..] == a[1..] + b;
      SettleSplit(Settle(ctx, a[0]), a[1..], b);
    }
  }

  lemma {:induction false} SettleKeepsPath(ctx: Context, hs: seq<Handler>)
    ensures SettleAll(ctx, hs).subpath == ctx.subpath && SettleAll(ctx, hs).vars == ctx.vars
    decreases |hs|
  {
    if hs != [] {
      SettleKeepsPath(Settle(ctx, hs[0]), hs[1..]);
    }
  }

  lemma {:induction false} FullyMatchingSplit(a: seq<Handler>, b: seq<Handler>, req: Request, subpath: string)
    ensures FullyMatching(a + b, req, subpath) == FullyMatching(a, req, subpath) + FullyMatching(b, req, subpath)
    decreases |a|
  {
    if a == [] {
      assert a + b == b;
    } else {
      assert (a + b)[1..] == a[1..] + b;
      FullyMatchingSplit(a[1..], b, req, subpath);
    }
  }

  /** What the request context becomes: settings as in `Settle`, the subpath and its variable as selected. */
  function Final(ctx: Context, passing: seq<Handler>, chain: seq<nat>, subpath: string): (r: Context)
  {
    var settled := SettleAll(ctx, passing);
    if chain == [] then settled
    else settled.(subpath := subpath, vars := settled.vars[SUBPATH_VAR := subpath])
  }

  /**
    Refinement: the search returns the handler at the end of the chain, and the settings are those
    of the handlers that pass theirs on, folded in order.
   */
  lemma {:induction false} FindFollowsChain(
    handlers: seq<Handler>, lastMatch: Option<Handler>, req: Request, ctx: Context, chain: seq<nat>)
    requires IsChain(handlers, req, ctx.subpath, chain)
    ensures var (found, after) := Find(handlers, lastMatch, req, ctx);
            var (end, subpath) := EndOf(handlers, req, ctx.subpath, chain, lastMatch);
            && found == end
            && after == Final(ctx, Passing(handlers, req, ctx.subpath, chain), chain, subpath)
    decreases handlers
  {
    if handlers != [] {
      var h := handlers[0];
      if Selects(h, req, ctx.subpath) {
        FindSelected(handlers, lastMatch, req, ctx, chain);
      } else {
        SkipSibling(handlers, req, ctx, lastMatch);
        var passed := FullyMatching(handlers[..1], req, ctx.subpath);
        var next := SettleAll(ctx, passed);
        var rest := if chain == [] then [] else [chain[0] - 1] + chain[1..];
        if chain != [] {
          assert handlers[1..][rest[0]] == handlers[chain[0]];
          assert rest[1..] == chain[1..];
        }
        FindFollowsChain(handlers[1..], lastMatch, req, next, rest);
        PassingSkip(handlers, req, ctx.subpath, chain, rest);
        SettleSplit(ctx, passed, Passing(handlers[1..], req, ctx.subpath, rest));
      }
    }
  }

  lemma PassingSkip(handlers: seq<Handler>, req: Request, subpath: string, chain: seq<nat>, rest: seq<nat>)
    requires handlers != [] && (chain == [] ==> rest == [])
    requires chain != [] ==> 0 < chain[0] < |handlers| && rest == [chain[0] - 1] + chain[1..]
    ensures Passing(handlers, req, subpath, chain)
         == FullyMatching(handlers[..1], req, subpath) + Passing(handlers[1..], req, subpath, rest)
  {
    if chain == [] {
      assert handlers == handlers[..1] + handlers[1..];
      FullyMatchingSplit(handlers[..1], handlers[1..], req, subpath);
    } else {
      var h, level := handlers[chain[0]], handlers[1..][..rest[0] + 1];
      assert handlers[..chain[0] + 1] == handlers[..1] + level;
      FullyMatchingSplit(handlers[..1], level, req, subpath);
      assert handlers[1..][rest[0]] == h && rest[1..] == chain[1..];
      Associative(FullyMatching(handlers[..1], req, subpath), FullyMatching(level, req, subpath),
                  Passing(h.handlers, req, FullMatch(h, req, subpath).GetOr(subpath), chain[1..]));
    }
  }

  lemma {:induction false} FindSelected(
    handlers: seq<Handler>, lastMatch: Option<Handler>, req: Request, ctx: Context, chain: seq<nat>)
    requires handlers != [] && Selects(handlers[0], req, ctx.subpath)
    requires IsChain(handlers, req, ctx.subpath, chain)
    ensures var (found, after) := Find(handlers, lastMatch, req, ctx);
            var (end, subpath) := EndOf(handlers, req, ctx.subpath, chain, lastMatch);
            && found == end
            && after == Final(ctx, Passing(handlers, req, ctx.subpath, chain), chain, subpath)
    decreases handlers, 0
  {
    var h := handlers[0];
    assert chain != [] && chain[0] == 0;
    var rest := FullMatch(h, req, ctx.subpath).value;
    var next := MatchRequest(h, req, ctx).0;
    FindFollowsChain(h.handlers, Some(h), req, next, chain[1..]);
    assert handlers[..1] == [h] && [h][1..] == [];
    assert FullyMatching(handlers[..1], req, ctx.subpath) == [h];
    var below := Passing(h.handlers, req, rest, chain[1..]);
    assert Passing(handlers, req, ctx.subpath, chain) == [h] + below;
    FinalOfSelected(ctx, h, rest, below, chain, EndOf(h.handlers, req, rest, chain[1..], Some(h)).1);
  }

  /** Ending below a selected handler is ending at it, with its settings in front. */
  lemma FinalOfSelected(ctx: Context, h: Handler, rest: string, below: seq<Handler>, chain: seq<nat>, subpath: string)
    requires chain != [] && (chain[1..] == [] ==> subpath == rest)
    ensures var settled := Settle(ctx, h);
            Final(settled.(subpath := rest, vars := settled.vars[SUBPATH_VAR := rest]), below, chain[1..], subpath)
            == Final(ctx, [h] + below, chain, subpath)
  {
    var settled := Settle(ctx, h);
    assert ([h] + below)[1..] == below;
    SettleIgnoresPath(settled, rest, settled.vars[SUBPATH_VAR := rest], below);
    SettleKeepsPath(settled, below);
    var last := SettleAll(settled, below);
    assert last.vars[SUBPATH_VAR := rest][SUBPATH_VAR := subpath] == last.vars[SUBPATH_VAR := subpath];
  }

  /** Settings are passed on whatever the subpath. */
  lemma {:induction false} SettleIgnoresPath(ctx: Context, subpath: string, vars: map<string, string>, hs: seq<Handler>)
    ensures SettleAll(ctx.(subpath := subpath, vars := vars), hs)
         == SettleAll(ctx, hs).(subpath := subpath, vars := vars)
    decreases |hs|
  {
    if hs != [] {
      assert Settle(ctx.(subpath := subpath, vars := vars), hs[0])
          == Settle(ctx, hs[0]).(subpath := subpath, vars := vars);
      SettleIgnoresPath(Settle(ctx, hs[0]), subpath, vars, hs[1..]);
    }
  }

  /**
    The whole search: there is exactly one chain, the search returns the handler at its end, with the
    subpath there; it returns none exactly when no top-level handler selects.
   */
  lemma SearchResult(handlers: seq<Handler>, req: Request, ctx: Context)
    ensures var (found, after) := Find(handlers, None, req, ctx);
            var chain := ChainOf(handlers, req, ctx.subpath);
            && (forall c :: IsChain(handlers, req, ctx.subpath, c) <==> c == chain)
            && (found, after.subpath) == EndOf(handlers, req, ctx.subpath, chain, None)
            && (found == None <==> forall i :: 0 <= i < |handlers| ==> !Selects(handlers[i], req, ctx.subpath))
            && after == Final(ctx, Passing(handlers, req, ctx.subpath, chain), chain, after.subpath)
  {
    var chain := ChainOf(handlers, req, ctx.subpath);
    ChainExists(handlers, req, ctx.subpath);
    forall c | IsChain(handlers, req, ctx.subpath, c)
      ensures c == chain
    {
      ChainUnique(handlers, req, ctx.subpath, c, chain);
    }
    FindFollowsChain(handlers, None, req, ctx, chain);
    SettleKeepsPath(ctx, Passing(handlers, req, ctx.subpath, chain));
    if chain != [] {
      EndIsSome(handlers[chain[0]].handlers, req,
                FullMatch(handlers[chain[0]], req, ctx.subpath).value, chain[1..], handlers[chain[0]]);
    }
  }

  lemma {:induction false} EndIsSome(
    handlers: seq<Handler>, req: Request, subpath: string, chain: seq<nat>, above: Handler)
    ensures EndOf(handlers, req, subpath, chain, Some(above)).0.Some?
    decreases |chain|
  {
    if chain != [] && chain[0] < |handlers| {
      var h := handlers[chain[0]];
      EndIsSome(h.handlers, req, FullMatch(h, req, subpath).GetOr(subpath), chain[1..], h);
    }
  }

  lemma {:induction false} SettleUnset(ctx: Context, hs: seq<Handler>)
    ensures (forall h <- hs :: h.auth.None?) ==> SettleAll(ctx, hs).auth == ctx.auth
    ensures (forall h <- hs :: h.accessLogger.None?) ==> SettleAll(ctx, hs).accessLogger == ctx.accessLogger
    ensures (forall h <- hs :: h.limiter.None?) ==> SettleAll(ctx, hs).limiter == ctx.limiter
    decreases |hs|
  {
    if hs != [] {
      assert hs[0] in hs;
      SettleUnset(Settle(ctx, hs[0]), hs[1..]);
    }
  }

  /** A setting comes from the last handler that has one; an empty limiter there means no limiter. */
  lemma LastSettingWins(ctx: Context, before: seq<Handler>, h: Handler, after: seq<Handler>)
    ensures var r := SettleAll(ctx, before + ([h] + after));
            && (h.auth.Some? && (forall x <- after :: x.auth.None?) ==> r.auth == h.auth)
            && (h.accessLogger.Some? && (forall x <- after :: x.accessLogger.None?) ==>
                  r.accessLogger == h.accessLogger)
            && (h.limiter.Some? && (forall x <- after :: x.limiter.None?) ==>
                  r.limiter == if h.limiter.value.empty then None else Some(h.limiter.value.id))
  {
    SettleSplit(ctx, before, [h] + after);
    assert ([h] + after)[1..] == after;
    SettleUnset(Settle(SettleAll(ctx, before), h), after);
  }

  /** A tree without its settings-only handlers. */
  function Erase(handlers: seq<Handler>): (r: seq<Handler>)
    decreases handlers
  {
    if handlers == [] then []
    else (if handlers[0].nextHandler then [] else [EraseBelow(handlers[0])]) + Erase(handlers[1..])
  }

  function EraseBelow(h: Handler): (r: Handler)
    decreases h, 1
  {
    h.(handlers := Erase(h.handlers))
  }

  function EraseFound(h: Option<Handler>): (r: Option<Handler>)
  {
    if h.None? then None else Some(EraseBelow(h.value))
  }

  /**
    Erasure: deleting every settings-only handler, with what is below it, changes neither the
    selected handler nor the subpath, from any contexts that agree on the subpath.
   */
  lemma {:induction false} Erasure(
    handlers: seq<Handler>, lastMatch: Option<Handler>, req: Request, ctx: Context, other: Context)
    requires ctx.subpath == other.subpath && ctx.vars == other.vars
    ensures var (found, after) := Find(handlers, lastMatch, req, ctx);
            var (kept, afterKept) := Find(Erase(handlers), EraseFound(lastMatch), req, other);
            kept == EraseFound(found) && afterKept.subpath == after.subpath && afterKept.vars == after.vars
    decreases handlers
  {
    if handlers != [] {
      var h, rest := handlers[0], handlers[1..];
      var (next, selected) := MatchRequest(h, req, ctx);
      if h.nextHandler {
        assert [] + Erase(rest) == Erase(rest);
        Erasure(rest, lastMatch, req, next, other);
      } else {
        var erased := Erase(handlers);
        assert erased == [EraseBelow(h)] + Erase(rest);
        assert erased[0] == EraseBelow(h) && erased[1..] == Erase(rest);
        var nextOther := MatchRequest(EraseBelow(h), req, other).0;
        if selected {
          Erasure(h.handlers, Some(h), req, next, nextOther);
        } else {
          Erasure(rest, lastMatch, req, next, nextOther);
        }
      }
    }
  }

  /** The handler at a level of a tree, below the ones that the indices before it name. */
  function HandlerAt(handlers: seq<Handler>, indices: seq<nat>, level: nat): (h: Option<Handler>)
    decreases level
  {
    if indices == [] || indices[0] >= |handlers| then None
    else if level == 0 then Some(handlers[indices[0]])
    else HandlerAt(handlers[indices[0]].handlers, indices[1..], level - 1)
  }

  predicate HasNextHandler(handlers: seq<Handler>)
    decreases handlers
  {
    exists i :: 0 <= i < |handlers| && (handlers[i].nextHandler || HasNextHandler(handlers[i].handlers))
  }

  /** Erasing leaves no settings-only handler anywhere in the tree. */
  lemma {:induction false} EraseIsComplete(handlers: seq<Handler>)
    ensures !HasNextHandler(Erase(handlers))
    decreases handlers
  {
    if handlers != [] {
      EraseIsComplete(handlers[1..]);
      var rest, erased := Erase(handlers[1..]), Erase(handlers);
      if handlers[0].nextHandler {
        assert erased == rest;
      } else {
        EraseIsComplete(handlers[0].handlers);
        assert erased == [EraseBelow(handlers[0])] + rest;
        assert forall i :: 0 < i < |erased| ==> erased[i] == rest[i - 1];
      }
    }
  }

  /** So wherever there is a handler in it, it is none of these. */
  lemma {:induction false} ErasedAnywhere(handlers: seq<Handler>, indices: seq<nat>, level: nat)
    requires HandlerAt(Erase(handlers), indices, level).Some?
    ensures !HandlerAt(Erase(handlers), indices, level).value.nextHandler
  {
    EraseIsComplete(handlers);
    NoneAnywhere(Erase(handlers), indices, level);
  }

  lemma {:induction false} NoneAnywhere(handlers: seq<Handler>, indices: seq<nat>, level: nat)
    requires !HasNextHandler(handlers) && HandlerAt(handlers, indices, level).Some?
    ensures !HandlerAt(handlers, indices, level).value.nextHandler
    decreases level
  {
    if level > 0 {
      NoneAnywhere(handlers[indices[0]].handlers, indices[1..], level - 1);
    }
  }

  /** An entry of expected header values that a request meets on its own. */
  predicate EntryMatches(entry: (string, seq<string>), req: Request)
  {
    if entry.1 == [] then |req.header(entry.0)| > 0 else SharesValue(req.header(entry.0), entry.1)
  }

  /** A presence entry that no other presence entry follows. */
  ghost predicate LastPresence(entries: seq<(string, seq<string>)>, i: nat)
  {
    i < |entries| && entries[i].1 == [] && forall j :: i < j < |entries| ==> entries[j].1 != []
  }

  /**
    The verdict on expected header values: an entry with values counts wherever it is, but among the
    entries without values only the last one counts, and without any the verdict so far stays.
    Reading a configuration never makes an entry without values, because it asks for a name and for
    no more than one value at once; a `MatchCfg` that is built in another way can hold one.
   */
  lemma {:induction false} HeaderVerdict(entries: seq<(string, seq<string>)>, req: Request, verdict: bool)
    ensures HeaderValuesMatch(entries, req, verdict)
            <==> || (exists i: nat :: i < |entries| && entries[i].1 != [] && EntryMatches(entries[i], req))
                 || (exists i: nat :: LastPresence(entries, i) && EntryMatches(entries[i], req))
                 || (verdict && forall i: nat :: i < |entries| ==> entries[i].1 != [])
    decreases |entries|
  {
    if entries != [] {
      var rest := entries[1..];
      assert forall j: nat :: j < |rest| ==> rest[j] == entries[j + 1];
      HeaderVerdict(rest, req, if entries[0].1 == [] then |req.header(entries[0].0)| > 0 else verdict);
      forall i: nat | i < |rest|
        ensures LastPresence(rest, i) <==> LastPresence(entries, i + 1)
      {
        assert forall j :: i + 1 < j < |entries| ==> entries[j] == rest[j - 1];
      }
      assert LastPresence(entries, 0) <==> entries[0].1 == [] && forall j: nat :: j < |rest| ==> rest[j].1 != [] by {
        assert forall j :: 0 < j < |entries| ==> entries[j] == rest[j - 1];
      }
      forall i: nat | 0 < i < |entries|
        ensures entries[i] == rest[i - 1] && (LastPresence(entries, i) <==> LastPresence(rest, i - 1))
      {
        assert LastPresence(rest, i - 1) <==> LastPresence(entries, i - 1 + 1);
      }
    }
  }

  /** On what a configuration can hold, the order of the entries makes no difference. */
  lemma ConfiguredHeaders(entries: seq<(string, seq<string>)>, req: Request)
    requires forall e <- entries :: e.1 != []
    ensures HeaderValuesMatch(entries, req, false) <==> exists e <- entries :: EntryMatches(e, req)
  {
    HeaderVerdict(entries, req, false);
    if HeaderValuesMatch(entries, req, false) {
      var i: nat :| i < |entries| && entries[i].1 != [] && EntryMatches(entries[i], req);
      assert entries[i] in entries;
    }
  }

  /** On entries without values, the verdict can depend on the order in which a map is iterated. */
  lemma HeaderOrderMatters(req: Request, present: string, absent: string)
    requires |req.header(present)| > 0 && |req.header(absent)| == 0
    ensures HeaderValuesMatch([(absent, []), (present, [])], req, false)
    ensures !HeaderValuesMatch([(present, []), (absent, [])], req, false)
  {
    var p: (string, seq<string>), a: (string, seq<string>) := (present, []), (absent, []);
    assert [a, p][1..] == [p];
    HeaderVerdict([p, a], req, false);
    assert [p, a][1] == a && !LastPresence([p, a], 0);
  }

  /** A handler that has one path pattern, and no other way for a path to match. */
  predicate OnlyPath(h: Handler, p: PathPattern)
  {
    h.matching.paths == [p] && h.matching.pathRegexps == []
  }

  /** The path that a pattern is matched against. */
  function PathFor(p: PathPattern, req: Request, subpath: string): (path: string)
  {
    if p.relative then subpath else req.path
  }

  lemma OnlyPathMatch(h: Handler, p: PathPattern, req: Request, subpath: string)
    requires OnlyPath(h, p)
    ensures FullMatch(h, req, subpath)
         == if ConstraintsHold(h.matching, req) && Match(p, PathFor(p, req, subpath)).0
            then Some(Match(p, PathFor(p, req, subpath)).1) else None
  {
    var m := h.matching;
    assert m.paths[0] == p && m.paths[1..] == [];
    assert FirstPathMatch(m.paths[1..], req.path, subpath) == None;
    assert !AnyText(m.pathRegexps, req.path);
  }

  /** The full match of the nested pattern is the two full matches in a row. */
  lemma NestedFullMatch(
    outer: Handler, inner: Handler, flat: Handler, a: PathPattern, b: PathPattern, req: Request, subpath: string)
    requires OnlyPath(outer, a) && OnlyPath(inner, b) && OnlyPath(flat, Nest(a, b)) && a.prefix && b.relative
    requires ConstraintsHold(flat.matching, req)
             <==> ConstraintsHold(outer.matching, req) && ConstraintsHold(inner.matching, req)
    requires var path := PathFor(a, req, subpath); Match(a, path).0 ==> NonEmptyNext(a, path)
    ensures FullMatch(flat, req, subpath)
         == match FullMatch(outer, req, subpath)
            case None => None
            case Some(rest) => FullMatch(inner, req, rest)
  {
    var path := PathFor(a, req, subpath);
    NestedPair(a, b, path);
    OnlyPathMatch(outer, a, req, subpath);
    OnlyPathMatch(flat, Nest(a, b), req, subpath);
    OnlyPathMatch(inner, b, req, Match(a, path).1);
  }

  /**
    A handler with a prefix pattern around one with a relative pattern selects the same requests,
    with the same subpath, as one handler with the nested pattern and the constraints of both, unless
    the segment behind the outer match is empty. Requests that only the outer handler matches stay
    with it.
   */
  lemma {:induction false} NestedHandlers(
    outer: Handler, inner: Handler, flat: Handler, a: PathPattern, b: PathPattern, req: Request, ctx: Context)
    requires OnlyPath(outer, a) && OnlyPath(inner, b) && OnlyPath(flat, Nest(a, b)) && a.prefix && b.relative
    requires outer.handlers == [inner] && inner.handlers == [] && flat.handlers == []
    requires !outer.nextHandler && !inner.nextHandler && !flat.nextHandler
    requires ConstraintsHold(flat.matching, req)
             <==> ConstraintsHold(outer.matching, req) && ConstraintsHold(inner.matching, req)
    requires var path := PathFor(a, req, ctx.subpath); Match(a, path).0 ==> NonEmptyNext(a, path)
    ensures var (found, after) := Find([outer], None, req, ctx);
            var (flatFound, flatAfter) := Find([flat], None, req, ctx);
            if flatFound.Some?
            then found == Some(inner) && after.subpath == flatAfter.subpath && after.vars == flatAfter.vars
            else found == if Selects(outer, req, ctx.subpath) then Some(outer) else None
  {
    NestedFullMatch(outer, inner, flat, a, b, req, ctx.subpath);
    FindOnly(outer, req, ctx, None);
    FindLeaf(flat, req, ctx, None);
    if Selects(outer, req, ctx.subpath) {
      FindLeaf(inner, req, MatchRequest(outer, req, ctx).0, Some(outer));
    }
  }

  lemma {:induction false} FindLeaf(h: Handler, req: Request, ctx: Context, above: Option<Handler>)
    requires h.handlers == []
    ensures Find([h], above, req, ctx)
         == var (next, selected) := MatchRequest(h, req, ctx); (if selected then Some(h) else above, next)
  {
    FindOnly(h, req, ctx, above);
  }

  /** Searching a single handler. */
  lemma {:induction false} FindOnly(h: Handler, req: Request, ctx: Context, above: Option<Handler>)
    ensures Find([h], above, req, ctx)
         == var (next, selected) := MatchRequest(h, req, ctx);
            if selected then Find(h.handlers, Some(h), req, next) else (above, next)
  {
    assert [h][1..] == [];
  }

  /** The pattern that decides about a path: the first one that matches. */
  function Deciding(patterns: seq<PathPattern>, req: Request, subpath: string): (p: Option<PathPattern>)
    ensures p.Some? ==> Match(p.value, PathFor(p.value, req, subpath)).0
    ensures FirstPathMatch(patterns, req.path, subpath)
         == if p.Some? then Some(Match(p.value, PathFor(p.value, req, subpath)).1) else None
    decreases |patterns|
  {
    if patterns == [] then None
    else if Match(patterns[0], PathFor(patterns[0], req, subpath)).0 then Some(patterns[0])
    else Deciding(patterns[1..], req, subpath)
  }

  /**
    When a match leaves the subpath as it is: without a matching pattern, only if there is none left; with
    a relative one, only if that has no segments and there is no slash around the subpath; with an
    absolute one, only if the subpath is what its segments leave of the whole path.
   */
  predicate KeepsSubpath(h: Handler, req: Request, subpath: string)
  {
    match Deciding(h.matching.paths, req, subpath)
    case None => subpath == ""
    case Some(p) =>
      if p.relative then p.segments == [] && Trim(subpath, {SLASH}) == subpath
      else subpath == Join(PathSegments(req.path)[|p.segments|..], "/")
  }

  lemma KeepsIs(h: Handler, req: Request, subpath: string)
    requires FullMatch(h, req, subpath).Some?
    ensures FullMatch(h, req, subpath) == Some(subpath) <==> KeepsSubpath(h, req, subpath)
  {
    var p := Deciding(h.matching.paths, req, subpath);
    if p.Some? {
      assert HasPaths(h.matching);
      if p.value.relative {
        LeavesItself(p.value, subpath);
      } else {
        MatchMeaning(p.value, req.path);
      }
    }
  }

  /**
    At the top of the tree, where the subpath is the path without its leading slash, a pattern keeps it,
    relative or not, only if it has no segments and there is no other slash around the path.
   */
  lemma KeepsInitialSubpath(h: Handler, req: Request)
    requires Deciding(h.matching.paths, req, InitialSubpath(req.path)).Some?
    ensures var subpath := InitialSubpath(req.path);
            KeepsSubpath(h, req, subpath)
            <==> Deciding(h.matching.paths, req, subpath).value.segments == [] && Trim(subpath, {SLASH}) == subpath
  {
    var subpath := InitialSubpath(req.path);
    var p := Deciding(h.matching.paths, req, subpath).value;
    InitialSegments(p, req.path);
    LeavesItself(p, subpath);
    MatchMeaning(p, req.path);
  }

  /**
    The first selecting handler hands the search on to its children, and the subpath with it exactly
    when its patterns keep it.
   */
  lemma {:induction false} SubpathKept(
    handlers: seq<Handler>, lastMatch: Option<Handler>, req: Request, ctx: Context, i: nat) returns (below: Context)
    requires FirstSelecting(handlers, req, ctx.subpath, i)
    ensures Find(handlers, lastMatch, req, ctx) == Find(handlers[i].handlers, Some(handlers[i]), req, below)
    ensures Some(below.subpath) == FullMatch(handlers[i], req, ctx.subpath)
    ensures below.subpath == ctx.subpath <==> KeepsSubpath(handlers[i], req, ctx.subpath)
    decreases i
  {
    if i == 0 {
      below := MatchRequest(handlers[0], req, ctx).0;
      KeepsIs(handlers[0], req, ctx.subpath);
    } else {
      assert !Selects(handlers[0], req, ctx.subpath);
      var next := MatchRequest(handlers[0], req, ctx).0;
      below := SubpathKept(handlers[1..], lastMatch, req, next, i - 1);
    }
  }

  /** Only relative patterns, each with a segment to match. */
  predicate NeedsSegment(h: Handler)
  {
    h.matching.paths != [] && h.matching.pathRegexps == []
    && forall p <- h.matching.paths :: p.relative && p.segments != []
  }

  lemma {:induction false} NoSegmentLeft(patterns: seq<PathPattern>, req: Request)
    requires forall p <- patterns :: p.relative && p.segments != []
    ensures Deciding(patterns, req, "").None?
    decreases |patterns|
  {
    if patterns != [] {
      assert patterns[0] in patterns;
      NoSegmentLeft(patterns[1..], req);
    }
  }

  /** Below a handler without path constraints, whose subpath is empty, such a handler never matches. */
  lemma NeverBelowPathless(h: Handler, child: Handler, req: Request, subpath: string)
    requires !HasPaths(h.matching) && FullMatch(h, req, subpath).Some? && NeedsSegment(child)
    ensures FullMatch(h, req, subpath) == Some("") && FullMatch(child, req, "").None?
  {
    NoSegmentLeft(child.matching.paths, req);
    assert !AnyText(child.matching.pathRegexps, req.path);
  }

  /** No handler of a chain that needs a segment comes right behind one without path constraints. */
  predicate NeverBehindPathless(handlers: seq<Handler>, chain: seq<nat>)
    decreases |chain|
  {
    |chain| < 2 || chain[0] >= |handlers| ||
    (var h := handlers[chain[0]];
     && (HasPaths(h.matching) || chain[1] >= |h.handlers| || !NeedsSegment(h.handlers[chain[1]]))
     && NeverBehindPathless(h.handlers, chain[1..]))
  }

  /** So the search, which ends at the end of the chain, never selects one there, anywhere in a tree. */
  lemma {:induction false} PathlessHides(handlers: seq<Handler>, req: Request, subpath: string, chain: seq<nat>)
    requires IsChain(handlers, req, subpath, chain)
    ensures NeverBehindPathless(handlers, chain)
    decreases |chain|
  {
    if |chain| >= 2 {
      var h := handlers[chain[0]];
      var rest := FullMatch(h, req, subpath).value;
      PathlessHides(h.handlers, req, rest, chain[1..]);
      if !HasPaths(h.matching) && NeedsSegment(h.handlers[chain[1]]) {
        NeverBelowPathless(h, h.handlers[chain[1]], req, subpath);
      }
    }
  }

  /** By positions: of two handlers next to each other on the chain, the upper one has paths or the lower one needs none. */
  lemma {:induction false} PathlessHidesAt(
    handlers: seq<Handler>, req: Request, subpath: string, chain: seq<nat>, level: nat)
    requires IsChain(handlers, req, subpath, chain) && level + 1 < |chain|
    ensures var upper, lower := HandlerAt(handlers, chain, level), HandlerAt(handlers, chain, level + 1);
            upper.Some? && lower.Some? && (HasPaths(upper.value.matching) || !NeedsSegment(lower.value))
    decreases level
  {
    if level == 0 {
      PathlessHidesFirst(handlers, req, subpath, chain);
    } else {
      var h := handlers[chain[0]];
      PathlessHidesAt(h.handlers, req, FullMatch(h, req, subpath).value, chain[1..], level - 1);
    }
  }

  lemma {:induction false} PathlessHidesFirst(handlers: seq<Handler>, req: Request, subpath: string, chain: seq<nat>)
    requires IsChain(handlers, req, subpath, chain) && |chain| >= 2
    ensures chain[0] < |handlers| && chain[1] < |handlers[chain[0]].handlers|
    ensures HasPaths(handlers[chain[0]].matching) || !NeedsSegment(handlers[chain[0]].handlers[chain[1]])
  {
    PathlessHides(handlers, req, subpath, chain);
  }

  /**
    The witness: a handler that the search selects on its own is not selected inside a handler that
    asks for nothing.
   */
  lemma WithoutPathsHides(outer: Handler, inner: Handler, req: Request, ctx: Context, segment: string)
    requires OnlyPath(inner, PathPattern([segment], true, false)) && !HasPaths(outer.matching)
    requires ConstraintsHold(outer.matching, req) && ConstraintsHold(inner.matching, req)
    requires outer.handlers == [inner] && inner.handlers == [] && !outer.nextHandler && !inner.nextHandler
    requires ctx.subpath == segment && segment != "" && SLASH !in segment
    ensures Find([inner], None, req, ctx).0 == Some(inner)
    ensures Find([outer], None, req, ctx).0 == Some(outer)
  {
    var p := PathPattern([segment], true, false);
    TrimFixed(segment, {SLASH});
    assert PathSegments(segment) == [segment];
    MatchMeaning(p, segment);
    OnlyPathMatch(inner, p, req, ctx.subpath);
    FindOnly(inner, req, ctx, None);
    FindOnly(outer, req, ctx, None);
    NeverBelowPathless(outer, inner, req, ctx.subpath);
    FindOnly(inner, req, MatchRequest(outer, req, ctx).0, Some(outer));
  }

  /** The protocol versions that a configuration can ask for, in numbers; HTTP/2 and HTTP/3 have no minor one. */
  ghost predicate SpeaksVersion(v: HTTPVersion, major: int, minor: int)
  {
    || (v == HTTP10 && (major, minor) == (1, 0))
    || (v == HTTP11 && (major, minor) == (1, 1))
    || (v == HTTP2 && major == 2)
    || (v == HTTP3 && major == 3)
  }

  /** The part of a request that headers constrain: expected values, presence, or patterns. */
  ghost predicate HeadersAccepted(m: MatchCfg, req: Request)
  {
    || (m.headerValues == [] && m.headerRegexps == [])
    || (exists i, j :: 0 <= i < |m.headerValues| && 0 <= j < |req.header(m.headerValues[i].0)|
                       && req.header(m.headerValues[i].0)[j] in m.headerValues[i].1)
    || (exists i :: 0 <= i < |m.headerValues| && m.headerValues[i].1 == [] && req.header(m.headerValues[i].0) != []
                    && forall j :: i < j < |m.headerValues| ==> m.headerValues[j].1 != [])
    || (exists i, j, k :: 0 <= i < |m.headerRegexps| && 0 <= j < |req.header(m.headerRegexps[i].0)|
                          && 0 <= k < |m.headerRegexps[i].1|
                          && m.headerRegexps[i].1[k](req.header(m.headerRegexps[i].0)[j]))
  }

  /** One path pattern matches: a relative one the subpath, any other the whole path. */
  ghost predicate PatternMatches(p: PathPattern, path: string, subpath: string)
  {
    Match(p, if p.relative then subpath else path).0
  }

  /** The part that paths constrain: a pattern on the subpath or the path, or a regular expression. */
  ghost predicate PathAccepted(m: MatchCfg, path: string, subpath: string)
  {
    || (m.paths == [] && m.pathRegexps == [])
    || (exists i :: 0 <= i < |m.paths| && PatternMatches(m.paths[i], path, subpath))
    || (exists i :: 0 <= i < |m.pathRegexps| && m.pathRegexps[i](path))
  }

  /** All constraints but those on paths, field by field. */
  ghost predicate ConstraintsAccepted(m: MatchCfg, req: Request)
  {
    && (m.tls == None || m.tls == Some(req.tls))
    && (m.versions == [] || exists i :: 0 <= i < |m.versions| && SpeaksVersion(m.versions[i], req.major, req.minor))
    && (m.methods == [] || exists i :: 0 <= i < |m.methods| && m.methods[i] == req.verb)
    && ((m.hosts == [] && m.hostRegexps == [])
        || (exists i :: 0 <= i < |m.hosts| && m.hosts[i](req.host))
        || (exists i :: 0 <= i < |m.hostRegexps| && m.hostRegexps[i](req.host)))
    && HeadersAccepted(m, req)
  }

  /** All constraints of a handler. */
  ghost predicate Accepted(m: MatchCfg, req: Request, subpath: string)
  {
    ConstraintsAccepted(m, req) && PathAccepted(m, req.path, subpath)
  }

  lemma {:induction false} VersionIs(v: HTTPVersion, req: Request)
    ensures VersionMatches(v, req) <==> SpeaksVersion(v, req.major, req.minor)
  {
  }

  lemma {:induction false} HeadersAre(m: MatchCfg, req: Request)
    ensures HeaderMatches(m, req) <==> HeadersAccepted(m, req)
  {
    HeaderVerdict(m.headerValues, req, false);
    HeaderValuesAre(m, req);
    HeaderRegexpsAre(m, req);
  }

  lemma {:induction false} HeaderValuesAre(m: MatchCfg, req: Request)
    ensures HeaderValuesMatch(m.headerValues, req, false)
            <==> || (exists i, j :: 0 <= i < |m.headerValues| && 0 <= j < |req.header(m.headerValues[i].0)|
                                    && req.header(m.headerValues[i].0)[j] in m.headerValues[i].1)
                 || (exists i :: 0 <= i < |m.headerValues| && m.headerValues[i].1 == []
                                 && req.header(m.headerValues[i].0) != []
                                 && forall j :: i < j < |m.headerValues| ==> m.headerValues[j].1 != [])
  {
    var entries := m.headerValues;
    HeaderVerdict(entries, req, false);
    if i: nat :| i < |entries| && entries[i].1 != [] && EntryMatches(entries[i], req) {
      var j :| 0 <= j < |req.header(entries[i].0)| && req.header(entries[i].0)[j] in entries[i].1;
    }
    if i, j :| 0 <= i < |entries| && 0 <= j < |req.header(entries[i].0)| && req.header(entries[i].0)[j] in entries[i].1 {
      assert EntryMatches(entries[i], req);
    }
    if i :| 0 <= i < |entries| && entries[i].1 == [] && req.header(entries[i].0) != []
            && forall j :: i < j < |entries| ==> entries[j].1 != [] {
      assert LastPresence(entries, i) && EntryMatches(entries[i], req);
    }
  }

  lemma {:induction false} HeaderRegexpsAre(m: MatchCfg, req: Request)
    ensures HeaderRegexpsMatch(m.headerRegexps, req)
            <==> exists i, j, k :: 0 <= i < |m.headerRegexps| && 0 <= j < |req.header(m.headerRegexps[i].0)|
                                   && 0 <= k < |m.headerRegexps[i].1|
                                   && m.headerRegexps[i].1[k](req.header(m.headerRegexps[i].0)[j])
  {
    var entries := m.headerRegexps;
    if i, j, k :| 0 <= i < |entries| && 0 <= j < |req.header(entries[i].0)| && 0 <= k < |entries[i].1|
                  && entries[i].1[k](req.header(entries[i].0)[j]) {
      assert AnyText(entries[i].1, req.header(entries[i].0)[j]);
      assert AnyValueMatches(req.header(entries[i].0), entries[i].1);
    }
  }

  lemma {:induction false} PathFound(patterns: seq<PathPattern>, path: string, subpath: string, i: nat)
    requires i < |patterns| && PatternMatches(patterns[i], path, subpath)
    requires forall j :: 0 <= j < i ==> !PatternMatches(patterns[j], path, subpath)
    ensures FirstPathMatch(patterns, path, subpath)
         == Some(Match(patterns[i], if patterns[i].relative then subpath else path).1)
    decreases i
  {
    if i > 0 {
      var rest := patterns[1..];
      forall j | 0 <= j < i
        ensures rest[j] == patterns[j + 1]
      {
      }
      PathFound(rest, path, subpath, i - 1);
    }
  }

  lemma {:induction false} PathMissing(patterns: seq<PathPattern>, path: string, subpath: string)
    requires forall i :: 0 <= i < |patterns| ==> !PatternMatches(patterns[i], path, subpath)
    ensures FirstPathMatch(patterns, path, subpath) == None
    decreases |patterns|
  {
    if patterns != [] {
      PathMissing(patterns[1..], path, subpath);
    }
  }

  /** The first pattern that matches, if there is one. */
  lemma {:induction false} PathFinds(patterns: seq<PathPattern>, path: string, subpath: string) returns (i: nat)
    ensures i <= |patterns|
    ensures i < |patterns| ==> PatternMatches(patterns[i], path, subpath)
    ensures forall j :: 0 <= j < i ==> !PatternMatches(patterns[j], path, subpath)
    decreases |patterns|
  {
    i := 0;
    if patterns != [] && !PatternMatches(patterns[0], path, subpath) {
      var rest := PathFinds(patterns[1..], path, subpath);
      i := rest + 1;
    }
  }

  lemma {:induction false} PatternsAre(patterns: seq<PathPattern>, path: string, subpath: string)
    ensures FirstPathMatch(patterns, path, subpath).Some?
            <==> exists i :: 0 <= i < |patterns| && PatternMatches(patterns[i], path, subpath)
  {
    var i := PathFinds(patterns, path, subpath);
    if i < |patterns| {
      PathFound(patterns, path, subpath, i);
    } else {
      PathMissing(patterns, path, subpath);
    }
  }

  lemma {:induction false} PathsAre(m: MatchCfg, path: string, subpath: string)
    ensures PathMatch(m, path, subpath).Some? <==> PathAccepted(m, path, subpath)
  {
    PatternsAre(m.paths, path, subpath);
    TextsAre(m.pathRegexps, path);
    var found := FirstPathMatch(m.paths, path, subpath).Some?;
    var matched := AnyText(m.pathRegexps, path);
    assert PathMatch(m, path, subpath).Some? == (!HasPaths(m) || found || matched);
    assert HasPaths(m) == !(m.paths == [] && m.pathRegexps == []);
  }

  /** The subpath behind a full match: that of the first matching pattern, or an empty one without any. */
  lemma {:induction false} SubpathMeaning(h: Handler, req: Request, subpath: string, i: nat)
    requires Accepted(h.matching, req, subpath) && i <= |h.matching.paths|
    requires i < |h.matching.paths| ==> PatternMatches(h.matching.paths[i], req.path, subpath)
    requires forall j :: 0 <= j < i ==> !PatternMatches(h.matching.paths[j], req.path, subpath)
    ensures FullMatch(h, req, subpath)
         == Some(if i == |h.matching.paths| then ""
                 else Match(h.matching.paths[i], if h.matching.paths[i].relative then subpath else req.path).1)
  {
    FullMatchMeaning(h, req, subpath);
    if i < |h.matching.paths| {
      PathFound(h.matching.paths, req.path, subpath, i);
    } else {
      PathMissing(h.matching.paths, req.path, subpath);
    }
  }

  lemma {:induction false} VersionsAre(vs: seq<HTTPVersion>, req: Request)
    ensures (exists i :: 0 <= i < |vs| && VersionMatches(vs[i], req))
            <==> exists i :: 0 <= i < |vs| && SpeaksVersion(vs[i], req.major, req.minor)
  {
    forall i | 0 <= i < |vs|
      ensures VersionMatches(vs[i], req) <==> SpeaksVersion(vs[i], req.major, req.minor)
    {
      VersionIs(vs[i], req);
    }
  }

  lemma {:induction false} TextsAre(ms: seq<TextMatcher>, text: string)
    ensures AnyText(ms, text) <==> exists i :: 0 <= i < |ms| && ms[i](text)
  {
  }

  lemma {:induction false} MethodsAre(methods: seq<string>, verb: string)
    ensures verb in methods <==> exists i :: 0 <= i < |methods| && methods[i] == verb
  {
  }

  lemma {:induction false} ConstraintsAre(m: MatchCfg, req: Request)
    ensures ConstraintsHold(m, req) <==> ConstraintsAccepted(m, req)
  {
    VersionsAre(m.versions, req);
    MethodsAre(m.methods, req.verb);
    TextsAre(m.hosts, req.host);
    TextsAre(m.hostRegexps, req.host);
    HeadersAre(m, req);
  }

  /** A handler fully matches exactly when the request meets its constraints, field by field. */
  lemma {:induction false} FullMatchMeaning(h: Handler, req: Request, subpath: string)
    ensures FullMatch(h, req, subpath).Some? <==> Accepted(h.matching, req, subpath)
  {
    ConstraintsAre(h.matching, req);
    PathsAre(h.matching, req.path, subpath);
  }

  /** So the search returns a single handler without children exactly when the request meets its constraints. */
  lemma {:induction false} FindMeaning(h: Handler, req: Request, ctx: Context)
    requires h.handlers == []
    ensures Find([h], None, req, ctx).0
         == if Accepted(h.matching, req, ctx.subpath) && !h.nextHandler then Some(h) else None
  {
    FullMatchMeaning(h, req, ctx.subpath);
    FindOnly(h, req, ctx, None);
  }
}
