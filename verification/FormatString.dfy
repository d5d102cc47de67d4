/**
  Format strings: constant text, escapes, environment variables resolved when the string is parsed,
  and variables with defaults resolved when it is expanded.
 */
module FormatStrings {
  import opened Results
  import opened Sequences

  const SPECIAL: set<char> := {'\\', '$', '{'}

  datatype Part =
    | Constant(value: string)
    | Variable(name: string, default: string)

  datatype FormatError =
    | TruncatedEscape
    | InvalidEscape
    | TruncatedEnvironmentBlock
    | InvalidEnvironmentBlock
    | InvalidEnvironmentName(name: string)
    | UnknownEnvironmentVariable(name: string)
    | TruncatedVariableBlock
    | InvalidVariableName(name: string)

  predicate ValidVariableName(name: string)
  {
    forall i :: 0 <= i < |name| ==>
                  'a' <= name[i] <= 'z' || '0' <= name[i] <= '9' || name[i] == '_' || name[i] == '.'
  }

  predicate ValidEnvironmentName(name: string)
  {
    forall i :: 0 <= i < |name| ==> 'A' <= name[i] <= 'Z' || '0' <= name[i] <= '9' || name[i] == '_'
  }

  /** The length of the plain text at the front. */
  function PlainLength(data: string): (n: nat)
    ensures n <= |data|
    ensures forall i :: 0 <= i < n ==> data[i] !in SPECIAL
    ensures n < |data| ==> data[n] in SPECIAL
  {
    if data == "" || data[0] in SPECIAL then 0 else 1 + PlainLength(data[1..])
  }

  /** The name and the default value of a variable block. */
  function SplitVariable(block: string): (r: (string, string))
  {
    match IndexOf(block, ':')
    case None => (block, "")
    case Some(colon) => (block[..colon], block[colon + 1..])
  }

  /** The first part of a text, and how many characters it takes. */
  function FirstPart(data: string, env: map<string, string>): (r: Result<(Part, nat), FormatError>)
    requires data != ""
    ensures r.Ok? ==> 0 < r.value.1 <= |data|
  {
    if data[0] == '\\' then
      if |data| == 1 then Err(TruncatedEscape)
      else if data[1] != '$' && data[1] != '{' then Err(InvalidEscape)
      else Ok((Constant(data[..2]), 2))
    else if data[0] == '$' then
      if |data| == 1 then Err(TruncatedEnvironmentBlock)
      else if data[1] != '{' then Err(InvalidEnvironmentBlock)
      else match IndexOf(data[2..], '}')
        case None => Err(TruncatedEnvironmentBlock)
        case Some(end) =>
          var name := data[2..end + 2];
          if !ValidEnvironmentName(name) then Err(InvalidEnvironmentName(name))
          else if name !in env then Err(UnknownEnvironmentVariable(name))
          else Ok((Constant(env[name]), end + 3))
    else if data[0] == '{' then
      match IndexOf(data[1..], '}')
      case None => Err(TruncatedVariableBlock)
      case Some(end) =>
        var (name, default) := SplitVariable(data[1..end + 1]);
        if !ValidVariableName(name) then Err(InvalidVariableName(name))
        else Ok((Variable(name, default), end + 2))
    else Ok((Constant(data[..PlainLength(data)]), PlainLength(data)))
  }

  function Parse(data: string, env: map<string, string>): (r: Result<seq<Part>, FormatError>)
    decreases |data|
  {
    if data == "" then Ok([])
    else match FirstPart(data, env)
      case Err(e) => Err(e)
      case Ok((part, n)) =>
        Prefixed([part], Parse(data[n..], env))
  }

  function PartText(part: Part, vars: map<string, string>): (s: string)
  {
    match part
    case Constant(value) => value
    case Variable(name, default) => if name in vars && vars[name] != "" then vars[name] else default
  }

  function Expand(parts: seq<Part>, vars: map<string, string>): (s: string)
  {
    if parts == [] then "" else PartText(parts[0], vars) + Expand(parts[1..], vars)
  }

  /** A parsed format string: it is replaced as a whole, or not at all. */
  class FormatString {
    var value: string
    var parts: seq<Part>

    constructor ()
      ensures value == "" && parts == []
    {
      value, parts := "", [];
    }

    method ParseValue(value: string, env: map<string, string>) returns (err: Option<FormatError>)
      modifies this
      ensures match Parse(value, env)
              case Err(e) => err == Some(e) && this.value == old(this.value) && parts == old(parts)
              case Ok(ps) => err == None && this.value == value && parts == ps
    {
      var data, found := value, [];
      PrefixedNone(Parse(value, env));
      while |data| > 0
        invariant unchanged(this)
        invariant Parse(value, env) == Prefixed(found, Parse(data, env))
        decreases |data|
      {
        var first := FirstPart(data, env);
        if first.Err? {
          return Some(first.error);
        }
        var (part, n) := first.value;
        PrefixedTwice(found, [part], Parse(data[n..], env));
        found := found + [part];
        data := data[n..];
      }
      assert found + [] == found;
      this.value, parts := value, found;
      return None;
    }

    method ExpandValue(vars: map<string, string>) returns (s: string)
      ensures s == Expand(parts, vars)
    {
      s := "";
      for i := 0 to |parts|
        invariant Expand(parts, vars) == s + Expand(parts[i..], vars)
      {
        assert parts[i..][1..] == parts[i + 1..];
        Associative(s, PartText(parts[i], vars), Expand(parts[i + 1..], vars));
        s := s + PartText(parts[i], vars);
      }
      assert s + "" == s;
    }
  }

  lemma {:induction false} PlainLengthAppend(a: string, b: string)
    ensures PlainLength(a + b) == if PlainLength(a) < |a| then PlainLength(a) else |a| + PlainLength(b)
    decreases |a|
  {
    if a == "" {
      assert a + b == b;
    } else if a[0] !in SPECIAL {
      assert (a + b)[1..] == a[1..] + b;
      PlainLengthAppend(a[1..], b);
    }
  }

  lemma {:induction false} EnvironmentAppend(a: string, b: string, env: map<string, string>)
    requires a != "" && a[0] == '$' && FirstPart(a, env).Ok?
    ensures FirstPart(a + b, env) == FirstPart(a, env)
  {
    assert (a + b)[2..] == a[2..] + b;
    var end := IndexOf(a[2..], '}').value;
    IndexOfAppend(a[2..], b, '}');
    assert (a + b)[2..end + 2] == a[2..end + 2];
  }

  lemma {:induction false} VariableAppend(a: string, b: string, env: map<string, string>)
    requires a != "" && a[0] == '{' && FirstPart(a, env).Ok?
    ensures FirstPart(a + b, env) == FirstPart(a, env)
  {
    assert (a + b)[1..] == a[1..] + b;
    var end := IndexOf(a[1..], '}').value;
    IndexOfAppend(a[1..], b, '}');
    assert (a + b)[1..end + 1] == a[1..end + 1];
  }

  /** A first part that something follows, or that is not plain text, does not depend on what is behind. */
  lemma {:induction false} FirstPartAppend(a: string, b: string, env: map<string, string>)
    requires a != "" && FirstPart(a, env).Ok?
    requires a[0] in SPECIAL || PlainLength(a) < |a|
    ensures FirstPart(a + b, env) == FirstPart(a, env)
  {
    if a[0] == '$' {
      EnvironmentAppend(a, b, env);
    } else if a[0] == '{' {
      VariableAppend(a, b, env);
    } else if a[0] == '\\' {
      assert (a + b)[..2] == a[..2];
    } else {
      PlainLengthAppend(a, b);
      assert (a + b)[..PlainLength(a)] == a[..PlainLength(a)];
    }
  }

  lemma PlainFirst(a: string, b: string, env: map<string, string>)
    requires a != "" && PlainLength(a) == |a|
    ensures FirstPart(a + b, env) == Ok((Constant(a + b[..PlainLength(b)]), |a| + PlainLength(b)))
  {
    PlainLengthAppend(a, b);
    assert a[0] !in SPECIAL;
    assert (a + b)[..|a| + PlainLength(b)] == a + b[..PlainLength(b)];
  }

  /** The plain text at the front of a format string, if any, is a part of its own. */
  lemma PlainStart(b: string, env: map<string, string>, vars: map<string, string>)
    requires Parse(b, env).Ok?
    ensures var n := PlainLength(b);
            && Parse(b[n..], env).Ok?
            && Expand(Parse(b, env).value, vars) == b[..n] + Expand(Parse(b[n..], env).value, vars)
  {
    var n := PlainLength(b);
    if n > 0 {
      ExpandFirst(Constant(b[..n]), Parse(b[n..], env).value, vars);
    } else {
      assert b[n..] == b;
      assert b[..n] + Expand(Parse(b, env).value, vars) == Expand(Parse(b, env).value, vars);
    }
  }

  /** Plain text in front of a format string joins its first part, if that is plain text too. */
  lemma PlainPrefix(a: string, b: string, env: map<string, string>, vars: map<string, string>)
    requires a != "" && PlainLength(a) == |a| && Parse(b, env).Ok?
    ensures Parse(a + b, env).Ok?
    ensures Expand(Parse(a + b, env).value, vars) == a + Expand(Parse(b, env).value, vars)
  {
    var n := PlainLength(b);
    PlainStart(b, env, vars);
    PlainJoined(a, b, env);
    var rest, first := Parse(b[n..], env).value, Constant(a + b[..n]);
    ExpandFirst(first, rest, vars);
    Associative(a, b[..n], Expand(rest, vars));
  }

  /** A first part, and where the rest is read from. */
  lemma ParseFirst(data: string, part: Part, rest: string, env: map<string, string>)
    requires data != "" && FirstPart(data, env) == Ok((part, |data| - |rest|))
    requires |rest| <= |data| && data[|data| - |rest|..] == rest
    ensures Parse(data, env) == Prefixed([part], Parse(rest, env))
  {
  }

  lemma PlainJoined(a: string, b: string, env: map<string, string>)
    requires a != "" && PlainLength(a) == |a|
    ensures Parse(a + b, env) == Prefixed([Constant(a + b[..PlainLength(b)])], Parse(b[PlainLength(b)..], env))
  {
    PlainFirst(a, b, env);
    DropBoth(a, b, PlainLength(b));
    ParseFirst(a + b, Constant(a + b[..PlainLength(b)]), b[PlainLength(b)..], env);
  }

  lemma DropBoth(a: string, b: string, n: nat)
    requires n <= |b|
    ensures (a + b)[|a| + n..] == b[n..]
  {
  }

  lemma ExpandFirst(part: Part, parts: seq<Part>, vars: map<string, string>)
    ensures Expand([part] + parts, vars) == PartText(part, vars) + Expand(parts, vars)
  {
    assert ([part] + parts)[1..] == parts;
  }

  /**
    Homomorphism: two format strings that parse can be concatenated, and the expansion is the
    concatenation of their expansions, under any variables.
   */
  lemma {:induction false} Homomorphism(a: string, b: string, env: map<string, string>, vars: map<string, string>)
    requires Parse(a, env).Ok? && Parse(b, env).Ok?
    ensures Parse(a + b, env).Ok?
    ensures Expand(Parse(a + b, env).value, vars)
         == Expand(Parse(a, env).value, vars) + Expand(Parse(b, env).value, vars)
    decreases |a|
  {
    if a == "" {
      assert a + b == b;
      assert "" + Expand(Parse(b, env).value, vars) == Expand(Parse(b, env).value, vars);
    } else if a[0] !in SPECIAL && PlainLength(a) == |a| {
      PlainPrefix(a, b, env, vars);
      PlainAlone(a, env, vars);
    } else {
      var (part, n) := FirstPart(a, env).value;
      Homomorphism(a[n..], b, env, vars);
      SeparatePart(a, b, env, vars);
    }
  }

  /** A first part that stays apart keeps its own expansion in front. */
  lemma SeparatePart(a: string, b: string, env: map<string, string>, vars: map<string, string>)
    requires a != "" && Parse(a, env).Ok? && Parse(b, env).Ok?
    requires a[0] in SPECIAL || PlainLength(a) < |a|
    requires var n := FirstPart(a, env).value.1;
             && Parse(a[n..] + b, env).Ok?
             && Expand(Parse(a[n..] + b, env).value, vars)
                == Expand(Parse(a[n..], env).value, vars) + Expand(Parse(b, env).value, vars)
    ensures Parse(a + b, env).Ok?
    ensures Expand(Parse(a + b, env).value, vars)
         == Expand(Parse(a, env).value, vars) + Expand(Parse(b, env).value, vars)
  {
    var (part, n) := FirstPart(a, env).value;
    FirstPartAppend(a, b, env);
    assert (a + b)[n..] == a[n..] + b;
    var left, both := Parse(a[n..], env).value, Parse(a[n..] + b, env).value;
    ExpandFirst(part, left, vars);
    ExpandFirst(part, both, vars);
    Associative(PartText(part, vars), Expand(left, vars), Expand(Parse(b, env).value, vars));
  }

  lemma PlainAlone(a: string, env: map<string, string>, vars: map<string, string>)
    requires PlainLength(a) == |a|
    ensures Parse(a, env).Ok? && Expand(Parse(a, env).value, vars) == a
  {
    if a != "" {
      PlainPrefix(a, "", env, vars);
      assert a + "" == a;
    }
  }

  /** What a format string is written from. */
  datatype Piece =
    | Text(text: string)
    | Escape(c: char)
    | Environment(envName: string)
    | Var(name: string, default: Option<string>)

  predicate ValidPiece(p: Piece, env: map<string, string>)
  {
    match p
    case Text(text) => forall i :: 0 <= i < |text| ==> text[i] !in SPECIAL
    case Escape(c) => c == '$' || c == '{'
    case Environment(name) => ValidEnvironmentName(name) && name in env
    case Var(name, default) => ValidVariableName(name) && (default.Some? ==> '}' !in default.value)
  }

  function Block(name: string, default: Option<string>): (s: string)
  {
    name + if default.Some? then ":" + default.value else ""
  }

  function Source(p: Piece): (s: string)
  {
    match p
    case Text(text) => text
    case Escape(c) => ['\\', c]
    case Environment(name) => "${" + name + "}"
    case Var(name, default) => "{" + Block(name, default) + "}"
  }

  /** What a piece stands for; an escape keeps its backslash. */
  function Meaning(p: Piece, env: map<string, string>, vars: map<string, string>): (s: string)
    requires ValidPiece(p, env)
  {
    match p
    case Text(text) => text
    case Escape(c) => ['\\', c]
    case Environment(name) => env[name]
    case Var(name, default) =>
      if name in vars && vars[name] != "" then vars[name] else default.GetOr("")
  }

  lemma OnePart(s: string, part: Part, env: map<string, string>, vars: map<string, string>)
    requires s != "" && FirstPart(s, env) == Ok((part, |s|))
    ensures Parse(s, env).Ok? && Expand(Parse(s, env).value, vars) == PartText(part, vars)
  {
    assert s[|s|..] == "";
    ExpandFirst(part, [], vars);
    assert PartText(part, vars) + "" == PartText(part, vars);
  }

  lemma EnvironmentPiece(name: string, env: map<string, string>)
    requires ValidEnvironmentName(name) && name in env
    ensures var s := "${" + name + "}"; FirstPart(s, env) == Ok((Constant(env[name]), |s|))
  {
    var s := "${" + name + "}";
    assert s[2..] == name + "}" && (name + "}")[..|name|] == name;
    IndexOfIs(name + "}", '}', |name|);
    assert s[2..|name| + 2] == name;
  }

  lemma PieceMeaning(p: Piece, env: map<string, string>, vars: map<string, string>)
    requires ValidPiece(p, env)
    ensures Parse(Source(p), env).Ok? && Expand(Parse(Source(p), env).value, vars) == Meaning(p, env, vars)
  {
    var s := Source(p);
    match p
    case Text(text) => PlainAlone(text, env, vars);
    case Escape(_) =>
      assert s[..2] == s;
      OnePart(s, Constant(s), env, vars);
    case Environment(name) =>
      EnvironmentPiece(name, env);
      OnePart(s, Constant(env[name]), env, vars);
    case Var(name, default) =>
      BlockSplits(name, default);
      BlockPart(s, Block(name, default), name, default.GetOr(""), env);
      OnePart(s, Variable(name, default.GetOr("")), env, vars);
  }

  lemma {:induction false} BlockEnd(block: string)
    requires '}' !in block
    ensures IndexOf(block + "}", '}') == Some(|block|)
  {
    IndexOfIs(block + "}", '}', |block|);
  }

  lemma {:induction false} BlockLayout(s: string, block: string)
    requires s == "{" + block + "}"
    ensures |s| == |block| + 2 && s[0] == '{' && s[1..] == block + "}" && s[1..|block| + 1] == block
  {
  }

  lemma {:induction false} BlockAt(
    s: string, end: nat, block: string, name: string, default: string, env: map<string, string>)
    requires s != "" && s[0] == '{' && IndexOf(s[1..], '}') == Some(end) && s[1..end + 1] == block
    requires SplitVariable(block) == (name, default) && ValidVariableName(name)
    ensures FirstPart(s, env) == Ok((Variable(name, default), end + 2))
  {
  }

  /** A block in braces is one variable part. */
  lemma {:induction false} BlockPart(s: string, block: string, name: string, default: string, env: map<string, string>)
    requires s == "{" + block + "}"
    requires '}' !in block && SplitVariable(block) == (name, default) && ValidVariableName(name)
    ensures FirstPart(s, env) == Ok((Variable(name, default), |s|))
  {
    BlockLayout(s, block);
    BlockEnd(block);
    BlockAt(s, |block|, block, name, default, env);
  }

  lemma BlockSplits(name: string, default: Option<string>)
    requires ValidVariableName(name) && (default.Some? ==> '}' !in default.value)
    ensures SplitVariable(Block(name, default)) == (name, default.GetOr("")) && '}' !in Block(name, default)
  {
    var block := Block(name, default);
    if default.Some? {
      assert block[..|name|] == name && block[|name| + 1..] == default.value;
      IndexOfIs(block, ':', |name|);
    } else {
      assert block == name;
    }
  }

  function Sources(ps: seq<Piece>): (s: string)
  {
    if ps == [] then "" else Source(ps[0]) + Sources(ps[1..])
  }

  function Meanings(ps: seq<Piece>, env: map<string, string>, vars: map<string, string>): (s: string)
    requires forall p <- ps :: ValidPiece(p, env)
  {
    if ps == [] then "" else Meaning(ps[0], env, vars) + Meanings(ps[1..], env, vars)
  }

  /** A format string written from any pieces parses, and expands to what they stand for. */
  lemma {:induction false} WrittenMeaning(ps: seq<Piece>, env: map<string, string>, vars: map<string, string>)
    requires forall p <- ps :: ValidPiece(p, env)
    ensures Parse(Sources(ps), env).Ok?
    ensures Expand(Parse(Sources(ps), env).value, vars) == Meanings(ps, env, vars)
    decreases |ps|
  {
    if ps != [] {
      PieceMeaning(ps[0], env, vars);
      WrittenMeaning(ps[1..], env, vars);
      Homomorphism(Source(ps[0]), Sources(ps[1..]), env, vars);
    }
  }

  lemma {:induction false} EnvironmentSource(s: string, env: map<string, string>)
    requires s != "" && s[0] == '$' && FirstPart(s, env).Ok?
    ensures IndexOf(s[2..], '}').Some?
    ensures var name := s[2..IndexOf(s[2..], '}').value + 2];
            ValidPiece(Environment(name), env) && "${" + name + "}" == s[..FirstPart(s, env).value.1]
  {
    var end := IndexOf(s[2..], '}').value;
    assert s[2..][end] == s[end + 2];
    assert s[..end + 3] == "${" + s[2..end + 2] + "}";
  }

  lemma {:induction false} VariableSource(s: string, env: map<string, string>)
    requires s != "" && s[0] == '{' && FirstPart(s, env).Ok?
    ensures IndexOf(s[1..], '}').Some?
    ensures var block := s[1..IndexOf(s[1..], '}').value + 1];
            && '}' !in block && ValidVariableName(SplitVariable(block).0)
            && "{" + block + "}" == s[..FirstPart(s, env).value.1]
  {
    var end := IndexOf(s[1..], '}').value;
    var block := s[1..end + 1];
    assert forall i :: 0 <= i < |block| ==> block[i] == s[1..][i];
    assert s[1..][end] == s[end + 1];
    assert s[..end + 2] == "{" + block + "}";
  }

  /** The piece that a first part has been read from. */
  lemma {:induction false} FirstPiece(s: string, env: map<string, string>) returns (p: Piece)
    requires s != "" && FirstPart(s, env).Ok?
    ensures ValidPiece(p, env) && Source(p) == s[..FirstPart(s, env).value.1]
  {
    if s[0] == '\\' {
      p := Escape(s[1]);
      assert s[..2] == ['\\', s[1]];
    } else if s[0] == '$' {
      EnvironmentSource(s, env);
      p := Environment(s[2..IndexOf(s[2..], '}').value + 2]);
    } else if s[0] == '{' {
      VariableSource(s, env);
      p := BlockPiece(s[1..IndexOf(s[1..], '}').value + 1], env);
    } else {
      p := Text(s[..PlainLength(s)]);
    }
  }

  lemma {:induction false} BlockPiece(block: string, env: map<string, string>) returns (p: Piece)
    requires ValidVariableName(SplitVariable(block).0)
    ensures p.Var? && Block(p.name, p.default) == block
    ensures '}' !in block ==> ValidPiece(p, env)
  {
    match IndexOf(block, ':')
    case None =>
      p := Var(block, None);
      assert block + "" == block;
    case Some(colon) =>
      p := Var(block[..colon], Some(block[colon + 1..]));
      assert block == block[..colon] + (":" + block[colon + 1..]);
  }

  /** Everything that parses is written from valid pieces, so all else is refused. */
  lemma {:induction false} ParsedIsWritten(s: string, env: map<string, string>) returns (ps: seq<Piece>)
    requires Parse(s, env).Ok?
    ensures (forall p <- ps :: ValidPiece(p, env)) && Sources(ps) == s
    decreases |s|
  {
    if s == "" {
      ps := [];
    } else {
      var n := FirstPart(s, env).value.1;
      var p := FirstPiece(s, env);
      var rest := ParsedIsWritten(s[n..], env);
      ps := [p] + rest;
      assert ps[0] == p && ps[1..] == rest && s == s[..n] + s[n..];
    }
  }

  /** Exactly the texts written from valid pieces are format strings. */
  lemma {:induction false} AcceptedIsWritten(s: string, env: map<string, string>)
    ensures Parse(s, env).Ok? <==> exists ps :: (forall p <- ps :: ValidPiece(p, env)) && Sources(ps) == s
  {
    if Parse(s, env).Ok? {
      var ps := ParsedIsWritten(s, env);
    }
    if ps :| (forall p <- ps :: ValidPiece(p, env)) && Sources(ps) == s {
      WrittenMeaning(ps, env, map[]);
    }
  }

  /** The characters that names are made of, by their codes: letters, digits, an underscore, and a dot. */
  lemma {:induction false} NameCharacters(name: string)
    ensures ValidVariableName(name)
            <==> forall c <- name :: 97 <= c as int <= 122 || 48 <= c as int <= 57 || c as int in {95, 46}
    ensures ValidEnvironmentName(name)
            <==> forall c <- name :: 65 <= c as int <= 90 || 48 <= c as int <= 57 || c as int == 95
  {
    assert forall i :: 0 <= i < |name| ==> name[i] in name;
  }
}
