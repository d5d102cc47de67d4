/** Comma-separated token lists (section 5.6.1 of RFC 9110): splitting, and appending tokens. */
module TokenLists {
  import opened Results
  import opened Sequences
  import opened Texts

  const COMMA := ','
  const LIST_END: set<char> := {',', ' ', '\t'}
  const SEPARATOR := ", "

  function LowerChar(c: char): (r: char)
  {
    if 'A' <= c <= 'Z' then (c as int + 32) as char else c
  }

  function Lower(s: string): (r: string)
    ensures |r| == |s|
    ensures forall i :: 0 <= i < |s| ==> r[i] == LowerChar(s[i])
  {
    seq(|s|, i requires 0 <= i < |s| => LowerChar(s[i]))
  }

  /** The token of one part of a list, if it has one. */
  function TokenOf(part: string, normalize: bool): (tokens: seq<string>)
  {
    var token := Trim(part, BLANKS);
    if token == "" then [] else [if normalize then Lower(token) else token]
  }

  function TokensOf(parts: seq<string>, normalize: bool): (tokens: seq<string>)
  {
    if parts == [] then [] else TokenOf(parts[0], normalize) + TokensOf(parts[1..], normalize)
  }

  /** The tokens of a list; empty parts are left out. */
  function Tokens(s: string, normalize: bool): (tokens: seq<string>)
  {
    TokensOf(Split(s, COMMA), normalize)
  }

  method SplitTokenList(s: string, normalize: bool) returns (tokens: seq<string>)
    ensures tokens == Tokens(s, normalize)
  {
    tokens := [];
    var parts := Split(s, COMMA);
    for i := 0 to |parts|
      invariant TokensOf(parts, normalize) == tokens + TokensOf(parts[i..], normalize)
    {
      assert parts[i..][1..] == parts[i + 1..];
      Associative(tokens, TokenOf(parts[i], normalize), TokensOf(parts[i + 1..], normalize));
      var token := Trim(parts[i], BLANKS);
      if token != "" {
        if normalize {
          token := Lower(token);
        }
        tokens := tokens + [token];
      } else {
        assert tokens + [] == tokens;
      }
    }
    assert tokens + [] == tokens;
  }

  function AppendToTokenList(s: string, tokens: seq<string>): (r: string)
  {
    if tokens == [] then s
    else
      var trimmed := TrimRight(s, LIST_END);
      if trimmed == "" then Join(tokens, SEPARATOR) else trimmed + SEPARATOR + Join(tokens, SEPARATOR)
  }

  /** A token that a list can carry as it is. */
  predicate Carried(token: string, normalize: bool)
  {
    token != "" && COMMA !in token && Trim(token, BLANKS) == token && (normalize ==> Lower(token) == token)
  }

  lemma {:induction false} TokensOfConcat(a: seq<string>, b: seq<string>, normalize: bool)
    ensures TokensOf(a + b, normalize) == TokensOf(a, normalize) + TokensOf(b, normalize)
    decreases |a|
  {
    if a == [] {
      assert a + b == b;
    } else {
      assert (a + b)[1..] == a[1..] + b;
      TokensOfConcat(a[1..], b, normalize);
      Associative(TokenOf(a[0], normalize), TokensOf(a[1..], normalize), TokensOf(b, normalize));
    }
  }

  lemma {:induction false} SplitConcat(a: string, b: string)
    ensures Split(a + [COMMA] + b, COMMA) == Split(a, COMMA) + Split(b, COMMA)
    decreases |a|
  {
    match IndexOf(a, COMMA)
    case None => SplitPrepend(a, b, COMMA);
    case Some(i) =>
      SplitConcat(a[i + 1..], b);
      SplitConcatBehind(a, b, i);
  }

  lemma {:induction false} SplitConcatBehind(a: string, b: string, i: nat)
    requires IndexOf(a, COMMA) == Some(i)
    requires Split(a[i + 1..] + [COMMA] + b, COMMA) == Split(a[i + 1..], COMMA) + Split(b, COMMA)
    ensures Split(a + [COMMA] + b, COMMA) == Split(a, COMMA) + Split(b, COMMA)
  {
    var left, right := a[..i], a[i + 1..];
    assert a == left + [COMMA] + right;
    Reassociated(left, right, b);
    SplitPrepend(left, right + [COMMA] + b, COMMA);
    SplitPrepend(left, right, COMMA);
    Associative([left], Split(right, COMMA), Split(b, COMMA));
  }

  lemma Reassociated(left: string, right: string, b: string)
    ensures (left + [COMMA] + right) + [COMMA] + b == left + [COMMA] + (right + [COMMA] + b)
  {
  }

  /** Tokens on both sides of a comma. */
  lemma TokensConcat(a: string, b: string, normalize: bool)
    ensures Tokens(a + [COMMA] + b, normalize) == Tokens(a, normalize) + Tokens(b, normalize)
  {
    SplitConcat(a, b);
    TokensOfConcat(Split(a, COMMA), Split(b, COMMA), normalize);
  }

  /** A text without commas is one part. */
  lemma TokensOfOne(s: string, normalize: bool)
    requires COMMA !in s
    ensures Tokens(s, normalize) == TokenOf(s, normalize)
  {
    var parts := Split(s, COMMA);
    assert parts == [s] && parts[1..] == [];
    assert TokensOf(parts, normalize) == TokenOf(parts[0], normalize) + TokensOf(parts[1..], normalize);
    assert TokenOf(s, normalize) + [] == TokenOf(s, normalize);
  }

  lemma {:induction false} TrimBlankEnd(s: string, c: char)
    requires c in BLANKS
    ensures Trim(s + [c], BLANKS) == Trim(s, BLANKS)
    decreases |s|
  {
    if s == "" {
      assert s + [c] == [c] && [c][1..] == [];
    } else if s[0] in BLANKS {
      assert (s + [c])[1..] == s[1..] + [c];
      TrimBlankEnd(s[1..], c);
    } else {
      TrimRightCut(s, [c], BLANKS);
    }
  }

  /** Commas and blanks at the end of a list carry no tokens. */
  lemma EndCarriesNothing(s: string, c: char, normalize: bool)
    requires c in LIST_END
    ensures Tokens(s + [c], normalize) == Tokens(s, normalize)
  {
    if c == COMMA {
      assert s + [c] == s + [COMMA] + "";
      TokensConcat(s, "", normalize);
      TokensOfOne("", normalize);
      assert Tokens(s, normalize) + [] == Tokens(s, normalize);
    } else {
      BlankEndCarriesNothing(s, c, normalize);
    }
  }

  lemma {:induction false} BlankEndCarriesNothing(s: string, c: char, normalize: bool)
    requires c in BLANKS
    ensures Tokens(s + [c], normalize) == Tokens(s, normalize)
    decreases |s|
  {
    match IndexOf(s, COMMA)
    case None =>
      TokensOfOne(s, normalize);
      TokensOfOne(s + [c], normalize);
      TrimBlankEnd(s, c);
    case Some(i) =>
      BlankEndCarriesNothing(s[i + 1..], c, normalize);
      BlankEndBehind(s, i, c, normalize);
  }

  lemma {:induction false} BlankEndBehind(s: string, i: nat, c: char, normalize: bool)
    requires i < |s| && s[i] == COMMA
    requires Tokens(s[i + 1..] + [c], normalize) == Tokens(s[i + 1..], normalize)
    ensures Tokens(s + [c], normalize) == Tokens(s, normalize)
  {
    var left, right := s[..i], s[i + 1..];
    assert s == left + [COMMA] + right;
    assert s + [c] == left + [COMMA] + (right + [c]);
    TokensConcat(left, right, normalize);
    TokensConcat(left, right + [c], normalize);
  }

  lemma {:induction false} TrimmedListSame(s: string, normalize: bool)
    ensures Tokens(TrimRight(s, LIST_END), normalize) == Tokens(s, normalize)
    decreases |s|
  {
    if s != "" && s[|s| - 1] in LIST_END {
      var c := s[|s| - 1];
      assert s == s[..|s| - 1] + [c];
      EndCarriesNothing(s[..|s| - 1], c, normalize);
      TrimmedListSame(s[..|s| - 1], normalize);
    }
  }

  /** A carried token is read as itself, also behind the blank of a separator. */
  lemma CarriedToken(token: string, lead: string, normalize: bool)
    requires Carried(token, normalize) && (lead == "" || lead == " ")
    ensures COMMA !in lead + token && TokenOf(lead + token, normalize) == [token]
  {
    TrimAround(lead, token, "", BLANKS);
    assert lead + token + "" == lead + token;
  }

  lemma JoinedText(lead: string, first: string, rest: string)
    ensures lead + (first + SEPARATOR + rest) == (lead + first) + [COMMA] + (" " + rest)
  {
    assert SEPARATOR == [COMMA] + " ";
  }

  lemma {:induction false} JoinedTokens(tokens: seq<string>, lead: string, normalize: bool)
    requires tokens != [] && (forall t <- tokens :: Carried(t, normalize)) && (lead == "" || lead == " ")
    ensures Tokens(lead + Join(tokens, SEPARATOR), normalize) == tokens
    decreases |tokens|
  {
    CarriedToken(tokens[0], lead, normalize);
    TokensOfOne(lead + tokens[0], normalize);
    if |tokens| > 1 {
      var rest := Join(tokens[1..], SEPARATOR);
      JoinedTokens(tokens[1..], " ", normalize);
      JoinedText(lead, tokens[0], rest);
      TokensConcat(lead + tokens[0], " " + rest, normalize);
      assert tokens == [tokens[0]] + tokens[1..];
    } else {
      assert tokens == [tokens[0]];
    }
  }

  /** Every token that a list carries can be carried again. */
  lemma {:induction false} SplitTokensCarried(parts: seq<string>, normalize: bool)
    requires forall p <- parts :: COMMA !in p
    ensures forall t <- TokensOf(parts, normalize) :: Carried(t, normalize)
    decreases |parts|
  {
    if parts != [] {
      assert parts[0] in parts;
      var token := Trim(parts[0], BLANKS);
      TrimSubset(parts[0], BLANKS);
      LowerKeeps(token);
      TrimFixed(Lower(token), BLANKS);
      SplitTokensCarried(parts[1..], normalize);
    }
  }

  lemma LowerKeeps(s: string)
    ensures Lower(Lower(s)) == Lower(s)
    ensures COMMA !in s ==> COMMA !in Lower(s)
    ensures s != "" ==> (Lower(s)[0] in BLANKS <==> s[0] in BLANKS)
                        && (Lower(s)[|s| - 1] in BLANKS <==> s[|s| - 1] in BLANKS)
  {
  }

  /**
    The append law: the tokens of the longer list are those of the list followed by the appended
    ones, for every list, exactly when each of these can be carried as it is.
   */
  lemma AppendLaw(s: string, tokens: seq<string>, normalize: bool)
    ensures Tokens(AppendToTokenList(s, tokens), normalize) == Tokens(s, normalize) + tokens
            <==> forall t <- tokens :: Carried(t, normalize)
  {
    var all := AppendToTokenList(s, tokens);
    if forall t <- tokens :: Carried(t, normalize) {
      AppendCarried(s, tokens, normalize);
    }
    if Tokens(all, normalize) == Tokens(s, normalize) + tokens {
      SplitTokensCarried(Split(all, COMMA), normalize);
      forall t | t in tokens
        ensures Carried(t, normalize)
      {
        assert t in Tokens(s, normalize) + tokens;
      }
    }
  }

  lemma AppendCarried(s: string, tokens: seq<string>, normalize: bool)
    requires forall t <- tokens :: Carried(t, normalize)
    ensures Tokens(AppendToTokenList(s, tokens), normalize) == Tokens(s, normalize) + tokens
  {
    if tokens == [] {
      assert Tokens(s, normalize) + [] == Tokens(s, normalize);
    } else {
      var trimmed := TrimRight(s, LIST_END);
      TrimmedListSame(s, normalize);
      if trimmed == "" {
        JoinedTokens(tokens, "", normalize);
        assert "" + Join(tokens, SEPARATOR) == Join(tokens, SEPARATOR);
        TokensOfOne("", normalize);
        assert [] + tokens == tokens;
      } else {
        JoinedBehind(trimmed, tokens, normalize);
      }
    }
  }

  lemma JoinedBehind(list: string, tokens: seq<string>, normalize: bool)
    requires tokens != [] && forall t <- tokens :: Carried(t, normalize)
    ensures Tokens(list + SEPARATOR + Join(tokens, SEPARATOR), normalize) == Tokens(list, normalize) + tokens
  {
    var joined := Join(tokens, SEPARATOR);
    JoinedTokens(tokens, " ", normalize);
    assert list + SEPARATOR + joined == list + [COMMA] + (" " + joined);
    TokensConcat(list, " " + joined, normalize);
  }

  /** A part of a list as it may be written: a token, or none, with blanks around it. */
  datatype Item = Item(before: string, token: string, after: string)

  ghost predicate ValidItem(i: Item)
  {
    && (forall c <- i.before + i.after :: c == ' ' || c == '\t') && ',' !in i.token
    && (i.token != "" ==> i.token[0] !in {' ', '\t'} && i.token[|i.token| - 1] !in {' ', '\t'})
  }

  function ItemText(i: Item): (s: string)
  {
    i.before + i.token + i.after
  }

  function ItemTexts(items: seq<Item>): (texts: seq<string>)
    ensures |texts| == |items|
  {
    if items == [] then [] else [ItemText(items[0])] + ItemTexts(items[1..])
  }

  /** The tokens of the items that have one. */
  function ItemTokens(items: seq<Item>): (tokens: seq<string>)
  {
    if items == [] then []
    else (if items[0].token == "" then [] else [items[0].token]) + ItemTokens(items[1..])
  }

  /** A text in lower case, letter by letter. */
  ghost predicate IsLowered(s: string, r: string)
  {
    |r| == |s| && forall i :: 0 <= i < |s| ==>
      if 'A' <= s[i] <= 'Z' then r[i] as int - 'a' as int == s[i] as int - 'A' as int else r[i] == s[i]
  }

  lemma {:induction false} ItemMeaning(i: Item, normalize: bool)
    requires ValidItem(i)
    ensures COMMA !in ItemText(i)
    ensures i.token == "" ==> TokenOf(ItemText(i), normalize) == []
    ensures i.token != "" ==> |TokenOf(ItemText(i), normalize)| == 1
    ensures i.token != "" ==> var t := TokenOf(ItemText(i), normalize)[0];
                              if normalize then IsLowered(i.token, t) else t == i.token
  {
    assert forall k :: 0 <= k < |i.before| ==> i.before[k] in i.before + i.after;
    assert forall k :: 0 <= k < |i.after| ==> i.after[k] in i.before + i.after;
    TrimFixed(i.token, BLANKS);
    TrimAround(i.before, i.token, i.after, BLANKS);
  }

  /** Tokens as they were written, in lower case if the list is normalized. */
  ghost predicate AsWritten(written: seq<string>, got: seq<string>, normalize: bool)
  {
    |got| == |written|
    && forall k :: 0 <= k < |got| ==> if normalize then IsLowered(written[k], got[k]) else got[k] == written[k]
  }

  lemma {:induction false} AsWrittenBoth(a: seq<string>, x: seq<string>, b: seq<string>, y: seq<string>, normalize: bool)
    requires AsWritten(a, x, normalize) && AsWritten(b, y, normalize)
    ensures AsWritten(a + b, x + y, normalize)
  {
  }

  /** A list is what it is written from: its tokens without the blanks, in order, and none for empty parts. */
  lemma {:induction false} ListMeaning(items: seq<Item>, normalize: bool)
    requires items != [] && forall i <- items :: ValidItem(i)
    ensures AsWritten(ItemTokens(items), Tokens(Join(ItemTexts(items), ","), normalize), normalize)
  {
    ItemsCommaFree(items);
    SplitJoin(ItemTexts(items), COMMA);
    ItemsMeaning(items, normalize);
  }

  lemma {:induction false} ItemsCommaFree(items: seq<Item>)
    requires forall i <- items :: ValidItem(i)
    ensures forall t <- ItemTexts(items) :: COMMA !in t
    decreases |items|
  {
    if items != [] {
      ItemMeaning(items[0], false);
      ItemsCommaFree(items[1..]);
    }
  }

  lemma {:induction false} ItemAsWritten(i: Item, normalize: bool)
    requires ValidItem(i)
    ensures AsWritten(if i.token == "" then [] else [i.token], TokenOf(ItemText(i), normalize), normalize)
  {
    ItemMeaning(i, normalize);
  }

  lemma {:induction false} ItemsMeaning(items: seq<Item>, normalize: bool)
    requires forall i <- items :: ValidItem(i)
    ensures AsWritten(ItemTokens(items), TokensOf(ItemTexts(items), normalize), normalize)
    decreases |items|
  {
    if items != [] {
      ItemAsWritten(items[0], normalize);
      ItemsMeaning(items[1..], normalize);
      AsWrittenBoth(if items[0].token == "" then [] else [items[0].token], TokenOf(ItemText(items[0]), normalize),
                    ItemTokens(items[1..]), TokensOf(ItemTexts(items[1..]), normalize), normalize);
      assert ItemTexts(items)[1..] == ItemTexts(items[1..]);
    }
  }
}
