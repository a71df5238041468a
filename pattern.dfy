/**
  The route pattern parser (`parsePattern`): a pattern string is cut at every `/`
  and each token becomes a literal or a variable segment. An empty token after the
  first position (a trailing or doubled `/`) becomes the one-character literal `"/"`
  and ends parsing.
 */
module Pattern {
  import opened GoStrings

  /** `route_segment`: `is_var` selects the constructor, `sub_path` is its string. */
  datatype Segment = Literal(text: string) | Variable(name: string)

  /** The literal that an empty token after the first position turns into. */
  const TrailingMarker: Segment := Literal("/")

  /** The cut set of `strings.Trim(segment, "{}")`. */
  const Braces: set<char> := {'{', '}'}

  /** One non-empty token: a variable when it starts with `{` and ends with `}`
      (which takes two characters at least), a literal of exactly its text otherwise. */
  function Classify(token: string): (s: Segment)
    ensures s.Variable? <==> |token| >= 2 && token[0] == '{' && token[|token| - 1] == '}'
    ensures s.Literal? ==> s.text == token
  {
    if IsVariableToken(token) then
      Variable(Trim(token, Braces))
    else
      Literal(token)
  }

  /** `isVar`: the token starts with `{` and ends with `}`, which a one-character token
      cannot do. */
  predicate IsVariableToken(token: string): (isVar: bool)
    ensures isVar <==> |token| >= 2 && token[0] == '{' && token[|token| - 1] == '}'
  {
    assert |token| >= 1 ==> token[..1][0] == token[0] && token[|token| - 1..][0] == token[|token| - 1];
    HasPrefix(token, "{") && HasSuffix(token, "}")
  }

  /** The segments the parsing loop appends from position `i` of `tokens` on. */
  function ParseTokens(tokens: seq<string>, i: nat): seq<Segment>
    requires i <= |tokens|
    decreases |tokens| - i
  {
    if i == |tokens| then []
    else if tokens[i] == "" && i > 0 then [TrailingMarker]
    else if tokens[i] == "" then ParseTokens(tokens, i + 1)
    else [Classify(tokens[i])] + ParseTokens(tokens, i + 1)
  }

  /** The segments of a pattern. */
  function Parsed(pattern: string): seq<Segment>
  {
    ParseTokens(Split(pattern, '/'), 0)
  }

  /** `parsePattern`: the loop over the `/`-separated tokens, with its `continue` on a
      leading empty token and its `break` after the trailing marker. */
  method ParsePattern(pattern: string) returns (segments: seq<Segment>)
    ensures segments == Parsed(pattern)
  {
    var tokens := Split(pattern, '/');
    segments := [];
    for i := 0 to |tokens|
      invariant segments + ParseTokens(tokens, i) == Parsed(pattern)
    {
      var token := tokens[i];
      var before := segments;
      if token == "" && i > 0 {
        segments := segments + [TrailingMarker];
        assert ParseTokens(tokens, i) == [TrailingMarker];
        break;
      }
      if token == "" {
        assert ParseTokens(tokens, i) == ParseTokens(tokens, i + 1);
        continue;
      }
      var isVar := IsVariableToken(token);
      if isVar {
        segments := segments + [Variable(Trim(token, Braces))];
      } else {
        segments := segments + [Literal(token)];
      }
      assert segments == before + [Classify(token)];
      assert ParseTokens(tokens, i) == [Classify(token)] + ParseTokens(tokens, i + 1);
      AppendAssoc(before, [Classify(token)], ParseTokens(tokens, i + 1));
    }
  }

  /** The first position at or after `i` where parsing stops: an empty token that is
      not the first one, or the end of the tokens. */
  function StopIndex(tokens: seq<string>, i: nat): (k: nat)
    requires i <= |tokens|
    ensures i <= k <= |tokens|
    ensures forall j :: i <= j < k ==> tokens[j] != "" || j == 0
    ensures k < |tokens| ==> tokens[k] == "" && k > 0
    decreases |tokens| - i
  {
    if i == |tokens| || (tokens[i] == "" && i > 0) then i else StopIndex(tokens, i + 1)
  }

  /** Each token classified, in order. */
  function Classified(tokens: seq<string>): (segments: seq<Segment>)
    ensures |segments| == |tokens|
  {
    if tokens == [] then [] else [Classify(tokens[0])] + Classified(tokens[1..])
  }

  /** The segment at each position is the classification of the token there. */
  lemma {:induction false} ClassifiedAt(tokens: seq<string>)
    ensures forall k :: 0 <= k < |tokens| ==> Classified(tokens)[k] == Classify(tokens[k])
  {
    if tokens != [] {
      ClassifiedAt(tokens[1..]);
      forall k | 0 < k < |tokens| ensures Classified(tokens)[k] == Classify(tokens[k]) {
        assert tokens[k] == tokens[1..][k - 1];
      }
    }
  }

  /** What parsing produces, stated without the loop: the non-empty tokens before the
      stop position, classified in order, then the trailing marker if parsing stopped
      at an empty token. */
  lemma {:induction false} ParseTokensShape(tokens: seq<string>, i: nat)
    requires i <= |tokens|
    ensures var k := StopIndex(tokens, i);
      ParseTokens(tokens, i)
        == Classified(NonEmpty(tokens[i..k])) + (if k < |tokens| then [TrailingMarker] else [])
    decreases |tokens| - i
  {
    var k := StopIndex(tokens, i);
    if i == |tokens| || (tokens[i] == "" && i > 0) {
      assert tokens[i..k] == [];
    } else {
      ParseTokensShape(tokens, i + 1);
      assert StopIndex(tokens, i + 1) == k;
      var tail: seq<Segment> := if k < |tokens| then [TrailingMarker] else [];
      var rest := tokens[i + 1..k];
      SliceCons(tokens, i, k);
      ShapeCons(tokens[i], rest, tokens[i..k], tail, ParseTokens(tokens, i + 1));
    }
  }

  /** The inductive step of `ParseTokensShape`: one more token in front. */
  lemma ShapeCons(token: string, rest: seq<string>, whole: seq<string>, tail: seq<Segment>, after: seq<Segment>)
    requires whole == [token] + rest
    requires after == Classified(NonEmpty(rest)) + tail
    ensures token == "" ==> after == Classified(NonEmpty(whole)) + tail
    ensures token != "" ==> [Classify(token)] + after == Classified(NonEmpty(whole)) + tail
  {
    NonEmptyCons(token, rest);
    var kept := NonEmpty(rest);
    if token == "" {
      assert NonEmpty(whole) == [] + kept == kept;
    } else {
      assert NonEmpty(whole) == [token] + kept;
      ClassifiedCons(token, kept);
      AppendAssoc([Classify(token)], Classified(kept), tail);
    }
  }

  /** `Classified` on a sequence with a first element. */
  lemma ClassifiedCons(token: string, rest: seq<string>)
    ensures Classified([token] + rest) == [Classify(token)] + Classified(rest)
  {
    assert ([token] + rest)[1..] == rest;
  }

  /** The segments of a pattern: the non-empty tokens before the stop position,
      classified in order, then the trailing marker when a later empty token stopped
      parsing. `""` parses to no segment at all. */
  lemma PatternShape(pattern: string)
    ensures var tokens := Split(pattern, '/');
      var k := StopIndex(tokens, 0);
      Parsed(pattern)
        == Classified(NonEmpty(tokens[..k])) + (if k < |tokens| then [TrailingMarker] else [])
    ensures pattern == "" ==> Parsed(pattern) == []
  {
    var tokens := Split(pattern, '/');
    ParseTokensShape(tokens, 0);
    assert tokens[0..StopIndex(tokens, 0)] == tokens[..StopIndex(tokens, 0)];
  }

  /** A variable's name is the token stripped of all its leading and trailing braces: it
      neither starts nor ends with one, and it is what lies between those runs. */
  lemma VariableName(token: string)
    requires Classify(token).Variable?
    ensures var name := Classify(token).name;
      var lo := |token| - |TrimLeft(token, Braces)|;
      && (name == [] || (name[0] !in Braces && name[|name| - 1] !in Braces))
      && lo + |name| <= |token|
      && name == token[lo..lo + |name|]
      && (forall k :: 0 <= k < lo ==> token[k] in Braces)
      && (forall k :: lo + |name| <= k < |token| ==> token[k] in Braces)
  {
    TrimInfix(token, Braces);
    var name := Classify(token).name;
    var lo := |token| - |TrimLeft(token, Braces)|;
    assert token[0] in Braces;
    assert token[|token| - 1] in Braces;
  }

  /** A slash-free token classifies to a segment whose text or name is slash-free. */
  lemma ClassifySlashFree(token: string)
    requires '/' !in token
    ensures Classify(token).Literal? ==> '/' !in Classify(token).text
    ensures Classify(token).Variable? ==> '/' !in Classify(token).name
  {
    var name := Trim(token, Braces);
    var lo := |token| - |TrimLeft(token, Braces)|;
    TrimInfix(token, Braces);
    assert name == token[lo..lo + |name|];
  }

  /** The marker `"/"` is the only literal that holds a `/`, and it can only be the last
      segment; no variable name holds a `/` either. */
  lemma MarkerOnlyLast(pattern: string)
    ensures var segments := Parsed(pattern);
      forall j :: 0 <= j < |segments| ==>
        && (segments[j].Literal? && '/' in segments[j].text ==> segments[j] == TrailingMarker && j == |segments| - 1)
        && (segments[j].Variable? ==> '/' !in segments[j].name)
  {
    var tokens := Split(pattern, '/');
    var k := StopIndex(tokens, 0);
    PatternShape(pattern);
    var prefix := tokens[..k];
    assert forall j :: 0 <= j < |prefix| ==> prefix[j] == tokens[j];
    NonEmptyAvoids(prefix, '/');
    var kept := NonEmpty(prefix);
    var head := Classified(kept);
    ClassifiedAt(kept);
    forall j | 0 <= j < |head|
      ensures head[j].Literal? ==> '/' !in head[j].text
      ensures head[j].Variable? ==> '/' !in head[j].name
    {
      ClassifySlashFree(kept[j]);
    }
  }

  /** From a position where no token is empty on, parsing classifies every token. */
  lemma {:induction false} ParseTokensAllNonEmpty(tokens: seq<string>, i: nat)
    requires i <= |tokens|
    requires forall j :: i <= j < |tokens| ==> tokens[j] != ""
    ensures ParseTokens(tokens, i) == Classified(tokens[i..])
    decreases |tokens| - i
  {
    if i < |tokens| {
      ParseTokensAllNonEmpty(tokens, i + 1);
      assert tokens[i..][1..] == tokens[i + 1..];
    }
  }

  /** Round trip: a pattern written as `/` followed by non-empty, slash-free tokens
      joined with `/` parses to those tokens classified, in order. */
  lemma ParseJoined(tokens: seq<string>)
    requires |tokens| >= 1
    requires forall k :: 0 <= k < |tokens| ==> tokens[k] != "" && '/' !in tokens[k]
    ensures Parsed("/" + Join(tokens, '/')) == Classified(tokens)
  {
    var joined := Join(tokens, '/');
    var pattern := "/" + joined;
    SplitJoin(tokens, '/');
    assert pattern[0] == '/' && pattern[1..] == joined;
    var all := Split(pattern, '/');
    assert all == [""] + tokens;
    assert all[1..] == tokens;
    ParseTokensAllNonEmpty(all, 1);
  }

  /** Two patterns that match the root path: `"//a"` stops at its second, empty token
      and is the marker alone, and `"/{id}"` is one variable. */
  lemma RootPatternExamples()
    ensures Parsed("//a") == [TrailingMarker]
    ensures Parsed("/{id}") == [Variable("id")]
  {
    var leading := ["", "", "a"];
    assert Join(leading, '/') == "//a";
    SplitJoin(leading, '/');
    assert ParseTokens(leading, 1) == [TrailingMarker];
    var variable := ["", "{id}"];
    assert Join(variable, '/') == "/{id}";
    SplitJoin(variable, '/');
    assert TrimLeft("{id}", Braces) == "id}";
    assert TrimRight("id}", Braces) == "id";
    assert ParseTokens(variable, 1) == [Variable("id")];
  }

  /** Three small patterns: the root `"/"` is the trailing marker alone, a doubled `/`
      ends parsing with the marker, and the empty pattern has no segment. */
  lemma ParseExamples()
    ensures Parsed("/") == [TrailingMarker]
    ensures Parsed("/a//b") == [Literal("a"), TrailingMarker]
    ensures Parsed("") == []
  {
    var root := ["", ""];
    assert Join(root, '/') == "/";
    SplitJoin(root, '/');
    var doubled := ["", "a", "", "b"];
    assert Join(doubled, '/') == "/a//b";
    SplitJoin(doubled, '/');
    assert Classify("a") == Literal("a");
    assert ParseTokens(doubled, 2) == [TrailingMarker];
  }
}
