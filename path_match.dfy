/**
  The path normaliser (`splitPath`) and the structural matcher (`match`). A request
  path becomes its non-empty `/`-separated tokens, or the single token `"/"` when it
  has none. A parsed pattern matches when it has as many segments as the path has
  tokens and every literal equals the token at its position. The variables then
  capture the tokens at their positions.
 */
module PathMatch {
  import opened Options
  import opened GoStrings
  import opened Pattern

  /** The tokens of a request path: never empty; exactly `["/"]` when the path is made
      of slashes only (or is empty); otherwise its non-empty `/`-separated pieces in
      order, none of which holds a `/`. */
  function PathTokens(path: string): (tokens: seq<string>)
    ensures tokens != []
    ensures tokens == ["/"] <==> forall k :: 0 <= k < |path| ==> path[k] == '/'
    ensures tokens != ["/"] ==>
      && tokens == NonEmpty(Split(path, '/'))
      && forall k :: 0 <= k < |tokens| ==> tokens[k] != "" && '/' !in tokens[k]
  {
    var pieces := Split(path, '/');
    var kept := NonEmpty(pieces);
    NoPiecesIffOnlySeparators(path, '/');
    SlashFreeKept(pieces);
    if kept == [] then ["/"] else kept
  }

  /** The pieces kept from a split on `/` are slash-free, so none of them is `"/"`. */
  lemma SlashFreeKept(pieces: seq<string>)
    requires forall k :: 0 <= k < |pieces| ==> '/' !in pieces[k]
    ensures forall k :: 0 <= k < |NonEmpty(pieces)| ==> '/' !in NonEmpty(pieces)[k]
    ensures NonEmpty(pieces) != ["/"]
  {
    var kept := NonEmpty(pieces);
    NonEmptyAvoids(pieces, '/');
    assert "/"[0] == '/';
    assert |kept| == 1 ==> '/' !in kept[0];
  }

  /** `splitPath`: keeps the non-empty pieces, then adds `"/"` when none was kept. The
      source tests this twice: the first test fires only for the empty path, the second
      for a non-empty path made of slashes only (`FallbackCases`). */
  method SplitPath(path: string) returns (segments: seq<string>)
    ensures segments == PathTokens(path)
  {
    var rawSegments := Split(path, '/');
    segments := [];
    for i := 0 to |rawSegments|
      invariant segments == NonEmpty(rawSegments[..i])
    {
      var segment := rawSegments[i];
      assert rawSegments[..i + 1] == rawSegments[..i] + [segment];
      NonEmptyAppend(rawSegments[..i], [segment]);
      if |segment| > 0 {
        segments := segments + [segment];
      }
    }
    assert rawSegments[..|rawSegments|] == rawSegments;
    if !HasPrefix(path, "/") && |segments| == 0 {
      segments := segments + ["/"];
    }
    if |segments| == 0 {
      segments := segments + ["/"];
    }
  }

  /** Which of `splitPath`'s two fallbacks adds `"/"`: the first (the path does not start
      with `/` and nothing was kept) exactly for the empty path; the second (it starts with
      `/` and nothing was kept) exactly for a non-empty path of slashes only. */
  lemma FallbackCases(path: string)
    ensures var kept := NonEmpty(Split(path, '/'));
      && (!HasPrefix(path, "/") && kept == [] <==> path == "")
      && (HasPrefix(path, "/") && kept == [] <==>
            path != "" && forall k :: 0 <= k < |path| ==> path[k] == '/')
  {
    NoPiecesIffOnlySeparators(path, '/');
    if path != "" {
      assert path[..1] == [path[0]];
    }
  }

  /** Structural match: equal counts, and each literal equals the token at its position. */
  predicate Matches(segments: seq<Segment>, tokens: seq<string>)
  {
    && |segments| == |tokens|
    && forall i :: 0 <= i < |segments| && segments[i].Literal? ==> segments[i].text == tokens[i]
  }

  /** The parameters the matching loop collects, visiting the segments in order: each
      variable binds its name to the token at its position, overwriting an earlier
      binding of the same name. */
  function Capture(segments: seq<Segment>, tokens: seq<string>): map<string, string>
    requires |segments| <= |tokens|
  {
    if segments == [] then map[]
    else
      var last := |segments| - 1;
      var earlier := Capture(segments[..last], tokens);
      match segments[last]
      case Variable(name) => earlier[name := tokens[last]]
      case Literal(_) => earlier
  }

  /** The keys captured are exactly the variable names of the pattern, and each name is
      bound to the token at the position of its LAST occurrence. */
  lemma {:induction false} CaptureBinds(segments: seq<Segment>, tokens: seq<string>)
    requires |segments| <= |tokens|
    ensures forall name :: name in Capture(segments, tokens) <==> Variable(name) in segments
    ensures forall i :: (0 <= i < |segments| && segments[i].Variable?
                         && (forall j :: i < j < |segments| ==> segments[j] != segments[i]))
                         ==> Capture(segments, tokens)[segments[i].name] == tokens[i]
  {
    if segments != [] {
      var last := |segments| - 1;
      var init := segments[..last];
      CaptureBinds(init, tokens);
      assert segments == init + [segments[last]];
      forall i | 0 <= i < |segments| && segments[i].Variable?
        && (forall j :: i < j < |segments| ==> segments[j] != segments[i])
        ensures Capture(segments, tokens)[segments[i].name] == tokens[i]
      {
        if i < last {
          assert init[i] == segments[i];
          assert segments[last] != segments[i];
        }
      }
    }
  }

  /** What `match` returns: the captured parameters when the pattern matches the path. */
  function MatchResult(segments: seq<Segment>, path: string): Option<map<string, string>>
  {
    var tokens := PathTokens(path);
    if Matches(segments, tokens) then Some(Capture(segments, tokens)) else None
  }

  /** `match`: splits the path, compares the counts, then walks the segments, capturing
      variables and giving up at the first literal that differs from its token. */
  method Match(segments: seq<Segment>, path: string) returns (params: Option<map<string, string>>)
    ensures params.Some? <==> Matches(segments, PathTokens(path))
    ensures params.Some? ==> params.value == Capture(segments, PathTokens(path))
  {
    var pathSegments := SplitPath(path);
    if |segments| != |pathSegments| {
      return None;
    }
    var captured: map<string, string> := map[];
    for i := 0 to |segments|
      invariant forall j :: 0 <= j < i && segments[j].Literal? ==> segments[j].text == pathSegments[j]
      invariant captured == Capture(segments[..i], pathSegments)
    {
      assert segments[..i + 1][..i] == segments[..i];
      if segments[i].Variable? {
        captured := captured[segments[i].name := pathSegments[i]];
      } else if segments[i].text != pathSegments[i] {
        return None;
      }
    }
    assert segments[..|segments|] == segments;
    return Some(captured);
  }

  /** The root path `/` is matched by exactly the one-segment patterns whose segment is
      the marker `"/"` or a variable; a variable then captures `"/"`. */
  lemma RootMatches(segments: seq<Segment>)
    ensures MatchResult(segments, "/").Some? <==>
      |segments| == 1 && (segments[0] == TrailingMarker || segments[0].Variable?)
    ensures |segments| == 1 && segments[0].Variable? ==>
      MatchResult(segments, "/") == Some(map[segments[0].name := "/"])
  {
    assert "/"[0] == '/';
    assert PathTokens("/") == ["/"];
    if |segments| == 1 {
      assert segments[..0] == [];
      assert Capture(segments[..0], ["/"]) == map[];
    }
  }

  /** An empty pattern (what `""` parses to) matches no path, since every path has a token. */
  lemma EmptyPatternMatchesNothing(path: string)
    ensures MatchResult([], path) == None
  {
  }

  /** A pattern of two or more segments ending in the trailing marker matches no path:
      a path with two or more tokens has no `"/"` token. */
  lemma MarkerPatternMatchesNothing(segments: seq<Segment>, path: string)
    requires |segments| >= 2 && segments[|segments| - 1] == TrailingMarker
    ensures MatchResult(segments, path) == None
  {
    var tokens := PathTokens(path);
    if |tokens| == |segments| {
      assert tokens != ["/"];
      assert '/' !in tokens[|tokens| - 1];
      assert '/' in TrailingMarker.text;
    }
  }

  /** Round trip: a path written as `/` followed by non-empty, slash-free tokens joined
      with `/` splits back into those tokens. */
  lemma PathTokensOfJoined(tokens: seq<string>)
    requires |tokens| >= 1
    requires forall k :: 0 <= k < |tokens| ==> tokens[k] != "" && '/' !in tokens[k]
    ensures PathTokens("/" + Join(tokens, '/')) == tokens
  {
    var joined := Join(tokens, '/');
    var path := "/" + joined;
    SplitJoin(tokens, '/');
    assert path[0] == '/' && path[1..] == joined;
    assert Split(path, '/') == [""] + tokens;
    NonEmptyAppend([""], tokens);
    NonEmptyKeepsAll(tokens);
    assert NonEmpty([""]) == [];
  }
}
