/** Tokens of the template engine (auth/frontend/mustache.js): squashing runs of text and
    nesting sections.
 */
module MustacheTokens {
  import opened Strings

  datatype Kind = Text | Name | Section | Inverted | Close | Partial | Unescaped | SetTags | Comment

  /** Type, value, and the span in the template. */
  datatype Token = Token(kind: Kind, value: string, start: nat, end: nat)

  predicate Opens(t: Token) {
    t.kind == Section || t.kind == Inverted
  }

  /** A deleted token leaves a hole. */
  function DropHoles(tokens: seq<Option<Token>>): seq<Token> {
    if tokens == [] then []
    else
      var before := DropHoles(tokens[..|tokens| - 1]);
      match tokens[|tokens| - 1]
      case None => before
      case Some(t) => before + [t]
  }

  // ----- squashing -----

  predicate EndsInText(out: seq<Token>) {
    out != [] && out[|out| - 1].kind == Text
  }

  function Merge(u: Token, t: Token): Token {
    u.(value := u.value + t.value, end := t.end)
  }

  function SquashStep(out: seq<Token>, token: Option<Token>): seq<Token> {
    match token
    case None => out
    case Some(t) =>
      if t.kind == Text && EndsInText(out) then out[..|out| - 1] + [Merge(out[|out| - 1], t)]
      else out + [t]
  }

  function Squash(tokens: seq<Option<Token>>): seq<Token> {
    if tokens == [] then [] else SquashStep(Squash(tokens[..|tokens| - 1]), tokens[|tokens| - 1])
  }

  /** The loop of squashTokens: `lastToken` is the token pushed last, and is extended in
      place by the text that follows it. */
  method SquashTokens(tokens: seq<Option<Token>>) returns (squashed: seq<Token>)
    ensures squashed == Squash(tokens)
  {
    squashed := [];
    var lastToken: Option<Token> := None;
    for i := 0 to |tokens|
      invariant squashed == Squash(tokens[..i])
      invariant lastToken == if squashed == [] then None else Some(squashed[|squashed| - 1])
    {
      assert tokens[..i + 1][..i] == tokens[..i];
      match tokens[i] {
        case None =>
        case Some(token) =>
          if token.kind == Text && lastToken.Some? && lastToken.value.kind == Text {
            lastToken := Some(Merge(lastToken.value, token));
            squashed := squashed[..|squashed| - 1] + [lastToken.value];
          } else {
            lastToken := Some(token);
            squashed := squashed + [token];
          }
      }
    }
    assert tokens[..|tokens|] == tokens;
  }

  ghost predicate NoAdjacentText(tokens: seq<Token>) {
    forall i | 0 <= i < |tokens| - 1 :: !(tokens[i].kind == Text && tokens[i + 1].kind == Text)
  }

  lemma {:induction false} SquashedHasNoAdjacentText(tokens: seq<Option<Token>>)
    ensures NoAdjacentText(Squash(tokens))
  {
    if tokens != [] {
      SquashedHasNoAdjacentText(tokens[..|tokens| - 1]);
    }
  }

  function TextOf(tokens: seq<Token>): string {
    if tokens == [] then ""
    else
      var last := tokens[|tokens| - 1];
      TextOf(tokens[..|tokens| - 1]) + (if last.kind == Text then last.value else "")
  }

  function WithoutText(tokens: seq<Token>): seq<Token> {
    if tokens == [] then []
    else
      var last := tokens[|tokens| - 1];
      WithoutText(tokens[..|tokens| - 1]) + (if last.kind == Text then [] else [last])
  }

  /** Squashing keeps all the text, and every other token as it is. */
  lemma {:induction false} SquashKeepsContent(tokens: seq<Option<Token>>)
    ensures TextOf(Squash(tokens)) == TextOf(DropHoles(tokens))
    ensures WithoutText(Squash(tokens)) == WithoutText(DropHoles(tokens))
  {
    hide TextOf, WithoutText, SquashStep;
    if tokens == [] {
    } else {
      var before, last := tokens[..|tokens| - 1], tokens[|tokens| - 1];
      SquashKeepsContent(before);
      StepKeepsContent(Squash(before), DropHoles(before), last);
    }
  }

  /** Each token starts where the one before it ends. */
  ghost predicate Adjoin(tokens: seq<Token>) {
    forall i | 0 < i < |tokens| :: tokens[i].start == tokens[i - 1].end
  }

  /** Squashing keeps spans: without holes the squashed tokens adjoin like those before, and
      they begin and end at the same places. */
  lemma {:induction false} SquashTiles(tokens: seq<Token>, holed: seq<Option<Token>>)
    requires |holed| == |tokens| && forall i | 0 <= i < |tokens| :: holed[i] == Some(tokens[i])
    requires Adjoin(tokens)
    ensures Adjoin(Squash(holed))
    ensures Squash(holed) == [] <==> tokens == []
    ensures tokens != [] ==>
              && Squash(holed)[0].start == tokens[0].start
              && Squash(holed)[|Squash(holed)| - 1].end == tokens[|tokens| - 1].end
    decreases |tokens|
  {
    if tokens != [] {
      var n := |tokens| - 1;
      SquashTiles(tokens[..n], holed[..n]);
      var out := Squash(holed[..n]);
      assert n > 0 ==> tokens[..n][0] == tokens[0] && tokens[..n][n - 1] == tokens[n - 1];
      assert Squash(holed) == SquashStep(out, Some(tokens[n]));
    }
  }

  lemma StepKeepsContent(out: seq<Token>, kept: seq<Token>, token: Option<Token>)
    requires TextOf(out) == TextOf(kept) && WithoutText(out) == WithoutText(kept)
    ensures var kept' := if token.Some? then kept + [token.value] else kept;
            && TextOf(SquashStep(out, token)) == TextOf(kept')
            && WithoutText(SquashStep(out, token)) == WithoutText(kept')
  {
    hide TextOf, WithoutText;
    if token.Some? {
      var t := token.value;
      SnocContent(kept, t);
      if t.kind == Text && EndsInText(out) {
        var init, u := out[..|out| - 1], out[|out| - 1];
        assert out == init + [u];
        SnocContent(init, u);
        SnocContent(init, Merge(u, t));
      } else {
        SnocContent(out, t);
      }
    }
  }

  lemma SnocContent(tokens: seq<Token>, t: Token)
    ensures TextOf(tokens + [t]) == TextOf(tokens) + (if t.kind == Text then t.value else "")
    ensures WithoutText(tokens + [t]) == WithoutText(tokens) + (if t.kind == Text then [] else [t])
  {
    assert (tokens + [t])[..|tokens|] == tokens;
  }

  // ----- nesting -----

  /** A leaf is any token but section tags; a section holds its opening token, what is
      inside, and where its closing tag starts. */
  datatype Node = Leaf(token: Token) | Nested(token: Token, children: seq<Node>, close: nat)

  /** A section still open, with what has been collected inside it. */
  datatype Open = Open(token: Token, nodes: seq<Node>)

  /** The finished top level and the open sections, innermost last. */
  datatype State = State(tree: seq<Node>, sections: seq<Open>)

  function Collect(s: State, n: Node): State {
    if s.sections == [] then s.(tree := s.tree + [n])
    else
      var k := |s.sections| - 1;
      s.(sections := s.sections[k := s.sections[k].(nodes := s.sections[k].nodes + [n])])
  }

  /** None when a closing tag has no section to close. */
  function NestStep(s: State, t: Token): Option<State> {
    if Opens(t) then Some(s.(sections := s.sections + [Open(t, [])]))
    else if t.kind == Close then
      if s.sections == [] then None
      else
        var k := |s.sections| - 1;
        var section := s.sections[k];
        Some(Collect(s.(sections := s.sections[..k]), Nested(section.token, section.nodes, t.start)))
    else Some(Collect(s, Leaf(t)))
  }

  function NestAll(tokens: seq<Token>): Option<State> {
    if tokens == [] then Some(State([], []))
    else
      match NestAll(tokens[..|tokens| - 1])
      case None => None
      case Some(s) => NestStep(s, tokens[|tokens| - 1])
  }

  /** The tree, if every section is opened and closed. */
  function Nest(tokens: seq<Token>): Option<seq<Node>> {
    match NestAll(tokens)
    case None => None
    case Some(s) => if s.sections == [] then Some(s.tree) else None
  }

  /** The loop of nestTokens. A closing tag without a section fails. */
  method NestTokens(tokens: seq<Token>) returns (r: Option<seq<Node>>)
    ensures r == Nest(tokens)
  {
    var tree: seq<Node> := [];
    var sections: seq<Open> := [];
    for i := 0 to |tokens|
      invariant NestAll(tokens[..i]) == Some(State(tree, sections))
    {
      var token := tokens[i];
      assert tokens[..i + 1][..i] == tokens[..i];
      if token.kind == Close && sections == [] {
        NestFails(tokens, i + 1);
        return None;
      }
      match token.kind {
        case Section | Inverted =>
          sections := sections + [Open(token, [])];
        case Close =>
          var section := sections[|sections| - 1];
          sections := sections[..|sections| - 1];
          tree, sections := AddNode(tree, sections, Nested(section.token, section.nodes, token.start));
        case _ =>
          tree, sections := AddNode(tree, sections, Leaf(token));
      }
    }
    assert tokens[..|tokens|] == tokens;
    r := if sections == [] then Some(tree) else None;
  }

  /** Pushes on the collector: the innermost open section, or the top level. */
  method AddNode(tree: seq<Node>, sections: seq<Open>, n: Node) returns (tree': seq<Node>, sections': seq<Open>)
    ensures State(tree', sections') == Collect(State(tree, sections), n)
  {
    if sections == [] {
      tree', sections' := tree + [n], sections;
    } else {
      var k := |sections| - 1;
      tree', sections' := tree, sections[k := sections[k].(nodes := sections[k].nodes + [n])];
    }
  }

  lemma {:induction false} NestFails(tokens: seq<Token>, n: nat)
    requires n <= |tokens| && NestAll(tokens[..n]).None?
    ensures NestAll(tokens).None?
    decreases |tokens| - n
  {
    if n < |tokens| {
      assert tokens[..n + 1][..n] == tokens[..n];
      NestFails(tokens, n + 1);
    } else {
      assert tokens[..n] == tokens;
    }
  }

  // ----- nesting against bracket matching -----

  /** How many sections are open before token `n`. */
  function Level(tokens: seq<Token>, n: nat): int
    requires n <= |tokens|
  {
    if n == 0 then 0
    else Level(tokens, n - 1) + (if Opens(tokens[n - 1]) then 1 else if tokens[n - 1].kind == Close then -1 else 0)
  }

  predicate Balanced(tokens: seq<Token>) {
    NeverNegative(tokens, |tokens|) && Level(tokens, |tokens|) == 0
  }

  predicate NeverNegative(tokens: seq<Token>, n: nat)
    requires n <= |tokens|
  {
    forall m: nat | m <= n :: Level(tokens, m) >= 0
  }

  /** Token `j` closes the section that token `i` opens. */
  predicate Matching(tokens: seq<Token>, i: nat, j: nat) {
    && i < j < |tokens| && Opens(tokens[i]) && tokens[j].kind == Close
    && Level(tokens, j + 1) == Level(tokens, i)
    && forall k | i < k <= j :: Level(tokens, k) > Level(tokens, i)
  }

  lemma {:induction false} LevelPrefix(tokens: seq<Token>, m: nat, n: nat)
    requires n <= m <= |tokens|
    ensures Level(tokens[..m], n) == Level(tokens, n)
    decreases n
  {
    if n > 0 { LevelPrefix(tokens, m, n - 1); }
  }

  lemma {:induction false} NestLevel(tokens: seq<Token>, n: nat)
    requires n <= |tokens|
    ensures NestAll(tokens[..n]).Some? <==> NeverNegative(tokens, n)
    ensures NestAll(tokens[..n]).Some? ==> |NestAll(tokens[..n]).value.sections| == Level(tokens, n)
    decreases n
  {
    if n > 0 {
      NestLevel(tokens, n - 1);
      assert tokens[..n][..n - 1] == tokens[..n - 1];
      assert NeverNegative(tokens, n) <==> NeverNegative(tokens, n - 1) && Level(tokens, n) >= 0;
    }
  }

  /** Nesting succeeds exactly on balanced tokens. */
  lemma NestIffBalanced(tokens: seq<Token>)
    ensures Nest(tokens).Some? <==> Balanced(tokens)
  {
    NestLevel(tokens, |tokens|);
    assert tokens[..|tokens|] == tokens;
  }

  // ----- nothing is lost in nesting -----

  /** A closing tag is kept only as the place where it starts. */
  function Erase(t: Token): Token {
    if t.kind == Close then Token(Close, "", t.start, t.start) else t
  }

  function EraseAll(tokens: seq<Token>): seq<Token> {
    seq(|tokens|, i requires 0 <= i < |tokens| => Erase(tokens[i]))
  }

  function FlattenNode(n: Node): seq<Token> {
    match n
    case Leaf(t) => [t]
    case Nested(t, children, close) => [t] + Flatten(children) + [Token(Close, "", close, close)]
  }

  function Flatten(nodes: seq<Node>): seq<Token> {
    if nodes == [] then [] else Flatten(nodes[..|nodes| - 1]) + FlattenNode(nodes[|nodes| - 1])
  }

  function FlattenSections(sections: seq<Open>): seq<Token> {
    if sections == [] then []
    else
      var last := sections[|sections| - 1];
      FlattenSections(sections[..|sections| - 1]) + ([last.token] + Flatten(last.nodes))
  }

  function FlattenState(s: State): seq<Token> {
    Flatten(s.tree) + FlattenSections(s.sections)
  }

  lemma FlattenSnoc(nodes: seq<Node>, n: Node)
    ensures Flatten(nodes + [n]) == Flatten(nodes) + FlattenNode(n)
  {
    assert (nodes + [n])[..|nodes|] == nodes;
  }

  lemma FlattenSectionsSnoc(sections: seq<Open>, o: Open)
    ensures FlattenSections(sections + [o]) == FlattenSections(sections) + ([o.token] + Flatten(o.nodes))
  {
    assert (sections + [o])[..|sections|] == sections;
  }

  lemma FlattenCollect(s: State, n: Node)
    ensures FlattenState(Collect(s, n)) == FlattenState(s) + FlattenNode(n)
  {
    hide FlattenNode, Flatten, FlattenSections;
    if s.sections == [] {
      FlattenSnoc(s.tree, n);
      NoSections();
    } else {
      var k := |s.sections| - 1;
      var last := s.sections[k];
      FlattenSnoc(last.nodes, n);
      FlattenSectionsSnoc(s.sections[..k], last);
      FlattenSectionsSnoc(s.sections[..k], last.(nodes := last.nodes + [n]));
      assert s.sections == s.sections[..k] + [last];
      assert Collect(s, n).sections == s.sections[..k] + [last.(nodes := last.nodes + [n])];
    }
  }

  lemma NoSections()
    ensures FlattenSections([]) == []
  {
  }

  lemma FlattenStep(s: State, t: Token)
    requires NestStep(s, t).Some?
    ensures FlattenState(NestStep(s, t).value) == FlattenState(s) + [Erase(t)]
  {
    hide Flatten, FlattenSections;
    if Opens(t) {
      FlattenSectionsSnoc(s.sections, Open(t, []));
      NoNodes();
    } else if t.kind == Close {
      var k := |s.sections| - 1;
      var last := s.sections[k];
      FlattenSectionsSnoc(s.sections[..k], last);
      assert s.sections == s.sections[..k] + [last];
      FlattenCollect(s.(sections := s.sections[..k]), Nested(last.token, last.nodes, t.start));
    } else {
      FlattenCollect(s, Leaf(t));
    }
  }

  lemma NoNodes()
    ensures Flatten([]) == []
  {
  }

  lemma {:induction false} FlattenNestAll(tokens: seq<Token>)
    requires NestAll(tokens).Some?
    ensures FlattenState(NestAll(tokens).value) == EraseAll(tokens)
  {
    if tokens != [] {
      var before, last := tokens[..|tokens| - 1], tokens[|tokens| - 1];
      FlattenNestAll(before);
      FlattenStep(NestAll(before).value, last);
      assert EraseAll(tokens) == EraseAll(before) + [Erase(last)];
    }
  }

  /** The tree read in order gives the tokens back, but for the closing tags' names and
      ends: nesting loses and reorders nothing. */
  lemma FlattenNest(tokens: seq<Token>)
    requires Nest(tokens).Some?
    ensures Flatten(Nest(tokens).value) == EraseAll(tokens)
  {
    FlattenNestAll(tokens);
    NoSections();
  }

  // ----- sections and the tags that delimit them -----

  /** Open tags, and the pairs of tags closed so far in the order of their closing. */
  datatype PairState = PairState(open: seq<Token>, closed: seq<(Token, Token)>)

  function PairStep(s: PairState, t: Token): Option<PairState> {
    if Opens(t) then Some(s.(open := s.open + [t]))
    else if t.kind == Close then
      if s.open == [] then None
      else
        var k := |s.open| - 1;
        Some(PairState(s.open[..k], s.closed + [(s.open[k], t)]))
    else Some(s)
  }

  function PairAll(tokens: seq<Token>): Option<PairState> {
    if tokens == [] then Some(PairState([], []))
    else
      match PairAll(tokens[..|tokens| - 1])
      case None => None
      case Some(s) => PairStep(s, tokens[|tokens| - 1])
  }

  /** The sections of a tree, inner ones first, each with where its closing tag starts. */
  function SectionsOf(nodes: seq<Node>): seq<(Token, nat)> {
    if nodes == [] then []
    else
      SectionsOf(nodes[..|nodes| - 1])
      + match nodes[|nodes| - 1]
        case Leaf(_) => []
        case Nested(t, children, close) => SectionsOf(children) + [(t, close)]
  }

  function SectionsInOpen(sections: seq<Open>): seq<(Token, nat)> {
    if sections == [] then []
    else SectionsInOpen(sections[..|sections| - 1]) + SectionsOf(sections[|sections| - 1].nodes)
  }

  function SectionsInState(s: State): seq<(Token, nat)> {
    SectionsOf(s.tree) + SectionsInOpen(s.sections)
  }

  lemma SectionsSnoc(nodes: seq<Node>, n: Node)
    ensures SectionsOf(nodes + [n]) ==
            SectionsOf(nodes) + (if n.Leaf? then [] else SectionsOf(n.children) + [(n.token, n.close)])
  {
    assert (nodes + [n])[..|nodes|] == nodes;
  }

  lemma SectionsInOpenSnoc(sections: seq<Open>, o: Open)
    ensures SectionsInOpen(sections + [o]) == SectionsInOpen(sections) + SectionsOf(o.nodes)
  {
    assert (sections + [o])[..|sections|] == sections;
  }

  lemma SectionsCollect(s: State, n: Node)
    ensures SectionsInState(Collect(s, n)) ==
            SectionsInState(s) + (if n.Leaf? then [] else SectionsOf(n.children) + [(n.token, n.close)])
  {
    hide SectionsOf;
    if s.sections == [] {
      SectionsSnoc(s.tree, n);
    } else {
      hide SectionsInOpen;
      var k := |s.sections| - 1;
      var last := s.sections[k];
      SectionsSnoc(last.nodes, n);
      SectionsInOpenSnoc(s.sections[..k], last);
      SectionsInOpenSnoc(s.sections[..k], last.(nodes := last.nodes + [n]));
      assert s.sections == s.sections[..k] + [last];
      assert Collect(s, n).sections == s.sections[..k] + [last.(nodes := last.nodes + [n])];
    }
  }

  /** The nesting and the pairing state hold the same open tags and closed sections. */
  ghost predicate Agree(s: State, q: PairState) {
    && |s.sections| == |q.open|
    && (forall k | 0 <= k < |q.open| :: s.sections[k].token == q.open[k])
    && |SectionsInState(s)| == |q.closed|
    && forall k | 0 <= k < |q.closed| :: SectionsInState(s)[k] == (q.closed[k].0, q.closed[k].1.start)
  }

  lemma {:induction false} AgreeStep(s: State, q: PairState, t: Token)
    requires Agree(s, q)
    ensures NestStep(s, t).Some? <==> PairStep(q, t).Some?
    ensures NestStep(s, t).Some? ==> Agree(NestStep(s, t).value, PairStep(q, t).value)
  {
    hide SectionsOf, SectionsInOpen;
    if Opens(t) {
      SectionsInOpenSnoc(s.sections, Open(t, []));
      assert SectionsOf([]) == [] by { EmptySections(); }
    } else if t.kind == Close {
      if s.sections != [] {
        var k := |s.sections| - 1;
        var last := s.sections[k];
        var s' := s.(sections := s.sections[..k]);
        SectionsInOpenSnoc(s.sections[..k], last);
        assert s.sections == s.sections[..k] + [last];
        SectionsCollect(s', Nested(last.token, last.nodes, t.start));
        assert SectionsInState(NestStep(s, t).value) == SectionsInState(s) + [(last.token, t.start)];
        CollectKeepsTokens(s', Nested(last.token, last.nodes, t.start));
      }
    } else {
      SectionsCollect(s, Leaf(t));
      CollectKeepsTokens(s, Leaf(t));
    }
  }

  lemma EmptySections()
    ensures SectionsOf([]) == []
  {
  }

  lemma CollectKeepsTokens(s: State, n: Node)
    ensures |Collect(s, n).sections| == |s.sections|
    ensures forall k | 0 <= k < |s.sections| :: Collect(s, n).sections[k].token == s.sections[k].token
  {
  }

  lemma {:induction false} NestAgreesWithPairs(tokens: seq<Token>)
    ensures NestAll(tokens).Some? <==> PairAll(tokens).Some?
    ensures NestAll(tokens).Some? ==> Agree(NestAll(tokens).value, PairAll(tokens).value)
  {
    if tokens != [] {
      hide NestStep, PairStep, Agree;
      var before, last := tokens[..|tokens| - 1], tokens[|tokens| - 1];
      NestAgreesWithPairs(before);
      if NestAll(before).Some? {
        AgreeStep(NestAll(before).value, PairAll(before).value, last);
      }
    }
  }

  /** Text plays no part in the pairing. */
  lemma {:induction false} PairsWithoutText(tokens: seq<Token>)
    ensures PairAll(WithoutText(tokens)) == PairAll(tokens)
  {
    if tokens != [] {
      var before, last := tokens[..|tokens| - 1], tokens[|tokens| - 1];
      PairsWithoutText(before);
      if last.kind != Text {
        PairSnoc(WithoutText(before), last);
      } else {
        assert WithoutText(before) + [] == WithoutText(before);
      }
    }
  }

  lemma PairSnoc(tokens: seq<Token>, t: Token)
    ensures PairAll(tokens + [t]) ==
            match PairAll(tokens)
            case None => None
            case Some(q) => PairStep(q, t)
  {
    assert (tokens + [t])[..|tokens|] == tokens;
  }

  /** Index `i` of a tag opened at depth `d` and still open before token `n`. */
  ghost predicate StillOpen(tokens: seq<Token>, n: nat, i: nat, d: nat)
    requires n <= |tokens|
  {
    && i < n && Opens(tokens[i]) && Level(tokens, i) == d
    && forall k: nat | i < k <= n :: Level(tokens, k) > d
  }

  ghost predicate OpenAt(tokens: seq<Token>, n: nat, t: Token, d: nat)
    requires n <= |tokens|
  {
    exists i: nat :: StillOpen(tokens, n, i, d) && tokens[i] == t
  }

  ghost predicate IsMatchingPair(tokens: seq<Token>, o: Token, c: Token) {
    exists i: nat, j: nat :: Matching(tokens, i, j) && tokens[i] == o && tokens[j] == c
  }

  lemma OpenAtStep(tokens: seq<Token>, n: nat, t: Token, d: nat)
    requires 0 < n <= |tokens| && OpenAt(tokens, n - 1, t, d) && Level(tokens, n) > d
    ensures OpenAt(tokens, n, t, d)
  {
    var i: nat :| StillOpen(tokens, n - 1, i, d) && tokens[i] == t;
    assert StillOpen(tokens, n, i, d);
  }

  lemma OpenAtClosed(tokens: seq<Token>, n: nat, t: Token, d: nat)
    requires 0 < n <= |tokens| && OpenAt(tokens, n - 1, t, d)
    requires tokens[n - 1].kind == Close && Level(tokens, n) == d
    ensures IsMatchingPair(tokens, t, tokens[n - 1])
  {
    var i: nat :| StillOpen(tokens, n - 1, i, d) && tokens[i] == t;
    assert Matching(tokens, i, n - 1);
  }

  /** The open tags of the pairing state, one per level. */
  ghost predicate OpenTags(tokens: seq<Token>, n: nat, open: seq<Token>)
    requires n <= |tokens|
  {
    Level(tokens, n) == |open| && forall d | 0 <= d < |open| :: OpenAt(tokens, n, open[d], d)
  }

  ghost predicate MatchingPairs(tokens: seq<Token>, closed: seq<(Token, Token)>) {
    forall k | 0 <= k < |closed| :: IsMatchingPair(tokens, closed[k].0, closed[k].1)
  }

  lemma {:induction false} PairsMatch(tokens: seq<Token>, n: nat)
    requires n <= |tokens| && PairAll(tokens[..n]).Some?
    ensures OpenTags(tokens, n, PairAll(tokens[..n]).value.open)
    ensures MatchingPairs(tokens, PairAll(tokens[..n]).value.closed)
    decreases n
  {
    if n > 0 {
      hide OpenAt, IsMatchingPair;
      assert tokens[..n][..n - 1] == tokens[..n - 1];
      PairsMatch(tokens, n - 1);
      PairsMatchStep(tokens, n, PairAll(tokens[..n - 1]).value);
    }
  }

  lemma PairsMatchStep(tokens: seq<Token>, n: nat, q: PairState)
    requires 0 < n <= |tokens| && OpenTags(tokens, n - 1, q.open) && MatchingPairs(tokens, q.closed)
    requires PairStep(q, tokens[n - 1]).Some?
    ensures OpenTags(tokens, n, PairStep(q, tokens[n - 1]).value.open)
    ensures MatchingPairs(tokens, PairStep(q, tokens[n - 1]).value.closed)
  {
    hide OpenAt, IsMatchingPair;
    var t := tokens[n - 1];
    forall d: nat | d < |q.open| && d < Level(tokens, n)
      ensures OpenAt(tokens, n, q.open[d], d)
    {
      OpenAtStep(tokens, n, q.open[d], d);
    }
    if Opens(t) {
      JustOpened(tokens, n);
    } else if t.kind == Close {
      OpenAtClosed(tokens, n, q.open[|q.open| - 1], |q.open| - 1);
    }
  }

  lemma JustOpened(tokens: seq<Token>, n: nat)
    requires 0 < n <= |tokens| && Opens(tokens[n - 1]) && Level(tokens, n - 1) >= 0
    ensures OpenAt(tokens, n, tokens[n - 1], Level(tokens, n - 1))
  {
    assert StillOpen(tokens, n, n - 1, Level(tokens, n - 1));
  }

  /** Every section of the tree is among the pairs. */
  lemma SectionIsPair(tokens: seq<Token>, section: (Token, nat)) returns (pair: (Token, Token))
    requires Nest(tokens).Some? && section in SectionsOf(Nest(tokens).value)
    ensures PairAll(tokens).Some? && pair in PairAll(tokens).value.closed
    ensures pair.0 == section.0 && pair.1.start == section.1
  {
    NestAgreesWithPairs(tokens);
    var s, q := NestAll(tokens).value, PairAll(tokens).value;
    assert SectionsInState(s) == SectionsOf(s.tree);
    var k :| 0 <= k < |SectionsOf(s.tree)| && SectionsOf(s.tree)[k] == section;
    pair := q.closed[k];
  }

  lemma PairMatches(tokens: seq<Token>, pair: (Token, Token))
    requires PairAll(tokens).Some? && pair in PairAll(tokens).value.closed
    ensures IsMatchingPair(tokens, pair.0, pair.1)
  {
    assert tokens[..|tokens|] == tokens;
    PairsMatch(tokens, |tokens|);
  }

  /** Stripping and squashing keep the sections: those of the squashed tree are pairs of
      tags in the tokens before it. */
  lemma SquashedSectionPair(full: seq<Token>, tokens: seq<Option<Token>>, section: (Token, nat)) returns (pair: (Token, Token))
    requires WithoutText(DropHoles(tokens)) == WithoutText(full)
    requires Nest(Squash(tokens)).Some? && section in SectionsOf(Nest(Squash(tokens)).value)
    ensures PairAll(full).Some? && pair in PairAll(full).value.closed
    ensures pair.0 == section.0 && pair.1.start == section.1
  {
    hide Nest, Squash, DropHoles, PairAll, SectionsOf, WithoutText;
    SquashKeepsContent(tokens);
    PairsWithoutText(Squash(tokens));
    PairsWithoutText(full);
    pair := SectionIsPair(Squash(tokens), section);
  }

  /** Squashing and stripping keep the balance. */
  lemma SquashedBalance(full: seq<Token>, tokens: seq<Option<Token>>)
    requires WithoutText(DropHoles(tokens)) == WithoutText(full)
    ensures Nest(Squash(tokens)).Some? <==> Balanced(full)
  {
    hide Squash, DropHoles, PairAll, WithoutText, NestAll, Balanced;
    SquashKeepsContent(tokens);
    PairsWithoutText(Squash(tokens));
    PairsWithoutText(full);
    NestAgreesWithPairs(Squash(tokens));
    NestAgreesWithPairs(full);
    NestIffBalanced(full);
  }
}
