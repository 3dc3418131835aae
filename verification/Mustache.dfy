/** The template engine as a whole (auth/frontend/mustache.js): from a template through
    reading, stripping, squashing and nesting to the rendered text.
 */
module Mustache {
  import opened Strings
  import opened MustacheTokens
  import opened MustacheScanner
  import opened MustacheParse
  import opened MustacheEscape
  import opened MustacheRender
  import opened MustacheTags

  /** The template has no opening delimiter. */
  predicate IsPlain(template: string, open: string) {
    UntilLength(OpenTag(open), template) == |template|
  }

  ghost predicate AllText(tokens: seq<Token>) {
    forall t | t in tokens :: t.kind == Text
  }

  lemma LexOfPlain(template: string, open: string, close: string)
    requires IsPlain(template, open)
    ensures Lex(template, 0, open, close, []) == Lexed.Lexed(TextTokens(template, 0), |template|)
  {
    if template == "" {
      assert TextTokens(template, 0) == [];
    } else {
      assert template[0..] == template && template[..|template|] == template;
      assert open != "";
      assert WholeTagAt(template[|template|..], |template|, open, close).NoTag?;
    }
  }

  lemma {:induction false} NothingStripped(full: seq<Token>, n: nat)
    requires AllText(full) && n <= |full|
    ensures DropHoles(StripLines(full)[..n]) == full[..n]
    decreases n
  {
    if n > 0 {
      var tokens := StripLines(full);
      NothingStripped(full, n - 1);
      assert tokens[..n][..n - 1] == tokens[..n - 1] && full[..n] == full[..n - 1] + [full[n - 1]];
      assert !Deleted(full, n - 1);
    }
  }

  /** A template without tags is parsed without an error, and renders as itself in every
      context: lines are never stripped, and no character is lost or reordered. */
  lemma PlainTemplate(template: string, tags: seq<string>, env: Environment, context: Context)
    requires |tags| == 2 && IsPlain(template, tags[0])
    ensures var lexed := LexTemplate(template, tags);
            && lexed.Lexed? && Nest(Squash(StripLines(lexed.tokens))).Some?
            && Render(Nest(Squash(StripLines(lexed.tokens))).value, env, context) == template
  {
    hide Lex, Render, Squash, TextTokens, StripLines, Leaves, NestAll;
    var full := TextTokens(template, 0);
    LexOfPlain(template, tags[0], tags[1]);
    TextTokensAreText(template, 0);
    NothingStripped(full, |full|);
    var tokens := StripLines(full);
    assert tokens[..|full|] == tokens && full[..|full|] == full;
    NestText(full);
    RenderLeaves(full, env, context);
    WholeText(template, 0);
    SquashPreservesMeaning(tokens, env, context);
  }

  lemma TextTokensAreText(s: string, pos: nat)
    ensures AllText(TextTokens(s, pos)) && |TextTokens(s, pos)| == |s|
  {
  }

  // ----- a tag in a text -----

  /** No opening delimiter begins in the text, even if one follows it. */
  ghost predicate NoOpen(text: string, open: string) {
    NoneBefore(text + open, open, |text|)
  }

  lemma UntilOpen(text: string, open: string, rest: string)
    requires NoOpen(text, open)
    ensures UntilLength(OpenTag(open), text + (open + rest)) == |text|
  {
    var front, s := text + open, text + (open + rest);
    assert s == front + rest && s[|text|..] == open + rest && (open + rest)[..|open|] == open;
    forall i | 0 <= i < |text|
      ensures MatchLength(OpenTag(open), s[i..]).None?
    {
      assert !OccursAt(front, open, i);
      assert s[i..i + |open|] == front[i..i + |open|] == s[i..][..|open|];
    }
    UntilIs(OpenTag(open), s, |text|);
  }

  /** One tag behind a text, then the rest of the template. */
  lemma LexOneTag(text: string, open: string, mark: string, value: string, close: string, rest: string, pos: nat, sections: seq<Token>)
    returns (t: Token)
    requires open != "" && NoOpen(text, open) && IsTagText(mark, value, close) && mark != "="
    ensures t.value == value && t.start == pos + |text| && t.end == t.start + |TagText(open, mark, value, close)|
    ensures GivesKind(mark, t.kind)
    ensures SectionError(sections, t).None? ==>
              Lex(text + TagText(open, mark, value, close) + rest, pos, open, close, sections) ==
              After(TextTokens(text, pos) + [t], Lex(rest, t.end, open, close, SectionsAfter(sections, t)))
  {
    hide Lex, After, WholeTagAt, UntilLength, TextTokens, SectionError, SectionsAfter, TagsAfter, NoOpen, IsTagText, TagText;
    hide MatchLength, ScanLength, RawTagAt;
    var tag, at := TagText(open, mark, value, close), pos + |text|;
    TokenOfTag(open, mark, value, close, rest, at);
    MarkIsKnown(mark, value, close);
    TagInText(text, open, mark, value, close, rest);
    t := WholeTagAt(tag + rest, at, open, close).token;
    NoNewTags(open, close, t);
    if SectionError(sections, t).None? {
      LexTag(text + tag + rest, pos, open, close, sections, |text|, tag + rest, t);
    }
  }

  /** The kind that a mark gives. */
  predicate GivesKind(mark: string, kind: Kind) {
    && (mark == "" ==> kind == Name) && (mark == "#" ==> kind == Section) && (mark == "^" ==> kind == Inverted)
    && (mark == "/" ==> kind == Close) && (mark == "{" || mark == "&" ==> kind == Unescaped)
    && (mark == ">" ==> kind == Partial) && (mark == "!" ==> kind == Comment)
  }

  /** A turn of the loop that reads a tag. */
  lemma LexTag(s: string, pos: nat, open: string, close: string, sections: seq<Token>, n: nat, after: string, t: Token)
    requires s != "" && n == UntilLength(OpenTag(open), s) && s[n..] == after
    requires WholeTagAt(after, pos + n, open, close) == Tag(t)
    requires SectionError(sections, t).None? && TagsAfter(open, close, t) == Some((open, close))
    ensures pos + n < t.end <= pos + n + |after|
    ensures Lex(s, pos, open, close, sections) ==
            After(TextTokens(s[..n], pos) + [t], Lex(after[t.end - (pos + n)..], t.end, open, close, SectionsAfter(sections, t)))
  {
    hide MatchLength, ScanLength, RawTagAt, Lex, After, WholeTagAt, UntilLength, TextTokens, SectionError, SectionsAfter, TagsAfter;
    WholeTagSpan(after, pos + n, open, close);
    LexTurn([], s, pos, open, close, sections);
    AfterNothing(Lex(s, pos, open, close, sections));
    assert [] + (TextTokens(s[..n], pos) + [t]) == TextTokens(s[..n], pos) + [t];
  }

  lemma MarkIsKnown(mark: string, value: string, close: string)
    requires IsTagText(mark, value, close)
    ensures mark in {"", "#", "^", "/", ">", "{", "&", "=", "!"}
  {
  }

  lemma NoNewTags(open: string, close: string, t: Token)
    requires t.kind != SetTags
    ensures TagsAfter(open, close, t) == Some((open, close))
  {
  }

  lemma TagInText(text: string, open: string, mark: string, value: string, close: string, rest: string)
    requires open != "" && NoOpen(text, open)
    ensures var tag := TagText(open, mark, value, close); var s := text + tag + rest;
            && s != "" && UntilLength(OpenTag(open), s) == |text|
            && s[..|text|] == text && s[|text|..] == tag + rest && (tag + rest)[|tag|..] == rest
  {
    hide UntilLength, NoOpen, ClosingText;
    var tag := TagText(open, mark, value, close);
    var after := mark + value + ClosingText(mark, close) + rest;
    assert tag + rest == open + after;
    assert text + tag + rest == text + (open + after);
    UntilOpen(text, open, after);
  }

  /** The last text. */
  lemma LexLast(text: string, open: string, close: string, pos: nat)
    requires IsPlain(text, open)
    ensures Lex(text, pos, open, close, []) == Lexed.Lexed(TextTokens(text, pos), pos + |text|)
  {
    if text == "" {
      assert TextTokens(text, pos) == [];
    } else {
      assert text[0..] == text && text[..|text|] == text;
      assert WholeTagAt(text[|text|..], pos + |text|, open, close).NoTag?;
    }
  }

  // ----- what is left of texts after stripping -----

  /** What is left of tokens `i` to `j`. */
  ghost function Kept(full: seq<Token>, i: nat, j: nat): seq<Token>
    requires i <= j <= |full|
  {
    DropHoles(StripLines(full)[i..j])
  }

  lemma {:induction false} DropHolesAppend(a: seq<Option<Token>>, b: seq<Option<Token>>)
    ensures DropHoles(a + b) == DropHoles(a) + DropHoles(b)
    decreases |b|
  {
    if b == [] {
      assert a + b == a;
    } else {
      assert (a + b)[..|a + b| - 1] == a + b[..|b| - 1];
      DropHolesAppend(a, b[..|b| - 1]);
    }
  }

  lemma KeptAppend(full: seq<Token>, i: nat, j: nat, k: nat)
    requires i <= j <= k <= |full|
    ensures Kept(full, i, k) == Kept(full, i, j) + Kept(full, j, k)
  {
    hide StripLines, DropHoles;
    var tokens := StripLines(full);
    assert tokens[i..k] == tokens[i..j] + tokens[j..k];
    DropHolesAppend(tokens[i..j], tokens[j..k]);
  }

  lemma KeptTag(full: seq<Token>, i: nat)
    requires i < |full| && full[i].kind != Text
    ensures Kept(full, i, i + 1) == [full[i]]
  {
    KeptOne(full, i);
  }

  lemma {:induction false} KeptIsText(full: seq<Token>, i: nat, j: nat)
    requires i <= j <= |full| && forall k | i <= k < j :: full[k].kind == Text
    ensures AllText(Kept(full, i, j))
    decreases j
  {
    hide StripLines, Deleted;
    if i < j {
      KeptIsText(full, i, j - 1);
      KeptAppend(full, i, j - 1, j);
      KeptOne(full, j - 1);
    }
  }

  lemma KeptOne(full: seq<Token>, i: nat)
    requires i < |full|
    ensures Kept(full, i, i + 1) == if Deleted(full, i) then [] else [full[i]]
  {
    hide Deleted;
    var one := StripLines(full)[i..i + 1];
    assert one == [if Deleted(full, i) then None else Some(full[i])];
    DropOne(if Deleted(full, i) then None else Some(full[i]));
  }

  lemma DropOne(t: Option<Token>)
    ensures DropHoles([t]) == match t case None => [] case Some(token) => [token]
  {
    assert [t][..0] == [];
  }

  /** Where nothing is deleted, all is kept. */
  lemma {:induction false} KeptAll(full: seq<Token>, i: nat, j: nat)
    requires i <= j <= |full| && forall k: nat | i <= k < j :: !Deleted(full, k)
    ensures Kept(full, i, j) == full[i..j]
    decreases j
  {
    hide StripLines, Deleted;
    if i < j {
      KeptAll(full, i, j - 1);
      KeptAppend(full, i, j - 1, j);
      KeptOne(full, j - 1);
      assert full[i..j] == full[i..j - 1] + [full[j - 1]];
    }
  }

  lemma {:induction false} TextOfTextTokens(text: string, pos: nat, n: nat)
    requires n <= |text|
    ensures TextOf(TextTokens(text, pos)[..n]) == text[..n]
    decreases n
  {
    if n > 0 {
      var tokens := TextTokens(text, pos);
      TextOfTextTokens(text, pos, n - 1);
      assert tokens[..n][..n - 1] == tokens[..n - 1] && text[..n] == text[..n - 1] + [text[n - 1]];
    }
  }

  // ----- nesting and rendering texts -----

  function Leaves(tokens: seq<Token>): seq<Node> {
    seq(|tokens|, i requires 0 <= i < |tokens| => Leaf(tokens[i]))
  }

  lemma {:induction false} NestTop(tokens: seq<Token>, texts: seq<Token>, tree: seq<Node>)
    requires AllText(texts) && NestAll(tokens) == Some(State(tree, []))
    ensures NestAll(tokens + texts) == Some(State(tree + Leaves(texts), []))
    decreases |texts|
  {
    hide NestAll;
    if texts == [] {
      assert tokens + texts == tokens && tree + Leaves(texts) == tree;
    } else {
      var before, t := texts[..|texts| - 1], texts[|texts| - 1];
      NestTop(tokens, before, tree);
      assert t in texts && tokens + texts == tokens + before + [t];
      NestSnoc(tokens + before, t);
      assert tree + Leaves(texts) == tree + Leaves(before) + [Leaf(t)];
    }
  }

  lemma NestText(texts: seq<Token>)
    requires AllText(texts)
    ensures Nest(texts) == Some(Leaves(texts))
  {
    hide NestAll, Leaves;
    NoStates();
    NestTop([], texts, []);
    assert [] + texts == texts && [] + Leaves(texts) == Leaves(texts);
  }

  lemma {:induction false} NestInner(tokens: seq<Token>, texts: seq<Token>, tree: seq<Node>, section: Token)
    requires AllText(texts) && NestAll(tokens) == Some(State(tree, [Open(section, [])]))
    ensures NestAll(tokens + texts) == Some(State(tree, [Open(section, Leaves(texts))]))
    decreases |texts|
  {
    hide NestAll;
    if texts == [] {
      assert tokens + texts == tokens && Leaves(texts) == [];
    } else {
      var before, t := texts[..|texts| - 1], texts[|texts| - 1];
      NestInner(tokens, before, tree, section);
      assert t in texts && tokens + texts == tokens + before + [t];
      NestSnoc(tokens + before, t);
      assert Leaves(texts) == Leaves(before) + [Leaf(t)];
      var s := State(tree, [Open(section, Leaves(before))]);
      assert NestStep(s, t) == Some(Collect(s, Leaf(t)));
      assert Collect(s, Leaf(t)).sections == [Open(section, Leaves(texts))];
    }
  }

  lemma {:induction false} RenderLeaves(texts: seq<Token>, env: Environment, context: Context)
    requires AllText(texts)
    ensures Render(Leaves(texts), env, context) == TextOf(texts)
    decreases |texts|
  {
    if texts != [] {
      var before, t := texts[..|texts| - 1], texts[|texts| - 1];
      RenderLeaves(before, env, context);
      assert t in texts && Leaves(texts) == Leaves(before) + [Leaf(t)];
      RenderSnoc(Leaves(before), Leaf(t), env, context);
    }
  }

  /** Nesting texts around one section. */
  lemma NestSection(a: seq<Token>, open: Token, b: seq<Token>, close: Token, c: seq<Token>)
    requires AllText(a) && AllText(b) && AllText(c) && Opens(open) && close.kind == Close
    ensures Nest(a + [open] + b + [close] + c) == Some(Leaves(a) + [Nested(open, Leaves(b), close.start)] + Leaves(c))
  {
    hide NestAll;
    assert NestAll([]) == Some(State([], [])) by { NoStates(); }
    NestTop([], a, []);
    assert [] + a == a && [] + Leaves(a) == Leaves(a);
    NestSnoc(a, open);
    assert State(Leaves(a), []).sections + [Open(open, [])] == [Open(open, [])];
    NestInner(a + [open], b, Leaves(a), open);
    NestSnoc(a + [open] + b, close);
    NestClosed(Leaves(a), open, Leaves(b), close);
    NestTop(a + [open] + b + [close], c, Leaves(a) + [Nested(open, Leaves(b), close.start)]);
  }

  lemma NestClosed(tree: seq<Node>, open: Token, nodes: seq<Node>, close: Token)
    requires close.kind == Close
    ensures NestStep(State(tree, [Open(open, nodes)]), close) == Some(State(tree + [Nested(open, nodes, close.start)], []))
  {
    var s := State(tree, [Open(open, nodes)]);
    assert s.sections[..0] == [];
  }

  lemma NestLeaf(a: seq<Token>, t: Token, c: seq<Token>)
    requires AllText(a) && AllText(c) && !Opens(t) && t.kind != Close
    ensures Nest(a + [t] + c) == Some(Leaves(a) + [Leaf(t)] + Leaves(c))
  {
    hide NestAll;
    assert NestAll([]) == Some(State([], [])) by { NoStates(); }
    NestTop([], a, []);
    assert [] + a == a && [] + Leaves(a) == Leaves(a);
    NestSnoc(a, t);
    NestTop(a + [t], c, Leaves(a) + [Leaf(t)]);
  }

  // ----- templates with one section or variable -----

  /** What a template shows, if it is parsed without an error. */
  ghost function ShownBy(template: string, tags: seq<string>, env: Environment, context: Context): Option<string> {
    match LexTemplate(template, tags)
    case LexError(_) => None
    case Lexed(full, _) =>
      match Nest(Squash(StripLines(full)))
      case None => None
      case Some(tree) => Some(Render(tree, env, context))
  }

  /** A template that shows something is what the parser and the renderer make of it. */
  method ShowTemplate(template: string, tags: seq<string>, env: Environment, context: Context) returns (shown: Option<string>)
    ensures shown == ShownBy(template, tags, env, context)
  {
    hide LexTemplate, Nest, Squash, StripLines, Render;
    var parsed := ParseTemplate(template, tags);
    match parsed {
      case Error(_) =>
        shown := None;
      case Parsed(tree) =>
        var text := RenderTokens(tree, env, context);
        shown := Some(text);
    }
  }

  ghost predicate IsSectionText(before: string, open: string, mark: string, value: string, close: string, body: string, after: string) {
    && open != "" && NoOpen(before, open) && NoOpen(body, open) && IsPlain(after, open)
    && mark in {"#", "^"} && IsTagText(mark, value, close) && IsTagText("/", value, close)
  }

  function SectionText(before: string, open: string, mark: string, value: string, close: string, body: string, after: string): string {
    before + TagText(open, mark, value, close) + body + TagText(open, "/", value, close) + after
  }

  lemma LexSection(before: string, open: string, mark: string, value: string, close: string, body: string, after: string)
    returns (s: Token, c: Token)
    requires IsSectionText(before, open, mark, value, close, body, after)
    ensures GivesKind(mark, s.kind) && c.kind == Close && s.value == value
    ensures LexTemplate(SectionText(before, open, mark, value, close, body, after), [open, close]) ==
            Lexed.Lexed(TextTokens(before, 0) + [s] + TextTokens(body, s.end) + [c] + TextTokens(after, c.end), c.end + |after|)
  {
    hide Lex, TextTokens, TagText, NoOpen, IsTagText, IsPlain;
    var rest := body + TagText(open, "/", value, close) + after;
    var template := SectionText(before, open, mark, value, close, body, after);
    assert template == before + TagText(open, mark, value, close) + rest;
    s := LexOneTag(before, open, mark, value, close, rest, 0, []);
    c := LexOneTag(body, open, "/", value, close, after, s.end, [s]);
    assert SectionsAfter([], s) == [s] by { assert [] + [s] == [s]; }
    assert [s][..0] == [];
    LexLast(after, open, close, c.end);
    AfterTwice(TextTokens(before, 0) + [s], TextTokens(body, s.end) + [c], TextTokens(after, c.end), c.end + |after|);
    assert TextTokens(before, 0) + [s] + (TextTokens(body, s.end) + [c]) + TextTokens(after, c.end)
        == TextTokens(before, 0) + [s] + TextTokens(body, s.end) + [c] + TextTokens(after, c.end);
  }

  lemma AfterTwice(a: seq<Token>, b: seq<Token>, c: seq<Token>, end: nat)
    ensures After(a, After(b, Lexed.Lexed(c, end))) == Lexed.Lexed(a + b + c, end)
  {
    assert a + (b + c) == a + b + c;
  }

  function Repeated(s: string, n: nat): string {
    if n == 0 then "" else s + Repeated(s, n - 1)
  }

  lemma {:induction false} ConcatOfSame(parts: seq<string>, s: string)
    requires forall i | 0 <= i < |parts| :: parts[i] == s
    ensures Concat(parts) == Repeated(s, |parts|)
    decreases |parts|
  {
    if parts != [] {
      ConcatOfSame(parts[1..], s);
    }
  }

  /** A section of text: with "#" the text once for each element of a list, once for an
      object or any true value, else not at all; with "^" once exactly if the value is
      null, false or an empty list. */
  lemma SectionShows(s: Token, mark: string, texts: seq<Token>, close: nat, env: Environment, context: Context)
    requires AllText(texts) && mark in {"#", "^"} && GivesKind(mark, s.kind)
    ensures var value, body := env.lookup(context, s.value), TextOf(texts);
            var shown := Render([Nested(s, Leaves(texts), close)], env, context);
            && (mark == "#" && value.List? ==> shown == Repeated(body, |value.elems|))
            && (mark == "#" && value.Object? ==> shown == body)
            && (mark == "#" && value.Primitive? ==> shown == if value.truthy then body else "")
            && (mark == "#" && value.Null? ==> shown == "")
            && (mark == "^" ==>
                  shown == if value == Null || value == List([]) || (value.Primitive? && !value.truthy) then body else "")
  {
    hide Render, Leaves;
    var value := env.lookup(context, s.value);
    forall inner ensures Render(Leaves(texts), env, inner) == TextOf(texts) { RenderLeaves(texts, env, inner); }
    if mark == "^" {
      InvertedRenders(s, Leaves(texts), close, env, context);
    } else if value.List? {
      var parts := SectionOverList(s, Leaves(texts), close, env, context);
      ConcatOfSame(parts, TextOf(texts));
    } else {
      SectionOverValue(s, Leaves(texts), close, env, context);
    }
  }

  /** The tokens of text around one section. */
  function SectionTokens(before: string, s: Token, body: string, c: Token, after: string): seq<Token> {
    TextTokens(before, 0) + [s] + TextTokens(body, s.end) + [c] + TextTokens(after, c.end)
  }

  /** A whole template with one section, over any lines: what stripping leaves of the text
      before it, of the section and of the text behind it. */
  lemma SectionInLines(before: string, open: string, mark: string, value: string, close: string, body: string, after: string,
                       env: Environment, context: Context)
    returns (s: Token, c: Token)
    requires IsSectionText(before, open, mark, value, close, body, after)
    ensures GivesKind(mark, s.kind) && s.value == value && c.kind == Close
    ensures var full := SectionTokens(before, s, body, c, after); var i, j := |before|, |before| + 1 + |body|;
            && |full| == j + 1 + |after| && AllText(Kept(full, i + 1, j))
            && ShownBy(SectionText(before, open, mark, value, close, body, after), [open, close], env, context) ==
               Some(TextOf(Kept(full, 0, i)) + Render([Nested(s, Leaves(Kept(full, i + 1, j)), c.start)], env, context)
                    + TextOf(Kept(full, j + 1, |full|)))
  {
    hide LexTemplate, Nest, Squash, StripLines, Kept, Render, Leaves, TextTokens, SectionText, NoOpen, IsPlain, IsTagText;
    s, c := LexSection(before, open, mark, value, close, body, after);
    SectionOpens(mark, s);
    TextTokensAreText(before, 0);
    TextTokensAreText(body, s.end);
    TextTokensAreText(after, c.end);
    SectionShown(SectionTokens(before, s, body, c, after), TextTokens(before, 0), s, TextTokens(body, s.end), c, TextTokens(after, c.end), env, context);
  }

  lemma SectionOpens(mark: string, s: Token)
    requires GivesKind(mark, s.kind)
    ensures mark in {"#", "^"} ==> Opens(s)
  {
  }

  lemma SectionShown(full: seq<Token>, a: seq<Token>, s: Token, b: seq<Token>, c: Token, d: seq<Token>, env: Environment, context: Context)
    requires full == a + [s] + b + [c] + d && AllText(a) && AllText(b) && AllText(d) && Opens(s) && c.kind == Close
    ensures var i, j := |a|, |a| + 1 + |b|;
            && |full| == j + 1 + |d| && AllText(Kept(full, i + 1, j))
            && Nest(Squash(StripLines(full))).Some?
            && Render(Nest(Squash(StripLines(full))).value, env, context) ==
               TextOf(Kept(full, 0, i)) + Render([Nested(s, Leaves(Kept(full, i + 1, j)), c.start)], env, context)
               + TextOf(Kept(full, j + 1, |full|))
  {
    hide Nest, Squash, StripLines, Kept, Render, Leaves;
    var i, j := |a|, |a| + 1 + |b|;
    SplitFull(full, a, s, b, c, d);
    KeptSection(full, i, j);
    var x, y, z := Kept(full, 0, i), Kept(full, i + 1, j), Kept(full, j + 1, |full|);
    NestSection(x, s, y, c, z);
    SquashPreservesMeaning(StripLines(full), env, context);
    ShownSection(x, s, y, c.start, z, env, context);
  }

  lemma SplitFull(full: seq<Token>, a: seq<Token>, s: Token, b: seq<Token>, c: Token, d: seq<Token>)
    requires full == a + [s] + b + [c] + d
    ensures |full| == |a| + 1 + |b| + 1 + |d|
    ensures full[..|a|] == a && full[|a|] == s && full[|a| + 1..|a| + 1 + |b|] == b
    ensures full[|a| + 1 + |b|] == c && full[|a| + 2 + |b|..] == d
  {
  }

  lemma KeptSection(full: seq<Token>, i: nat, j: nat)
    requires i < j < |full| && full[i].kind != Text && full[j].kind != Text
    requires AllText(full[..i]) && AllText(full[i + 1..j]) && AllText(full[j + 1..])
    ensures AllText(Kept(full, 0, i)) && AllText(Kept(full, i + 1, j)) && AllText(Kept(full, j + 1, |full|))
    ensures DropHoles(StripLines(full)) ==
            Kept(full, 0, i) + [full[i]] + Kept(full, i + 1, j) + [full[j]] + Kept(full, j + 1, |full|)
  {
    hide StripLines, DropHoles;
    assert forall k | 0 <= k < i :: full[k] in full[..i];
    assert forall k | i < k < j :: full[k] == full[i + 1..j][k - i - 1];
    assert forall k | j < k < |full| :: full[k] == full[j + 1..][k - j - 1];
    KeptIsText(full, 0, i);
    KeptIsText(full, i + 1, j);
    KeptIsText(full, j + 1, |full|);
    assert StripLines(full)[0..|full|] == StripLines(full);
    KeptTag(full, i);
    KeptTag(full, j);
    KeptAppend(full, 0, i, |full|);
    KeptAppend(full, i, i + 1, |full|);
    KeptAppend(full, i + 1, j, |full|);
    KeptAppend(full, j, j + 1, |full|);
    hide Kept;
    var x, y, z := Kept(full, 0, i), Kept(full, i + 1, j), Kept(full, j + 1, |full|);
    assert x + ([full[i]] + (y + ([full[j]] + z))) == x + [full[i]] + y + [full[j]] + z;
  }

  lemma ShownSection(x: seq<Token>, s: Token, y: seq<Token>, end: nat, z: seq<Token>, env: Environment, context: Context)
    requires AllText(x) && AllText(y) && AllText(z)
    ensures Render(Leaves(x) + [Nested(s, Leaves(y), end)] + Leaves(z), env, context) ==
            TextOf(x) + Render([Nested(s, Leaves(y), end)], env, context) + TextOf(z)
  {
    hide Render, Leaves;
    RenderAppend(Leaves(x) + [Nested(s, Leaves(y), end)], Leaves(z), env, context);
    RenderAppend(Leaves(x), [Nested(s, Leaves(y), end)], env, context);
    RenderLeaves(x, env, context);
    RenderLeaves(z, env, context);
  }

  /** On a template of one line, whatever its delimiters: the text, the section's body by its
      mark and the value under its name, the text. */
  lemma SectionInText(before: string, open: string, mark: string, value: string, close: string, body: string, after: string,
                      env: Environment, context: Context)
    requires IsSectionText(before, open, mark, value, close, body, after)
    requires '\n' !in before + body + after
    ensures var found := env.lookup(context, value);
            var shown := ShownBy(SectionText(before, open, mark, value, close, body, after), [open, close], env, context);
            && (mark == "#" && found.List? ==> shown == Some(before + Repeated(body, |found.elems|) + after))
            && (mark == "#" && found.Object? ==> shown == Some(before + body + after))
            && (mark == "#" && found.Primitive? ==> shown == Some(before + (if found.truthy then body else "") + after))
            && (mark == "#" && found.Null? ==> shown == Some(before + after))
            && (mark == "^" ==>
                  shown == Some(before + (if found == Null || found == List([]) || (found.Primitive? && !found.truthy) then body else "") + after))
  {
    hide ShownBy, SectionText, Kept, Render, Leaves, TextTokens, TextOf, SectionTokens, NoOpen, IsPlain, IsTagText;
    hide GivesKind, AllText, Repeated;
    var s, c := SectionInLines(before, open, mark, value, close, body, after, env, context);
    var full := SectionTokens(before, s, body, c, after);
    SectionOpens(mark, s);
    AllKept(before, s, body, c, after);
    SectionShows(s, mark, Kept(full, |before| + 1, |before| + 1 + |body|), c.start, env, context);
    assert before + "" + after == before + after;
  }

  /** On one line nothing is stripped. */
  lemma AllKept(before: string, s: Token, body: string, c: Token, after: string)
    requires s.kind != Text && c.kind != Text && '\n' !in before + body + after
    ensures var full := SectionTokens(before, s, body, c, after); var i, j := |before|, |before| + 1 + |body|;
            && |full| == j + 1 + |after|
            && TextOf(Kept(full, 0, i)) == before && TextOf(Kept(full, i + 1, j)) == body
            && TextOf(Kept(full, j + 1, |full|)) == after
  {
    hide Kept, TextOf;
    var full := SectionTokens(before, s, body, c, after);
    var i, j := |before|, |before| + 1 + |body|;
    TextTokensAreText(before, 0);
    TextTokensAreText(body, s.end);
    TextTokensAreText(after, c.end);
    SplitFull(full, TextTokens(before, 0), s, TextTokens(body, s.end), c, TextTokens(after, c.end));
    NoNewlineKeeps(full, before, body, after, s.end, c.end);
    KeptAll(full, 0, i);
    KeptAll(full, i + 1, j);
    KeptAll(full, j + 1, |full|);
    assert full[0..i] == full[..i] && full[j + 1..|full|] == full[j + 1..];
    WholeText(before, 0);
    WholeText(body, s.end);
    WholeText(after, c.end);
  }

  lemma WholeText(text: string, pos: nat)
    ensures TextOf(TextTokens(text, pos)) == text
  {
    TextOfTextTokens(text, pos, |text|);
    assert TextTokens(text, pos)[..|text|] == TextTokens(text, pos) && text[..|text|] == text;
  }

  lemma NoNewlineKeeps(full: seq<Token>, before: string, body: string, after: string, at1: nat, at2: nat)
    requires |full| == |before| + 1 + |body| + 1 + |after|
    requires full[..|before|] == TextTokens(before, 0)
    requires full[|before| + 1..|before| + 1 + |body|] == TextTokens(body, at1)
    requires full[|before| + 2 + |body|..] == TextTokens(after, at2)
    requires full[|before|].kind != Text && full[|before| + 1 + |body|].kind != Text
    requires '\n' !in before + body + after
    ensures forall k: nat | k < |full| :: !Deleted(full, k)
  {
    var i, j := |before|, |before| + 1 + |body|;
    var all := before + body + after;
    forall k | 0 <= k < |full|
      ensures !IsNewline(full[k])
    {
      if k < i {
        assert full[k] == full[..i][k] && before[k] == all[k];
      } else if i < k < j {
        assert full[k] == full[i + 1..j][k - i - 1] && body[k - i - 1] == all[k - 1];
      } else if j < k {
        assert full[k] == full[j + 1..][k - j - 1] && after[k - j - 1] == all[k - 2];
      }
    }
  }

  // ----- a variable in a text -----

  /** A whole template with one variable, over any lines: its line shows something, so
      nothing is stripped. The text, the value by its mark, the text. */
  lemma VariableInText(before: string, open: string, mark: string, value: string, close: string, after: string,
                       env: Environment, context: Context) returns (shown: string)
    requires open != "" && NoOpen(before, open) && IsPlain(after, open)
    requires mark in {"", "{", "&"} && IsTagText(mark, value, close)
    ensures ShownBy(before + TagText(open, mark, value, close) + after, [open, close], env, context) == Some(before + shown + after)
    ensures var found := env.lookup(context, value);
            && (found == Null ==> shown == "")
            && (found != Null && mark == "" ==> Unescape(shown) == env.show(found))
            && (mark == "" ==> '<' !in shown && '>' !in shown && '"' !in shown && '\'' !in shown && '/' !in shown)
            && (found != Null && mark != "" ==> shown == env.show(found))
  {
    hide LexTemplate, Nest, Squash, StripLines, Render, Leaves, TextTokens, TagText, NoOpen, IsTagText, IsPlain;
    var t := LexVariable(before, open, mark, value, close, after);
    VariableKind(mark, t);
    LeafShown(before, t, after, env, context);
    shown := Render([Leaf(t)], env, context);
    if mark == "" {
      NameRenders(t, env, context);
    } else {
      UnescapedRenders(t, env, context);
    }
  }

  lemma VariableKind(mark: string, t: Token)
    requires GivesKind(mark, t.kind)
    ensures mark == "" ==> t.kind == Name
    ensures mark in {"{", "&"} ==> t.kind == Unescaped
  {
  }

  lemma LexVariable(before: string, open: string, mark: string, value: string, close: string, after: string) returns (t: Token)
    requires open != "" && NoOpen(before, open) && IsPlain(after, open)
    requires mark in {"", "{", "&"} && IsTagText(mark, value, close)
    ensures GivesKind(mark, t.kind) && t.value == value
    ensures LexTemplate(before + TagText(open, mark, value, close) + after, [open, close]) ==
            Lexed.Lexed(TextTokens(before, 0) + [t] + TextTokens(after, t.end), t.end + |after|)
  {
    hide Lex, TextTokens, TagText, NoOpen, IsTagText, IsPlain;
    t := LexOneTag(before, open, mark, value, close, after, 0, []);
    VariableKind(mark, t);
    LexLast(after, open, close, t.end);
  }

  lemma LeafShown(before: string, t: Token, after: string, env: Environment, context: Context)
    requires t.kind == Name || t.kind == Unescaped
    ensures var full := TextTokens(before, 0) + [t] + TextTokens(after, t.end);
            && Nest(Squash(StripLines(full))).Some?
            && Render(Nest(Squash(StripLines(full))).value, env, context) ==
               before + Render([Leaf(t)], env, context) + after
  {
    hide Nest, Squash, StripLines, Render, Leaves, TextTokens, TextOf;
    var a, d := TextTokens(before, 0), TextTokens(after, t.end);
    var full := a + [t] + d;
    TextTokensAreText(before, 0);
    TextTokensAreText(after, t.end);
    VariableKeeps(full, a, t, d);
    WholeText(before, 0);
    WholeText(after, t.end);
    NestLeaf(a, t, d);
    SquashPreservesMeaning(StripLines(full), env, context);
    RenderAppend(Leaves(a) + [Leaf(t)], Leaves(d), env, context);
    RenderAppend(Leaves(a), [Leaf(t)], env, context);
    RenderLeaves(a, env, context);
    RenderLeaves(d, env, context);
  }

  lemma VariableKeeps(full: seq<Token>, a: seq<Token>, t: Token, d: seq<Token>)
    requires AllText(a) && AllText(d) && (t.kind == Name || t.kind == Unescaped) && full == a + [t] + d
    ensures DropHoles(StripLines(full)) == full
  {
    forall k: nat | k < |full|
      ensures !Deleted(full, k)
    {
      assert forall i | 0 <= i < |full| && full[i].kind != Text :: i == |a| by {
        assert forall i | 0 <= i < |a| :: full[i] in a;
        assert forall i | |a| < i < |full| :: full[i] == d[i - |a| - 1];
      }
      assert full[|a|] == t && NonSpace(t);
    }
    KeptAll(full, 0, |full|);
    assert full[0..|full|] == full && StripLines(full)[0..|full|] == StripLines(full);
  }
}
