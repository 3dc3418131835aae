/** The template parser (parseTemplate in auth/frontend/mustache.js): tokens whose spans
    tile the template, the stripping of standalone lines, and the check that sections are
    opened and closed.
 */
module MustacheParse {
  import opened Strings
  import opened MustacheTokens
  import opened MustacheScanner

  // ----- tokens and lines -----

  predicate IsNewline(t: Token) {
    t.kind == Text && t.value == "\n"
  }

  predicate IsSpaceText(t: Token) {
    t.kind == Text && |t.value| == 1 && IsSpace(t.value[0])
  }

  /** What makes a line more than white space and section tags. */
  predicate NonSpace(t: Token) {
    (t.kind == Text && !IsSpaceText(t)) || t.kind == Name || t.kind == Unescaped
  }

  /** Tokens `a` to `b` are a whole line, `b` being the newline that ends it. */
  predicate IsLine(full: seq<Token>, a: nat, b: nat) {
    && a <= b < |full| && IsNewline(full[b])
    && (a == 0 || IsNewline(full[a - 1]))
    && forall k | a <= k < b :: !IsNewline(full[k])
  }

  predicate HasTagIn(full: seq<Token>, a: nat, b: nat) {
    exists k :: a <= k < b && k < |full| && full[k].kind != Text
  }

  predicate HasNonSpaceIn(full: seq<Token>, a: nat, b: nat) {
    exists k :: a <= k < b && k < |full| && NonSpace(full[k])
  }

  /** A line with a tag, and nothing else but space and tags that show nothing. */
  predicate IsStandalone(full: seq<Token>, a: nat, b: nat) {
    IsLine(full, a, b) && HasTagIn(full, a, b + 1) && !HasNonSpaceIn(full, a, b + 1)
  }

  /** The tokens that stripping deletes: white space on standalone lines. */
  ghost predicate Deleted(full: seq<Token>, i: nat) {
    && i < |full| && IsSpaceText(full[i])
    && exists a: nat, b: nat :: a <= i <= b && IsStandalone(full, a, b)
  }

  /** Which lines those are: finished by a newline, with a tag, and with no character but
      white space and no variable. */
  lemma StandaloneIs(full: seq<Token>, a: nat, b: nat)
    requires a <= b
    ensures IsStandalone(full, a, b) <==>
            && b < |full| && full[b].kind == Text && full[b].value == "\n"
            && (a == 0 || (full[a - 1].kind == Text && full[a - 1].value == "\n"))
            && (forall k | a <= k < b :: !(full[k].kind == Text && full[k].value == "\n"))
            && (exists k :: a <= k < b && full[k].kind != Text)
            && (forall k | a <= k < b ::
                  && full[k].kind != Name && full[k].kind != Unescaped
                  && (full[k].kind == Text ==> |full[k].value| == 1 && IsSpace(full[k].value[0])))
  {
    if b < |full| && IsNewline(full[b]) {
      assert IsSpace('\n') && !NonSpace(full[b]);
      assert HasTagIn(full, a, b + 1) <==> exists k :: a <= k < b && full[k].kind != Text by {
        if HasTagIn(full, a, b + 1) {
          var k :| a <= k < b + 1 && k < |full| && full[k].kind != Text;
          assert a <= k < b;
        }
        if k :| a <= k < b && full[k].kind != Text {
          assert a <= k < b + 1 && k < |full| && full[k].kind != Text;
        }
      }
      assert !HasNonSpaceIn(full, a, b + 1) <==> forall k | a <= k < b :: !NonSpace(full[k]) by {
        if HasNonSpaceIn(full, a, b + 1) {
          var k :| a <= k < b + 1 && k < |full| && NonSpace(full[k]);
          assert a <= k < b && NonSpace(full[k]);
        }
        if k :| a <= k < b && NonSpace(full[k]) {
          assert a <= k < b + 1 && k < |full| && NonSpace(full[k]);
        }
      }
    }
  }

  /** `full` with holes where exactly those were. */
  ghost function StripLines(full: seq<Token>): (tokens: seq<Option<Token>>)
    ensures |tokens| == |full|
  {
    seq(|full|, i requires 0 <= i < |full| => if Deleted(full, i) then None else Some(full[i]))
  }

  /** `tokens` is `full` with the holes among its first `n` tokens. */
  ghost predicate Stripped(full: seq<Token>, tokens: seq<Option<Token>>, n: nat) {
    && |tokens| == |full| && n <= |full|
    && forall i: nat | i < n :: tokens[i] == if Deleted(full, i) then None else Some(full[i])
  }

  /** Token `n` begins a line that has no end yet. */
  predicate IsLastLine(full: seq<Token>, n: nat) {
    && n <= |full| && (n == 0 || IsNewline(full[n - 1]))
    && forall k | n <= k < |full| :: !IsNewline(full[k])
  }

  lemma NoDeletionOnLastLine(full: seq<Token>, n: nat, i: nat)
    requires IsLastLine(full, n) && n <= i
    ensures !Deleted(full, i)
  {
  }

  lemma LineKept(full: seq<Token>, t: Token, n: nat, a: nat, b: nat)
    requires n <= |full| && n > 0 && IsNewline(full[n - 1]) && a < n
    ensures IsStandalone(full + [t], a, b) <==> IsStandalone(full, a, b)
  {
    var more := full + [t];
    assert forall k | 0 <= k < |full| :: more[k] == full[k];
    if IsLine(more, a, b) {
      assert !(n - 1 < b);
    }
    if b < |full| {
      assert HasTagIn(more, a, b + 1) <==> HasTagIn(full, a, b + 1) by {
        if HasTagIn(more, a, b + 1) {
          var k :| a <= k < b + 1 && k < |more| && more[k].kind != Text;
          assert full[k].kind != Text;
        }
        if HasTagIn(full, a, b + 1) {
          var k :| a <= k < b + 1 && k < |full| && full[k].kind != Text;
          assert more[k].kind != Text;
        }
      }
      assert HasNonSpaceIn(more, a, b + 1) <==> HasNonSpaceIn(full, a, b + 1) by {
        if HasNonSpaceIn(more, a, b + 1) {
          var k :| a <= k < b + 1 && k < |more| && NonSpace(more[k]);
          assert NonSpace(full[k]);
        }
        if HasNonSpaceIn(full, a, b + 1) {
          var k :| a <= k < b + 1 && k < |full| && NonSpace(full[k]);
          assert NonSpace(more[k]);
        }
      }
    }
  }

  /** What is decided about finished lines stays decided. */
  lemma DeletedKept(full: seq<Token>, t: Token, n: nat, i: nat)
    requires n <= |full| && n > 0 && IsNewline(full[n - 1]) && i < n
    ensures Deleted(full + [t], i) <==> Deleted(full, i)
  {
    hide IsStandalone;
    assert (full + [t])[i] == full[i];
    forall a: nat, b: nat | a <= i
      ensures IsStandalone(full + [t], a, b) <==> IsStandalone(full, a, b)
    {
      LineKept(full, t, n, a, b);
    }
  }

  /** A newline decides about its line. */
  lemma NewlineDecides(full: seq<Token>, n: nat, i: nat)
    requires n <= i < |full|
    requires IsLine(full, n, |full| - 1)
    ensures Deleted(full, i) <==>
            IsSpaceText(full[i]) && HasTagIn(full, n, |full|) && !HasNonSpaceIn(full, n, |full|)
  {
    hide HasTagIn, HasNonSpaceIn;
    forall a: nat, b: nat | a <= i <= b && IsStandalone(full, a, b)
      ensures a == n && b == |full| - 1
    {
      assert n == 0 || IsNewline(full[n - 1]);
    }
    var b := |full| - 1;
    assert b + 1 == |full|;
    assert IsStandalone(full, n, b) <==> HasTagIn(full, n, |full|) && !HasNonSpaceIn(full, n, |full|);
  }

  lemma NothingInEmptyRange(full: seq<Token>, n: nat)
    ensures !HasTagIn(full, n, n) && !HasNonSpaceIn(full, n, n)
  {
  }

  // ----- the token buffer with its line state -----

  /** The variables the parser's closures share. `full` is what was pushed, before any
      deletion; `lineStart` is the first token of the current line. */
  class Lines {
    var tokens: seq<Option<Token>>
    var spaces: seq<nat>
    var hasTag: bool
    var nonSpace: bool
    ghost var full: seq<Token>
    ghost var lineStart: nat

    constructor ()
      ensures Valid() && full == [] && lineStart == 0
    {
      tokens, spaces, hasTag, nonSpace := [], [], false, false;
      full, lineStart := [], 0;
    }

    /** The buffers and flags describe the current line, finished or not. */
    ghost predicate Describes()
      reads this
    {
      && Stripped(full, tokens, lineStart)
      && (forall i: nat | lineStart <= i < |full| :: tokens[i] == Some(full[i]))
      && (hasTag <==> HasTagIn(full, lineStart, |full|))
      && (nonSpace <==> HasNonSpaceIn(full, lineStart, |full|))
      && (forall k :: k in spaces <==> lineStart <= k < |full| && IsSpaceText(full[k]))
    }

    ghost predicate Valid()
      reads this
    {
      Describes() && IsLastLine(full, lineStart)
    }

    /** Deletes the space tokens of a line that turned out to be standalone. */
    method StripSpace()
      requires Describes() && full != [] && IsLine(full, lineStart, |full| - 1)
      modifies this
      ensures Valid() && full == old(full)
    {
      hide Deleted, HasTagIn, HasNonSpaceIn;
      forall i: nat | lineStart <= i < |full|
        ensures Deleted(full, i) <==> IsSpaceText(full[i]) && hasTag && !nonSpace
      {
        NewlineDecides(full, lineStart, i);
      }
      NothingInEmptyRange(full, |full|);
      hide IsSpaceText;
      if hasTag && !nonSpace {
        DeleteSpaces();
      } else {
        spaces := [];
      }
      hasTag := false;
      nonSpace := false;
      lineStart := |full|;
    }

    /** Pops the recorded indices one by one. */
    method DeleteSpaces()
      requires |tokens| == |full| && forall k | k in spaces :: k < |full|
      modifies `tokens, `spaces
      ensures spaces == [] && |tokens| == |full|
      ensures forall i: nat | i < |full| :: tokens[i] == if i in old(spaces) then None else old(tokens[i])
    {
      while spaces != []
        invariant |tokens| == |full| && forall k | k in spaces :: k < |full| && k in old(spaces)
        invariant forall i: nat | i < |full| && i !in spaces :: tokens[i] == if i in old(spaces) then None else old(tokens[i])
        invariant forall i: nat | i < |full| && i in spaces :: tokens[i] == old(tokens[i]) || tokens[i] == None
        decreases |spaces|
      {
        var n := |spaces| - 1;
        var last := spaces[n];
        assert last in spaces;
        assert spaces == spaces[..n] + [last];
        tokens := tokens[last := None];
        spaces := spaces[..n];
      }
    }

    method PushChar(chr: char, start: nat)
      requires Valid()
      modifies this
      ensures Valid() && full == old(full) + [Token(Text, [chr], start, start + 1)]
    {
      hide Deleted, HasTagIn, HasNonSpaceIn;
      ghost var before := full;
      var token := Token(Text, [chr], start, start + 1);
      if IsSpace(chr) {
        spaces := spaces + [|tokens|];
      } else {
        nonSpace := true;
      }
      tokens := tokens + [Some(token)];
      full := full + [token];
      AppendDescribes(before, token, lineStart);
      if chr == '\n' {
        StripSpace();
      }
    }

    /** Pushes a tag; the flags are set around the push as in the source. */
    method PushTag(token: Token)
      requires Valid() && token.kind != Text
      modifies this
      ensures Valid() && full == old(full) + [token]
    {
      hide Deleted, HasTagIn, HasNonSpaceIn;
      ghost var before := full;
      hasTag := true;
      tokens := tokens + [Some(token)];
      full := full + [token];
      if token.kind == Name || token.kind == Unescaped {
        nonSpace := true;
      }
      AppendDescribes(before, token, lineStart);
    }
  }

  /** How one more token on the current line changes what the flags describe. */
  lemma AppendDescribes(full: seq<Token>, t: Token, n: nat)
    requires IsLastLine(full, n)
    ensures var more := full + [t];
            && (forall i: nat | i < n :: Deleted(more, i) <==> Deleted(full, i))
            && (HasTagIn(more, n, |more|) <==> HasTagIn(full, n, |full|) || t.kind != Text)
            && (HasNonSpaceIn(more, n, |more|) <==> HasNonSpaceIn(full, n, |full|) || NonSpace(t))
  {
    var more := full + [t];
    forall i: nat | i < n
      ensures Deleted(more, i) <==> Deleted(full, i)
    {
      DeletedKept(full, t, n, i);
    }
    assert more[|full|] == t && forall k | 0 <= k < |full| :: more[k] == full[k];
    if HasTagIn(full, n, |full|) {
      var k :| n <= k < |full| && k < |full| && full[k].kind != Text;
      assert more[k].kind != Text;
    }
    if HasNonSpaceIn(full, n, |full|) {
      var k :| n <= k < |full| && k < |full| && NonSpace(full[k]);
      assert NonSpace(more[k]);
    }
  }

  // ----- spans -----

  /** Where token `k` has to start: where the one before it ends. */
  function Boundary(full: seq<Token>, k: nat): nat
    requires k <= |full|
  {
    if k == 0 then 0 else full[k - 1].end
  }

  /** The spans follow each other without gap or overlap from the beginning of the template
      to `pos`; a text token is one character and holds it. */
  predicate Tiles(template: string, full: seq<Token>, pos: nat) {
    && pos <= |template| && Boundary(full, |full|) == pos
    && forall k: nat | k < |full| :: TileAt(template, full, k)
  }

  predicate TileAt(template: string, full: seq<Token>, k: nat)
    requires k < |full|
  {
    && full[k].start == Boundary(full, k) && full[k].start < full[k].end <= |template|
    && (full[k].kind == Text ==>
          full[k].end == full[k].start + 1 && full[k].value == [template[full[k].start]])
  }

  lemma TilesSnoc(template: string, full: seq<Token>, pos: nat, t: Token)
    requires Tiles(template, full, pos)
    requires t.start == pos < t.end <= |template|
    requires t.kind == Text ==> t.end == t.start + 1 && t.value == [template[t.start]]
    ensures Tiles(template, full + [t], t.end)
  {
    var more := full + [t];
    forall k: nat | k < |more|
      ensures TileAt(template, more, k)
    {
      if k < |full| {
        TileKept(template, full, t, k);
      }
    }
  }

  lemma TileKept(template: string, full: seq<Token>, t: Token, k: nat)
    requires k < |full| && TileAt(template, full, k)
    ensures TileAt(template, full + [t], k)
  {
    assert (full + [t])[k] == full[k];
    assert k > 0 ==> (full + [t])[k - 1] == full[k - 1];
  }

  /** The part of the template that tokens `i` to `j` (excluded) cover. */
  function SourceOf(template: string, tokens: seq<Token>): string
    requires forall t | t in tokens :: t.start <= t.end <= |template|
  {
    if tokens == [] then ""
    else
      var last := tokens[|tokens| - 1];
      SourceOf(template, tokens[..|tokens| - 1]) + template[last.start..last.end]
  }

  lemma TileBoundary(template: string, full: seq<Token>, pos: nat, k: nat)
    requires Tiles(template, full, pos) && k <= |full|
    ensures Boundary(full, k) <= |template|
    ensures k < |full| ==> full[k].start == Boundary(full, k) < full[k].end == Boundary(full, k + 1)
  {
    if k < |full| {
      assert TileAt(template, full, k);
    }
    if k > 0 {
      assert TileAt(template, full, k - 1);
    }
  }

  /** Consecutive tokens cover exactly the source between the first's start and the
      last's end. */
  lemma {:induction false} TilesCover(template: string, full: seq<Token>, pos: nat, i: nat, j: nat)
    requires Tiles(template, full, pos) && i <= j <= |full|
    ensures Boundary(full, i) <= Boundary(full, j) <= |template|
    ensures forall t | t in full[i..j] :: t.start <= t.end <= |template|
    ensures SourceOf(template, full[i..j]) == template[Boundary(full, i)..Boundary(full, j)]
    decreases j
  {
    hide Tiles, Boundary;
    TileBoundary(template, full, pos, i);
    if i < j {
      TilesCover(template, full, pos, i, j - 1);
      TileBoundary(template, full, pos, j - 1);
      TileBoundary(template, full, pos, j);
      assert full[i..j] == full[i..j - 1] + [full[j - 1]];
      SourceSnoc(template, full[i..j - 1], full[j - 1]);
      Cat(template, Boundary(full, i), Boundary(full, j - 1), Boundary(full, j));
    }
  }

  lemma SourceSnoc(template: string, tokens: seq<Token>, t: Token)
    requires forall u | u in tokens :: u.start <= u.end <= |template|
    requires t.start <= t.end <= |template|
    ensures SourceOf(template, tokens + [t]) == SourceOf(template, tokens) + template[t.start..t.end]
  {
    assert (tokens + [t])[..|tokens|] == tokens;
  }

  lemma Cat(s: string, a: nat, b: nat, c: nat)
    requires a <= b <= c <= |s|
    ensures s[a..b] + s[b..c] == s[a..c]
  {
  }

  // ----- sections -----

  /** The sections opened so far, and names that agree in every closed pair. */
  ghost predicate Sections(full: seq<Token>, sections: seq<Token>) {
    match PairAll(full)
    case None => false
    case Some(q) => q.open == sections && NamesAgree(q.closed)
  }

  predicate NamesAgree(closed: seq<(Token, Token)>) {
    forall p | p in closed :: p.0.value == p.1.value
  }

  lemma SectionsSnoc(full: seq<Token>, sections: seq<Token>, t: Token)
    requires Sections(full, sections)
    requires t.kind == Close ==> sections != [] && sections[|sections| - 1].value == t.value
    ensures Sections(full + [t],
                     if Opens(t) then sections + [t] else if t.kind == Close then sections[..|sections| - 1] else sections)
  {
    PairSnoc(full, t);
  }

  // ----- the parser -----

  datatype ParseError = InvalidTags | UnclosedTag | UnopenedSection | UnclosedSection

  datatype Outcome = Parsed(tree: seq<Node>) | Error(error: ParseError)

  function KindOf(tagType: string): Kind {
    if tagType == "#" then Section
    else if tagType == "^" then Inverted
    else if tagType == "/" then Close
    else if tagType == ">" then Partial
    else if tagType == "{" || tagType == "&" then Unescaped
    else if tagType == "=" then SetTags
    else if tagType == "!" then Comment
    else Name
  }

  /** Splits at runs of white space, as JavaScript's split does. */
  function SplitSpace(s: string): seq<string>
    decreases |s|
  {
    var n := UntilSpace(s);
    if n == |s| then [s]
    else [s[..n]] + SplitSpace(s[n + LeadingSpace(s[n..])..])
  }

  function UntilSpace(s: string): (n: nat)
    ensures n <= |s| && (n < |s| ==> IsSpace(s[n]))
  {
    if s == "" || IsSpace(s[0]) then 0 else 1 + UntilSpace(s[1..])
  }

  // ----- the tokens of a template, as a function -----

  /** What follows an opening delimiter: the tag's type and value, how long it is, and
      whether its closing delimiter was found. */
  datatype RawTag = RawTag(tagType: string, value: string, length: nat, closed: bool)

  function RawTagAt(s: string, close: string): (r: RawTag)
    ensures r.length <= |s|
  {
    var a := ScanLength(TagType, s);
    var b := ScanLength(White, s[a..]);
    var r := RawBodyAt(s[..a], s[a..][b..], close);
    r.(length := a + b + r.length)
  }

  /** After the tag's type and the space that follows it. */
  function RawBodyAt(tagType: string, body: string, close: string): (r: RawTag)
    ensures r.length <= |body| && r.tagType == tagType
  {
    var c := UntilLength(StopOf(tagType, close), body);
    var d := SkipLength(tagType, body[c..], close);
    var end := ScanLength(CloseTag(close), body[c..][d..]);
    RawTag(tagType, body[..c], c + d + end, end != 0)
  }

  /** What ends the value of a tag. */
  function StopOf(tagType: string, close: string): Pattern {
    CloseTag(if tagType == "=" then "=" else if tagType == "{" then "}" + close else close)
  }

  /** What stands between the value and the closing delimiter. */
  function SkipLength(tagType: string, rest: string, close: string): (n: nat)
    ensures n <= |rest|
  {
    if tagType == "=" || tagType == "{" then
      var e := ScanLength(CloseTag(if tagType == "=" then "=" else "}"), rest);
      e + UntilLength(CloseTag(close), rest[e..])
    else 0
  }

  /** Values do not begin with white space. */
  lemma ValueStart(s: string, close: string)
    ensures RawTagAt(s, close).value != "" ==> !IsSpace(RawTagAt(s, close).value[0])
  {
    hide UntilLength, SkipLength;
    var a := ScanLength(TagType, s);
    var b := ScanLength(White, s[a..]);
    assert b == LeadingSpace(s[a..]);
    assert b < |s[a..]| ==> !IsSpace(s[a..][b]);
  }

  datatype TagResult = NoTag | Unclosed | Tag(token: Token)

  /** The tag that starts at the beginning of `s`, which is at `pos` of the template. */
  function WholeTagAt(s: string, pos: nat, open: string, close: string): (r: TagResult)
    ensures r.Tag? ==> r.token.start == pos < r.token.end <= pos + |s| && r.token.kind != Text
  {
    var n := ScanLength(OpenTag(open), s);
    if n == 0 then NoTag
    else
      var raw := RawTagAt(s[n..], close);
      if !raw.closed then Unclosed
      else
        KindOfSetTags(raw.tagType);
        Tag(Token(KindOf(raw.tagType), raw.value, pos, pos + n + raw.length))
  }

  lemma KindOfSetTags(tagType: string)
    ensures KindOf(tagType) != Text && (KindOf(tagType) == SetTags <==> tagType == "=")
  {
  }

  /** One text token per character. */
  function TextTokens(s: string, pos: nat): seq<Token> {
    seq(|s|, i requires 0 <= i < |s| => Token(Text, [s[i]], pos + i, pos + i + 1))
  }

  /** The check of section nesting. */
  function SectionError(sections: seq<Token>, t: Token): Option<ParseError> {
    if t.kind != Close then None
    else if sections == [] then Some(UnopenedSection)
    else if sections[|sections| - 1].value != t.value then Some(UnclosedSection)
    else None
  }

  function SectionsAfter(sections: seq<Token>, t: Token): seq<Token>
    requires SectionError(sections, t).None?
  {
    if Opens(t) then sections + [t] else if t.kind == Close then sections[..|sections| - 1] else sections
  }

  /** The delimiters after a tag. */
  function TagsAfter(open: string, close: string, t: Token): Option<(string, string)> {
    if t.kind != SetTags then Some((open, close))
    else
      var tags := SplitSpace(t.value);
      if |tags| == 2 then Some((tags[0], tags[1])) else None
  }

  /** The tokens up to where reading ends, or the error. */
  datatype Lexed = Lexed(tokens: seq<Token>, end: nat) | LexError(error: ParseError)

  function Ended(tokens: seq<Token>, end: nat, sections: seq<Token>): Lexed {
    if sections == [] then Lexed.Lexed(tokens, end) else LexError(UnclosedSection)
  }

  function After(tokens: seq<Token>, r: Lexed): Lexed {
    match r
    case Lexed(more, end) => Lexed.Lexed(tokens + more, end)
    case LexError(_) => r
  }

  /** The tokens of `s`, which starts at `pos`, with these delimiters and open sections. */
  function Lex(s: string, pos: nat, open: string, close: string, sections: seq<Token>): Lexed
    decreases |s|
  {
    if s == "" then Ended([], pos, sections)
    else
      var n := UntilLength(OpenTag(open), s);
      var text := TextTokens(s[..n], pos);
      match WholeTagAt(s[n..], pos + n, open, close)
      case NoTag => Ended(text, pos + n, sections)
      case Unclosed => LexError(UnclosedTag)
      case Tag(t) =>
        if SectionError(sections, t).Some? then LexError(SectionError(sections, t).value)
        else
          match TagsAfter(open, close, t)
          case None => LexError(InvalidTags)
          case Some((open', close')) =>
            After(text + [t], Lex(s[t.end - pos..], t.end, open', close', SectionsAfter(sections, t)))
  }

  lemma AfterAfter(a: seq<Token>, b: seq<Token>, r: Lexed)
    ensures After(a, After(b, r)) == After(a + b, r)
  {
    if r.Lexed? {
      assert a + (b + r.tokens) == a + b + r.tokens;
    }
  }

  lemma AfterNothing(r: Lexed)
    ensures After([], r) == r
  {
    if r.Lexed? {
      assert [] + r.tokens == r.tokens;
    }
  }

  // ----- what the tokens are like -----

  /** The tokens tile the template up to `pos`, and the open sections are those on the
      stack. */
  ghost predicate Progress(template: string, full: seq<Token>, pos: nat, sections: seq<Token>) {
    Tiles(template, full, pos) && Sections(full, sections)
  }

  lemma ProgressSnoc(template: string, full: seq<Token>, pos: nat, sections: seq<Token>, t: Token)
    requires Progress(template, full, pos, sections)
    requires t.start == pos < t.end <= |template|
    requires t.kind == Text ==> t.end == t.start + 1 && t.value == [template[t.start]]
    requires SectionError(sections, t).None?
    ensures Progress(template, full + [t], t.end, SectionsAfter(sections, t))
  {
    hide Tiles, Sections;
    TilesSnoc(template, full, pos, t);
    SectionsSnoc(full, sections, t);
  }

  lemma {:induction false} ProgressText(template: string, full: seq<Token>, pos: nat, sections: seq<Token>, n: nat)
    requires Progress(template, full, pos, sections) && pos + n <= |template|
    ensures Progress(template, full + TextTokens(template[pos..pos + n], pos), pos + n, sections)
    decreases n
  {
    hide Progress;
    if n == 0 {
      assert full + TextTokens(template[pos..pos + n], pos) == full;
    } else {
      ProgressText(template, full, pos, sections, n - 1);
      var t := Token(Text, [template[pos + n - 1]], pos + n - 1, pos + n);
      var before := TextTokens(template[pos..pos + n - 1], pos);
      ProgressSnoc(template, full + before, pos + n - 1, sections, t);
      assert full + TextTokens(template[pos..pos + n], pos) == full + before + [t];
    }
  }

  /** Reading on from `pos` keeps it, and ends with no section open. */
  lemma {:induction false} LexProgress(template: string, before: seq<Token>, s: string, pos: nat, open: string, close: string, sections: seq<Token>)
    requires pos <= |template| && s == template[pos..] && Progress(template, before, pos, sections)
    ensures match After(before, Lex(s, pos, open, close, sections))
            case LexError(_) => true
            case Lexed(full, end) => Progress(template, full, end, [])
    decreases |s|
  {
    hide Progress, Lex, After, WholeTagAt, UntilLength, TextTokens, TagsAfter, SectionError, SectionsAfter;
    if s == "" {
      LexEnd(before, pos, open, close, sections);
    } else {
      LexTurn(before, s, pos, open, close, sections);
      var n := UntilLength(OpenTag(open), s);
      var text := TextTokens(s[..n], pos);
      assert s[..n] == template[pos..pos + n] && s[n..] == template[pos + n..];
      ProgressText(template, before, pos, sections, n);
      match WholeTagAt(s[n..], pos + n, open, close)
      case NoTag =>
      case Unclosed =>
      case Tag(t) =>
        WholeTagSpan(s[n..], pos + n, open, close);
        if SectionError(sections, t).None? && TagsAfter(open, close, t).Some? {
          var (open', close') := TagsAfter(open, close, t).value;
          ProgressSnoc(template, before + text, pos + n, sections, t);
          Associate(before, text, [t]);
          DropTwice(template, pos + n, t.end - (pos + n));
          LexProgress(template, before + (text + [t]), s[n..][t.end - (pos + n)..], t.end, open', close', SectionsAfter(sections, t));
        }
    }
  }

  /** What has been read, up to `end`, when there was no error: spans without gaps, and
      sections that are closed by tags of the same name. */
  ghost predicate Read(template: string, full: seq<Token>, end: nat) {
    && Tiles(template, full, end)
    && PairAll(full).Some? && PairAll(full).value.open == [] && NamesAgree(PairAll(full).value.closed)
  }

  /** The tokens and errors of a whole template. */
  function LexTemplate(template: string, tags: seq<string>): Lexed {
    if |tags| != 2 then LexError(InvalidTags) else Lex(template, 0, tags[0], tags[1], [])
  }

  lemma LexRead(template: string, tags: seq<string>)
    ensures match LexTemplate(template, tags)
            case LexError(_) => true
            case Lexed(full, end) => Read(template, full, end)
  {
    hide Lex;
    if |tags| == 2 {
      assert Progress(template, [], 0, []);
      LexProgress(template, [], template, 0, tags[0], tags[1], []);
      AfterNothing(Lex(template, 0, tags[0], tags[1], []));
    }
  }

  /** With a non-empty opening delimiter the spans tile the whole template. */
  lemma SpansTileTemplate(template: string, tags: seq<string>)
    requires |tags| == 2 && tags[0] != ""
    ensures var lexed := LexTemplate(template, tags);
            lexed.Lexed? ==>
              && lexed.end == |template|
              && (forall t | t in lexed.tokens :: t.start <= t.end <= |template|)
              && SourceOf(template, lexed.tokens) == template
  {
    hide Lex;
    LexRead(template, tags);
    LexCovers(template, 0, tags[0], tags[1], []);
    var lexed := LexTemplate(template, tags);
    if lexed.Lexed? {
      var full := lexed.tokens;
      TilesCover(template, full, lexed.end, 0, |full|);
      assert full[0..|full|] == full && template[0..|template|] == template;
    }
  }

  // ----- the token loop -----

  /** Pushes the characters between two tags. */
  method PushText(lines: Lines, value: string, start: nat)
    requires lines.Valid()
    modifies lines
    ensures lines.Valid() && lines.full == old(lines.full) + TextTokens(value, start)
  {
    hide Lines.Valid;
    for i := 0 to |value|
      invariant lines.Valid()
      invariant lines.full == old(lines.full) + TextTokens(value, start)[..i]
    {
      lines.PushChar(value[i], start + i);
      assert TextTokens(value, start)[..i + 1] == TextTokens(value, start)[..i] + [TextTokens(value, start)[i]];
    }
    assert TextTokens(value, start)[..|value|] == TextTokens(value, start);
  }

  /** Reads a tag from after its opening delimiter to after its closing one. */
  method ReadTag(scanner: Scanner, close: string) returns (tagType: string, value: string, closed: bool)
    requires scanner.Valid()
    modifies scanner
    ensures scanner.Valid()
    ensures var r := RawTagAt(old(scanner.tail), close);
            && tagType == r.tagType && value == r.value && closed == r.closed
            && scanner.pos == old(scanner.pos) + r.length
  {
    hide ScanLength, RawBodyAt;
    ghost var s := scanner.tail;
    tagType := scanner.Scan(TagType);
    var skipped := scanner.Scan(White);
    value, closed := ReadBody(scanner, tagType, close);
  }

  method ReadBody(scanner: Scanner, tagType: string, close: string) returns (value: string, closed: bool)
    requires scanner.Valid()
    modifies scanner
    ensures scanner.Valid()
    ensures var r := RawBodyAt(tagType, old(scanner.tail), close);
            value == r.value && closed == r.closed && scanner.pos == old(scanner.pos) + r.length
  {
    hide ScanLength, UntilLength, SkipLength;
    ghost var body := scanner.tail;
    if tagType == "=" {
      value := scanner.ScanUntil(CloseTag("="));
    } else if tagType == "{" {
      value := scanner.ScanUntil(CloseTag("}" + close));
    } else {
      value := scanner.ScanUntil(CloseTag(close));
    }
    SkipToClose(scanner, tagType, close);
    var end := scanner.Scan(CloseTag(close));
    closed := end != "";
  }

  lemma DropTwice(s: string, a: nat, b: nat)
    requires a + b <= |s|
    ensures s[a..][b..] == s[a + b..]
  {
  }

  method SkipToClose(scanner: Scanner, tagType: string, close: string)
    requires scanner.Valid()
    modifies scanner
    ensures scanner.Valid()
    ensures var n := SkipLength(tagType, old(scanner.tail), close);
            scanner.pos == old(scanner.pos) + n && scanner.tail == old(scanner.tail)[n..]
  {
    hide ScanLength, UntilLength;
    ghost var rest := scanner.tail;
    if tagType == "=" || tagType == "{" {
      var mark := scanner.Scan(CloseTag(if tagType == "=" then "=" else "}"));
      var more := scanner.ScanUntil(CloseTag(close));
      DropTwice(rest, |mark|, |more|);
    }
  }

  /** A tag from its opening delimiter to its closing one, if there is one. */
  method ReadWholeTag(scanner: Scanner, open: string, close: string) returns (r: TagResult)
    requires scanner.Valid()
    modifies scanner
    ensures scanner.Valid()
    ensures r == WholeTagAt(old(scanner.tail), old(scanner.pos), open, close)
    ensures r.Tag? ==> scanner.pos == r.token.end && scanner.tail == old(scanner.tail)[r.token.end - old(scanner.pos)..]
    ensures r.NoTag? ==> scanner.pos == old(scanner.pos)
  {
    hide ScanLength, RawTagAt, KindOf;
    ghost var s := scanner.tail;
    var start := scanner.pos;
    var openTag := scanner.Scan(OpenTag(open));
    if openTag == "" {
      return NoTag;
    }
    var tagType, value, closed := ReadTag(scanner, close);
    if !closed {
      return Unclosed;
    }
    KindOfSetTags(tagType);
    assert scanner.tail == s[scanner.pos - start..];
    r := Tag(Token(KindOf(tagType), value, start, scanner.pos));
  }

  /** The text before the next opening tag, or the rest of the template. */
  method ReadText(scanner: Scanner, lines: Lines, open: string)
    requires scanner.Valid() && lines.Valid()
    modifies scanner, lines
    ensures scanner.Valid() && lines.Valid()
    ensures var n := UntilLength(OpenTag(open), old(scanner.tail));
            && scanner.pos == old(scanner.pos) + n && scanner.tail == old(scanner.tail)[n..]
            && lines.full == old(lines.full) + TextTokens(old(scanner.tail)[..n], old(scanner.pos))
  {
    hide Lines.Valid, UntilLength, TextTokens;
    var start := scanner.pos;
    var value := scanner.ScanUntil(OpenTag(open));
    PushText(lines, value, start);
  }

  /** Pushes a tag and checks the nesting of sections. */
  method PushTag(lines: Lines, sections: seq<Token>, token: Token)
    returns (failure: Option<ParseError>, sections': seq<Token>)
    requires lines.Valid() && token.kind != Text
    modifies lines
    ensures lines.Valid() && lines.full == old(lines.full) + [token]
    ensures failure == SectionError(sections, token)
    ensures failure.Some? <==> token.kind == Close && (sections == [] || sections[|sections| - 1].value != token.value)
    ensures failure.Some? ==> failure.value == if sections == [] then UnopenedSection else UnclosedSection
    ensures failure.None? ==> sections' == SectionsAfter(sections, token)
  {
    hide Lines.Valid;
    lines.PushTag(token);
    failure, sections' := None, sections;
    if token.kind == Section || token.kind == Inverted {
      sections' := sections + [token];
    } else if token.kind == Close {
      if sections == [] {
        return Some(UnopenedSection), sections;
      }
      var openSection := sections[|sections| - 1];
      sections' := sections[..|sections| - 1];
      if openSection.value != token.value {
        return Some(UnclosedSection), sections';
      }
    }
  }

  /** The loop over tags. The rest of the template shrinks on every turn, also after the
      delimiters have been changed. */
  method ReadTokens(template: string, tags: seq<string>) returns (error: Option<ParseError>, tokens: seq<Option<Token>>)
    ensures match LexTemplate(template, tags)
            case LexError(e) => error == Some(e)
            case Lexed(full, _) => error.None? && tokens == StripLines(full)
  {
    tokens := [];
    if |tags| != 2 {
      error := Some(InvalidTags);
      return;
    }
    var open, close := tags[0], tags[1];
    var scanner := new Scanner(template);
    var lines := new Lines();
    var sections: seq<Token> := [];
    ghost var result := Lex(template, 0, open, close, sections);
    AfterNothing(result);
    hide Lines.Valid, Lex, After;
    while !scanner.Eos()
      invariant scanner.Valid() && scanner.text == template && lines.Valid()
      invariant result == After(lines.full, Lex(scanner.tail, scanner.pos, open, close, sections))
      decreases |template| - scanner.pos
    {
      var stop;
      stop, error, open, close, sections := Turn(scanner, lines, open, close, sections, result);
      if error.Some? {
        return;
      }
      if stop {
        error, tokens := Finish(lines, sections, scanner.pos);
        return;
      }
    }
    LexEnd(lines.full, scanner.pos, open, close, sections);
    error, tokens := Finish(lines, sections, scanner.pos);
  }

  /** The body of the loop: text, then a tag. `stop` when there is no tag any more. */
  method Turn(scanner: Scanner, lines: Lines, open: string, close: string, sections: seq<Token>, ghost result: Lexed)
    returns (stop: bool, error: Option<ParseError>, open': string, close': string, sections': seq<Token>)
    requires scanner.Valid() && scanner.tail != "" && lines.Valid()
    requires result == After(lines.full, Lex(scanner.tail, scanner.pos, open, close, sections))
    modifies scanner, lines
    ensures scanner.Valid() && lines.Valid()
    ensures error.Some? ==> result == LexError(error.value)
    ensures error.None? && stop ==> result == Ended(lines.full, scanner.pos, sections')
    ensures error.None? && !stop ==>
              && scanner.pos > old(scanner.pos)
              && result == After(lines.full, Lex(scanner.tail, scanner.pos, open', close', sections'))
  {
    hide Lines.Valid, UntilLength, WholeTagAt, TextTokens, Lex, After, SectionError, SectionsAfter;
    ghost var before, s, pos := lines.full, scanner.tail, scanner.pos;
    stop, error, open', close', sections' := false, None, open, close, sections;
    ReadText(scanner, lines, open);
    LexTurn(before, s, pos, open, close, sections);
    WholeTagSpan(scanner.tail, scanner.pos, open, close);
    var tag := ReadWholeTag(scanner, open, close);
    match tag {
      case NoTag =>
        stop := true;
      case Unclosed =>
        error := Some(UnclosedTag);
      case Tag(token) =>
        error, sections' := PushTag(lines, sections, token);
        if error.None? && token.kind == SetTags {
          var newTags := SplitSpace(token.value);
          if |newTags| != 2 {
            error := Some(InvalidTags);
            return;
          }
          open', close' := newTags[0], newTags[1];
        }
        Associate(before, TextTokens(s[..UntilLength(OpenTag(open), s)], pos), [token]);
    }
  }

  /** After the loop: no section may be left open. */
  method Finish(lines: Lines, sections: seq<Token>, end: nat) returns (error: Option<ParseError>, tokens: seq<Option<Token>>)
    requires lines.Valid()
    ensures match Ended(lines.full, end, sections)
            case LexError(e) => error == Some(e)
            case Lexed(full, _) => error.None? && tokens == StripLines(full)
  {
    tokens := lines.tokens;
    if sections != [] {
      error := Some(UnclosedSection);
      return;
    }
    error := None;
    ghost var full := lines.full;
    forall i: nat | lines.lineStart <= i < |full|
      ensures !Deleted(full, i)
    {
      NoDeletionOnLastLine(full, lines.lineStart, i);
    }
    hide Deleted;
    assert tokens == StripLines(full);
  }

  // ----- the function, turn by turn -----

  lemma Associate(a: seq<Token>, b: seq<Token>, c: seq<Token>)
    ensures a + b + c == a + (b + c)
  {
  }

  lemma WholeTagSpan(s: string, pos: nat, open: string, close: string)
    ensures var r := WholeTagAt(s, pos, open, close);
            r.Tag? ==> r.token.start == pos < r.token.end <= pos + |s| && r.token.kind != Text
  {
  }

  /** One turn of the loop, against the function. */
  lemma LexTurn(before: seq<Token>, s: string, pos: nat, open: string, close: string, sections: seq<Token>)
    requires s != ""
    ensures var result := After(before, Lex(s, pos, open, close, sections));
            var n := UntilLength(OpenTag(open), s);
            var text := TextTokens(s[..n], pos);
            match WholeTagAt(s[n..], pos + n, open, close)
            case NoTag => result == Ended(before + text, pos + n, sections)
            case Unclosed => result == LexError(UnclosedTag)
            case Tag(t) =>
              if SectionError(sections, t).Some? then result == LexError(SectionError(sections, t).value)
              else
                match TagsAfter(open, close, t)
                case None => result == LexError(InvalidTags)
                case Some((open', close')) =>
                  result == After(before + (text + [t]),
                                  Lex(s[n..][t.end - (pos + n)..], t.end, open', close', SectionsAfter(sections, t)))
  {
    hide MatchLength, ScanLength, RawTagAt, UntilLength, WholeTagAt, TextTokens, TagsAfter, SectionError, SectionsAfter, Lex, After;
    var n := UntilLength(OpenTag(open), s);
    LexUnfold(s, pos, open, close, sections, n);
    WholeTagSpan(s[n..], pos + n, open, close);
    match WholeTagAt(s[n..], pos + n, open, close)
    case NoTag =>
      AfterEnded(before, TextTokens(s[..n], pos), pos + n, sections);
    case Unclosed =>
      AfterError(before, UnclosedTag);
    case Tag(t) =>
      assert s[n..][t.end - (pos + n)..] == s[t.end - pos..];
      if SectionError(sections, t).Some? {
        AfterError(before, SectionError(sections, t).value);
      } else if TagsAfter(open, close, t).None? {
        AfterError(before, InvalidTags);
      } else {
        var (open', close') := TagsAfter(open, close, t).value;
        AfterAfter(before, TextTokens(s[..n], pos) + [t], Lex(s[t.end - pos..], t.end, open', close', SectionsAfter(sections, t)));
      }
  }

  lemma AfterEnded(before: seq<Token>, text: seq<Token>, end: nat, sections: seq<Token>)
    ensures After(before, Ended(text, end, sections)) == Ended(before + text, end, sections)
  {
  }

  lemma AfterError(before: seq<Token>, error: ParseError)
    ensures After(before, LexError(error)) == LexError(error)
  {
  }

  lemma LexUnfold(s: string, pos: nat, open: string, close: string, sections: seq<Token>, n: nat)
    requires s != "" && n == UntilLength(OpenTag(open), s)
    ensures Lex(s, pos, open, close, sections) ==
            match WholeTagAt(s[n..], pos + n, open, close)
            case NoTag => Ended(TextTokens(s[..n], pos), pos + n, sections)
            case Unclosed => LexError(UnclosedTag)
            case Tag(t) =>
              if SectionError(sections, t).Some? then LexError(SectionError(sections, t).value)
              else
                match TagsAfter(open, close, t)
                case None => LexError(InvalidTags)
                case Some((open', close')) =>
                  After(TextTokens(s[..n], pos) + [t], Lex(s[t.end - pos..], t.end, open', close', SectionsAfter(sections, t)))
  {
    hide MatchLength, ScanLength, RawTagAt, UntilLength, WholeTagAt, TextTokens, TagsAfter, SectionError, SectionsAfter, After;
  }

  lemma LexEnd(before: seq<Token>, pos: nat, open: string, close: string, sections: seq<Token>)
    ensures After(before, Lex("", pos, open, close, sections)) == Ended(before, pos, sections)
  {
    assert before + [] == before;
  }

  /** With a non-empty opening delimiter reading goes to the end of the template: the spans
      tile all of it. */
  lemma {:induction false} LexCovers(s: string, pos: nat, open: string, close: string, sections: seq<Token>)
    requires open != ""
    ensures Lex(s, pos, open, close, sections).Lexed? ==> Lex(s, pos, open, close, sections).end == pos + |s|
    decreases |s|
  {
    hide Lex, After, WholeTagAt, UntilLength, TextTokens, TagsAfter, SectionError, SectionsAfter;
    var result := Lex(s, pos, open, close, sections);
    AfterNothing(result);
    if s == "" {
      LexEnd([], pos, open, close, sections);
    } else {
      LexTurn([], s, pos, open, close, sections);
      var n := UntilLength(OpenTag(open), s);
      match WholeTagAt(s[n..], pos + n, open, close)
      case NoTag =>
        NoTagAtEnd(s, pos, open, close);
      case Unclosed =>
      case Tag(t) =>
        NewTagsNonEmpty(s[n..], pos + n, open, close);
        if SectionError(sections, t).None? && TagsAfter(open, close, t).Some? {
          var (open', close') := TagsAfter(open, close, t).value;
          var rest := s[n..][t.end - (pos + n)..];
          var lexed := Lex(rest, t.end, open', close', SectionsAfter(sections, t));
          AfterEnd([] + (TextTokens(s[..n], pos) + [t]), lexed);
          LexCovers(rest, t.end, open', close', SectionsAfter(sections, t));
        }
    }
  }

  lemma AfterEnd(tokens: seq<Token>, r: Lexed)
    ensures After(tokens, r).Lexed? <==> r.Lexed?
    ensures r.Lexed? ==> After(tokens, r).end == r.end
  {
  }

  lemma NoTagAtEnd(s: string, pos: nat, open: string, close: string)
    requires open != "" && WholeTagAt(s[UntilLength(OpenTag(open), s)..], pos + UntilLength(OpenTag(open), s), open, close).NoTag?
    ensures UntilLength(OpenTag(open), s) == |s|
  {
    hide RawTagAt;
    var n := UntilLength(OpenTag(open), s);
    assert n < |s| ==> MatchLength(OpenTag(open), s[n..]).Some?;
    OpenTagIsLong(open, s[n..]);
  }

  lemma OpenTagIsLong(open: string, s: string)
    ensures MatchLength(OpenTag(open), s).Some? ==> MatchLength(OpenTag(open), s).value >= |open|
  {
  }

  /** Delimiters that a tag sets are not empty at the front. */
  lemma NewTagsNonEmpty(s: string, pos: nat, open: string, close: string)
    requires open != ""
    ensures var r := WholeTagAt(s, pos, open, close);
            r.Tag? && TagsAfter(open, close, r.token).Some? ==> TagsAfter(open, close, r.token).value.0 != ""
  {
    hide RawTagAt, ScanLength, KindOf;
    if WholeTagAt(s, pos, open, close).Tag? {
      ValueStart(s[ScanLength(OpenTag(open), s)..], close);
    }
  }

  /** The whole parser: read, squash, nest. It fails exactly with the errors of reading. */
  method ParseTemplate(template: string, tags: seq<string>) returns (r: Outcome)
    ensures match LexTemplate(template, tags)
            case LexError(e) => r == Error(e)
            case Lexed(full, _) => r.Parsed? && Nest(Squash(StripLines(full))) == Some(r.tree)
  {
    hide LexTemplate;
    var error, tokens := ReadTokens(template, tags);
    if error.Some? {
      r := Error(error.value);
      return;
    }
    NestingSucceeds(template, tags);
    var squashed := SquashTokens(tokens);
    var tree := NestTokens(squashed);
    r := Parsed(tree.value);
  }

  // ----- what a parse gives -----

  lemma {:induction false} StrippedKeepsTags(full: seq<Token>, n: nat)
    requires n <= |full|
    ensures WithoutText(DropHoles(StripLines(full)[..n])) == WithoutText(full[..n])
    decreases n
  {
    hide Deleted;
    if n > 0 {
      var tokens := StripLines(full);
      StrippedKeepsTags(full, n - 1);
      assert tokens[..n][..n - 1] == tokens[..n - 1] && full[..n][..n - 1] == full[..n - 1];
      if tokens[n - 1].Some? {
        SnocContent(DropHoles(tokens[..n - 1]), full[n - 1]);
      } else {
        DeletedIsText(full, n - 1);
      }
    }
  }

  lemma DeletedIsText(full: seq<Token>, i: nat)
    requires Deleted(full, i)
    ensures full[i].kind == Text
  {
  }

  /** Stripping deletes no tag. */
  lemma StripKeepsTags(full: seq<Token>)
    ensures WithoutText(DropHoles(StripLines(full))) == WithoutText(full)
  {
    StrippedKeepsTags(full, |full|);
    assert StripLines(full)[..|full|] == StripLines(full) && full[..|full|] == full;
  }

  /** Nesting what was read never fails. */
  lemma NestingSucceeds(template: string, tags: seq<string>)
    ensures match LexTemplate(template, tags)
            case LexError(_) => true
            case Lexed(full, _) => Balanced(full) && Nest(Squash(StripLines(full))).Some?
  {
    hide LexTemplate, Squash, Nest, NestAll, StripLines;
    LexRead(template, tags);
    match LexTemplate(template, tags)
    case LexError(_) =>
    case Lexed(full, end) =>
      StripKeepsTags(full);
      SquashedBalance(full, StripLines(full));
      ReadIsBalanced(template, full, end);
  }

  lemma ReadIsBalanced(template: string, full: seq<Token>, end: nat)
    requires Read(template, full, end)
    ensures Balanced(full)
  {
    NestAgreesWithPairs(full);
    NestIffBalanced(full);
  }

  /** For every section of the tree of what was read (`LexRead`), the stored offsets delimit
      exactly the source between its opening tag and the closing tag that matches it, and
      that tag has the section's name. */
  lemma SectionSpan(template: string, full: seq<Token>, end: nat, section: (Token, nat))
    returns (i: nat, j: nat)
    requires Read(template, full, end)
    requires Nest(Squash(StripLines(full))).Some? && section in SectionsOf(Nest(Squash(StripLines(full))).value)
    ensures Matching(full, i, j) && full[i] == section.0 && full[j].start == section.1
    ensures full[j].value == full[i].value
    ensures section.0.end <= section.1 <= |template|
    ensures (forall t | t in full[i + 1..j] :: t.start <= t.end <= |template|)
            && template[section.0.end..section.1] == SourceOf(template, full[i + 1..j])
  {
    hide Nest, Squash, SectionsOf, PairAll, WithoutText, DropHoles, StripLines, Matching;
    StripKeepsTags(full);
    var pair := SquashedSectionPair(full, StripLines(full), section);
    PairMatches(full, pair);
    i, j := MatchingIndices(full, pair.0, pair.1);
    TilesCover(template, full, end, i + 1, j);
    TileBoundary(template, full, end, j);
  }

  lemma MatchingIndices(full: seq<Token>, o: Token, c: Token) returns (i: nat, j: nat)
    requires IsMatchingPair(full, o, c)
    ensures Matching(full, i, j) && i < j < |full| && full[i] == o && full[j] == c
  {
    i, j :| Matching(full, i, j) && full[i] == o && full[j] == c;
  }
}
