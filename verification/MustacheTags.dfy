/** Tags as they stand in a template (auth/frontend/mustache.js): which token the characters
    of a tag give, and what follows for whole templates.
 */
module MustacheTags {
  import opened Strings
  import opened MustacheTokens
  import opened MustacheScanner
  import opened MustacheParse

  /** What ends the value of a tag. */
  function StopText(mark: string, close: string): string {
    if mark == "=" then "=" else if mark == "{" then "}" + close else close
  }

  /** What stands behind the value: "}" goes with "{" and "=" with "=". */
  function ClosingText(mark: string, close: string): string {
    if mark == "=" then "=" + close else if mark == "{" then "}" + close else close
  }

  /** A tag's text: the mark that gives its type, or none, and a value without white space
      at its ends, which goes on to the first occurrence of what ends it. */
  ghost predicate IsTagText(mark: string, value: string, close: string) {
    && close != "" && !IsSpace(close[0])
    && mark in {"", "#", "^", "/", ">", "{", "&", "=", "!"}
    && (mark == "" ==> value != "" && value[0] !in {'#', '^', '/', '>', '{', '&', '=', '!'})
    && (value != "" ==> !IsSpace(value[0]) && !IsSpace(value[|value| - 1]))
    && NoneBefore(value + StopText(mark, close), StopText(mark, close), |value|)
  }

  function TagText(open: string, mark: string, value: string, close: string): string {
    open + mark + value + ClosingText(mark, close)
  }

  // ----- the scanner on such text -----

  lemma OpenScan(open: string, rest: string)
    requires rest == "" || !IsSpace(rest[0])
    ensures ScanLength(OpenTag(open), open + rest) == |open|
  {
    assert (open + rest)[|open|..] == rest;
  }

  lemma NoSpace(s: string)
    requires s == "" || !IsSpace(s[0])
    ensures LeadingSpace(s) == 0
  {
  }

  lemma MarkScan(mark: string, rest: string)
    requires mark in {"", "#", "^", "/", ">", "{", "&", "=", "!"}
    requires mark == "" ==> rest != "" && rest[0] !in {'#', '^', '/', '>', '{', '&', '=', '!'}
    ensures ScanLength(TagType, mark + rest) == |mark|
  {
    MarksAre();
    var s := mark + rest;
    if mark == "" {
      assert s == rest;
    } else {
      assert s[0] == mark[0];
    }
  }

  lemma MarksAre()
    ensures forall c :: c in TAG_TYPES <==> c in {'#', '^', '/', '>', '{', '&', '=', '!'}
  {
    assert TAG_TYPES == ['#', '^', '/', '>', '{', '&', '=', '!'];
  }

  /** A closing match stands behind white space. */
  lemma {:induction false} CloseMatchAt(d: string, s: string, n: nat) returns (j: nat)
    requires n <= |s| && CloseMatch(d, s, n).Some?
    ensures j <= n && d <= s[j..]
    decreases n
  {
    if d <= s[n..] {
      j := n;
    } else {
      j := CloseMatchAt(d, s, n - 1);
    }
  }

  lemma CloseScan(d: string, rest: string)
    requires d != "" && !IsSpace(d[0])
    ensures MatchLength(CloseTag(d), d + rest) == Some(|d|)
  {
    var s := d + rest;
    NoSpace(s);
    assert s[0..] == s && s[..|d|] == d;
  }

  lemma UntilIs(p: Pattern, s: string, n: nat)
    requires n <= |s| && MatchLength(p, s[n..]).Some? && forall i | 0 <= i < n :: MatchLength(p, s[i..]).None?
    ensures UntilLength(p, s) == n
  {
    hide MatchLength;
    var r := Search(p, s, 0);
    assert r.Some? && r.value <= n;
  }

  /** The value goes on to what ends it. */
  lemma ValueScan(value: string, stop: string, rest: string)
    requires stop != "" && !IsSpace(stop[0])
    requires value != "" ==> !IsSpace(value[|value| - 1])
    requires NoneBefore(value + stop, stop, |value|)
    ensures UntilLength(CloseTag(stop), value + stop + rest) == |value|
  {
    hide MatchLength;
    var s := value + stop + rest;
    assert s[|value|..] == stop + rest;
    CloseScan(stop, rest);
    forall i | 0 <= i < |value|
      ensures MatchLength(CloseTag(stop), s[i..]).None?
    {
      NoEarlyStop(value, stop, rest, i);
    }
    UntilIs(CloseTag(stop), s, |value|);
  }

  lemma NoEarlyStop(value: string, stop: string, rest: string, i: nat)
    requires stop != "" && !IsSpace(stop[0]) && i < |value| && !IsSpace(value[|value| - 1])
    requires NoneBefore(value + stop, stop, |value|)
    ensures MatchLength(CloseTag(stop), (value + stop + rest)[i..]).None?
  {
    var s := value + stop + rest;
    var n := LeadingSpace(s[i..]);
    var last := |value| - 1 - i;
    assert s[i..][last] == s[|value| - 1] == value[|value| - 1];
    assert n <= last;
    if CloseMatch(stop, s[i..], n).Some? {
      var j := CloseMatchAt(stop, s[i..], n);
      StopInValue(value, stop, rest, i + j, i, j);
    }
  }

  lemma StopInValue(value: string, stop: string, rest: string, k: nat, i: nat, j: nat)
    requires k == i + j < |value| && NoneBefore(value + stop, stop, |value|)
    ensures !(stop <= (value + stop + rest)[i..][j..])
  {
    var front := value + stop;
    var s := front + rest;
    assert s[i..][j..] == s[k..];
    assert !OccursAt(front, stop, k);
    assert s[k..k + |stop|] == front[k..k + |stop|];
    assert s[k..][..|stop|] == s[k..k + |stop|];
  }

  /** Between the value and the closing delimiter. */
  lemma SkipScan(mark: string, close: string, rest: string)
    requires close != "" && !IsSpace(close[0])
    ensures SkipLength(mark, ClosingText(mark, close) + rest, close) == |ClosingText(mark, close)| - |close|
  {
    hide MatchLength, UntilLength;
    var s := ClosingText(mark, close) + rest;
    CloseScan(close, rest);
    if mark == "=" || mark == "{" {
      var d := if mark == "=" then "=" else "}";
      assert s == d + (close + rest) && s[1..] == close + rest;
      CloseScan(d, close + rest);
      assert (close + rest)[0..] == close + rest;
      UntilIs(CloseTag(close), close + rest, 0);
    }
  }

  // ----- the token -----


  lemma RawTagText(mark: string, value: string, close: string, rest: string)
    requires IsTagText(mark, value, close)
    ensures var s := mark + value + ClosingText(mark, close) + rest;
            RawTagAt(s, close) == RawTag(mark, value, |mark| + |value| + |ClosingText(mark, close)|, true)
  {
    hide ScanLength, UntilLength, SkipLength, LeadingSpace, NoneBefore, MatchLength, RawBodyAt, RawTagAt, StopText, ClosingText;
    ClosingStarts(mark, close);
    var closing := ClosingText(mark, close);
    var body := value + closing + rest;
    var s := mark + value + closing + rest;
    assert s == mark + body;
    MarkScan(mark, body);
    assert s[..|mark|] == mark && s[|mark|..] == body;
    NoSpace(body);
    WhiteScan(body);
    assert body[0..] == body;
    BodyText(mark, value, close, rest);
    RawTagIs(s, close, |mark|, 0);
  }

  lemma RawTagIs(s: string, close: string, a: nat, b: nat)
    requires a == ScanLength(TagType, s) && b == ScanLength(White, s[a..])
    ensures var r := RawBodyAt(s[..a], s[a..][b..], close);
            RawTagAt(s, close) == RawTag(r.tagType, r.value, a + b + r.length, r.closed)
  {
    hide ScanLength, RawBodyAt;
  }

  lemma RawBodyIs(mark: string, body: string, close: string, c: nat, d: nat, end: nat)
    requires c == UntilLength(StopOf(mark, close), body)
    requires d == SkipLength(mark, body[c..], close)
    requires end == ScanLength(CloseTag(close), body[c..][d..])
    ensures RawBodyAt(mark, body, close) == RawTag(mark, body[..c], c + d + end, end != 0)
  {
    hide ScanLength, UntilLength, SkipLength, StopOf;
  }

  lemma WhiteScan(s: string)
    ensures ScanLength(White, s) == LeadingSpace(s)
  {
  }

  lemma BodyText(mark: string, value: string, close: string, rest: string)
    requires IsTagText(mark, value, close)
    ensures var closing := ClosingText(mark, close);
            RawBodyAt(mark, value + closing + rest, close) == RawTag(mark, value, |value| + |closing|, true)
  {
    hide ScanLength, UntilLength, SkipLength, LeadingSpace, NoneBefore, MatchLength, RawBodyAt, StopText, ClosingText, IsSpace, StopOf;
    ClosingStarts(mark, close);
    var closing, stop := ClosingText(mark, close), StopText(mark, close);
    var body, more := value + closing + rest, if mark == "=" then close + rest else rest;
    BodyParts(value, stop, closing, close, more, rest);
    ValueScan(value, stop, more);
    SkipScan(mark, close, rest);
    var d := |closing| - |close|;
    CloseScan(close, rest);
    ScanIs(CloseTag(close), close + rest, |close|);
    RawBodyIs(mark, body, close, |value|, d, |close|);
  }

  lemma BodyParts(value: string, stop: string, closing: string, close: string, more: string, rest: string)
    requires |closing| >= |close| && closing[|closing| - |close|..] == close
    requires closing + rest == stop + more
    ensures var body := value + closing + rest;
            && body == value + stop + more
            && body[..|value|] == value && body[|value|..] == closing + rest
            && body[|value|..][|closing| - |close|..] == close + rest
  {
    var body := value + closing + rest;
    assert body == value + (closing + rest);
    assert value + (stop + more) == value + stop + more;
    assert closing + rest == closing[..|closing| - |close|] + (close + rest);
  }

  lemma ScanIs(p: Pattern, s: string, n: nat)
    requires MatchLength(p, s) == Some(n)
    ensures ScanLength(p, s) == n
  {
  }

  lemma ClosingStarts(mark: string, close: string)
    requires close != "" && !IsSpace(close[0])
    ensures var stop, closing := StopText(mark, close), ClosingText(mark, close);
            && stop != "" && !IsSpace(stop[0]) && closing != "" && !IsSpace(closing[0]) && |closing| >= |close|
            && closing == (if mark == "=" then stop + close else stop)
            && closing[|closing| - |close|..] == close
            && (forall rest :: closing + rest == stop + if mark == "=" then close + rest else rest)
            && StopOf(mark, close) == CloseTag(stop)
  {
    assert forall rest: string :: "=" + close + rest == "=" + (close + rest);
  }

  /** Which token the text of a tag gives: the kind by its mark, its value, and the span
      from the opening to the closing delimiter. */
  lemma TokenOfTag(open: string, mark: string, value: string, close: string, rest: string, pos: nat)
    requires open != "" && IsTagText(mark, value, close)
    ensures var r := WholeTagAt(TagText(open, mark, value, close) + rest, pos, open, close);
            && r.Tag? && r.token.value == value
            && r.token.start == pos && r.token.end == pos + |TagText(open, mark, value, close)|
            && (mark == "" ==> r.token.kind == Name)
            && (mark == "#" ==> r.token.kind == Section)
            && (mark == "^" ==> r.token.kind == Inverted)
            && (mark == "/" ==> r.token.kind == Close)
            && (mark == ">" ==> r.token.kind == Partial)
            && (mark == "{" ==> r.token.kind == Unescaped)
            && (mark == "&" ==> r.token.kind == Unescaped)
            && (mark == "=" ==> r.token.kind == SetTags)
            && (mark == "!" ==> r.token.kind == Comment)
  {
    hide ScanLength, RawTagAt, LeadingSpace, NoneBefore, MatchLength;
    var closing := ClosingText(mark, close);
    var inner := mark + value + closing + rest;
    assert TagText(open, mark, value, close) + rest == open + inner;
    assert inner[0] == (if mark != "" then mark[0] else value[0]);
    OpenScan(open, inner);
    assert (open + inner)[|open|..] == inner;
    RawTagText(mark, value, close, rest);
  }

  // ----- new delimiters -----

  /** A value of two words sets them as the new delimiters. */
  lemma TwoWords(a: string, space: string, b: string)
    requires space != "" && forall c | c in space :: IsSpace(c)
    requires (forall c | c in a :: !IsSpace(c)) && b != "" && forall c | c in b :: !IsSpace(c)
    ensures SplitSpace(a + space + b) == [a, b]
  {
    var s := a + space + b;
    assert s[|a|] == space[0] && space[0] in space;
    UntilSpaceIs(s, |a|);
    assert s[|a|..] == space + b && s[..|a|] == a;
    LeadingSpaceIs(space, b);
    assert s[|a|..][|space|..] == b && s[|a| + |space|..] == b;
    UntilSpaceIs(b, |b|);
  }

  lemma {:induction false} UntilSpaceIs(s: string, n: nat)
    requires n <= |s| && (forall i | 0 <= i < n :: !IsSpace(s[i])) && (n < |s| ==> IsSpace(s[n]))
    ensures UntilSpace(s) == n
    decreases n
  {
    if n > 0 {
      UntilSpaceIs(s[1..], n - 1);
    }
  }

  lemma LeadingSpaceIs(space: string, b: string)
    requires (forall c | c in space :: IsSpace(c)) && b != "" && !IsSpace(b[0])
    ensures LeadingSpace(space + b) == |space|
  {
    var s, n := space + b, LeadingSpace(space + b);
    assert s[|space|] == b[0] && forall i | 0 <= i < |space| :: s[i] in space;
  }
}
