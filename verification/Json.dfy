/** JSON documents, the text the writer produces for them, and a parser for that text
    following sections 4, 5 and 7 of RFC 8259 (strings, arrays and objects; no
    insignificant whitespace, numbers, literals or \u escapes, none of which the writer
    produces).
 */
module Json {
  import opened Strings

  datatype Json = Str(s: string) | Arr(elems: seq<Json>) | Obj(members: seq<Member>)
  datatype Member = Member(key: string, value: Json)

  // ----- printing -----

  function Escape(s: string): string {
    if s == "" then ""
    else (if s[0] == '"' || s[0] == '\\' then ['\\', s[0]] else [s[0]]) + Escape(s[1..])
  }

  function Quote(s: string): string {
    "\"" + Escape(s) + "\""
  }

  function Print(d: Json): string {
    match d
    case Str(s) => Quote(s)
    case Arr(elems) => "[" + PrintElems(elems) + "]"
    case Obj(members) => "{" + PrintMembers(members) + "}"
  }

  /** No separator: the writer puts commas between members of objects only. */
  function PrintElems(elems: seq<Json>): string {
    if elems == [] then "" else Print(elems[0]) + PrintElems(elems[1..])
  }

  function PrintMember(m: Member): string {
    Quote(m.key) + ":" + Print(m.value)
  }

  function PrintMembers(members: seq<Member>): string {
    if members == [] then ""
    else if |members| == 1 then PrintMember(members[0])
    else PrintMember(members[0]) + "," + PrintMembers(members[1..])
  }

  // ----- parsing -----

  function Unescape(c: char): Option<char> {
    match c
    case '"' => Some('"')
    case '\\' => Some('\\')
    case '/' => Some('/')
    case 'b' => Some(8 as char)
    case 'f' => Some(12 as char)
    case 'n' => Some('\n')
    case 'r' => Some('\r')
    case 't' => Some('\t')
    case _ => None
  }

  predicate IsControl(c: char) {
    c < ' '
  }

  /** The rest of a string after its opening quote. */
  function ParseChars(s: string): (r: Option<(string, string)>)
    ensures r.Some? ==> |r.value.1| < |s|
  {
    if s == "" || IsControl(s[0]) then None
    else if s[0] == '"' then Some(("", s[1..]))
    else if s[0] == '\\' then
      if |s| < 2 then None
      else
        match Unescape(s[1])
        case None => None
        case Some(c) => ConsChar(c, ParseChars(s[2..]))
    else ConsChar(s[0], ParseChars(s[1..]))
  }

  function ConsChar(c: char, r: Option<(string, string)>): Option<(string, string)> {
    if r.Some? then Some(([c] + r.value.0, r.value.1)) else None
  }

  function ParseString(s: string): (r: Option<(string, string)>)
    ensures r.Some? ==> |r.value.1| < |s|
  {
    if s == "" || s[0] != '"' then None else ParseChars(s[1..])
  }

  function ParseValue(s: string): (r: Option<(Json, string)>)
    ensures r.Some? ==> |r.value.1| < |s|
    decreases |s|, 0
  {
    if s == "" then None
    else if s[0] == '"' then
      match ParseString(s)
      case None => None
      case Some((str, rest)) => Some((Str(str), rest))
    else if s[0] == '[' then
      if StartsWith(s[1..], "]") then Some((Arr([]), s[2..]))
      else
        match ParseElems(s[1..])
        case None => None
        case Some((elems, rest)) => Some((Arr(elems), rest))
    else if s[0] == '{' then
      if StartsWith(s[1..], "}") then Some((Obj([]), s[2..]))
      else
        match ParseMembers(s[1..])
        case None => None
        case Some((members, rest)) => Some((Obj(members), rest))
    else None
  }

  /** One or more elements separated by commas, and the closing bracket. */
  function ParseElems(s: string): (r: Option<(seq<Json>, string)>)
    ensures r.Some? ==> |r.value.1| < |s|
    ensures r.Some? ==> r.value.0 != []
    decreases |s|, 1
  {
    match ParseValue(s)
    case None => None
    case Some((first, rest)) =>
      if rest == "" then None
      else if rest[0] == ']' then Some(([first], rest[1..]))
      else if rest[0] == ',' then
        match ParseElems(rest[1..])
        case None => None
        case Some((others, rest')) => Some(([first] + others, rest'))
      else None
  }

  function ParseMember(s: string): (r: Option<(Member, string)>)
    ensures r.Some? ==> |r.value.1| < |s|
    decreases |s|, 1
  {
    match ParseString(s)
    case None => None
    case Some((key, rest)) =>
      if rest == "" || rest[0] != ':' then None
      else
        match ParseValue(rest[1..])
        case None => None
        case Some((value, rest')) => Some((Member(key, value), rest'))
  }

  function ParseMembers(s: string): (r: Option<(seq<Member>, string)>)
    ensures r.Some? ==> |r.value.1| < |s|
    ensures r.Some? ==> r.value.0 != []
    decreases |s|, 2
  {
    match ParseMember(s)
    case None => None
    case Some((first, rest)) =>
      if rest == "" then None
      else if rest[0] == '}' then Some(([first], rest[1..]))
      else if rest[0] == ',' then
        match ParseMembers(rest[1..])
        case None => None
        case Some((others, rest')) => Some(([first] + others, rest'))
      else None
  }

  // ----- which documents survive -----

  predicate Clean(s: string) {
    forall i | 0 <= i < |s| :: !IsControl(s[i])
  }

  /** Strings without control characters, arrays of at most one element. */
  predicate Supported(d: Json) {
    match d
    case Str(s) => Clean(s)
    case Arr(elems) => |elems| <= 1 && forall e | e in elems :: Supported(e)
    case Obj(members) => forall m | m in members :: Clean(m.key) && Supported(m.value)
  }

  lemma {:induction false} CharsRoundTrip(s: string, rest: string)
    ensures ParseChars(Escape(s) + "\"" + rest) == if Clean(s) then Some((s, rest)) else None
  {
    var text := Escape(s) + "\"" + rest;
    if s == "" {
      assert text[1..] == rest;
    } else {
      var text' := Escape(s[1..]) + "\"" + rest;
      CharsRoundTrip(s[1..], rest);
      if s[0] == '"' || s[0] == '\\' {
        assert text == ['\\', s[0]] + text';
        assert text[2..] == text';
      } else {
        assert text == [s[0]] + text';
        assert text[1..] == text';
      }
      assert s == [s[0]] + s[1..];
      assert Clean(s) <==> !IsControl(s[0]) && Clean(s[1..]);
    }
  }

  /** The string escaper is right exactly on strings without control characters. */
  lemma QuoteRoundTrip(s: string, rest: string)
    ensures ParseString(Quote(s) + rest) == if Clean(s) then Some((s, rest)) else None
  {
    CharsRoundTrip(s, rest);
    assert (Quote(s) + rest)[1..] == Escape(s) + "\"" + rest;
  }

  /** `r` is the document `d` with `rest` left if `d` is supported, and never `d` if it
      is not. */
  ghost predicate Right<T>(r: Option<(T, string)>, d: T, rest: string, supported: bool) {
    if supported then r == Some((d, rest)) else r.Some? ==> r.value.0 != d
  }

  lemma PrintStarts(d: Json)
    ensures Print(d) != "" && Print(d)[0] == (match d case Str(_) => '"' case Arr(_) => '[' case Obj(_) => '{')
  {
  }

  /** What is printed parses back to the document exactly if the document is supported. */
  lemma {:induction false} PrintRoundTrip(d: Json, rest: string)
    ensures Right(ParseValue(Print(d) + rest), d, rest, Supported(d))
    decreases d, 0
  {
    hide Quote, ParseString, ParseElems, ParseMembers;
    var text := Print(d) + rest;
    match d
    case Str(s) =>
      StrRoundTrip(s, rest);
    case Arr(elems) =>
      assert text[1..] == PrintElems(elems) + ("]" + rest);
      if elems == [] {
        assert text[2..] == rest;
      } else {
        PrintStarts(elems[0]);
        assert text[1..][0] == Print(elems[0])[0];
        ElemsRoundTrip(d, elems, rest);
      }
    case Obj(members) =>
      assert text[1..] == PrintMembers(members) + ("}" + rest);
      if members == [] {
        assert text[2..] == rest;
      } else {
        MembersStart(members);
        assert text[1..][0] == '"';
        MembersRoundTrip(d, members, rest);
      }
  }

  lemma StrRoundTrip(s: string, rest: string)
    ensures Right(ParseValue(Print(Str(s)) + rest), Str(s), rest, Clean(s))
  {
    QuoteRoundTrip(s, rest);
  }

  lemma MembersStart(members: seq<Member>)
    requires members != []
    ensures PrintMembers(members) != "" && PrintMembers(members)[0] == '"'
  {
  }

  lemma {:induction false} ElemsRoundTrip(d: Json, elems: seq<Json>, rest: string)
    requires elems != [] && d == Arr(elems)
    ensures Right(ParseElems(PrintElems(elems) + ("]" + rest)), elems, rest, Supported(d))
    decreases d, 0, 0
  {
    var after := PrintElems(elems[1..]) + ("]" + rest);
    assert PrintElems(elems) + ("]" + rest) == Print(elems[0]) + after;
    PrintRoundTrip(elems[0], after);
    if |elems| == 1 {
      assert elems == [elems[0]];
      assert after == "]" + rest && after[1..] == rest;
    } else {
      PrintStarts(elems[1]);
      assert elems[1..][0] == elems[1];
      assert after[0] == Print(elems[1])[0];
    }
  }

  lemma {:induction false} MemberRoundTrip(d: Json, m: Member, rest: string)
    requires d.Obj? && m in d.members
    ensures Right(ParseMember(PrintMember(m) + rest), m, rest, Clean(m.key) && Supported(m.value))
    decreases d, 0, 0
  {
    var text := PrintMember(m) + rest;
    var after := ":" + (Print(m.value) + rest);
    assert text == Quote(m.key) + after;
    QuoteRoundTrip(m.key, after);
    assert after[1..] == Print(m.value) + rest;
    PrintRoundTrip(m.value, rest);
  }

  lemma {:induction false} MembersRoundTrip(d: Json, members: seq<Member>, rest: string)
    requires d.Obj? && members != [] && forall m | m in members :: m in d.members
    ensures Right(ParseMembers(PrintMembers(members) + ("}" + rest)), members, rest, Supported(Obj(members)))
    decreases d, 0, |members|
  {
    hide Print, Quote, PrintMember, ParseMember, ParseValue, ParseString;
    var m, others := members[0], members[1..];
    var after := if others == [] then "}" + rest else "," + (PrintMembers(others) + ("}" + rest));
    MembersText(members, rest, after);
    MemberRoundTrip(d, m, after);
    assert members == [m] + others;
    if others == [] {
      assert members == [m];
      assert after[1..] == rest;
    } else {
      MembersRoundTrip(d, others, rest);
      assert after[1..] == PrintMembers(others) + ("}" + rest);
    }
  }

  lemma MembersText(members: seq<Member>, rest: string, after: string)
    requires members != []
    requires after == if |members| == 1 then "}" + rest else "," + (PrintMembers(members[1..]) + ("}" + rest))
    ensures PrintMembers(members) + ("}" + rest) == PrintMember(members[0]) + after
  {
    hide PrintMember;
    if |members| > 1 {
      Regroup(PrintMember(members[0]), ",", PrintMembers(members[1..]), "}" + rest);
    }
  }

  lemma Regroup(a: string, b: string, c: string, d: string)
    ensures (a + b + c) + d == a + (b + (c + d))
  {
  }

  // ----- nesting -----

  function Depth(d: Json): nat {
    match d
    case Str(_) => 0
    case Arr(elems) => 1 + ElemsDepth(elems)
    case Obj(members) => 1 + MembersDepth(members)
  }

  function ElemsDepth(elems: seq<Json>): nat {
    if elems == [] then 0 else Max(Depth(elems[0]), ElemsDepth(elems[1..]))
  }

  function MembersDepth(members: seq<Member>): nat {
    if members == [] then 0 else Max(Depth(members[0].value), MembersDepth(members[1..]))
  }

  function Max(a: nat, b: nat): nat {
    if a < b then b else a
  }
}
