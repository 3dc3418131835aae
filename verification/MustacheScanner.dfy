/** The scanner of the template engine (auth/frontend/mustache.js), over the few patterns
    the parser uses: literal delimiters with white space around them.
 */
module MustacheScanner {
  import opened Strings

  /** JavaScript's \s. */
  predicate IsSpace(c: char) {
    || 9 <= c as int <= 13 || c as int in {0x20, 0xA0, 0x1680, 0x2028, 0x2029, 0x202F, 0x205F, 0x3000, 0xFEFF}
    || 0x2000 <= c as int <= 0x200A
  }

  /** The number of leading white-space characters. */
  function LeadingSpace(s: string): (n: nat)
    ensures n <= |s| && forall i | 0 <= i < n :: IsSpace(s[i])
    ensures n < |s| ==> !IsSpace(s[n])
  {
    if s == "" || !IsSpace(s[0]) then 0 else 1 + LeadingSpace(s[1..])
  }

  /** Opening tag and the space after it; closing tag and the space before it; a run of
      space; one tag-type character. */
  datatype Pattern = OpenTag(delimiter: string) | CloseTag(delimiter: string) | White | TagType

  const TAG_TYPES := "#^/>{&=!"

  /** How much of `s` the pattern matches from its beginning on. */
  function MatchLength(p: Pattern, s: string): (n: Option<nat>)
    ensures n.Some? ==> n.value <= |s|
  {
    match p
    case OpenTag(d) => if d <= s then Some(|d| + LeadingSpace(s[|d|..])) else None
    case CloseTag(d) => CloseMatch(d, s, LeadingSpace(s))
    case White => Some(LeadingSpace(s))
    case TagType => if s != "" && s[0] in TAG_TYPES then Some(1) else None
  }

  /** As much space as possible, at most `n`, and then the delimiter. */
  function CloseMatch(d: string, s: string, n: nat): (r: Option<nat>)
    requires n <= |s|
    ensures r.Some? ==> r.value <= |s|
  {
    if d <= s[n..] then Some(n + |d|)
    else if n == 0 then None
    else CloseMatch(d, s, n - 1)
  }

  /** The first place at which the pattern matches. */
  function Search(p: Pattern, s: string, from: nat): (r: Option<nat>)
    requires from <= |s|
    ensures r.Some? ==> from <= r.value <= |s| && MatchLength(p, s[r.value..]).Some?
    ensures forall i | from <= i < (if r.Some? then r.value else |s| + 1) :: MatchLength(p, s[i..]).None?
    decreases |s| - from
  {
    if MatchLength(p, s[from..]).Some? then Some(from)
    else if from == |s| then None
    else Search(p, s, from + 1)
  }

  /** How much scanning for the pattern consumes. */
  function ScanLength(p: Pattern, s: string): (n: nat)
    ensures n <= |s|
  {
    MatchLength(p, s).GetOr(0)
  }

  /** How much skipping to the pattern consumes. */
  function UntilLength(p: Pattern, s: string): (n: nat)
    ensures n <= |s|
    ensures forall i | 0 <= i < n :: MatchLength(p, s[i..]).None?
    ensures n < |s| ==> MatchLength(p, s[n..]).Some?
  {
    Search(p, s, 0).GetOr(|s|)
  }

  class Scanner {
    const text: string
    var tail: string
    var pos: nat

    ghost predicate Valid()
      reads this
    {
      pos <= |text| && tail == text[pos..]
    }

    constructor (text: string)
      ensures Valid() && this.text == text && pos == 0
    {
      this.text := text;
      tail := text;
      pos := 0;
    }

    predicate Eos()
      reads this
    {
      tail == ""
    }

    /** What `m` consumed: it is the next part of the text. */
    twostate predicate Consumed(m: string)
      reads this
    {
      && pos == old(pos) + |m| && pos <= |text|
      && m == text[old(pos)..pos]
      && |m| <= |old(tail)| && m == old(tail)[..|m|] && tail == old(tail)[|m|..]
    }

    /** Matches at the current position, or returns the empty string. */
    method Scan(p: Pattern) returns (m: string)
      requires Valid()
      modifies this
      ensures Valid() && Consumed(m)
      ensures |m| == ScanLength(p, old(tail))
    {
      var match0 := MatchLength(p, tail);
      if match0.Some? {
        m := tail[..match0.value];
        tail := tail[match0.value..];
        pos := pos + match0.value;
        assert tail == text[pos..];
      } else {
        m := "";
      }
    }

    /** Skips to the first match, or to the end. */
    method ScanUntil(p: Pattern) returns (m: string)
      requires Valid()
      modifies this
      ensures Valid() && Consumed(m)
      ensures |m| == UntilLength(p, old(tail))
    {
      hide MatchLength, Search;
      var at := Search(p, tail, 0);
      match at {
        case None =>
          m := tail;
          pos := pos + |tail|;
          tail := "";
        case Some(n) =>
          if n == 0 {
            m := "";
            assert tail == tail[0..];
          } else {
            m := tail[..n];
            tail := tail[n..];
            pos := pos + n;
            assert tail == text[pos..];
          }
      }
    }
  }
}
