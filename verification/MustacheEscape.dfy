/** escapeHtml of the template engine (auth/frontend/mustache.js). */
module MustacheEscape {
  import opened Strings

  predicate Special(c: char) {
    c in {'&', '<', '>', '"', '\'', '/'}
  }

  function Entity(c: char): string
    requires Special(c)
  {
    match c
    case '&' => "&amp;"
    case '<' => "&lt;"
    case '>' => "&gt;"
    case '"' => "&quot;"
    case '\'' => "&#39;"
    case '/' => "&#x2F;"
  }

  function EscapeChar(c: char): string {
    if Special(c) then Entity(c) else [c]
  }

  function EscapeHtml(s: string): string {
    if s == "" then "" else EscapeChar(s[0]) + EscapeHtml(s[1..])
  }

  /** The special character whose entity `s` begins with. */
  function EntityAt(s: string): Option<char> {
    if StartsWith(s, "&amp;") then Some('&')
    else if StartsWith(s, "&lt;") then Some('<')
    else if StartsWith(s, "&gt;") then Some('>')
    else if StartsWith(s, "&quot;") then Some('"')
    else if StartsWith(s, "&#39;") then Some('\'')
    else if StartsWith(s, "&#x2F;") then Some('/')
    else None
  }

  lemma EntityAtIs(s: string)
    ensures EntityAt(s).Some? ==> Special(EntityAt(s).value) && StartsWith(s, Entity(EntityAt(s).value))
  {
  }

  /** Replaces entities in one scan from left to right. */
  function Unescape(s: string): string
    decreases |s|
  {
    if s == "" then ""
    else
      match EntityAt(s)
      case Some(c) => EntityAtIs(s); [c] + Unescape(s[|Entity(c)|..])
      case None => [s[0]] + Unescape(s[1..])
  }

  lemma EntityAtEntity(c: char, rest: string)
    requires Special(c)
    ensures EntityAt(Entity(c) + rest) == Some(c)
  {
    var s := Entity(c) + rest;
    assert s[1] == Entity(c)[1] && s[2] == Entity(c)[2] && s[3] == Entity(c)[3];
    assert s[..|Entity(c)|] == Entity(c);
    assert |s| >= 5 ==> s[..5][1] == s[1] && s[..5][2] == s[2];
    assert |s| >= 4 ==> s[..4][1] == s[1] && s[..4][2] == s[2];
    assert |s| >= 6 ==> s[..6][1] == s[1] && s[..6][2] == s[2];
  }

  /** Unescaping is a left inverse, so escaping loses nothing. */
  lemma {:induction false} UnescapeEscape(s: string)
    ensures Unescape(EscapeHtml(s)) == s
  {
    if s != "" {
      var c, rest := s[0], EscapeHtml(s[1..]);
      UnescapeEscape(s[1..]);
      if Special(c) {
        EntityAtEntity(c, rest);
        assert (Entity(c) + rest)[|Entity(c)|..] == rest;
      } else {
        PlainAt(c, rest);
        assert ([c] + rest)[1..] == rest;
      }
    }
  }

  lemma PlainAt(c: char, rest: string)
    requires c != '&'
    ensures EntityAt([c] + rest) == None
  {
    var s := [c] + rest;
    EntityAtIs(s);
    assert s[0] != '&';
  }

  lemma EscapeInjective(s: string, t: string)
    requires EscapeHtml(s) == EscapeHtml(t)
    ensures s == t
  {
    UnescapeEscape(s);
    UnescapeEscape(t);
  }

  /** No markup character survives, and every '&' in the output begins an entity. */
  lemma {:induction false} EscapedIsSafe(s: string, i: nat)
    requires i < |EscapeHtml(s)|
    ensures EscapeHtml(s)[i] !in {'<', '>', '"', '\'', '/'}
    ensures EscapeHtml(s)[i] == '&' ==> EntityAt(EscapeHtml(s)[i..]).Some?
  {
    var c, rest := s[0], EscapeHtml(s[1..]);
    var head := EscapeChar(c);
    if i < |head| {
      HeadIsSafe(c, i);
      if i == 0 && Special(c) {
        EntityAtEntity(c, rest);
        assert EscapeHtml(s)[0..] == head + rest;
      }
    } else {
      EscapedIsSafe(s[1..], i - |head|);
      assert EscapeHtml(s)[i..] == rest[i - |head|..];
    }
  }

  lemma HeadIsSafe(c: char, i: nat)
    requires i < |EscapeChar(c)|
    ensures EscapeChar(c)[i] !in {'<', '>', '"', '\'', '/'}
    ensures EscapeChar(c)[i] == '&' ==> i == 0 && Special(c)
  {
  }

  /** A string is left alone exactly if it has no special character. */
  lemma {:induction false} UnchangedIff(s: string)
    ensures |EscapeHtml(s)| >= |s|
    ensures EscapeHtml(s) == s <==> forall i | 0 <= i < |s| :: !Special(s[i])
  {
    if s != "" {
      var c, rest := s[0], EscapeHtml(s[1..]);
      UnchangedIff(s[1..]);
      assert s == [c] + s[1..];
      if Special(c) {
        assert |EscapeHtml(s)| > |s|;
      } else {
        assert ([c] + rest)[1..] == rest;
        assert forall i | 0 < i < |s| :: s[i] == s[1..][i - 1];
      }
    }
  }
}
