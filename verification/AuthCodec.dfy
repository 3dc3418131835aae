/** The byte format of a stored authorization (pack_authorization, read_string and
    unpack_authorization in src/common/auth.c).
 */
module AuthCodec {
  import opened Strings

  const UINT32_LIMIT := 0x1_0000_0000

  /** `write` is the flag byte as stored. */
  datatype Scope = Scope(name: string, write: char)

  datatype Authorization = Authorization(username: string, token: string, scopes: seq<Scope>)

  // ----- the format -----

  function LittleEndian(n: nat): (s: string)
    requires n < UINT32_LIMIT
    ensures |s| == 4
  {
    [(n % 256) as char, (n / 0x100 % 256) as char, (n / 0x1_0000 % 256) as char, (n / 0x100_0000) as char]
  }

  function FromLittleEndian(s: string): nat
    requires |s| == 4
  {
    s[0] as nat + 0x100 * s[1] as nat + 0x1_0000 * s[2] as nat + 0x100_0000 * s[3] as nat
  }

  lemma LittleEndianRoundTrip(n: nat)
    requires n < UINT32_LIMIT
    ensures FromLittleEndian(LittleEndian(n)) == n
  {
    var a := n / 0x100;
    var b := a / 0x100;
    assert n / 0x1_0000 == b && n / 0x100_0000 == b / 0x100;
  }

  function EncodeScope(s: Scope): string {
    s.name + [NUL] + [s.write]
  }

  function EncodeScopes(scopes: seq<Scope>): string {
    if scopes == [] then "" else EncodeScope(scopes[0]) + EncodeScopes(scopes[1..])
  }

  function Encode(a: Authorization): string
    requires |a.scopes| < UINT32_LIMIT
  {
    a.username + [NUL] + a.token + [NUL] + LittleEndian(|a.scopes|) + EncodeScopes(a.scopes)
  }

  function ScopesSize(scopes: seq<Scope>): nat {
    if scopes == [] then 0 else |scopes[0].name| + 2 + ScopesSize(scopes[1..])
  }

  function PackedSize(a: Authorization): nat {
    |a.username| + 1 + |a.token| + 1 + 4 + ScopesSize(a.scopes)
  }

  /** C strings, and a size that a 32-bit number can hold. */
  predicate Packable(a: Authorization) {
    && NulFree(a.username) && NulFree(a.token)
    && (forall s | s in a.scopes :: NulFree(s.name))
    && PackedSize(a) < UINT32_LIMIT
  }

  lemma {:induction false} ScopesSizeIs(scopes: seq<Scope>)
    ensures |EncodeScopes(scopes)| == ScopesSize(scopes)
    ensures |scopes| <= ScopesSize(scopes)
  {
    if scopes != [] { ScopesSizeIs(scopes[1..]); }
  }

  // ----- packing -----

  method Copy(dest: array<char>, offset: nat, src: string)
    requires offset + |src| <= dest.Length
    modifies dest
    ensures dest[..offset + |src|] == old(dest[..offset]) + src
  {
    for i := 0 to |src|
      invariant dest[..offset + i] == old(dest[..offset]) + src[..i]
    {
      dest[offset + i] := src[i];
    }
    assert src[..|src|] == src;
  }

  /** The size is computed first; writing ends exactly there. */
  method Pack(a: Authorization) returns (data: array<char>)
    requires Packable(a)
    ensures fresh(data) && data.Length == PackedSize(a)
    ensures |a.scopes| < UINT32_LIMIT && data[..] == Encode(a)
  {
    hide EncodeScopes, LittleEndian;
    ScopesSizeIs(a.scopes);
    var size := SizeOf(a);
    data := new char[size];
    var offset := PackHeader(data, a.username, a.token, LittleEndian(|a.scopes|));
    offset := PackScopes(data, offset, a.scopes);
    assert offset == size;
    assert data[..offset] == data[..];
  }

  method SizeOf(a: Authorization) returns (size: nat)
    ensures size == PackedSize(a)
  {
    size := |a.username| + 1 + |a.token| + 1;
    for i := 0 to |a.scopes|
      invariant size + ScopesSize(a.scopes[i..]) == |a.username| + 1 + |a.token| + 1 + ScopesSize(a.scopes)
    {
      assert a.scopes[i..][0] == a.scopes[i] && a.scopes[i..][1..] == a.scopes[i + 1..];
      size := size + |a.scopes[i].name| + 2;
    }
    size := size + 4;
  }

  method PackHeader(data: array<char>, username: string, token: string, count: string) returns (offset: nat)
    requires |username| + 1 + |token| + 1 + |count| <= data.Length
    modifies data
    ensures offset == |username| + 1 + |token| + 1 + |count|
    ensures data[..offset] == username + [NUL] + token + [NUL] + count
  {
    offset := 0;
    Copy(data, offset, username + [NUL]);
    offset := offset + |username| + 1;
    Copy(data, offset, token + [NUL]);
    offset := offset + |token| + 1;
    Copy(data, offset, count);
    offset := offset + |count|;
  }

  method PackScopes(data: array<char>, start: nat, scopes: seq<Scope>) returns (offset: nat)
    requires start + ScopesSize(scopes) <= data.Length
    modifies data
    ensures offset == start + ScopesSize(scopes)
    ensures data[..offset] == old(data[..start]) + EncodeScopes(scopes)
  {
    offset := start;
    assert scopes[0..] == scopes;
    for i := 0 to |scopes|
      invariant offset + ScopesSize(scopes[i..]) == start + ScopesSize(scopes)
      invariant start <= offset <= data.Length
      invariant data[..offset] + EncodeScopes(scopes[i..]) == old(data[..start]) + EncodeScopes(scopes)
    {
      hide EncodeScopes;
      ghost var done := data[..offset];
      var scope := scopes[i];
      EncodeFirst(scopes, i);
      Copy(data, offset, scope.name + [NUL]);
      offset := offset + |scope.name| + 1;
      Copy(data, offset, [scope.write]);
      offset := offset + 1;
      assert data[..offset] == done + EncodeScope(scope);
      Regroup(done, EncodeScope(scope), EncodeScopes(scopes[i + 1..]));
    }
  }

  lemma Regroup(a: string, b: string, c: string)
    ensures (a + b) + c == a + (b + c)
  {
  }

  lemma EncodeFirst(scopes: seq<Scope>, i: nat)
    requires i < |scopes|
    ensures EncodeScopes(scopes[i..]) == EncodeScope(scopes[i]) + EncodeScopes(scopes[i + 1..])
    ensures ScopesSize(scopes[i..]) == |scopes[i].name| + 2 + ScopesSize(scopes[i + 1..])
  {
    assert scopes[i..][0] == scopes[i] && scopes[i..][1..] == scopes[i + 1..];
  }

  // ----- unpacking -----

  /** The string that starts at `offset`, if it is terminated, and the offset after it. */
  function StringAt(data: string, offset: nat): (Option<string>, nat) {
    if offset > |data| then (None, offset)
    else
      var n := SpanUntil(data[offset..], NUL);
      if offset + n < |data| then (Some(data[offset..offset + n]), offset + n + 1) else (None, |data|)
  }

  method ReadString(data: string, offset: nat) returns (dest: Option<string>, offset': nat)
    ensures (dest, offset') == StringAt(data, offset)
  {
    offset' := offset;
    while offset' < |data|
      invariant offset <= offset'
      invariant offset <= |data| ==> offset' <= |data|
      invariant offset > |data| ==> offset' == offset
      invariant offset <= |data| ==> forall i | offset <= i < offset' :: data[i] != NUL
    {
      if data[offset'] == NUL {
        dest := Some(data[offset..offset']);
        SpanUntilIs(data[offset..], NUL, offset' - offset);
        offset' := offset' + 1;
        return;
      }
      offset' := offset' + 1;
    }
    dest := None;
    if offset <= |data| {
      SpanUntilIs(data[offset..], NUL, |data| - offset);
    }
  }

  /** Overrun stands for a read past the end of the data, undefined in C. */
  datatype Unpacked = Unpacked(auth: Authorization, end: nat) | NoUsername | NoToken | Overrun

  /** `n` scopes from `offset` on, and the offset after them; None is an overrun. */
  function ScopesAt(data: string, offset: nat, n: nat): Option<(seq<Scope>, nat)>
    decreases n
  {
    if n == 0 then Some(([], offset))
    else
      var (name, after) := StringAt(data, offset);
      if name.None? || after >= |data| then None
      else
        match ScopesAt(data, after + 1, n - 1)
        case None => None
        case Some((others, end)) => Some(([Scope(name.value, data[after])] + others, end))
  }

  function Decode(data: string): Unpacked {
    var (username, offset) := StringAt(data, 0);
    if username.None? then NoUsername
    else
      var (token, offset) := StringAt(data, offset);
      if token.None? then NoToken
      else if offset + 4 > |data| then Overrun
      else
        match ScopesAt(data, offset + 4, FromLittleEndian(data[offset..offset + 4]))
        case None => Overrun
        case Some((scopes, end)) => Unpacked.Unpacked(Authorization(username.value, token.value, scopes), end)
  }

  method Unpack(data: string) returns (r: Unpacked)
    ensures r == Decode(data)
  {
    hide StringAt, ScopesAt, FromLittleEndian;
    var username, offset := ReadString(data, 0);
    if username.None? {
      return NoUsername;
    }
    var token;
    token, offset := ReadString(data, offset);
    if token.None? {
      return NoToken;
    }
    if offset + 4 > |data| {
      return Overrun;
    }
    var scopes, end := ReadScopes(data, offset + 4, FromLittleEndian(data[offset..offset + 4]));
    match scopes {
      case None => r := Overrun;
      case Some(ss) => r := Unpacked.Unpacked(Authorization(username.value, token.value, ss), end);
    }
  }

  method ReadScopes(data: string, start: nat, count: nat) returns (r: Option<seq<Scope>>, end: nat)
    ensures match ScopesAt(data, start, count)
            case None => r == None
            case Some((scopes, after)) => r == Some(scopes) && end == after
  {
    hide StringAt;
    end := start;
    var scopes: seq<Scope> := [];
    PrependNothing(ScopesAt(data, start, count));
    for i := 0 to count
      invariant ScopesAt(data, start, count) == Prepend(scopes, ScopesAt(data, end, count - i))
    {
      var name, after := ReadString(data, end);
      if name.None? || after >= |data| {
        return None, end;
      }
      PrependMore(scopes, Scope(name.value, data[after]), ScopesAt(data, after + 1, count - i - 1));
      scopes := scopes + [Scope(name.value, data[after])];
      end := after + 1;
    }
    assert scopes + [] == scopes;
    r := Some(scopes);
  }

  ghost function Prepend(scopes: seq<Scope>, r: Option<(seq<Scope>, nat)>): Option<(seq<Scope>, nat)> {
    match r
    case None => None
    case Some((others, end)) => Some((scopes + others, end))
  }

  lemma PrependNothing(r: Option<(seq<Scope>, nat)>)
    ensures Prepend([], r) == r
  {
    if r.Some? {
      assert [] + r.value.0 == r.value.0;
    }
  }

  lemma PrependMore(scopes: seq<Scope>, s: Scope, r: Option<(seq<Scope>, nat)>)
    ensures Prepend(scopes, Prepend([s], r)) == Prepend(scopes + [s], r)
  {
    if r.Some? {
      assert scopes + ([s] + r.value.0) == scopes + [s] + r.value.0;
    }
  }

  // ----- the round trip -----

  lemma StringAtWritten(before: string, s: string, after: string)
    requires NulFree(s)
    ensures StringAt(before + s + [NUL] + after, |before|) == (Some(s), |before| + |s| + 1)
  {
    var data := before + s + [NUL] + after;
    assert data[|before|..] == s + [NUL] + after;
    SpanUntilIs(data[|before|..], NUL, |s|);
    assert data[|before|..|before| + |s|] == s;
  }

  lemma {:induction false} ScopesRoundTrip(before: string, scopes: seq<Scope>)
    requires forall s | s in scopes :: NulFree(s.name)
    ensures ScopesAt(before + EncodeScopes(scopes), |before|, |scopes|)
            == Some((scopes, |before| + |EncodeScopes(scopes)|))
    decreases |scopes|
  {
    hide StringAt, EncodeScope;
    if scopes != [] {
      var s, rest := scopes[0], EncodeScopes(scopes[1..]);
      assert s in scopes && scopes == [s] + scopes[1..];
      ScopeText(before, s, rest);
      StringAtWritten(before, s.name, [s.write] + rest);
      ScopesRoundTrip(before + EncodeScope(s), scopes[1..]);
    } else {
      assert before + EncodeScopes(scopes) == before;
    }
  }

  lemma ScopeText(before: string, s: Scope, rest: string)
    ensures before + (EncodeScope(s) + rest) == before + s.name + [NUL] + ([s.write] + rest)
    ensures before + (EncodeScope(s) + rest) == before + EncodeScope(s) + rest
    ensures |EncodeScope(s)| == |s.name| + 2
    ensures (before + (EncodeScope(s) + rest))[|before| + |s.name| + 1] == s.write
  {
  }

  /** Unpacking what was packed gives the authorization back, and reads all of it. */
  lemma RoundTrip(a: Authorization)
    requires Packable(a)
    ensures |a.scopes| < UINT32_LIMIT
    ensures Decode(Encode(a)) == Unpacked.Unpacked(a, PackedSize(a))
  {
    hide StringAt, ScopesAt, LittleEndian, FromLittleEndian, EncodeScopes;
    ScopesSizeIs(a.scopes);
    var count := LittleEndian(|a.scopes|);
    var data := Encode(a);
    HeaderAt(a.username, a.token, count, EncodeScopes(a.scopes), data);
    LittleEndianRoundTrip(|a.scopes|);
    var header := a.username + [NUL] + a.token + [NUL] + count;
    assert data == header + EncodeScopes(a.scopes);
    ScopesRoundTrip(header, a.scopes);
  }

  lemma HeaderAt(username: string, token: string, count: string, scopes: string, data: string)
    requires NulFree(username) && NulFree(token) && |count| == 4
    requires data == username + [NUL] + token + [NUL] + count + scopes
    ensures StringAt(data, 0) == (Some(username), |username| + 1)
    ensures StringAt(data, |username| + 1) == (Some(token), |username| + |token| + 2)
    ensures var at := |username| + |token| + 2; at + 4 <= |data| && data[at..at + 4] == count
  {
    hide StringAt;
    HeaderText(username, token, count, scopes);
    StringAtWritten("", username, token + [NUL] + count + scopes);
    StringAtWritten(username + [NUL], token, count + scopes);
  }

  lemma HeaderText(username: string, token: string, count: string, scopes: string)
    requires |count| == 4
    ensures var data := username + [NUL] + token + [NUL] + count + scopes;
            && data == "" + username + [NUL] + (token + [NUL] + count + scopes)
            && data == (username + [NUL]) + token + [NUL] + (count + scopes)
            && var at := |username| + |token| + 2; at + 4 <= |data| && data[at..at + 4] == count
  {
    var data := username + [NUL] + token + [NUL] + count + scopes;
    var front := username + [NUL] + token + [NUL];
    assert data == front + (count + scopes);
    assert data == (username + [NUL]) + ((token + [NUL]) + (count + scopes));
    assert (token + [NUL]) + (count + scopes) == token + [NUL] + count + scopes;
    assert "" + username == username;
    assert data[|front|..|front| + 4] == count;
  }

  /** Different authorizations have different encodings. */
  lemma EncodeInjective(a: Authorization, b: Authorization)
    requires Packable(a) && Packable(b)
    requires |a.scopes| < UINT32_LIMIT && |b.scopes| < UINT32_LIMIT
    requires Encode(a) == Encode(b)
    ensures a == b
  {
    hide Decode, Encode;
    RoundTrip(a);
    RoundTrip(b);
  }

  // ----- the bytes -----

  /** Where everything stands: the user name and the token, each with a NUL, the number of
      scopes with its lowest byte first, then the scopes. */
  lemma Layout(a: Authorization)
    requires |a.scopes| < UINT32_LIMIT
    ensures var data, u, k, n := Encode(a), |a.username|, |a.username| + 1 + |a.token|, |a.scopes|;
            && |data| >= k + 5
            && data[..u] == a.username && data[u] == '\0'
            && data[u + 1..k] == a.token && data[k] == '\0'
            && data[k + 1] as nat == n % 0x100 && data[k + 2] as nat == n / 0x100 % 0x100
            && data[k + 3] as nat == n / 0x1_0000 % 0x100 && data[k + 4] as nat == n / 0x100_0000
            && data[k + 5..] == EncodeScopes(a.scopes)
  {
    hide EncodeScopes, LittleEndian;
    var count, scopes := LittleEndian(|a.scopes|), EncodeScopes(a.scopes);
    var data := a.username + [NUL] + a.token + [NUL] + count + scopes;
    LayoutText(a.username, a.token, count, scopes);
    CountBytes(|a.scopes|);
  }

  lemma LayoutText(u: string, v: string, count: string, scopes: string)
    requires |count| == 4
    ensures var data, k := u + [NUL] + v + [NUL] + count + scopes, |u| + 1 + |v|;
            && |data| >= k + 5
            && data[..|u|] == u && data[|u|] == NUL && data[|u| + 1..k] == v && data[k] == NUL
            && data[k + 1] == count[0] && data[k + 2] == count[1] && data[k + 3] == count[2] && data[k + 4] == count[3]
            && data[k + 5..] == scopes
  {
  }

  lemma CountBytes(n: nat)
    requires n < UINT32_LIMIT
    ensures var s := LittleEndian(n);
            && s[0] as nat == n % 0x100 && s[1] as nat == n / 0x100 % 0x100
            && s[2] as nat == n / 0x1_0000 % 0x100 && s[3] as nat == n / 0x100_0000
  {
  }

  /** A scope stands behind those before it: its name, a NUL, and the flag. */
  lemma {:induction false} ScopeLayout(scopes: seq<Scope>, i: nat)
    requires i < |scopes|
    ensures var data, at, name := EncodeScopes(scopes), ScopesSize(scopes[..i]), scopes[i].name;
            && at + |name| + 2 <= |data|
            && data[at..at + |name|] == name && data[at + |name|] == '\0' && data[at + |name| + 1] == scopes[i].write
  {
    var first, others := EncodeScope(scopes[0]), EncodeScopes(scopes[1..]);
    assert EncodeScopes(scopes) == first + others;
    if i == 0 {
      assert scopes[..0] == [];
    } else {
      ScopeLayout(scopes[1..], i - 1);
      assert scopes[..i][0] == scopes[0] && scopes[..i][1..] == scopes[1..][..i - 1];
      var at, name := ScopesSize(scopes[1..][..i - 1]), scopes[i].name;
      assert (first + others)[|first| + at..|first| + at + |name|] == others[at..at + |name|];
    }
  }

  /** Which data has no user name, and which has one but no token. */
  lemma UnpackErrors(data: string)
    ensures Decode(data) == NoUsername <==> NulFree(data)
    ensures Decode(data) == NoToken <==> exists u: string, rest: string :: NulFree(u) && NulFree(rest) && data == u + ['\0'] + rest
  {
    var n := SpanUntil(data, NUL);
    assert data[0..] == data;
    if n < |data| {
      assert NUL in data by { assert data[n] in data; }
      var rest := data[n + 1..];
      var m := SpanUntil(rest, NUL);
      assert data == data[..n] + [NUL] + rest;
      assert m < |rest| ==> rest[m] in rest;
      if NulFree(rest) {
        assert NulFree(data[..n]);
      }
      forall u: string, other: string | NulFree(u) && NulFree(other) && data == u + ['\0'] + other
        ensures other == rest
      {
        SpanUntilIs(data, NUL, |u|);
      }
    } else {
      forall u: string, other: string
        ensures data != u + ['\0'] + other
      {
        assert (u + ['\0'] + other)[|u|] == NUL;
      }
    }
  }
}
