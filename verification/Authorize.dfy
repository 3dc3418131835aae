/** The authorization check of a request (src/handler/auth.c). */
module Authorize {
  import opened Strings
  import opened AuthCodec
  import opened AuthStore

  const BEARER := "Bearer "
  const PUBLIC := "/public/"

  /** What the check looks at: `path` is the part of the URL after the user name,
      `isFile` whether it does not end in '/', `isRead` whether the verb is GET or HEAD. */
  datatype Access = Access(username: string, path: string, isFile: bool, isRead: bool, header: Option<string>)

  // ----- what the check should say -----

  /** The scope of a whole storage, or of the part below one directory. */
  predicate Covers(name: string, path: string) {
    name == "" || StartsWith(path, "/" + name + "/")
  }

  predicate Allows(s: Scope, access: Access) {
    Covers(s.name, access.path) && (s.write != NUL || access.isRead)
  }

  function TokenOf(header: Option<string>): Option<string> {
    if header.Some? && StartsWith(header.value, BEARER) then Some(header.value[|BEARER|..]) else None
  }

  predicate IsPublicRead(access: Access) {
    StartsWith(access.path, PUBLIC) && access.isRead && access.isFile
  }

  /** The entry under the request's token, in a given answer to lookups. */
  predicate Permitted(entry: Option<Authorization>, access: Access) {
    || IsPublicRead(access)
    || (entry.Some? && exists s | s in entry.value.scopes :: Allows(s, access))
  }

  /** What a lookup for the request finds. */
  function EntryIn(db: Database, access: Access): Option<Authorization> {
    match TokenOf(access.header)
    case None => None
    case Some(token) => EntryUnder(db, access.username, token)
  }

  /** The surviving entry for the user and the token of the request. */
  ghost function EntryFor(h: seq<Event>, access: Access): Option<Authorization> {
    match TokenOf(access.header)
    case None => None
    case Some(token) => Surviving(h, access.username, token)
  }

  // ----- what the code does -----

  /** Byte `i` of a C string, its terminator included. */
  function CharAt(s: string, i: nat): char {
    if i < |s| then s[i] else NUL
  }

  /** strncmp(s, t, |t|) == 0 for C strings. */
  predicate SamePrefix(s: string, t: string) {
    |t| <= |s| && s[..|t|] == t
  }

  /** 0 if the scope covers the path and its mode suffices, -1 otherwise. */
  method MatchScope(scope: Scope, access: Access) returns (result: int)
    requires access.path != "" && access.path[0] == '/'
    ensures result == if Allows(scope, access) then 0 else -1
    ensures result == 0 <==>
            && (scope.name == "" || "/" + scope.name + "/" <= access.path)
            && (access.isRead || scope.write != NUL)
  {
    var filePath := access.path;
    var scopeLen := |scope.name|;
    CoversIs(scope.name, filePath);
    if scope.name == "" || (SamePrefix(filePath[1..], scope.name) && CharAt(filePath, 1 + scopeLen) == '/') {
      if scope.write != NUL || access.isRead {
        return 0;
      }
    }
    return -1;
  }

  lemma CoversIs(name: string, path: string)
    requires path != "" && path[0] == '/'
    ensures Covers(name, path) <==> name == "" || (SamePrefix(path[1..], name) && CharAt(path, 1 + |name|) == '/')
  {
    var want := "/" + name + "/";
    if want <= path {
      assert path[..|want|] == want;
      assert path[1..][..|name|] == want[1..][..|name|] == name;
      assert path[1 + |name|] == want[1 + |name|];
    }
    if SamePrefix(path[1..], name) && CharAt(path, 1 + |name|) == '/' {
      assert path[1..1 + |name|] == name;
      assert path[..|want|] == want;
    }
  }

  /** Looks the token up, tries its scopes in order, then the public exception. */
  method AuthorizeRequest(db: AuthDb, access: Access) returns (result: int)
    requires db.Valid() && access.path != "" && access.path[0] == '/'
    ensures result == if Permitted(EntryIn(db.db, access), access) then 0 else -1
    ensures result == 0 <==>
            || ("/public/" <= access.path && access.isRead && access.isFile)
            || (&& access.header.Some? && "Bearer " <= access.header.value
                && var entry := Latest(db.history, access.username + "|" + access.header.value[7..]);
                && entry.Some?
                && exists s :: && s in entry.value.scopes && (s.name == "" || "/" + s.name + "/" <= access.path)
                               && (access.isRead || s.write != NUL))
    ensures PipeFreeHistory(db.history) && PipeFree(access.username) ==>
              (result == 0 <==> Permitted(EntryFor(db.history, access), access))
  {
    PermittedIff(db.history, access);
    if access.header.Some? {
      if SamePrefix(access.header.value, BEARER) {
        var token := access.header.value[7..];
        var auth := db.LookupAuthorization(access.username, token);
        if auth.Some? {
          var matched := TryScopes(auth.value.scopes, access);
          if matched {
            return 0;
          }
        }
      }
    }
    if SamePrefix(access.path, PUBLIC) && access.isRead && access.isFile {
      return 0;
    }
    return -1;
  }

  method TryScopes(scopes: seq<Scope>, access: Access) returns (matched: bool)
    requires access.path != "" && access.path[0] == '/'
    ensures matched <==> exists s | s in scopes :: Allows(s, access)
    ensures matched <==> exists s :: && s in scopes && (s.name == "" || "/" + s.name + "/" <= access.path)
                                     && (access.isRead || s.write != NUL)
  {
    AllowsIff(scopes, access);
    for i := 0 to |scopes|
      invariant forall k | 0 <= k < i :: !Allows(scopes[k], access)
    {
      var result := MatchScope(scopes[i], access);
      if result == 0 {
        return true;
      }
    }
    return false;
  }

  // ----- what is granted, and what is not -----

  lemma AllowsIff(scopes: seq<Scope>, access: Access)
    ensures (exists s | s in scopes :: Allows(s, access)) <==>
            exists s :: && s in scopes && (s.name == "" || "/" + s.name + "/" <= access.path)
                        && (access.isRead || s.write != NUL)
  {
    forall s
      ensures Allows(s, access) <==> (s.name == "" || "/" + s.name + "/" <= access.path) && (access.isRead || s.write != NUL)
    {
    }
    if s :| s in scopes && Allows(s, access) {
      assert s in scopes && (s.name == "" || "/" + s.name + "/" <= access.path) && (access.isRead || s.write != NUL);
    }
    if s :| s in scopes && (s.name == "" || "/" + s.name + "/" <= access.path) && (access.isRead || s.write != NUL) {
      assert s in scopes && Allows(s, access);
    }
  }

  /** After any history a request is permitted if and only if it reads a file under /public/,
      or the latest entry under "user|token" has a scope that is empty or stands between
      slashes at the front of the path, and the request reads or the scope has the flag. */
  lemma PermittedIff(h: seq<Event>, access: Access)
    requires forall e | e in h :: Stored(e)
    ensures Permitted(EntryIn(DatabaseAfter(h), access), access) <==>
            || ("/public/" <= access.path && access.isRead && access.isFile)
            || (&& access.header.Some? && "Bearer " <= access.header.value
                && var entry := Latest(h, access.username + "|" + access.header.value[7..]);
                && entry.Some?
                && exists s :: && s in entry.value.scopes && (s.name == "" || "/" + s.name + "/" <= access.path)
                               && (access.isRead || s.write != NUL))
  {
    hide Decode, Allows;
    if TokenOf(access.header).Some? {
      var token := TokenOf(access.header).value;
      LookupIsLatest(h, access.username, token);
      assert KeyOf(access.username, token) == access.username + "|" + access.header.value[7..];
      if Latest(h, KeyOf(access.username, token)).Some? {
        AllowsIff(Latest(h, KeyOf(access.username, token)).value.scopes, access);
      }
    }
  }

  /** An authorization with one read-only scope, just added: it grants every read below the
      scope and no write. */
  lemma ReadOnlyScope(h: seq<Event>, a: Authorization, name: string, read: Access, write: Access)
    requires (forall e | e in h :: Stored(e)) && Packable(a) && a.scopes == [Scope(name, NUL)]
    requires read.username == a.username && read.header == Some("Bearer " + a.token) && read.isRead
    requires "/" + name + "/" <= read.path
    requires write == read.(isRead := false)
    ensures Permitted(EntryIn(DatabaseAfter(h + [Added(a)]), read), read)
    ensures !Permitted(EntryIn(DatabaseAfter(h + [Added(a)]), write), write)
  {
    hide Decode, DatabaseAfter, EntryIn, Permitted;
    var all := h + [Added(a)];
    var key := a.username + "|" + a.token;
    assert all[|all| - 1] == Added(a) && ("Bearer " + a.token)[7..] == a.token;
    assert Latest(all, key) == Some(a);
    PermittedIff(all, read);
    PermittedIff(all, write);
    assert Scope(name, NUL) in a.scopes;
  }

  /** Without a token a folder is refused, also under /public/, and a file there is read but
      not written. */
  lemma WithoutToken(h: seq<Event>, access: Access)
    requires forall e | e in h :: Stored(e)
    requires access.header.None?
    ensures Permitted(EntryIn(DatabaseAfter(h), access), access) <==>
            "/public/" <= access.path && access.isRead && access.isFile
  {
    hide Decode, DatabaseAfter;
    PermittedIff(h, access);
  }

  // ----- consequences over histories -----

  /** For users without '|' the lookup finds the surviving entry, so permission is exactly
      that of the history. */
  lemma EntryIsSurviving(h: seq<Event>, access: Access)
    requires forall e | e in h :: Stored(e)
    requires PipeFreeHistory(h) && PipeFree(access.username)
    ensures EntryIn(DatabaseAfter(h), access) == EntryFor(h, access)
  {
    hide Decode, KeyOf;
    if TokenOf(access.header).Some? {
      LookupIsSurviving(h, access.username, TokenOf(access.header).value);
    }
  }

  /** A request that is not a read of a public file is permitted only by an authorization
      that was added under its key, is the latest there, and covers the path; a write needs
      the write flag. If the user names have no '|' it was added for this user and token. */
  lemma PermittedBy(h: seq<Event>, access: Access)
    requires forall e | e in h :: Stored(e)
    requires Permitted(EntryIn(DatabaseAfter(h), access), access) && !IsPublicRead(access)
    ensures TokenOf(access.header).Some?
    ensures var key := KeyOf(access.username, TokenOf(access.header).value);
            exists a, s ::
              && Added(a) in h && KeyOf(a.username, a.token) == key && Latest(h, key) == Some(a)
              && (PipeFree(a.username) && PipeFree(access.username) ==>
                    a.username == access.username && a.token == TokenOf(access.header).value)
              && s in a.scopes && Covers(s.name, access.path) && (!access.isRead ==> s.write != NUL)
  {
    hide Decode, KeyOf;
    var token := TokenOf(access.header).value;
    LookupIsLatest(h, access.username, token);
    var a := EntryIn(DatabaseAfter(h), access).value;
    if PipeFree(a.username) && PipeFree(access.username) {
      KeyInjective(a.username, a.token, access.username, token);
    }
    var s :| s in a.scopes && Allows(s, access);
  }

  /** After a token is removed, and until something is added under its key again, it permits
      nothing but reads of public files, whatever happens to other entries. */
  lemma RemovedPermitsNothing(h: seq<Event>, later: seq<Event>, access: Access)
    requires TokenOf(access.header).Some?
    requires forall e | e in later :: KeyOf(e.User(), e.Token()) != KeyOf(access.username, TokenOf(access.header).value)
    requires forall e | e in h + later :: Stored(e)
    ensures var removed := h + [Removed(access.username, TokenOf(access.header).value)] + later;
            && (forall e | e in removed :: Stored(e))
            && (Permitted(EntryIn(DatabaseAfter(removed), access), access) <==> IsPublicRead(access))
  {
    hide Decode, KeyOf;
    var token := TokenOf(access.header).value;
    var removed := h + [Removed(access.username, token)] + later;
    assert forall e | e in removed :: e in h + later || e == Removed(access.username, token);
    RemovedIsNotFound(h, Removed(access.username, token), later, KeyOf(access.username, token));
    LookupIsLatest(removed, access.username, token);
  }

  lemma {:induction false} RemovedIsNotFound(h: seq<Event>, removal: Event, later: seq<Event>, key: string)
    requires removal.Removed? && KeyOf(removal.username, removal.token) == key
    requires forall e | e in later :: KeyOf(e.User(), e.Token()) != key
    ensures Latest(h + [removal] + later, key) == None
    decreases |later|
  {
    hide KeyOf;
    var all := h + [removal] + later;
    if later == [] {
      assert all[|all| - 1] == removal;
    } else {
      var n := |later| - 1;
      assert all[..|all| - 1] == h + [removal] + later[..n];
      assert later[n] in later && all[|all| - 1] == later[n];
      RemovedIsNotFound(h, removal, later[..n], key);
    }
  }
}
