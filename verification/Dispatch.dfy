/** The dispatcher (src/handler/dispatch.c): every storage request passes the user check
    and the authorization check before it reaches a handler. The authorization check reads
    the path as it was sent, the handler uses it rewritten.
 */
module Dispatch {
  import opened Strings
  import opened Users
  import opened FileTree
  import opened Merkle
  import opened Attributes
  import opened Storage
  import opened Runs
  import opened PathRewriting
  import opened AuthCodec
  import opened AuthStore
  import opened Authorize
  import opened DiskPaths
  import opened RequestPaths

  datatype HttpMethod = StorageVerb(verb: Verb) | OPTIONS | OtherMethod

  /** A request to a user's storage; `path` is the part of the URL after the user name. */
  datatype Incoming = Incoming(username: string, httpMethod: HttpMethod, authorization: Option<string>, path: string,
                               ifMatch: Option<string>, ifNoneMatch: Option<string>, contentType: Option<string>,
                               body: string)

  function AccessOf(q: Incoming): Access {
    Access(q.username, q.path, !EndsInSlash(q.path), q.httpMethod in {StorageVerb(GET), StorageVerb(HEAD)}, q.authorization)
  }

  /** What the storage handler is asked for. */
  function RequestOf(q: Incoming): DiskRequest
    requires q.httpMethod.StorageVerb?
  {
    DiskRequest(q.httpMethod.verb, DiskSpot(q.path), q.ifMatch, q.ifNoneMatch, q.contentType, q.body)
  }

  /** 0 if the user may have storage, else the status to answer. */
  function UserStatus(entry: Lookup): int {
    var uid := UserGetUid(entry);
    if uid == UID_NOT_FOUND then 404
    else if uid == UID_ERROR then 500
    else if !UidAllowed(uid) then 404
    else 0
  }

  /** The request gets past both checks to a storage handler; `auth` is what is stored for
      its user and token. */
  predicate Reaches(entry: Lookup, auth: Option<Authorization>, q: Incoming) {
    UserStatus(entry) == 0 && q.httpMethod.StorageVerb? && Permitted(auth, AccessOf(q))
  }

  /** What the storage handler does with the request is in the model: its disk path stays in
      the storage root, unless the handler does not look at it; and a folder to be listed
      has kept its slash. */
  predicate InModel(q: Incoming)
    requires q.httpMethod.StorageVerb?
  {
    var folder := EndsInSlash(q.path);
    match q.httpMethod.verb
    case GET => StaysInRoot(q.path) && (folder ==> EndsInSlash(Rewritten(q.path)))
    case HEAD => StaysInRoot(q.path)
    case _ => folder || StaysInRoot(q.path)
  }

  /** The answer to a request, given what is stored for its token, and the user's tree. */
  ghost function Answer(h: Hashing, s: Settings, entry: Lookup, auth: Option<Authorization>, t: Tree, q: Incoming): Effect
    requires Proper(h)
    requires Reaches(entry, auth, q) ==> InModel(q)
  {
    if UserStatus(entry) != 0 then Refused(t, UserStatus(entry))
    else if q.httpMethod == OPTIONS then Refused(t, 204)
    else if !Permitted(auth, AccessOf(q)) then Refused(t, 401)
    else if q.httpMethod == OtherMethod then Refused(t, 405)
    else ServeAt(h, s, t, RequestOf(q))
  }

  /** For a path that leads to a place of the tree, the handler's answer is that of the run
      on trees. */
  lemma ResolvedAnswer(h: Hashing, s: Settings, entry: Lookup, auth: Option<Authorization>, t: Tree, q: Incoming)
    requires Proper(h) && WellFormed(t) && Reaches(entry, auth, q) && Resolve(q.path).Some?
    ensures InModel(q)
    ensures Answer(h, s, entry, auth, t, q) == Serve(h, s, t, RequestOf(q).At(Resolve(q.path).value))
  {
    hide ServeAt, Serve, Tokens, Rewritten, Resolve, Permitted, NeverClimbs, KeepsSlash, WellFormed;
    ResolvedSpot(q.path);
    PlainAgrees(h, s, t, RequestOf(q), Resolve(q.path).value);
  }

  /** The dispatcher gives that answer, whatever has been stored before. */
  method DispatchStorage(db: AuthDb, disk: Disk, s: Settings, entry: Lookup, q: Incoming) returns (resp: Response)
    requires db.Valid() && disk.Valid() && q.path != "" && q.path[0] == '/'
    requires q.contentType.Some? ==> HasMime(q.contentType.value)
    requires Reaches(entry, EntryIn(db.db, AccessOf(q)), q) ==> InModel(q)
    modifies disk
    ensures disk.Valid()
    ensures Gives(disk, resp, Answer(disk.hashing, s, entry, EntryIn(db.db, AccessOf(q)), old(disk.tree), q))
    ensures PipeFreeHistory(db.history) && PipeFree(q.username) ==>
              EntryIn(db.db, AccessOf(q)) == EntryFor(db.history, AccessOf(q))
    ensures UserStatus(entry) == 0 && q.httpMethod != OPTIONS && !Permitted(EntryIn(db.db, AccessOf(q)), AccessOf(q)) ==>
              resp == Response(401, None, None, "") && disk.tree == old(disk.tree)
    ensures UserStatus(entry) == 0 && q.httpMethod == OPTIONS ==>
              resp == Response(204, None, None, "") && disk.tree == old(disk.tree)
    ensures UserStatus(entry) == 0 && q.httpMethod == OtherMethod && Permitted(EntryIn(db.db, AccessOf(q)), AccessOf(q)) ==>
              resp == Response(405, None, None, "") && disk.tree == old(disk.tree)
    ensures UserStatus(entry) != 0 ==>
              resp == Response(UserStatus(entry), None, None, "") && disk.tree == old(disk.tree)
  {
    hide ServeAt, Permitted, Tokens, Rewritten, NeverClimbs, KeepsSlash;
    if PipeFreeHistory(db.history) && PipeFree(q.username) {
      EntryIsSurviving(db.history, AccessOf(q));
    }
    var status := VerifyUser(entry);
    if status != 0 {
      return Bare(status);
    }
    if q.httpMethod != OPTIONS {
      var authResult := AuthorizeRequest(db, AccessOf(q));
      if authResult != 0 {
        return Bare(401);
      }
    }
    match q.httpMethod {
      case OPTIONS => resp := Bare(204);
      case OtherMethod => resp := Bare(405);
      case StorageVerb(_) => resp := HandleOnDisk(disk, s, RequestOf(q));
    }
  }

  method VerifyUser(entry: Lookup) returns (status: int)
    ensures status == UserStatus(entry)
  {
    var uid := UserGetUid(entry);
    if uid == UID_NOT_FOUND {
      status := 404;
    } else if uid == UID_ERROR {
      status := 500;
    } else if !UidAllowed(uid) {
      status := 404;
    } else {
      status := 0;
    }
  }

  /** Which users get past the check: existing ones with an allowed number that is not one
      of the two reserved for failures. */
  lemma UserPasses(entry: Lookup)
    ensures UserStatus(entry) == 0
            <==> entry.Found? && entry.uid >= 1000 && entry.uid < 0xFFFF_FFFE
    ensures UserStatus(entry) == 500 <==> entry.Failed? || entry == Found(0xFFFF_FFFE)
    ensures UserStatus(entry) in {0, 404, 500}
  {
  }

  // ----- what authorizations confine -----

  /** Every write scope that a lookup for the user can ever find is one of the directories. */
  ghost predicate WritesOnlyTo(events: seq<Event>, username: string, scopes: set<Path>) {
    forall a, s | Added(a) in events && FoundUnder(a, username) && s in a.scopes && s.write != NUL ::
      IsScopeOf(s.name, scopes)
  }

  ghost predicate IsScopeOf(name: string, scopes: set<Path>) {
    exists scope :: scope in scopes && name == ScopeName(scope)
  }

  /** The key of the authorization is a key of the user. */
  predicate FoundUnder(a: Authorization, username: string) {
    StartsWith(KeyOf(a.username, a.token), username + "|")
  }

  /** For user names without '|' those are the user's own authorizations. */
  lemma FoundUnderIff(a: Authorization, username: string)
    requires PipeFree(a.username) && PipeFree(username)
    ensures FoundUnder(a, username) <==> a.username == username
  {
    var key, start := KeyOf(a.username, a.token), username + "|";
    if start <= key {
      assert key[..|start|] == start;
      KeyInjective(a.username, a.token, username, key[|start|..]);
    }
    assert a.username == username ==> key == start + a.token;
  }

  lemma KeyStarts(username: string, token: string)
    ensures username + "|" <= KeyOf(username, token)
  {
    assert KeyOf(username, token) == username + "|" + token;
  }

  /** The request reaches a handler that may write. */
  predicate MayWrite(entry: Lookup, auth: Option<Authorization>, q: Incoming) {
    Reaches(entry, auth, q) && q.httpMethod.verb in {PUT, DELETE} && !EndsInSlash(q.path)
  }

  /** The tree after a request. Requests that cannot write are not followed any further. */
  ghost function NextTree(h: Hashing, s: Settings, entry: Lookup, auth: Option<Authorization>, t: Tree, q: Incoming): Tree
    requires Proper(h)
    requires MayWrite(entry, auth, q) ==> StaysInRoot(q.path)
  {
    if MayWrite(entry, auth, q) then ServeAt(h, s, t, RequestOf(q)).tree else t
  }

  /** It is the tree of the answer, wherever the answer is in the model. */
  lemma NextTreeIs(h: Hashing, s: Settings, entry: Lookup, auth: Option<Authorization>, t: Tree, q: Incoming)
    requires Proper(h) && WellFormed(t)
    requires Reaches(entry, auth, q) ==> InModel(q)
    ensures NextTree(h, s, entry, auth, t, q) == Answer(h, s, entry, auth, t, q).tree
  {
    hide ServeAt, Permitted, Tokens, Rewritten, NeverClimbs, KeepsSlash, WellFormed, SameAt, Visits;
    if Reaches(entry, auth, q) && !MayWrite(entry, auth, q) {
      var t' := ServeAt(h, s, t, RequestOf(q)).tree;
      forall n
        ensures SameAt(t, t', n)
      {
        ServeAtChanges(h, s, t, RequestOf(q), n);
      }
      SameEverywhere(t, t');
    }
  }

  lemma SameEverywhere(t: Tree, t': Tree)
    requires forall n :: SameAt(t, t', n)
    ensures t == t'
  {
    assert forall n :: SameAt(t, t', n) ==> (n in t <==> n in t');
  }

  /** A request that changes the tree is a PUT or DELETE of a document, carries a token
      under which an authorization with a write scope is stored that covers the path as it
      was sent, and changes only what its disk path leads through or to. */
  lemma ChangeIsAuthorized(h: Hashing, s: Settings, entry: Lookup, events: seq<Event>, t: Tree, q: Incoming, n: Path)
    requires Proper(h) && WellFormed(t) && forall e | e in events :: Stored(e)
    requires MayWrite(entry, EntryIn(DatabaseAfter(events), AccessOf(q)), q) ==> StaysInRoot(q.path)
    ensures var auth := EntryIn(DatabaseAfter(events), AccessOf(q)); var t' := NextTree(h, s, entry, auth, t, q);
            && WellFormed(t')
            && (!SameAt(t, t', n) ==> Visits([], Tokens(Rewritten(q.path)), n) && MayWrite(entry, auth, q))
            && (MayWrite(entry, auth, q) ==>
                  TokenOf(q.authorization).Some? && WriteIsCovered(events, q, TokenOf(q.authorization).value))
  {
    hide ServeAt, WellFormed, Decode, KeyOf, Tokens, Rewritten, NeverClimbs, KeepsSlash, Permitted, SameAt, Visits;
    var auth := EntryIn(DatabaseAfter(events), AccessOf(q));
    if MayWrite(entry, auth, q) {
      ServeAtChanges(h, s, t, RequestOf(q), n);
      WriteNeedsScope(events, q);
    }
    SameItself(t, n);
  }

  lemma SameItself(t: Tree, n: Path)
    ensures SameAt(t, t, n)
  {
  }

  /** A stored authorization with a write scope covers the path as it was sent. */
  ghost predicate WriteIsCovered(events: seq<Event>, q: Incoming, token: string) {
    exists a, sc ::
      && Added(a) in events && FoundUnder(a, q.username) && Latest(events, KeyOf(q.username, token)) == Some(a)
      && sc in a.scopes && sc.write != NUL && Covers(sc.name, q.path)
  }

  lemma WriteNeedsScope(events: seq<Event>, q: Incoming)
    requires forall e | e in events :: Stored(e)
    requires Permitted(EntryIn(DatabaseAfter(events), AccessOf(q)), AccessOf(q))
    requires q.httpMethod in {StorageVerb(PUT), StorageVerb(DELETE)}
    ensures TokenOf(q.authorization).Some? && WriteIsCovered(events, q, TokenOf(q.authorization).value)
  {
    hide Decode, KeyOf, Covers;
    PermittedBy(events, AccessOf(q));
    var token := TokenOf(q.authorization).value;
    KeyStarts(q.username, token);
    var a, sc :| && Added(a) in events && KeyOf(a.username, a.token) == KeyOf(q.username, token)
                 && Latest(events, KeyOf(q.username, token)) == Some(a)
                 && sc in a.scopes && Covers(sc.name, q.path) && (!AccessOf(q).isRead ==> sc.write != NUL);
    assert FoundUnder(a, q.username);
  }

  /** What the scopes allow the path to do does not reach `n`. */
  ghost predicate Spares(scopes: set<Path>, n: Path, path: string) {
    (exists scope :: scope in scopes && Covers(ScopeName(scope), path)) ==> !Visits([], Tokens(Rewritten(path)), n)
  }

  /** A user with these write scopes only changes nothing but what the disk paths of
      covered requests lead through or to. */
  lemma StepSpares(h: Hashing, s: Settings, entry: Lookup, events: seq<Event>, t: Tree, q: Incoming, scopes: set<Path>, n: Path)
    requires Proper(h) && WellFormed(t) && forall e | e in events :: Stored(e)
    requires WritesOnlyTo(events, q.username, scopes)
    requires MayWrite(entry, EntryIn(DatabaseAfter(events), AccessOf(q)), q) ==> StaysInRoot(q.path)
    requires Spares(scopes, n, q.path)
    ensures SameAt(t, NextTree(h, s, entry, EntryIn(DatabaseAfter(events), AccessOf(q)), t, q), n)
  {
    hide NextTree, WellFormed, Tokens, Rewritten, Covers, ScopeName, EntryIn, MayWrite, StaysInRoot, Visits, FoundUnder, KeyOf, SameAt;
    ChangeIsAuthorized(h, s, entry, events, t, q, n);
    if MayWrite(entry, EntryIn(DatabaseAfter(events), AccessOf(q)), q) {
      CoveredByOne(events, q, scopes);
    }
  }

  lemma CoveredByOne(events: seq<Event>, q: Incoming, scopes: set<Path>)
    requires WritesOnlyTo(events, q.username, scopes)
    requires TokenOf(q.authorization).Some? && WriteIsCovered(events, q, TokenOf(q.authorization).value)
    ensures exists scope :: scope in scopes && Covers(ScopeName(scope), q.path)
  {
    hide Covers, ScopeName, FoundUnder, KeyOf;
    var token := TokenOf(q.authorization).value;
    var a, sc :| && Added(a) in events && FoundUnder(a, q.username) && Latest(events, KeyOf(q.username, token)) == Some(a)
                 && sc in a.scopes && sc.write != NUL && Covers(sc.name, q.path);
    assert IsScopeOf(sc.name, scopes);
  }

  // ----- guards -----

  /** Directories that scopes can name. */
  ghost predicate AreScopes(scopes: set<Path>) {
    forall scope | scope in scopes :: scope != [] && forall m | m in scope :: IsScopeName(m)
  }

  /** `n` is neither on the way to a directory of `scopes` nor below one. */
  ghost predicate Outside(scopes: set<Path>, n: Path) {
    forall scope | scope in scopes :: !(n <= scope) && !(scope <= n)
  }

  /** Nor in an entry beside one whose name begins with its name. */
  ghost predicate FarFrom(scopes: set<Path>, n: Path)
    requires AreScopes(scopes)
  {
    forall scope | scope in scopes :: !(n <= scope) && !Near(scope, n)
  }

  /** Every scope that covers the path, it stays below. */
  ghost predicate Guarded(scopes: set<Path>, path: string) {
    forall scope | scope in scopes && Covers(ScopeName(scope), path) :: StaysBelow(scope, path)
  }

  ghost predicate NearGuarded(scopes: set<Path>, path: string) {
    forall scope | scope in scopes && Covers(ScopeName(scope), path) :: StaysNear(scope, path)
  }

  lemma GuardedSpares(scopes: set<Path>, n: Path, path: string)
    requires AreScopes(scopes)
    ensures Guarded(scopes, path) && Outside(scopes, n) ==> Spares(scopes, n, path)
    ensures NearGuarded(scopes, path) && FarFrom(scopes, n) ==> Spares(scopes, n, path)
  {
    hide Tokens, Rewritten, Covers, ScopeName, StaysBelow, StaysNear, Visits, Near;
    if (exists scope :: scope in scopes && Covers(ScopeName(scope), path)) && Visits([], Tokens(Rewritten(path)), n) {
      var scope :| scope in scopes && Covers(ScopeName(scope), path);
      CoveredVisits(scope, path, n);
    }
  }

  /** Under a guard, requests that may write stay in the storage root. */
  lemma GuardedInRoot(entry: Lookup, events: seq<Event>, q: Incoming, scopes: set<Path>)
    requires forall e | e in events :: Stored(e)
    requires WritesOnlyTo(events, q.username, scopes) && AreScopes(scopes)
    requires Guarded(scopes, q.path) || NearGuarded(scopes, q.path)
    ensures MayWrite(entry, EntryIn(DatabaseAfter(events), AccessOf(q)), q) ==> StaysInRoot(q.path)
  {
    hide Covers, ScopeName, EntryIn, StaysInRoot, StaysBelow, StaysNear, FoundUnder, KeyOf, Permitted;
    if MayWrite(entry, EntryIn(DatabaseAfter(events), AccessOf(q)), q) {
      WriteNeedsScope(events, q);
      CoveredByOne(events, q, scopes);
      var scope :| scope in scopes && Covers(ScopeName(scope), q.path);
      CoveredInRoot(scope, q.path);
    }
  }

  /** Confinement of one request, under the guard. */
  lemma StepIsConfined(h: Hashing, s: Settings, entry: Lookup, events: seq<Event>, t: Tree, q: Incoming, scopes: set<Path>, n: Path)
    requires Proper(h) && WellFormed(t) && forall e | e in events :: Stored(e)
    requires WritesOnlyTo(events, q.username, scopes) && AreScopes(scopes)
    requires Guarded(scopes, q.path) && Outside(scopes, n)
    ensures var auth := EntryIn(DatabaseAfter(events), AccessOf(q));
            && (MayWrite(entry, auth, q) ==> StaysInRoot(q.path))
            && SameAt(t, NextTree(h, s, entry, auth, t, q), n)
  {
    hide NextTree, WellFormed, Spares, Guarded, Outside, WritesOnlyTo, MayWrite, StaysInRoot, EntryIn;
    GuardedInRoot(entry, events, q, scopes);
    GuardedSpares(scopes, n, q.path);
    StepSpares(h, s, entry, events, t, q, scopes, n);
  }

  /** A PUT under a scope, answered 200 or 201, leaves the body where its disk path leads;
      every place behind the scope's directory that it has gone through is below that
      directory if and only if the path passes the guard. */
  lemma WrittenBelowIff(h: Hashing, s: Settings, entry: Lookup, auth: Option<Authorization>, t: Tree, q: Incoming, scope: Path)
    requires Proper(h) && WellFormed(t)
    requires scope != [] && (forall m | m in scope :: IsScopeName(m)) && Covers(ScopeName(scope), q.path)
    requires MayWrite(entry, auth, q) && q.httpMethod.verb == PUT && StaysInRoot(q.path)
    requires ServeAt(h, s, t, RequestOf(q)).status in {200, 201}
    ensures var names := Tokens(Rewritten(q.path)); var t' := NextTree(h, s, entry, auth, t, q); var p := OnDisk([], names);
            && p.Some? && p.value in t' && t'[p.value] == File(q.body)
            && (BehindIsBelow(scope, names) <==> StaysBelow(scope, q.path))
            && (StaysBelow(scope, q.path) ==> scope <= p.value)
  {
    hide Tokens, Rewritten, Join, StaysBelow, KeepsSlash, NeverClimbs, WellFormed, Covers, ScopeName, LookUp, WalkTree, OnDisk;
    WrittenAtEnd(h, t, RequestOf(q));
    CoveredIff(scope, q.path);
    var names := Tokens(Rewritten(q.path));
    assert names[..|names|] == names;
    assert BehindIsBelow(scope, names) ==> InAfter(scope, [], names, |names|);
  }

  /** The first part of the guard cannot be left out: on `BesideScope`'s paths a PUT
      answered 201 makes a document outside the scope's directory. */
  lemma SlashIsNeeded(h: Hashing, s: Settings, entry: Lookup, auth: Option<Authorization>, t: Tree, q: Incoming, scope: Path, other: string)
    requires Proper(h) && WellFormed(t)
    requires scope != [] && forall m | m in scope :: IsScopeName(m)
    requires IsName(other) && !StartsWith(other, "..") && q.path == Join(scope) + SLASHES + other
    requires MayWrite(entry, auth, q) && q.httpMethod.verb == PUT && StaysInRoot(q.path)
    requires ServeAt(h, s, t, RequestOf(q)).status in {200, 201}
    ensures var p := Parent(scope) + [scope[|scope| - 1] + other];
            && Covers(ScopeName(scope), q.path) && Outside({scope}, p)
            && p in NextTree(h, s, entry, auth, t, q) && NextTree(h, s, entry, auth, t, q)[p] == File(q.body)
  {
    hide Tokens, Rewritten, Join, Resolve, StaysBelow, KeepsSlash, NeverClimbs, WellFormed, Covers, ScopeName, LookUp, WalkTree;
    hide OnDisk, PutAt, Outside;
    BesideOnDisk(scope, other);
    WrittenAtEnd(h, t, RequestOf(q));
  }

  lemma BesideOnDisk(scope: Path, other: string)
    requires scope != [] && forall m | m in scope :: IsScopeName(m)
    requires IsName(other) && !StartsWith(other, "..")
    ensures var path, p := Join(scope) + SLASHES + other, Parent(scope) + [scope[|scope| - 1] + other];
            Covers(ScopeName(scope), path) && OnDisk([], Tokens(Rewritten(path))) == Some(p) && Outside({scope}, p)
  {
    hide Tokens, Rewritten, Join, Resolve, StaysBelow, KeepsSlash, Covers, ScopeName, OnDisk;
    var path, p := Join(scope) + SLASHES + other, Parent(scope) + [scope[|scope| - 1] + other];
    BesideScope(scope, other);
    LongerName(scope, scope[|scope| - 1] + other);
    ResolvedLocation(path);
    OnDiskPlain([], p);
    assert [] + p == p;
    NotOnTheWay(scope, p);
  }

  lemma NotOnTheWay(scope: Path, p: Path)
    requires scope != [] && |p| == |scope| && p != scope
    ensures Outside({scope}, p)
  {
  }

  /** A PUT answered 200 or 201 leaves the body at the place its disk path leads to. */
  lemma WrittenAtEnd(h: Hashing, t: Tree, r: DiskRequest)
    requires Proper(h) && WellFormed(t) && !r.spot.folder && NeverClimbs(0, r.spot.names)
    requires PutAt(h, t, r).status in {200, 201}
    ensures var p := OnDisk([], r.spot.names);
            p.Some? && p.value in PutAt(h, t, r).tree && PutAt(h, t, r).tree[p.value] == File(r.body)
  {
    hide WalkTree, OnDisk, NeverClimbs, LookUp, WellFormed, Tag;
    var names := r.spot.names;
    InRootLeads(names, |Front(names)|);
    assert names[..|Front(names)|] == Front(names);
    RootIsDir(t);
    WalkWellFormed(t, [], Front(names));
    var last := names[|names| - 1];
    OnDiskAppend([], Front(names), [last]);
    assert Front(names) + [last] == names;
    OnDiskOne(OnDisk([], Front(names)).value, last);
  }

  /** Nor the second part: on `ClimbsOut`'s paths it does, too, although the rest of the
      path keeps its slash. */
  lemma NotClimbingIsNeeded(h: Hashing, s: Settings, entry: Lookup, auth: Option<Authorization>, t: Tree, q: Incoming, scope: Path, other: string)
    requires Proper(h) && WellFormed(t)
    requires scope != [] && forall m | m in scope :: IsScopeName(m)
    requires IsName(other) && !StartsWith(other, ".") && other != scope[|scope| - 1]
    requires q.path == Join(scope) + ("/.//./" + other)
    requires MayWrite(entry, auth, q) && q.httpMethod.verb == PUT && StaysInRoot(q.path)
    requires ServeAt(h, s, t, RequestOf(q)).status in {200, 201}
    ensures var p := Parent(scope) + [other];
            && Covers(ScopeName(scope), q.path) && KeepsSlash("/.//./" + other) && Outside({scope}, p)
            && p in NextTree(h, s, entry, auth, t, q) && NextTree(h, s, entry, auth, t, q)[p] == File(q.body)
  {
    hide Tokens, Rewritten, Join, StaysBelow, KeepsSlash, NeverClimbs, WellFormed, Covers, ScopeName, LookUp, WalkTree, OnDisk;
    ClimbsOut(scope, other);
    WrittenAtEnd(h, t, RequestOf(q));
    var p := Parent(scope) + [other];
    assert p[|scope| - 1] == other;
    NotOnTheWay(scope, p);
  }

  // ----- runs of requests and changes of authorizations -----

  datatype Step = Admin(event: Event) | Http(entry: Lookup, incoming: Incoming)

  function EventsOf(steps: seq<Step>): seq<Event> {
    if steps == [] then []
    else
      var last := steps[|steps| - 1];
      EventsOf(steps[..|steps| - 1]) + (if last.Admin? then [last.event] else [])
  }

  /** What is stored can be stored, and the requests are one user's. */
  ghost predicate StepsOf(steps: seq<Step>, username: string) {
    forall st | st in steps :: StepOf(st, username)
  }

  predicate StepOf(st: Step, username: string) {
    match st
    case Admin(event) => Stored(event)
    case Http(_, q) => q.username == username
  }

  lemma {:induction false} EventsAreStored(steps: seq<Step>, username: string)
    requires StepsOf(steps, username)
    ensures forall e | e in EventsOf(steps) :: Stored(e)
  {
    hide Stored;
    if steps != [] {
      assert steps[|steps| - 1] in steps;
      EventsAreStored(steps[..|steps| - 1], username);
    }
  }

  /** The entry that the last request of a run finds. */
  ghost function EntryAt(steps: seq<Step>, username: string): Option<Authorization>
    requires StepsOf(steps, username) && steps != [] && steps[|steps| - 1].Http?
  {
    var before := steps[..|steps| - 1];
    EventsAreStored(before, username);
    EntryIn(DatabaseAfter(EventsOf(before)), AccessOf(steps[|steps| - 1].incoming))
  }

  /** Whenever a request of the run may write, its disk path stays in the storage root. */
  ghost predicate RunInRoot(steps: seq<Step>, username: string)
    requires StepsOf(steps, username)
  {
    if steps == [] then true
    else
      var last := steps[|steps| - 1];
      && RunInRoot(steps[..|steps| - 1], username)
      && (last.Http? && MayWrite(last.entry, EntryAt(steps, username), last.incoming) ==> StaysInRoot(last.incoming.path))
  }

  /** One user's tree after a run in which authorizations come and go between requests. */
  ghost function TreeAfter(h: Hashing, s: Settings, t: Tree, steps: seq<Step>, username: string): Tree
    requires Proper(h) && StepsOf(steps, username) && RunInRoot(steps, username)
  {
    if steps == [] then t
    else
      var last, now := steps[|steps| - 1], TreeAfter(h, s, t, steps[..|steps| - 1], username);
      match last
      case Admin(_) => now
      case Http(entry, q) => NextTree(h, s, entry, EntryAt(steps, username), now, q)
  }

  lemma {:induction false} EventsGrow(steps: seq<Step>, n: nat)
    requires n <= |steps|
    ensures forall e | e in EventsOf(steps[..n]) :: e in EventsOf(steps)
    decreases |steps| - n
  {
    if n < |steps| {
      assert steps[..n + 1][..n] == steps[..n];
      EventsGrow(steps, n + 1);
    } else {
      assert steps[..n] == steps;
    }
  }

  lemma WritesBefore(steps: seq<Step>, username: string, scopes: set<Path>)
    requires steps != [] && WritesOnlyTo(EventsOf(steps), username, scopes)
    ensures WritesOnlyTo(EventsOf(steps[..|steps| - 1]), username, scopes)
  {
    hide FoundUnder, IsScopeOf;
    EventsGrow(steps, |steps| - 1);
  }

  /** Over any run, nothing changes but what the disk paths of covered requests lead through
      or to. */
  lemma {:induction false} RunSpares(h: Hashing, s: Settings, t: Tree, steps: seq<Step>, username: string, scopes: set<Path>, n: Path)
    requires Proper(h) && WellFormed(t) && StepsOf(steps, username) && RunInRoot(steps, username)
    requires WritesOnlyTo(EventsOf(steps), username, scopes)
    requires forall st | st in steps && st.Http? :: Spares(scopes, n, st.incoming.path)
    ensures WellFormed(TreeAfter(h, s, t, steps, username))
    ensures SameAt(t, TreeAfter(h, s, t, steps, username), n)
    decreases |steps|
  {
    hide WellFormed, NextTree, EntryIn, Spares, WritesOnlyTo, MayWrite, StaysInRoot, Tokens, Rewritten, Visits;
    if steps != [] {
      var last, before := steps[|steps| - 1], steps[..|steps| - 1];
      assert last in steps;
      WritesBefore(steps, username, scopes);
      RunSpares(h, s, t, before, username, scopes, n);
      if last.Http? {
        var now := TreeAfter(h, s, t, before, username);
        EventsAreStored(before, username);
        ChangeIsAuthorized(h, s, last.entry, EventsOf(before), now, last.incoming, n);
        StepSpares(h, s, last.entry, EventsOf(before), now, last.incoming, scopes, n);
      }
    }
  }

  lemma {:induction false} GuardedRunInRoot(steps: seq<Step>, username: string, scopes: set<Path>)
    requires StepsOf(steps, username)
    requires WritesOnlyTo(EventsOf(steps), username, scopes) && AreScopes(scopes)
    requires forall st | st in steps && st.Http? :: Guarded(scopes, st.incoming.path) || NearGuarded(scopes, st.incoming.path)
    ensures RunInRoot(steps, username)
    decreases |steps|
  {
    hide EntryIn, WritesOnlyTo, MayWrite, StaysInRoot, Guarded, NearGuarded, AreScopes;
    if steps != [] {
      var last, before := steps[|steps| - 1], steps[..|steps| - 1];
      assert last in steps;
      WritesBefore(steps, username, scopes);
      GuardedRunInRoot(before, username, scopes);
      if last.Http? {
        EventsAreStored(before, username);
        GuardedInRoot(last.entry, EventsOf(before), last.incoming, scopes);
      }
    }
  }

  /** Confinement: over every run in which every write scope a lookup for the user can find
      is one of the directories, and every request path passes the guard of those that cover
      it, whatever else is in it, nothing but the ways to those directories and what is
      below them changes. */
  lemma RunIsConfined(h: Hashing, s: Settings, t: Tree, steps: seq<Step>, username: string, scopes: set<Path>, n: Path)
    requires Proper(h) && WellFormed(t) && StepsOf(steps, username)
    requires WritesOnlyTo(EventsOf(steps), username, scopes) && AreScopes(scopes)
    requires forall st | st in steps && st.Http? :: Guarded(scopes, st.incoming.path)
    requires Outside(scopes, n)
    ensures RunInRoot(steps, username) && SameAt(t, TreeAfter(h, s, t, steps, username), n)
  {
    hide Spares, Guarded, WritesOnlyTo, Outside, AreScopes, WellFormed;
    GuardedRunInRoot(steps, username, scopes);
    forall st | st in steps && st.Http?
      ensures Spares(scopes, n, st.incoming.path)
    {
      GuardedSpares(scopes, n, st.incoming.path);
    }
    RunSpares(h, s, t, steps, username, scopes, n);
  }

  /** With the second part of the guard only, also entries beside a directory may change
      whose names begin with its name, and no others. */
  lemma RunStaysNear(h: Hashing, s: Settings, t: Tree, steps: seq<Step>, username: string, scopes: set<Path>, n: Path)
    requires Proper(h) && WellFormed(t) && StepsOf(steps, username)
    requires WritesOnlyTo(EventsOf(steps), username, scopes) && AreScopes(scopes)
    requires forall st | st in steps && st.Http? :: NearGuarded(scopes, st.incoming.path)
    requires FarFrom(scopes, n)
    ensures RunInRoot(steps, username) && SameAt(t, TreeAfter(h, s, t, steps, username), n)
  {
    hide Spares, NearGuarded, WritesOnlyTo, FarFrom, AreScopes, WellFormed;
    GuardedRunInRoot(steps, username, scopes);
    forall st | st in steps && st.Http?
      ensures Spares(scopes, n, st.incoming.path)
    {
      GuardedSpares(scopes, n, st.incoming.path);
    }
    RunSpares(h, s, t, steps, username, scopes, n);
  }
}
