/** The authorization store (src/common/auth.c): a database from "user|token" to packed
    authorizations, and what it answers after any history of additions and removals.
 */
module AuthStore {
  import opened Strings
  import opened AuthCodec

  function KeyOf(username: string, token: string): string {
    username + "|" + token
  }

  predicate PipeFree(username: string) {
    '|' !in username
  }

  /** Keys of users without '|' tell users and tokens apart. */
  lemma KeyInjective(u: string, t: string, u': string, t': string)
    requires PipeFree(u) && PipeFree(u') && KeyOf(u, t) == KeyOf(u', t')
    ensures u == u' && t == t'
  {
    var k := KeyOf(u, t);
    SpanUntilIs(k, '|', |u|);
    SpanUntilIs(k, '|', |u'|);
    assert k[..|u|] == u && k[..|u'|] == u';
    assert k[|u| + 1..] == t && k[|u'| + 1..] == t';
  }

  /** With '|' allowed they do not: every user name that has one shares a key with
      another user. */
  lemma KeyShared(u: string, t: string)
    requires !PipeFree(u)
    ensures exists u', t' :: u' != u && PipeFree(u') && KeyOf(u', t') == KeyOf(u, t)
  {
    var n := SpanUntil(u, '|');
    assert n < |u| by {
      var i :| 0 <= i < |u| && u[i] == '|';
    }
    var u', t' := u[..n], u[n + 1..] + "|" + t;
    assert u == u' + "|" + u[n + 1..];
    assert KeyOf(u', t') == KeyOf(u, t);
    assert |u'| < |u|;
  }

  // ----- histories -----

  datatype Event = Added(auth: Authorization) | Removed(username: string, token: string)
  {
    function User(): string {
      match this
      case Added(a) => a.username
      case Removed(u, _) => u
    }

    function Token(): string {
      match this
      case Added(a) => a.token
      case Removed(_, t) => t
    }
  }

  type Database = map<string, string>

  predicate Stored(e: Event) {
    e.Added? ==> Packable(e.auth)
  }

  /** The database after a history. */
  ghost function DatabaseAfter(h: seq<Event>): Database
    requires forall e | e in h :: Stored(e)
  {
    if h == [] then map[]
    else
      var last, before := h[|h| - 1], DatabaseAfter(h[..|h| - 1]);
      match last
      case Added(a) =>
        assert Stored(last);
        ScopesSizeIs(a.scopes);
        before[KeyOf(a.username, a.token) := Encode(a)]
      case Removed(u, t) => before - {KeyOf(u, t)}
  }

  /** The authorization added last for a user and token, unless removed since. */
  ghost function Surviving(h: seq<Event>, username: string, token: string): Option<Authorization> {
    if h == [] then None
    else
      var last := h[|h| - 1];
      if last.User() == username && last.Token() == token then
        (if last.Added? then Some(last.auth) else None)
      else Surviving(h[..|h| - 1], username, token)
  }

  /** The authorization added last under a key, unless removed since. */
  ghost function Latest(h: seq<Event>, key: string): Option<Authorization> {
    if h == [] then None
    else
      var last := h[|h| - 1];
      if KeyOf(last.User(), last.Token()) == key then
        (if last.Added? then Some(last.auth) else None)
      else Latest(h[..|h| - 1], key)
  }

  /** What a lookup in a database gives. */
  function LookupIn(db: Database, username: string, token: string): Option<Unpacked> {
    if KeyOf(username, token) in db then Some(Decode(db[KeyOf(username, token)])) else None
  }

  /** The authorization found, if it unpacks. */
  function EntryUnder(db: Database, username: string, token: string): Option<Authorization> {
    match LookupIn(db, username, token)
    case Some(Unpacked(a, _)) => Some(a)
    case _ => None
  }

  ghost predicate PipeFreeHistory(h: seq<Event>) {
    forall e | e in h :: PipeFree(e.User())
  }

  /** A lookup after any history gives the entry added last under the same key. */
  lemma {:induction false} LookupIsLatest(h: seq<Event>, username: string, token: string)
    requires forall e | e in h :: Stored(e)
    ensures match Latest(h, KeyOf(username, token))
            case None => LookupIn(DatabaseAfter(h), username, token) == None
            case Some(a) => Packable(a) && LookupIn(DatabaseAfter(h), username, token) == Some(Unpacked.Unpacked(a, PackedSize(a)))
    ensures EntryUnder(DatabaseAfter(h), username, token) == Latest(h, KeyOf(username, token))
    ensures var entry := Latest(h, KeyOf(username, token));
            entry.Some? ==> Added(entry.value) in h && KeyOf(entry.value.username, entry.value.token) == KeyOf(username, token)
  {
    hide Decode, KeyOf, Encode;
    if h != [] {
      var last, before := h[|h| - 1], h[..|h| - 1];
      assert last in h;
      LookupIsLatest(before, username, token);
      if last.Added? {
        RoundTrip(last.auth);
      }
    }
  }

  /** For users without '|' that is the entry added last for the user and token. */
  lemma {:induction false} LatestIsSurviving(h: seq<Event>, username: string, token: string)
    requires PipeFreeHistory(h) && PipeFree(username)
    ensures Latest(h, KeyOf(username, token)) == Surviving(h, username, token)
  {
    hide KeyOf;
    if h != [] {
      var last, before := h[|h| - 1], h[..|h| - 1];
      assert last in h;
      LatestIsSurviving(before, username, token);
      if KeyOf(last.User(), last.Token()) == KeyOf(username, token) {
        KeyInjective(last.User(), last.Token(), username, token);
      }
    }
  }

  /** For users without '|', a lookup after any history gives the surviving entry. */
  lemma LookupIsSurviving(h: seq<Event>, username: string, token: string)
    requires forall e | e in h :: Stored(e)
    requires PipeFreeHistory(h) && PipeFree(username)
    ensures match Surviving(h, username, token)
            case None => LookupIn(DatabaseAfter(h), username, token) == None
            case Some(a) => Packable(a) && LookupIn(DatabaseAfter(h), username, token) == Some(Unpacked.Unpacked(a, PackedSize(a)))
    ensures EntryUnder(DatabaseAfter(h), username, token) == Surviving(h, username, token)
    ensures Surviving(h, username, token).Some? ==>
              var a := Surviving(h, username, token).value; a.username == username && a.token == token
  {
    hide Decode, KeyOf, Encode;
    LookupIsLatest(h, username, token);
    LatestIsSurviving(h, username, token);
    SurvivorIsOwn(h, username, token);
  }

  lemma {:induction false} SurvivorIsOwn(h: seq<Event>, username: string, token: string)
    ensures var s := Surviving(h, username, token); s.Some? ==> s.value.username == username && s.value.token == token
  {
    if h != [] {
      SurvivorIsOwn(h[..|h| - 1], username, token);
    }
  }

  lemma {:induction false} SurvivorWasAdded(h: seq<Event>, username: string, token: string)
    ensures var s := Surviving(h, username, token); s.Some? ==> Added(s.value) in h && s.value.username == username
  {
    if h != [] {
      assert h[|h| - 1] in h;
      SurvivorWasAdded(h[..|h| - 1], username, token);
    }
  }

  // ----- listing -----

  /** Every entry of the database is packed under the key of what it holds. */
  lemma {:induction false} EntriesAreSurviving(h: seq<Event>, k: string) returns (a: Authorization)
    requires (forall e | e in h :: Stored(e)) && PipeFreeHistory(h)
    requires k in DatabaseAfter(h)
    ensures Packable(a) && k == KeyOf(a.username, a.token) && PipeFree(a.username)
    ensures Decode(DatabaseAfter(h)[k]) == Unpacked.Unpacked(a, PackedSize(a))
    ensures Surviving(h, a.username, a.token) == Some(a)
  {
    hide Decode, KeyOf, Encode;
    var last, before := h[|h| - 1], h[..|h| - 1];
    assert last in h;
    if last.Added? && k == KeyOf(last.auth.username, last.auth.token) {
      a := last.auth;
      RoundTrip(a);
    } else {
      a := EntriesAreSurviving(before, k);
    }
  }

  /** A cursor visits each key once. */
  ghost predicate IsCursor(cursor: seq<string>, db: Database) {
    && (forall k :: k in cursor <==> k in db)
    && forall i, j | 0 <= i < j < |cursor| :: cursor[i] != cursor[j]
  }

  /** The entries a listing for `username` calls back with (None lists all users). */
  ghost predicate Listed(h: seq<Event>, username: Option<string>, a: Authorization) {
    && Surviving(h, a.username, a.token) == Some(a)
    && (username.Some? ==> a.username == username.value)
  }

  function Calls(db: Database, username: Option<string>, cursor: seq<string>): seq<Authorization>
    requires forall k | k in cursor :: k in db
  {
    if cursor == [] then []
    else
      var earlier := Calls(db, username, cursor[..|cursor| - 1]);
      match Decode(db[cursor[|cursor| - 1]])
      case Unpacked(a, _) => if username == None || a.username == username.value then earlier + [a] else earlier
      case _ => earlier
  }

  lemma {:induction false} CallsSoFar(h: seq<Event>, username: Option<string>, cursor: seq<string>)
    requires (forall e | e in h :: Stored(e)) && PipeFreeHistory(h)
    requires forall k | k in cursor :: k in DatabaseAfter(h)
    requires forall i, j | 0 <= i < j < |cursor| :: cursor[i] != cursor[j]
    ensures var calls := Calls(DatabaseAfter(h), username, cursor);
            && (forall a :: a in calls <==> Listed(h, username, a) && KeyOf(a.username, a.token) in cursor)
            && (forall i, j | 0 <= i < j < |calls| :: calls[i] != calls[j])
  {
    hide Decode, KeyOf, DatabaseAfter, Surviving, PipeFreeHistory, Stored;
    if cursor != [] {
      var n := |cursor| - 1;
      var k, before := cursor[n], cursor[..n];
      assert k in cursor && cursor == before + [k];
      CallsSoFar(h, username, before);
      var b := EntriesAreSurviving(h, k);
      forall a | Listed(h, username, a) && KeyOf(a.username, a.token) == k
        ensures a == b
      {
        SurvivorWasAdded(h, a.username, a.token);
        PipeFreeEvent(h, Added(a));
        KeyInjective(a.username, a.token, b.username, b.token);
      }
    }
  }

  /** The callbacks come in cursor order. */
  lemma {:induction false} CallsInOrder(db: Database, username: Option<string>, first: seq<string>, more: seq<string>)
    requires forall k | k in first + more :: k in db
    ensures (forall k | k in first :: k in db) && forall k | k in more :: k in db
    ensures Calls(db, username, first + more) == Calls(db, username, first) + Calls(db, username, more)
    decreases |more|
  {
    assert forall k | k in first :: k in first + more;
    assert forall k | k in more :: k in first + more;
    hide Decode, LookupIn, EntryUnder;
    if more == [] {
      assert first + more == first;
    } else {
      assert (first + more)[..|first + more| - 1] == first + more[..|more| - 1];
      assert forall k | k in first + more[..|more| - 1] :: k in first + more;
      CallsInOrder(db, username, first, more[..|more| - 1]);
    }
  }

  lemma PipeFreeEvent(h: seq<Event>, e: Event)
    requires PipeFreeHistory(h) && e in h
    ensures PipeFree(e.User())
  {
  }

  /** A listing calls back exactly once with each surviving entry of the user. */
  lemma ListingIsSurviving(h: seq<Event>, username: Option<string>, cursor: seq<string>)
    requires (forall e | e in h :: Stored(e)) && PipeFreeHistory(h)
    requires IsCursor(cursor, DatabaseAfter(h))
    ensures var calls := Calls(DatabaseAfter(h), username, cursor);
            && (forall a :: a in calls <==> Listed(h, username, a))
            && (forall i, j | 0 <= i < j < |calls| :: calls[i] != calls[j])
  {
    CallsSoFar(h, username, cursor);
    forall a | Listed(h, username, a)
      ensures KeyOf(a.username, a.token) in cursor
    {
      SurvivorWasAdded(h, a.username, a.token);
      PipeFreeEvent(h, Added(a));
      LookupIsSurviving(h, a.username, a.token);
    }
  }

  // ----- the store -----

  class AuthDb {
    var db: Database
    ghost var history: seq<Event>

    ghost predicate Valid()
      reads this
    {
      (forall e | e in history :: Stored(e)) && db == DatabaseAfter(history)
    }

    constructor ()
      ensures Valid() && history == []
    {
      db := map[];
      history := [];
    }

    method AddAuthorization(a: Authorization) returns (result: int)
      requires Valid() && Packable(a)
      modifies this
      ensures Valid() && history == old(history) + [Added(a)] && result == 0
    {
      var data := Pack(a);
      db := db[KeyOf(a.username, a.token) := data[..]];
      history := history + [Added(a)];
      assert history[..|history| - 1] == old(history);
      result := 0;
    }

    /** False stands for DB_NOTFOUND. */
    method RemoveAuthorization(username: string, token: string) returns (found: bool)
      requires Valid()
      modifies this
      ensures Valid() && history == old(history) + [Removed(username, token)]
      ensures found <==> old(LookupIn(db, username, token)).Some?
    {
      found := KeyOf(username, token) in db;
      db := db - {KeyOf(username, token)};
      history := history + [Removed(username, token)];
      assert history[..|history| - 1] == old(history);
    }

    /** The entry under the key, for every history. The source does not check the result
        of unpacking: what does not unpack is left out of this model by `Valid`. */
    method LookupAuthorization(username: string, token: string) returns (r: Option<Authorization>)
      requires Valid()
      ensures r == EntryUnder(db, username, token) == Latest(history, KeyOf(username, token))
      ensures PipeFreeHistory(history) && PipeFree(username) ==> r == Surviving(history, username, token)
    {
      LookupIsLatest(history, username, token);
      if PipeFreeHistory(history) && PipeFree(username) {
        LatestIsSurviving(history, username, token);
      }
      if KeyOf(username, token) !in db {
        return None;
      }
      var unpacked := Unpack(db[KeyOf(username, token)]);
      r := Some(unpacked.auth);
    }

    /** Calls back, in cursor order, with every entry of the user. */
    method ListAuthorizations(username: Option<string>, cursor: seq<string>) returns (calls: seq<Authorization>)
      requires Valid() && IsCursor(cursor, db)
      ensures calls == Calls(db, username, cursor)
    {
      calls := [];
      for i := 0 to |cursor|
        invariant calls == Calls(db, username, cursor[..i])
      {
        assert cursor[..i + 1][..i] == cursor[..i];
        assert cursor[i] in cursor;
        EveryEntryUnpacks(history, cursor[i]);
        var unpacked := Unpack(db[cursor[i]]);
        if username == None || unpacked.auth.username == username.value {
          calls := calls + [unpacked.auth];
        }
      }
      assert cursor[..|cursor|] == cursor;
    }
  }

  lemma {:induction false} EveryEntryUnpacks(h: seq<Event>, k: string)
    requires forall e | e in h :: Stored(e)
    requires k in DatabaseAfter(h)
    ensures Decode(DatabaseAfter(h)[k]).Unpacked?
  {
    hide Decode, KeyOf, Encode;
    var last, before := h[|h| - 1], h[..|h| - 1];
    assert last in h;
    if last.Added? && k == KeyOf(last.auth.username, last.auth.token) {
      RoundTrip(last.auth);
    } else {
      EveryEntryUnpacks(before, k);
    }
  }
}
