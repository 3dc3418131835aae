/** The trie (src/trie.c): nodes with parallel arrays of child keys and children. Its
    abstract value is a finite map from keys to non-NULL values.
 */
module Trie {
  import opened Strings

  // ----- the map -----

  function Get<V>(m: map<string, V>, k: string): Option<V> {
    if k in m then Some(m[k]) else None
  }

  /** Storing NULL (None) is the same as having no entry. */
  function Updated<V>(m: map<string, V>, k: string, v: Option<V>): map<string, V> {
    match v
    case None => m - {k}
    case Some(x) => m[k := x]
  }

  /** `sub` is what `m` holds below the first character `c`. */
  ghost predicate Below<V>(m: map<string, V>, c: char, sub: map<string, V>) {
    forall k :: Get(m, [c] + k) == Get(sub, k)
  }

  /** Every non-empty key of `m` starts with one of `heads`. */
  ghost predicate Heads<V>(m: map<string, V>, heads: seq<char>) {
    forall k | k in m && k != "" :: k[0] in heads
  }

  lemma BelowNothing<V>(m: map<string, V>, heads: seq<char>, c: char)
    requires Heads(m, heads) && c !in heads
    ensures Below(m, c, map[])
  {
    forall k
      ensures Get(m, [c] + k) == None
    {
      assert ([c] + k)[0] == c;
    }
  }

  lemma BelowUpdated<V>(m: map<string, V>, c: char, sub: map<string, V>, key: string, v: Option<V>)
    requires Below(m, c, sub) && key != ""
    ensures Below(Updated(m, key, v), c, if key[0] == c then Updated(sub, key[1..], v) else sub)
  {
    var sub' := if key[0] == c then Updated(sub, key[1..], v) else sub;
    forall k
      ensures Get(Updated(m, key, v), [c] + k) == Get(sub', k)
    {
      var q := [c] + k;
      assert q[0] == c && q[1..] == k && key == [key[0]] + key[1..];
      assert Get(m, q) == Get(sub, k);
    }
  }

  lemma BelowUpdatedEmpty<V>(m: map<string, V>, c: char, sub: map<string, V>, v: Option<V>)
    requires Below(m, c, sub)
    ensures Below(Updated(m, "", v), c, sub)
  {
    forall k
      ensures Get(Updated(m, "", v), [c] + k) == Get(sub, k)
    {
      assert Get(m, [c] + k) == Get(sub, k);
    }
  }

  lemma HeadsUpdated<V>(m: map<string, V>, heads: seq<char>, key: string, v: Option<V>)
    requires Heads(m, heads) && (key != "" ==> key[0] in heads)
    ensures Heads(Updated(m, key, v), heads)
  {
  }

  lemma GetUpdated<V>(m: map<string, V>, key: string, v: Option<V>, q: string)
    ensures Get(Updated(m, key, v), q) == if q == key then v else Get(m, q)
  {
  }

  // ----- nodes -----

  class TrieNode<V> {
    const key: char
    var childkeys: seq<char>
    var children: seq<TrieNode<V>>
    var value: Option<V>

    ghost var Repr: set<object>
    ghost var Contents: map<string, V>

    /** Parallel arrays, distinct keys, subtrees apart from each other and from this node,
        and contents that are those of the children under their keys. */
    ghost predicate Valid()
      reads this, Repr
      decreases Repr
    {
      && this in Repr
      && |childkeys| == |children|
      && NUL !in childkeys
      && (forall i, j | 0 <= i < j < |childkeys| :: childkeys[i] != childkeys[j])
      && (forall i | 0 <= i < |children| ::
            && children[i] in Repr
            && children[i].Repr <= Repr && this !in children[i].Repr
            && children[i].Valid()
            && children[i].key == childkeys[i])
      && (forall i, j | 0 <= i < j < |children| :: children[i].Repr !! children[j].Repr)
      && Get(Contents, "") == value
      && Heads(Contents, childkeys)
      && (forall i | 0 <= i < |children| :: Below(Contents, childkeys[i], children[i].Contents))
    }

    constructor (key: char, value: Option<V>)
      ensures Valid() && fresh(Repr)
      ensures this.key == key && this.value == value && children == []
      ensures Contents == Updated(map[], "", value)
    {
      this.key := key;
      this.value := value;
      childkeys := [];
      children := [];
      Repr := {this};
      Contents := Updated(map[], "", value);
    }

    /** The child for a key, or null: a scan of the child keys up to the terminator. */
    method FindChild(key: char) returns (child: TrieNode?<V>, ghost at: nat)
      requires Valid()
      ensures child == null <==> key !in childkeys
      ensures child != null ==> at < |children| && childkeys[at] == key && children[at] == child
    {
      at := 0;
      for i := 0 to |childkeys|
        invariant key !in childkeys[..i]
      {
        if childkeys[i] == key {
          at := i;
          return children[i], at;
        }
      }
      return null, 0;
    }

    method Search(key: string) returns (r: Option<V>)
      requires Valid() && NulFree(key)
      ensures r == Get(Contents, key)
      decreases |key|
    {
      if key != "" {
        var child, at := FindChild(key[0]);
        assert key == [key[0]] + key[1..];
        if child != null {
          r := child.Search(key[1..]);
          assert Below(Contents, childkeys[at], child.Contents);
        } else {
          r := None;
        }
      } else {
        assert key == "";
        r := value;
      }
    }

    /** Adds an empty child for a key that has none. */
    method Append(child: TrieNode<V>)
      requires Valid() && child.Valid() && child.Repr !! Repr
      requires child.key != NUL && child.key !in childkeys && child.Contents == map[]
      modifies this
      ensures Valid() && Repr == old(Repr) + child.Repr
      ensures Contents == old(Contents)
      ensures childkeys == old(childkeys) + [child.key] && children == old(children) + [child]
      ensures value == old(value)
    {
      hide Get, Below, Heads;
      BelowNothing(Contents, childkeys, child.key);
      HeadsMore(Contents, childkeys, child.key);
      children := children + [child];
      childkeys := childkeys + [child.key];
      Repr := Repr + child.Repr;
    }

    /** Stores a value (None is NULL) and reports the one it replaces. */
    method Insert(key: string, v: Option<V>) returns (replaced: Option<V>)
      requires Valid() && NulFree(key)
      modifies Repr
      ensures Valid() && fresh(Repr - old(Repr))
      ensures Contents == Updated(old(Contents), key, v)
      ensures replaced == Get(old(Contents), key)
      decreases |key|, 1
    {
      hide Get, Updated, Below, Heads;
      if key != "" {
        var child, at := FindChild(key[0]);
        if child == null {
          child := new TrieNode(key[0], None);
          at := |children|;
          EmptyUpdated<V>();
          Append(child);
        }
        replaced := InsertBelow(child, at, key, v);
      } else {
        assert key == "";
        replaced := SetValue(v);
      }
    }

    /** The end of the key is reached. */
    method SetValue(v: Option<V>) returns (replaced: Option<V>)
      requires Valid()
      modifies this
      ensures Valid() && Repr == old(Repr)
      ensures Contents == Updated(old(Contents), "", v)
      ensures replaced == Get(old(Contents), "")
    {
      hide Get, Updated, Below, Heads;
      replaced := value;
      value := v;
      GetUpdated(Contents, "", v, "");
      HeadsUpdated(Contents, childkeys, "", v);
      forall i | 0 <= i < |children|
        ensures Below(Updated(Contents, "", v), childkeys[i], children[i].Contents)
      {
        BelowUpdatedEmpty(Contents, childkeys[i], children[i].Contents, v);
      }
      Contents := Updated(Contents, "", v);
    }

    /** Visits this node's value if there is one, then the children in order. */
    method Iterate() returns (log: seq<V>)
      requires Valid()
      ensures Visits(Contents, log)
      decreases Repr
    {
      hide Below, Heads, Part, Lists, Prefixed;
      ListsStart(Contents);
      log := [];
      ghost var keys := if "" in Contents then [""] else [];
      if value.Some? {
        log := [value.value];
      }
      for i := 0 to |children|
        invariant Lists(Part(Contents, childkeys[..i]), keys, log)
      {
        var sublog := children[i].Iterate();
        ghost var subkeys :| Lists(children[i].Contents, subkeys, sublog);
        ListsMore(Contents, childkeys[..i], childkeys[i], children[i].Contents, keys, log, subkeys, sublog);
        assert childkeys[..i] + [childkeys[i]] == childkeys[..i + 1];
        log := log + sublog;
        keys := keys + Prefixed(childkeys[i], subkeys);
      }
      assert childkeys[..|children|] == childkeys;
      PartAll(Contents, childkeys);
    }

    /** Passes the rest of the key, the value and the place for the old value on. */
    method InsertBelow(child: TrieNode<V>, ghost at: nat, key: string, v: Option<V>) returns (replaced: Option<V>)
      requires Valid() && NulFree(key) && key != ""
      requires at < |children| && children[at] == child && childkeys[at] == key[0]
      modifies Repr
      ensures Valid() && fresh(Repr - old(Repr))
      ensures Contents == Updated(old(Contents), key, v)
      ensures replaced == Get(old(Contents), key)
      decreases |key|, 0
    {
      hide Get, Updated, Below, Heads;
      ghost var m, sub := Contents, child.Contents;
      ContentsUpdated(m, childkeys, childkeys[at], sub, key, v);
      forall i | 0 <= i < |children|
        ensures Below(Updated(m, key, v), childkeys[i], if i == at then Updated(sub, key[1..], v) else children[i].Contents)
      {
        BelowUpdated(m, childkeys[i], children[i].Contents, key, v);
      }
      replaced := child.Insert(key[1..], v);
      forall i | 0 <= i < |children| && i != at
        ensures children[i].Valid() && children[i].Repr !! child.Repr && children[i].Contents == old(children[i].Contents)
      {
        assert children[i].Repr !! old(child.Repr);
      }
      Repr := Repr + child.Repr;
      Contents := Updated(m, key, v);
    }
  }

  // ----- iteration -----

  /** `keys` lists every key of `m` once, and `log` the values under them. */
  ghost predicate Lists<V>(m: map<string, V>, keys: seq<string>, log: seq<V>) {
    && |keys| == |log|
    && (forall k :: k in keys <==> k in m)
    && (forall i, j | 0 <= i < j < |keys| :: keys[i] != keys[j])
    && forall i | 0 <= i < |keys| && keys[i] in m :: log[i] == m[keys[i]]
  }

  /** `log` is the value of every key of `m`, once each. */
  ghost predicate Visits<V>(m: map<string, V>, log: seq<V>) {
    exists keys :: Lists(m, keys, log)
  }

  /** The part of `m` under the empty key and under the given first characters. */
  ghost function Part<V>(m: map<string, V>, heads: seq<char>): map<string, V> {
    map k | k in m && (k == "" || k[0] in heads) :: m[k]
  }

  ghost function Prefixed(c: char, keys: seq<string>): (r: seq<string>)
    ensures |r| == |keys| && forall i | 0 <= i < |keys| :: r[i] == [c] + keys[i]
  {
    seq(|keys|, i requires 0 <= i < |keys| => [c] + keys[i])
  }

  lemma ListsStart<V>(m: map<string, V>)
    ensures Lists(Part(m, []), if "" in m then [""] else [], if "" in m then [m[""]] else [])
  {
  }

  lemma PartAll<V>(m: map<string, V>, heads: seq<char>)
    requires Heads(m, heads)
    ensures Part(m, heads) == m
  {
  }

  /** The values below one more child extend the listing. */
  lemma ListsMore<V>(m: map<string, V>, heads: seq<char>, c: char, sub: map<string, V>,
                     keys: seq<string>, log: seq<V>, subkeys: seq<string>, sublog: seq<V>)
    requires Lists(Part(m, heads), keys, log) && Lists(sub, subkeys, sublog)
    requires Below(m, c, sub) && c !in heads
    ensures Lists(Part(m, heads + [c]), keys + Prefixed(c, subkeys), log + sublog)
  {
    var all, more := keys + Prefixed(c, subkeys), Part(m, heads + [c]);
    forall k
      ensures k in all <==> k in more
    {
      MoreKeys(m, heads, c, sub, keys, log, subkeys, sublog, k);
    }
    forall i: nat, j: nat | i < j < |all|
      ensures all[i] != all[j]
    {
      MoreDistinct(m, heads, c, sub, keys, log, subkeys, sublog, i, j);
    }
    forall i: nat | i < |all|
      ensures all[i] in m && (log + sublog)[i] == m[all[i]]
    {
      MoreValues(m, heads, c, sub, keys, log, subkeys, sublog, i);
    }
  }

  ghost predicate MoreSetting<V>(m: map<string, V>, heads: seq<char>, c: char, sub: map<string, V>,
                                 keys: seq<string>, log: seq<V>, subkeys: seq<string>, sublog: seq<V>) {
    && Lists(Part(m, heads), keys, log) && Lists(sub, subkeys, sublog)
    && Below(m, c, sub) && c !in heads
  }

  lemma MoreKeys<V>(m: map<string, V>, heads: seq<char>, c: char, sub: map<string, V>,
                    keys: seq<string>, log: seq<V>, subkeys: seq<string>, sublog: seq<V>, k: string)
    requires MoreSetting(m, heads, c, sub, keys, log, subkeys, sublog)
    ensures k in keys + Prefixed(c, subkeys) <==> k in Part(m, heads + [c])
  {
    var all := keys + Prefixed(c, subkeys);
    assert k in keys <==> k in Part(m, heads);
    if k != "" && k[0] == c {
      assert k == [c] + k[1..];
      assert Get(m, k) == Get(sub, k[1..]);
      assert k[1..] in subkeys <==> k[1..] in sub;
      if k[1..] in subkeys {
        var i :| 0 <= i < |subkeys| && subkeys[i] == k[1..];
        assert Prefixed(c, subkeys)[i] == k;
      }
      if k in Prefixed(c, subkeys) {
        var i :| 0 <= i < |subkeys| && Prefixed(c, subkeys)[i] == k;
        assert subkeys[i] == k[1..];
      }
    } else {
      assert forall i | 0 <= i < |subkeys| :: Prefixed(c, subkeys)[i][0] == c;
    }
  }

  lemma MoreDistinct<V>(m: map<string, V>, heads: seq<char>, c: char, sub: map<string, V>,
                        keys: seq<string>, log: seq<V>, subkeys: seq<string>, sublog: seq<V>, i: nat, j: nat)
    requires MoreSetting(m, heads, c, sub, keys, log, subkeys, sublog)
    requires i < j < |keys| + |subkeys|
    ensures (keys + Prefixed(c, subkeys))[i] != (keys + Prefixed(c, subkeys))[j]
  {
    var all := keys + Prefixed(c, subkeys);
    if i < |keys| <= j {
      assert all[i] in keys && all[i] in Part(m, heads);
      assert all[j][0] == c;
    } else if |keys| <= i {
      assert all[i][1..] == subkeys[i - |keys|] && all[j][1..] == subkeys[j - |keys|];
    }
  }

  lemma MoreValues<V>(m: map<string, V>, heads: seq<char>, c: char, sub: map<string, V>,
                      keys: seq<string>, log: seq<V>, subkeys: seq<string>, sublog: seq<V>, i: nat)
    requires MoreSetting(m, heads, c, sub, keys, log, subkeys, sublog)
    requires i < |keys| + |subkeys|
    ensures var all := keys + Prefixed(c, subkeys); all[i] in m && (log + sublog)[i] == m[all[i]]
  {
    var all := keys + Prefixed(c, subkeys);
    if i < |keys| {
      assert all[i] in keys && all[i] in Part(m, heads);
    } else {
      var k := subkeys[i - |keys|];
      assert all[i] == [c] + k && k in subkeys && k in sub;
      assert Get(m, all[i]) == Get(sub, k);
    }
  }

  /** The multiset of listed values does not depend on the order. */
  lemma {:induction false} ListsSameValues<V>(m: map<string, V>, keys: seq<string>, log: seq<V>, keys': seq<string>, log': seq<V>)
    requires Lists(m, keys, log) && Lists(m, keys', log')
    ensures multiset(log) == multiset(log')
    decreases |keys|
  {
    hide Lists, Without;
    ListsEmpty(m, keys, log);
    ListsEmpty(m, keys', log');
    if keys != [] {
      var i := ListsFirst(m, keys, log, keys', log');
      ListsRest(m, keys, log, 0);
      ListsRest(m, keys', log', i);
      TakeOut(log, 0);
      TakeOut(log', i);
      ListsSameValues(m - {keys[0]}, Without(keys, 0), Without(log, 0), Without(keys', i), Without(log', i));
    }
  }

  lemma ListsFirst<V>(m: map<string, V>, keys: seq<string>, log: seq<V>, keys': seq<string>, log': seq<V>) returns (i: nat)
    requires Lists(m, keys, log) && Lists(m, keys', log') && keys != []
    ensures |keys| == |log| && |keys'| == |log'| && i < |keys'| && keys'[i] == keys[0] && log'[i] == log[0]
  {
    assert keys[0] in keys && keys[0] in m && keys[0] in keys';
    i :| 0 <= i < |keys'| && keys'[i] == keys[0];
  }

  /** Any two visits of a map see the same multiset of values. */
  lemma VisitsSameValues<V>(m: map<string, V>, log: seq<V>, log': seq<V>)
    requires Visits(m, log) && Visits(m, log')
    ensures multiset(log) == multiset(log') && |log| == |m|
  {
    hide Lists;
    var keys :| Lists(m, keys, log);
    var keys' :| Lists(m, keys', log');
    ListsSameValues(m, keys, log, keys', log');
    ListsCount(m, keys, log);
  }

  lemma {:induction false} ListsCount<V>(m: map<string, V>, keys: seq<string>, log: seq<V>)
    requires Lists(m, keys, log)
    ensures |log| == |m|
    decreases |keys|
  {
    ListsEmpty(m, keys, log);
    if keys != [] {
      assert keys[0] in keys && keys[0] in m;
      ListsRest(m, keys, log, 0);
      assert m.Keys == (m - {keys[0]}).Keys + {keys[0]};
      ListsCount(m - {keys[0]}, Without(keys, 0), Without(log, 0));
    }
  }

  lemma ListsEmpty<V>(m: map<string, V>, keys: seq<string>, log: seq<V>)
    requires Lists(m, keys, log)
    ensures |keys| == |log| && (keys == [] <==> m == map[])
  {
    if keys != [] {
      assert keys[0] in keys;
    }
  }

  function Without<T>(s: seq<T>, i: nat): (r: seq<T>)
    requires i < |s|
    ensures |r| == |s| - 1
  {
    s[..i] + s[i + 1..]
  }

  lemma TakeOut<V>(s: seq<V>, i: nat)
    requires i < |s|
    ensures multiset(s) == multiset{s[i]} + multiset(Without(s, i))
  {
    assert s == s[..i] + [s[i]] + s[i + 1..];
  }

  lemma ListsRest<V>(m: map<string, V>, keys: seq<string>, log: seq<V>, i: nat)
    requires Lists(m, keys, log) && i < |keys|
    ensures |log| == |keys| && Lists(m - {keys[i]}, Without(keys, i), Without(log, i))
  {
    var rest, rlog := Without(keys, i), Without(log, i);
    forall k
      ensures k in rest <==> k in m && k != keys[i]
    {
      RestKeys(m, keys, log, i, k);
    }
    forall j: nat, l: nat | j < l < |rest|
      ensures rest[j] != rest[l]
    {
      var j', l' := if j < i then j else j + 1, if l < i then l else l + 1;
      assert rest[j] == keys[j'] && rest[l] == keys[l'];
    }
    forall j: nat | j < |rest|
      ensures rest[j] in m && rlog[j] == m[rest[j]]
    {
      var j' := if j < i then j else j + 1;
      assert rest[j] == keys[j'] && rlog[j] == log[j'];
      assert keys[j'] in keys && keys[j'] in m;
    }
  }

  lemma RestKeys<V>(m: map<string, V>, keys: seq<string>, log: seq<V>, i: nat, k: string)
    requires Lists(m, keys, log) && i < |keys|
    ensures k in Without(keys, i) <==> k in m && k != keys[i]
  {
    var rest := Without(keys, i);
    assert k in keys <==> k in m;
    if k in keys && k != keys[i] {
      var j :| 0 <= j < |keys| && keys[j] == k;
      assert rest[if j < i then j else j - 1] == k;
    }
  }

  // ----- histories -----

  /** The map after a list of inserts. */
  function AfterInserts<V>(inserts: seq<(string, Option<V>)>): map<string, V> {
    if inserts == [] then map[]
    else
      var last := inserts[|inserts| - 1];
      Updated(AfterInserts(inserts[..|inserts| - 1]), last.0, last.1)
  }

  /** A key maps to the value inserted last under it, if that was not NULL. */
  lemma {:induction false} LatestInsert<V>(inserts: seq<(string, Option<V>)>, key: string, i: nat)
    requires i < |inserts| && inserts[i].0 == key
    requires forall j | i < j < |inserts| :: inserts[j].0 != key
    ensures Get(AfterInserts(inserts), key) == inserts[i].1
  {
    var n := |inserts| - 1;
    GetUpdated(AfterInserts(inserts[..n]), inserts[n].0, inserts[n].1, key);
    if i < n {
      LatestInsert(inserts[..n], key, i);
    }
  }

  /** A key never inserted has no value. */
  lemma {:induction false} NeverInserted<V>(inserts: seq<(string, Option<V>)>, key: string)
    requires forall j | 0 <= j < |inserts| :: inserts[j].0 != key
    ensures Get(AfterInserts(inserts), key) == None
  {
    if inserts != [] {
      NeverInserted(inserts[..|inserts| - 1], key);
    }
  }

  /** A new trie after any list of inserts: searching gives the map's answers, and
      iterating visits the values of exactly its keys. */
  method InsertAll<V>(inserts: seq<(string, Option<V>)>, key: string)
    returns (found: Option<V>, log: seq<V>)
    requires NulFree(key) && forall i | 0 <= i < |inserts| :: NulFree(inserts[i].0)
    ensures found == Get(AfterInserts(inserts), key)
    ensures Visits(AfterInserts(inserts), log)
  {
    hide Get, Updated, Visits;
    var root := new TrieNode<V>(NUL, None);
    EmptyUpdated<V>();
    for i := 0 to |inserts|
      invariant root.Valid() && fresh(root.Repr)
      invariant root.Contents == AfterInserts(inserts[..i])
    {
      assert inserts[..i + 1][..i] == inserts[..i];
      var replaced := root.Insert(inserts[i].0, inserts[i].1);
    }
    assert inserts[..|inserts|] == inserts;
    found := root.Search(key);
    log := root.Iterate();
  }

  lemma EmptyUpdated<V>()
    ensures Updated<V>(map[], "", None) == map[]
  {
  }

  lemma HeadsMore<V>(m: map<string, V>, heads: seq<char>, c: char)
    requires Heads(m, heads)
    ensures Heads(m, heads + [c])
  {
  }

  /** What an update below one child means for the whole map. */
  lemma ContentsUpdated<V>(m: map<string, V>, heads: seq<char>, c: char, sub: map<string, V>, key: string, v: Option<V>)
    requires Heads(m, heads) && c in heads && Below(m, c, sub) && key != "" && key[0] == c
    ensures Get(m, key) == Get(sub, key[1..])
    ensures Heads(Updated(m, key, v), heads)
    ensures Get(Updated(m, key, v), "") == Get(m, "")
  {
    GetBelow(m, c, sub, key);
  }

  lemma GetBelow<V>(m: map<string, V>, c: char, sub: map<string, V>, key: string)
    requires Below(m, c, sub) && key != "" && key[0] == c
    ensures Get(m, key) == Get(sub, key[1..])
  {
    assert key == [c] + key[1..];
  }
}
