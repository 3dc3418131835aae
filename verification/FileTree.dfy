/** The directory tree below one user's storage root, and what a successful PUT or
    DELETE makes of it.

    A tree is a finite map from paths (lists of names) to entries; the root is `[]`.
    `PutTree` and `DeleteTree` say declaratively, for the whole tree at once, what the
    component-by-component loops of the handlers compute (module Storage proves that).
 */
module FileTree {

  type Path = seq<string>

  datatype Entry = File(content: string) | Dir

  type Tree = map<Path, Entry>

  function Parent(p: Path): Path
    requires p != []
  {
    p[..|p| - 1]
  }

  /** The root is a directory, and every other node sits in a directory. */
  ghost predicate WellFormed(t: Tree) {
    && [] in t && t[[]].Dir?
    && forall p | p in t && p != [] :: Parent(p) in t && t[Parent(p)].Dir?
  }

  /** The names found in directory `d`. */
  function Children(t: Tree, d: Path): set<string> {
    set q | q in t.Keys && |q| == |d| + 1 && d <= q :: q[|d|]
  }

  ghost predicate NoEmptyDirs(t: Tree) {
    forall d | d in t && t[d].Dir? && d != [] :: Children(t, d) != {}
  }

  /** No proper prefix of `p` is a file, so `p` can be created or opened. */
  ghost predicate Reachable(t: Tree, p: Path) {
    forall q | q in t && q < p :: t[q].Dir?
  }

  /** `t` with every missing prefix of `p` shorter than `n` as a directory. */
  function MakeDirs(t: Tree, p: Path, n: nat): Tree
    requires n <= |p| + 1
  {
    t + map k | 0 <= k < n && p[..k] !in t :: p[..k] := Dir
  }

  /** `t` with the missing ancestors of `p` as directories and `p` holding `content`. */
  function PutTree(t: Tree, p: Path, content: string): Tree {
    MakeDirs(t, p, |p|)[p := File(content)]
  }

  /** Removed when `p` is deleted: `p`, and each ancestor below which there was nothing
      but the chain down to `p`. */
  ghost function Removed(t: Tree, p: Path): set<Path> {
    set q | q in t.Keys && q != [] && q <= p && OnlyChain(t, q, p)
  }

  ghost predicate OnlyChain(t: Tree, q: Path, p: Path) {
    forall r | r in t && q <= r :: r <= p
  }

  ghost function DeleteTree(t: Tree, p: Path): Tree {
    t - Removed(t, p)
  }

  // ----- prefixes -----

  lemma TwoPrefixes(a: Path, b: Path, p: Path)
    requires a <= p && b <= p && |a| <= |b|
    ensures a <= b
  {
    assert a == p[..|a|] && b == p[..|b|];
    assert a == b[..|a|];
  }

  lemma {:induction false} PrefixPresent(t: Tree, q: Path, p: Path)
    requires WellFormed(t) && p in t && q <= p
    ensures q in t
    ensures q != p ==> t[q].Dir?
    decreases |p|
  {
    if |q| < |p| {
      TwoPrefixes(q, Parent(p), p);
      PrefixPresent(t, q, Parent(p));
    } else {
      assert q == p;
    }
  }

  lemma ChildPresent(t: Tree, d: Path, n: string)
    ensures n in Children(t, d) <==> d + [n] in t
  {
    if n in Children(t, d) {
      var q :| q in t.Keys && |q| == |d| + 1 && d <= q && q[|d|] == n;
      assert q == d + [n];
    }
    if d + [n] in t {
      var q := d + [n];
      assert q in t.Keys && |q| == |d| + 1 && d <= q && q[|d|] == n;
    }
  }

  // ----- PutTree -----

  lemma MakeDirsAt(t: Tree, p: Path, n: nat, q: Path)
    requires n <= |p| + 1
    ensures q in MakeDirs(t, p, n) <==> q in t || (q <= p && |q| < n)
    ensures q in MakeDirs(t, p, n) ==> MakeDirs(t, p, n)[q] == if q in t then t[q] else Dir
  {
    var made := map k | 0 <= k < n && p[..k] !in t :: p[..k] := Dir;
    if q <= p && |q| < n && q !in t {
      assert q == p[..|q|];
      assert q in made;
    }
    if q in made {
      var k :| 0 <= k < n && p[..k] !in t && q == p[..k];
      assert q <= p && |q| == k;
    }
  }

  /** The whole result of a PUT, path by path. */
  lemma PutTreeAt(t: Tree, p: Path, content: string, q: Path)
    ensures q in PutTree(t, p, content) <==> q in t || q <= p
    ensures q in PutTree(t, p, content) ==>
              PutTree(t, p, content)[q] ==
                if q == p then File(content) else if q in t then t[q] else Dir
  {
    hide MakeDirs;
    MakeDirsAt(t, p, |p|, q);
    assert p[..|p|] == p;
    assert q <= p ==> q == p[..|q|];
  }

  lemma PutTreeWellFormed(t: Tree, p: Path, content: string)
    requires WellFormed(t) && p != [] && Reachable(t, p)
    requires p in t ==> t[p].File?
    ensures WellFormed(PutTree(t, p, content))
  {
    var t' := PutTree(t, p, content);
    forall q { PutTreeAt(t, p, content, q); }
    forall q | q in t' && q != []
      ensures Parent(q) in t' && t'[Parent(q)].Dir?
    {
      if q <= p {
        assert Parent(q) <= p && Parent(q) < p;
      } else {
        assert q in t;
        assert Parent(q) != p;
      }
    }
  }

  lemma PutTreeNoEmptyDirs(t: Tree, p: Path, content: string)
    requires WellFormed(t) && p != [] && NoEmptyDirs(t)
    ensures NoEmptyDirs(PutTree(t, p, content))
  {
    hide PutTree, Children;
    var t' := PutTree(t, p, content);
    forall d | d in t' && t'[d].Dir? && d != []
      ensures Children(t', d) != {}
    {
      PutTreeAt(t, p, content, d);
      if d <= p {
        assert d == p[..|d|] && p == p[..|p|];
        HasChild(t, p, content, d, p[|d|]);
      } else {
        var n :| n in Children(t, d);
        ChildPresent(t, d, n);
        HasChild(t, p, content, d, n);
      }
    }
  }

  lemma HasChild(t: Tree, p: Path, content: string, d: Path, n: string)
    requires WellFormed(t)
    requires d + [n] in t || d + [n] <= p
    ensures n in Children(PutTree(t, p, content), d)
  {
    PutTreeAt(t, p, content, d + [n]);
    ChildPresent(PutTree(t, p, content), d, n);
  }

  /** One step of the walk: a name that exists, or is made. */
  lemma MakeDirsStep(t: Tree, p: Path, n: nat)
    requires n <= |p|
    ensures p[..n] in MakeDirs(t, p, n) <==> p[..n] in t
    ensures MakeDirs(t, p, n + 1) == if p[..n] in t then MakeDirs(t, p, n) else MakeDirs(t, p, n)[p[..n] := Dir]
  {
    hide MakeDirs;
    var s, s' := MakeDirs(t, p, n), MakeDirs(t, p, n + 1);
    var u := if p[..n] in t then s else s[p[..n] := Dir];
    MakeDirsAt(t, p, n, p[..n]);
    forall q
      ensures q in s' <==> q in u
      ensures q in s' ==> s'[q] == u[q]
    {
      MakeDirsAt(t, p, n, q);
      MakeDirsAt(t, p, n + 1, q);
      assert q <= p && |q| == n ==> q == p[..n];
    }
  }

  /** Once a component of the path is found, every earlier one was found too: nothing has
      been made. */
  lemma NothingMade(t: Tree, p: Path, n: nat)
    requires WellFormed(t) && n <= |p| && p[..n] in t
    ensures MakeDirs(t, p, n) == t && MakeDirs(t, p, n + 1) == t
  {
    forall k | 0 <= k <= n
      ensures p[..k] in t
    {
      assert p[..k] == p[..n][..k];
      PrefixPresent(t, p[..k], p[..n]);
    }
  }

  // ----- DeleteTree -----

  lemma RemovedDownward(t: Tree, p: Path, q: Path, r: Path)
    requires WellFormed(t) && p in t
    requires q in Removed(t, p) && q <= r && r <= p
    ensures r in Removed(t, p)
  {
    PrefixPresent(t, r, p);
    forall s | s in t && r <= s
      ensures s <= p
    {
      assert q <= s by { assert r == s[..|r|]; assert q == r[..|q|]; }
    }
  }

  lemma FileIsRemoved(t: Tree, p: Path)
    requires WellFormed(t) && p in t && t[p].File?
    ensures p in Removed(t, p)
  {
    forall r | r in t && p <= r
      ensures r <= p
    {
      PrefixPresent(t, p, r);
    }
  }

  lemma DeleteTreeWellFormed(t: Tree, p: Path)
    requires WellFormed(t) && p in t
    ensures WellFormed(DeleteTree(t, p))
  {
    var t' := DeleteTree(t, p);
    forall q | q in t' && q != []
      ensures Parent(q) in t' && t'[Parent(q)].Dir?
    {
      if Parent(q) in Removed(t, p) {
        assert Parent(q) <= q;
        assert q <= p;
        RemovedDownward(t, p, Parent(q), q);
        assert false;
      }
    }
  }

  /** A directory whose every child was removed was itself on a bare chain. */
  lemma EmptiedIsRemoved(t: Tree, p: Path, d: Path)
    requires WellFormed(t) && p in t && d < p
    requires d != []
    requires forall n | n in Children(t, d) :: d + [n] in Removed(t, p)
    ensures d in Removed(t, p)
  {
    PrefixPresent(t, d, p);
    forall r | r in t && d <= r
      ensures r <= p
    {
      if r != d {
        var c := r[..|d| + 1];
        PrefixPresent(t, c, r);
        assert c == d + [r[|d|]];
        ChildPresent(t, d, r[|d|]);
        assert c in Removed(t, p);
        assert c <= r;
      }
    }
  }

  lemma DeleteTreeNoEmptyDirs(t: Tree, p: Path)
    requires WellFormed(t) && p in t && NoEmptyDirs(t)
    ensures NoEmptyDirs(DeleteTree(t, p))
  {
    var t' := DeleteTree(t, p);
    forall d | d in t' && t'[d].Dir? && d != []
      ensures Children(t', d) != {}
    {
      if Children(t', d) == {} {
        forall n | n in Children(t, d)
          ensures d + [n] in Removed(t, p)
        {
          ChildPresent(t, d, n);
          ChildPresent(t', d, n);
        }
        var n :| n in Children(t, d);
        assert d + [n] <= p;
        assert d < p;
        EmptiedIsRemoved(t, p, d);
        assert false;
      }
    }
  }

  /** `t` after the climb from `p` has removed what it removes below length `k + 1`. */
  ghost function Climbed(t: Tree, p: Path, k: nat): Tree {
    t - set q | q in Removed(t, p) && |q| > k
  }

  lemma ClimbStarts(t: Tree, p: Path)
    requires WellFormed(t) && p in t && t[p].File?
    ensures p != [] && Climbed(t, p, |p| - 1) == t - {p}
  {
    FileIsRemoved(t, p);
    forall q | q in Removed(t, p) && |q| > |p| - 1
      ensures q == p
    {
    }
    assert (set q | q in Removed(t, p) && |q| > |p| - 1) == {p};
  }

  lemma ClimbAt(t: Tree, p: Path, k: nat, q: Path)
    ensures q in Climbed(t, p, k) <==> q in t && !(q in Removed(t, p) && |q| > k)
    ensures q in Climbed(t, p, k) ==> Climbed(t, p, k)[q] == t[q]
  {
  }

  /** At each directory of the climb: it has become empty exactly if it belongs to the
      removed ones; if it has not, the climb is complete. */
  lemma ClimbStep(t: Tree, p: Path, k: nat)
    requires WellFormed(t) && p in t && t[p].File? && 1 <= k < |p|
    ensures var d := p[..k]; var now := Climbed(t, p, k);
            && d in now && now[d].Dir?
            && (Children(now, d) == {} <==> d in Removed(t, p))
            && (Children(now, d) == {} ==> Climbed(t, p, k - 1) == now - {d})
            && (Children(now, d) != {} ==> now == DeleteTree(t, p))
  {
    hide Climbed, Children, Removed;
    var d, now := p[..k], Climbed(t, p, k);
    PrefixPresent(t, d, p);
    ClimbAt(t, p, k, d);
    if d in Removed(t, p) {
      ClimbEmptied(t, p, k);
    } else {
      ClimbBlocked(t, p, k);
    }
  }

  lemma ClimbEmptied(t: Tree, p: Path, k: nat)
    requires WellFormed(t) && p in t && 1 <= k < |p| && p[..k] in Removed(t, p)
    ensures Children(Climbed(t, p, k), p[..k]) == {}
    ensures Climbed(t, p, k - 1) == Climbed(t, p, k) - {p[..k]}
  {
    var d, now, next := p[..k], Climbed(t, p, k), Climbed(t, p, k - 1);
    forall n
      ensures n !in Children(now, d)
    {
      RemovedChild(t, p, k, n);
    }
    forall q
      ensures q in next <==> q in now && q != d
      ensures q in next ==> next[q] == now[q]
    {
      hide Climbed, Removed;
      ClimbAt(t, p, k, q);
      ClimbAt(t, p, k - 1, q);
      RemovedPrefix(t, p, q);
      assert |q| == k ==> p[..|q|] == d;
    }
    assert next == now - {d};
  }

  lemma RemovedPrefix(t: Tree, p: Path, q: Path)
    ensures q in Removed(t, p) ==> q in t && |q| <= |p| && q == p[..|q|]
  {
  }

  lemma RemovedChild(t: Tree, p: Path, k: nat, n: string)
    requires WellFormed(t) && p in t && k < |p| && p[..k] in Removed(t, p)
    ensures n !in Children(Climbed(t, p, k), p[..k])
  {
    hide Climbed, Children;
    var d, c := p[..k], p[..k] + [n];
    ChildPresent(Climbed(t, p, k), d, n);
    ClimbAt(t, p, k, c);
    assert d <= c;
    if c in t {
      assert c <= p;
      RemovedDownward(t, p, d, c);
    }
  }

  lemma ClimbBlocked(t: Tree, p: Path, k: nat)
    requires WellFormed(t) && p in t && 1 <= k < |p| && p[..k] !in Removed(t, p)
    ensures Children(Climbed(t, p, k), p[..k]) != {}
    ensures Climbed(t, p, k) == DeleteTree(t, p)
  {
    hide Children;
    var d, now := p[..k], Climbed(t, p, k);
    if Children(now, d) == {} {
      forall n | n in Children(t, d)
        ensures d + [n] in Removed(t, p)
      {
        ChildPresent(t, d, n);
        ChildPresent(now, d, n);
      }
      EmptiedIsRemoved(t, p, d);
    }
    forall q | q in Removed(t, p)
      ensures |q| > k
    {
      if |q| <= k {
        TwoPrefixes(q, d, p);
        RemovedDownward(t, p, q, d);
      }
    }
  }

  lemma ClimbEnds(t: Tree, p: Path)
    ensures Climbed(t, p, 0) == DeleteTree(t, p)
  {
    assert (set q | q in Removed(t, p) && |q| > 0) == Removed(t, p);
  }

  // ----- PUT and DELETE undo each other -----

  /** The deepest ancestor of `p` that exists. */
  ghost predicate DeepestExisting(t: Tree, a: Path, p: Path) {
    a in t && a < p && forall q | q in t && q < p :: q <= a
  }

  lemma {:induction false} DeepestExistingExists(t: Tree, p: Path, k: nat) returns (a: Path)
    requires WellFormed(t) && p !in t && k < |p|
    requires forall q | q in t && q < p :: |q| <= k
    ensures DeepestExisting(t, a, p)
    decreases k
  {
    a := p[..k];
    if a in t {
      forall q | q in t && q < p
        ensures q <= a
      {
        TwoPrefixes(q, a, p);
      }
    } else {
      assert k != 0;
      forall q | q in t && q < p
        ensures |q| <= k - 1
      {
        assert q == p[..|q|];
      }
      a := DeepestExistingExists(t, p, k - 1);
    }
  }

  lemma CreatedAreRemoved(t: Tree, p: Path, content: string, q: Path)
    requires WellFormed(t) && p !in t
    requires q !in t && q <= p
    ensures q in Removed(PutTree(t, p, content), p)
  {
    var t1 := PutTree(t, p, content);
    PutTreeAt(t, p, content, q);
    forall r | r in t1 && q <= r
      ensures r <= p
    {
      PutTreeAt(t, p, content, r);
      if r in t { PrefixPresent(t, q, r); }
    }
  }

  lemma OldAreKept(t: Tree, p: Path, content: string, a: Path, q: Path)
    requires WellFormed(t) && p !in t && q in t
    requires DeepestExisting(t, a, p)
    requires a == [] || Children(t, a) != {}
    ensures q !in Removed(PutTree(t, p, content), p)
  {
    assert q != p;
    if q != [] && q <= p {
      assert q < p by { assert q == p[..|q|] && p == p[..|p|]; }
      assert q <= a && a != [];
      var n :| n in Children(t, a);
      ChildPresent(t, a, n);
      OffTheChain(t, p, a, n);
      PutTreeAt(t, p, content, a + [n]);
      assert q <= a + [n];
    }
  }

  lemma OffTheChain(t: Tree, p: Path, a: Path, n: string)
    requires p !in t && DeepestExisting(t, a, p) && a + [n] in t
    ensures !(a + [n] <= p)
  {
    var c := a + [n];
    assert c in t && c != p && p == p[..|p|];
    assert c <= p ==> c < p;
  }

  lemma EmptyAncestorIsLost(t: Tree, p: Path, content: string, a: Path)
    requires WellFormed(t) && p !in t
    requires DeepestExisting(t, a, p)
    requires a != [] && Children(t, a) == {}
    ensures a in Removed(PutTree(t, p, content), p)
  {
    var t1 := PutTree(t, p, content);
    PutTreeAt(t, p, content, a);
    forall r | r in t1 && a <= r
      ensures r <= p
    {
      PutTreeAt(t, p, content, r);
      if r in t && r != a {
        var c := r[..|a| + 1];
        PrefixPresent(t, c, r);
        assert c == a + [r[|a|]];
        ChildPresent(t, a, r[|a|]);
        assert false;
      }
    }
  }

  /** After a PUT has created `p`, deleting `p` restores the tree exactly, if and only
      if the deepest directory the PUT found is the root or was not empty. */
  lemma PutThenDelete(t: Tree, p: Path, content: string, a: Path)
    requires WellFormed(t) && p !in t
    requires DeepestExisting(t, a, p)
    ensures DeleteTree(PutTree(t, p, content), p) == t
            <==> a == [] || Children(t, a) != {}
  {
    var t2 := DeleteTree(PutTree(t, p, content), p);
    if a == [] || Children(t, a) != {} {
      forall q
        ensures q in t2 <==> q in t
        ensures q in t ==> t2[q] == t[q]
      {
        PutTreeAt(t, p, content, q);
        if q in t {
          OldAreKept(t, p, content, a, q);
        } else if q <= p {
          CreatedAreRemoved(t, p, content, q);
        }
      }
    } else {
      EmptyAncestorIsLost(t, p, content, a);
      assert a !in t2;
    }
  }

  /** On a tree without empty directories a PUT that creates and a DELETE cancel out. */
  lemma PutThenDeleteRestores(t: Tree, p: Path, content: string)
    requires WellFormed(t) && NoEmptyDirs(t) && p !in t && Reachable(t, p)
    ensures DeleteTree(PutTree(t, p, content), p) == t
  {
    assert p != [];
    var a := DeepestExistingExists(t, p, |p| - 1);
    assert t[a].Dir?;
    PutThenDelete(t, p, content, a);
  }

  /** Deleting a file and putting its content back restores every well-formed tree. */
  lemma DeleteThenPutRestores(t: Tree, p: Path)
    requires WellFormed(t) && p in t && t[p].File?
    ensures PutTree(DeleteTree(t, p), p, t[p].content) == t
  {
    var t1 := DeleteTree(t, p);
    DeleteTreeWellFormed(t, p);
    FileIsRemoved(t, p);
    var t2 := PutTree(t1, p, t[p].content);
    forall q
      ensures q in t2 <==> q in t
      ensures q in t ==> t2[q] == t[q]
    {
      PutTreeAt(t1, p, t[p].content, q);
      if q <= p { PrefixPresent(t, q, p); }
    }
  }
}
