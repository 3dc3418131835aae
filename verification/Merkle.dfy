/** Version tags: a file's tag is the digest of its content, a directory's tag the digest
    of its children's 40-character tags in directory order. Names are not hashed.
 */
module Merkle {
  import opened FileTree

  const TAG_LENGTH := 40

  /** The digest (in hex) and the order in which a directory yields its names. */
  datatype Hashing = Hashing(digest: string -> string, order: set<string> -> seq<string>)

  ghost predicate IsListing(names: seq<string>, of: set<string>) {
    && (forall n :: n in names <==> n in of)
    && forall i, j | 0 <= i < j < |names| :: names[i] != names[j]
  }

  ghost predicate Proper(h: Hashing) {
    && (forall s :: |h.digest(s)| == TAG_LENGTH)
    && forall names :: IsListing(h.order(names), names)
  }

  /** No two different strings among `inputs` have the same digest. */
  ghost predicate NoCollision(h: Hashing, inputs: set<string>) {
    forall x, y | x in inputs && y in inputs && h.digest(x) == h.digest(y) :: x == y
  }

  ghost function Below(t: Tree, p: Path): set<Path> {
    set q | q in t.Keys && p <= q
  }

  lemma BelowChild(t: Tree, p: Path, n: string)
    requires p in t
    ensures Below(t, p + [n]) < Below(t, p)
  {
    assert p in Below(t, p) && p !in Below(t, p + [n]);
    forall q | q in Below(t, p + [n])
      ensures q in Below(t, p)
    {
      Through(p, p + [n], q);
    }
  }

  lemma Through(a: Path, b: Path, c: Path)
    requires a <= b && b <= c
    ensures a <= c
  {
    assert b == c[..|b|] && a == b[..|a|];
  }

  ghost function Tag(h: Hashing, t: Tree, p: Path): (tag: string)
    requires Proper(h) && p in t
    ensures |tag| == TAG_LENGTH
    decreases Below(t, p), 2
  {
    h.digest(Preimage(h, t, p))
  }

  /** The string that is hashed for the node at `p`. */
  ghost function Preimage(h: Hashing, t: Tree, p: Path): string
    requires Proper(h) && p in t
    decreases Below(t, p), 1
  {
    match t[p]
    case File(content) => content
    case Dir => Tags(h, t, p, Listing(h, t, p))
  }

  /** The names in directory `p`, in directory order. */
  ghost function Listing(h: Hashing, t: Tree, p: Path): (names: seq<string>)
    requires Proper(h)
    ensures IsListing(names, Children(t, p))
    ensures forall n | n in names :: p + [n] in t
  {
    var names := h.order(Children(t, p));
    assert forall n | n in names :: p + [n] in t by {
      forall n | n in names ensures p + [n] in t { ChildPresent(t, p, n); }
    }
    names
  }

  ghost function Tags(h: Hashing, t: Tree, p: Path, names: seq<string>): (s: string)
    requires Proper(h) && p in t
    requires forall n | n in names :: p + [n] in t
    ensures |s| == TAG_LENGTH * |names|
    decreases Below(t, p), 0, |names|
  {
    if names == [] then ""
    else
      BelowChild(t, p, names[0]);
      Tag(h, t, p + [names[0]]) + Tags(h, t, p, names[1..])
  }

  lemma TagOfFile(h: Hashing, t: Tree, p: Path)
    requires Proper(h) && p in t && t[p].File?
    ensures Tag(h, t, p) == h.digest(t[p].content)
  {
  }

  /** Everything that is hashed while the tags of `t` are computed. */
  ghost function Inputs(h: Hashing, t: Tree): set<string>
    requires Proper(h)
  {
    set p | p in t.Keys :: Preimage(h, t, p)
  }

  // ----- tags depend on the subtree only -----

  ghost predicate SameBelow(t: Tree, t': Tree, p: Path) {
    forall q | p <= q :: (q in t <==> q in t') && (q in t ==> t[q] == t'[q])
  }

  lemma SameBelowChild(t: Tree, t': Tree, p: Path, n: string)
    requires SameBelow(t, t', p)
    ensures SameBelow(t, t', p + [n])
    ensures n in Children(t, p) <==> n in Children(t', p)
  {
    ChildPresent(t, p, n);
    ChildPresent(t', p, n);
    forall q | p + [n] <= q
      ensures (q in t <==> q in t') && (q in t ==> t[q] == t'[q])
    {
      Through(p, p + [n], q);
    }
  }

  lemma {:induction false} SameTag(h: Hashing, t: Tree, t': Tree, p: Path)
    requires Proper(h) && p in t && p in t' && SameBelow(t, t', p)
    ensures Tag(h, t, p) == Tag(h, t', p)
    decreases Below(t, p), 2
  {
    if t[p].Dir? {
      forall n { SameBelowChild(t, t', p, n); }
      assert Children(t, p) == Children(t', p);
      SameTags(h, t, t', p, Listing(h, t, p));
    }
  }

  lemma {:induction false} SameTags(h: Hashing, t: Tree, t': Tree, p: Path, names: seq<string>)
    requires Proper(h) && p in t && p in t' && SameBelow(t, t', p)
    requires forall n | n in names :: p + [n] in t && p + [n] in t'
    ensures Tags(h, t, p, names) == Tags(h, t', p, names)
    decreases Below(t, p), 0, |names|
  {
    if names != [] {
      BelowChild(t, p, names[0]);
      SameBelowChild(t, t', p, names[0]);
      SameTag(h, t, t', p + [names[0]]);
      SameTags(h, t, t', p, names[1..]);
    }
  }

  // ----- directories: equal concatenations have equal parts -----

  lemma {:induction false} TagsSplit(h: Hashing, t: Tree, t': Tree, p: Path, names: seq<string>, names': seq<string>)
    requires Proper(h) && p in t && p in t'
    requires forall n | n in names :: p + [n] in t
    requires forall n | n in names' :: p + [n] in t'
    ensures Tags(h, t, p, names) == Tags(h, t', p, names') <==>
            && |names| == |names'|
            && forall i | 0 <= i < |names| :: Tag(h, t, p + [names[i]]) == Tag(h, t', p + [names'[i]])
    decreases |names|
  {
    var s, s' := Tags(h, t, p, names), Tags(h, t', p, names');
    if |names| == |names'| && names != [] {
      var a, a' := Tag(h, t, p + [names[0]]), Tag(h, t', p + [names'[0]]);
      TagsSplit(h, t, t', p, names[1..], names'[1..]);
      assert s[..TAG_LENGTH] == a && s'[..TAG_LENGTH] == a';
      assert s[TAG_LENGTH..] == Tags(h, t, p, names[1..]);
      assert s'[TAG_LENGTH..] == Tags(h, t', p, names'[1..]);
      assert forall i | 0 < i < |names| :: names[i] == names[1..][i - 1] && names'[i] == names'[1..][i - 1];
    }
  }

  /** Without collisions, a directory's tag is unchanged exactly when the sequence of its
      children's tags is. */
  lemma DirectoryTagIff(h: Hashing, t: Tree, t': Tree, p: Path)
    requires Proper(h) && p in t && p in t' && t[p].Dir? && t'[p].Dir?
    requires NoCollision(h, Inputs(h, t) + Inputs(h, t'))
    ensures Tag(h, t, p) == Tag(h, t', p) <==>
            var names, names' := Listing(h, t, p), Listing(h, t', p);
            && |names| == |names'|
            && forall i | 0 <= i < |names| :: Tag(h, t, p + [names[i]]) == Tag(h, t', p + [names'[i]])
  {
    InputsContain(h, t, p);
    InputsContain(h, t', p);
    TagsSplit(h, t, t', p, Listing(h, t, p), Listing(h, t', p));
  }

  /** Without collisions, tags agree exactly when what is hashed does, whether the nodes are
      files or directories. */
  lemma TagsAgreeIff(h: Hashing, t: Tree, t': Tree, p: Path, q: Path)
    requires Proper(h) && p in t && q in t'
    requires NoCollision(h, Inputs(h, t) + Inputs(h, t'))
    ensures Tag(h, t, p) == Tag(h, t', q) <==> Preimage(h, t, p) == Preimage(h, t', q)
  {
    InputsContain(h, t, p);
    InputsContain(h, t', q);
  }

  lemma InputsContain(h: Hashing, t: Tree, p: Path)
    requires Proper(h) && p in t
    ensures Preimage(h, t, p) in Inputs(h, t)
  {
  }

  // ----- one write, all the way up -----

  /** `t` and `t'` agree except possibly on the way from the root to `p`. */
  ghost predicate DifferOnPathTo(t: Tree, t': Tree, p: Path) {
    forall q | !(q <= p) :: (q in t <==> q in t') && (q in t ==> t[q] == t'[q])
  }

  /** The file at `p` was created, removed, or given a different content. */
  ghost predicate FileChanged(t: Tree, t': Tree, p: Path) {
    && Reachable(t, p) && Reachable(t', p)
    && (p in t ==> t[p].File?)
    && (p in t' ==> t'[p].File?)
    && (p in t || p in t')
    && (p in t && p in t' ==> t[p] != t'[p])
  }

  lemma UntouchedTag(h: Hashing, t: Tree, t': Tree, p: Path, q: Path)
    requires Proper(h) && DifferOnPathTo(t, t', p) && q in t && q in t' && !(q <= p)
    ensures Tag(h, t, q) == Tag(h, t', q)
  {
    forall r | q <= r
      ensures (r in t <==> r in t') && (r in t ==> t[r] == t'[r])
    {
      if r <= p { Through(q, r, p); }
    }
    SameTag(h, t, t', q);
  }

  lemma OtherChildren(t: Tree, t': Tree, p: Path, d: Path, n: string)
    requires DifferOnPathTo(t, t', p) && d < p && n != p[|d|]
    ensures n in Children(t, d) <==> n in Children(t', d)
  {
    assert (d + [n])[|d|] == n;
    ChildPresent(t, d, n);
    ChildPresent(t', d, n);
  }

  lemma {:induction false} ListingLength(names: seq<string>, of: set<string>)
    requires IsListing(names, of)
    ensures |names| == |of|
    decreases |names|
  {
    if names == [] {
      assert of == {};
    } else {
      var rest := names[1..];
      forall n
        ensures n in rest <==> n in of - {names[0]}
      {
        if n in of - {names[0]} {
          var i :| 0 <= i < |names| && names[i] == n;
          assert rest[i - 1] == n;
        }
      }
      ListingLength(rest, of - {names[0]});
    }
  }

  /** A child more or a child less makes the hashed string longer or shorter. */
  lemma ChildAppears(h: Hashing, t: Tree, t': Tree, p: Path, d: Path)
    requires Proper(h) && DifferOnPathTo(t, t', p)
    requires d < p && d in t && d in t' && t[d].Dir? && t'[d].Dir?
    requires d + [p[|d|]] in t <==> d + [p[|d|]] !in t'
    ensures |Preimage(h, t, d)| != |Preimage(h, t', d)|
  {
    var n := p[|d|];
    ChildPresent(t, d, n);
    ChildPresent(t', d, n);
    forall m | m != n ensures m in Children(t, d) <==> m in Children(t', d) {
      OtherChildren(t, t', p, d, m);
    }
    var a, b := Children(t, d), Children(t', d);
    ListingLength(Listing(h, t, d), a);
    ListingLength(Listing(h, t', d), b);
    if n in a {
      assert b == a - {n};
    } else {
      assert a == b - {n};
    }
  }

  /** A child whose tag changed changes the hashed string. */
  lemma ChildChanges(h: Hashing, t: Tree, t': Tree, p: Path, d: Path)
    requires Proper(h) && DifferOnPathTo(t, t', p)
    requires d < p && d in t && d in t' && t[d].Dir? && t'[d].Dir?
    requires var c := d + [p[|d|]]; c in t && c in t' && Tag(h, t, c) != Tag(h, t', c)
    ensures Preimage(h, t, d) != Preimage(h, t', d)
  {
    var n := p[|d|];
    ChildPresent(t, d, n);
    ChildPresent(t', d, n);
    forall m | m != n ensures m in Children(t, d) <==> m in Children(t', d) {
      OtherChildren(t, t', p, d, m);
    }
    assert Children(t, d) == Children(t', d);
    var names := Listing(h, t, d);
    assert names == Listing(h, t', d);
    var i :| 0 <= i < |names| && names[i] == n;
    TagsSplit(h, t, t', d, names, names);
  }

  lemma {:induction false} WrittenTag(h: Hashing, t: Tree, t': Tree, p: Path, q: Path)
    requires Proper(h) && WellFormed(t) && WellFormed(t')
    requires DifferOnPathTo(t, t', p) && FileChanged(t, t', p)
    requires NoCollision(h, Inputs(h, t) + Inputs(h, t'))
    requires q <= p && q in t && q in t'
    ensures Tag(h, t, q) != Tag(h, t', q)
    decreases |p| - |q|
  {
    InputsContain(h, t, q);
    InputsContain(h, t', q);
    if |q| < |p| {
      assert q < p;
      var c := q + [p[|q|]];
      assert c <= p;
      if c in t && c in t' {
        WrittenTag(h, t, t', p, c);
        ChildChanges(h, t, t', p, q);
      } else {
        if p in t { PrefixPresent(t, c, p); } else { PrefixPresent(t', c, p); }
        ChildAppears(h, t, t', p, q);
      }
    } else {
      assert q == p;
    }
  }

  /** A single write changes the tag of the file written (if it is there before and
      after) and of every surviving directory above it, and no other tag. */
  lemma WriteChangesTags(h: Hashing, t: Tree, t': Tree, p: Path, q: Path)
    requires Proper(h) && WellFormed(t) && WellFormed(t')
    requires DifferOnPathTo(t, t', p) && FileChanged(t, t', p)
    requires NoCollision(h, Inputs(h, t) + Inputs(h, t'))
    requires q in t && q in t'
    ensures Tag(h, t, q) != Tag(h, t', q) <==> q <= p
  {
    if q <= p {
      WrittenTag(h, t, t', p, q);
    } else {
      UntouchedTag(h, t, t', p, q);
    }
  }

  /** A PUT that creates a file or changes its content. */
  lemma PutChangesTags(h: Hashing, t: Tree, p: Path, content: string, q: Path)
    requires Proper(h) && WellFormed(t) && p != [] && Reachable(t, p)
    requires p in t ==> t[p].File? && t[p].content != content
    requires NoCollision(h, Inputs(h, t) + Inputs(h, PutTree(t, p, content)))
    requires q in t
    ensures q in PutTree(t, p, content)
    ensures Tag(h, t, q) != Tag(h, PutTree(t, p, content), q) <==> q <= p
  {
    hide PutTree;
    var t' := PutTree(t, p, content);
    PutTreeWellFormed(t, p, content);
    forall r { PutTreeAt(t, p, content, r); }
    WriteChangesTags(h, t, t', p, q);
  }

  /** A DELETE of a file. */
  lemma DeleteChangesTags(h: Hashing, t: Tree, p: Path, q: Path)
    requires Proper(h) && WellFormed(t) && p in t && t[p].File?
    requires NoCollision(h, Inputs(h, t) + Inputs(h, DeleteTree(t, p)))
    requires q in DeleteTree(t, p)
    ensures Tag(h, t, q) != Tag(h, DeleteTree(t, p), q) <==> q <= p
  {
    var t' := DeleteTree(t, p);
    DeleteTreeWellFormed(t, p);
    FileIsRemoved(t, p);
    forall r | r < p && r in t ensures t[r].Dir? { PrefixPresent(t, r, p); }
    WriteChangesTags(h, t, t', p, q);
  }

  /** Names are not hashed: two directories that hold the same content under different
      names have the same tag, so a directory's tag does not determine its listing. */
  lemma TagIgnoresNames(h: Hashing, content: string, a: string, b: string)
    requires Proper(h) && a != b
    ensures var t, t' := PutTree(map[[] := Dir], [a], content), PutTree(map[[] := Dir], [b], content);
            && t != t' && [] in t && [] in t'
            && Tag(h, t, []) == Tag(h, t', [])
  {
    var t, t' := PutTree(map[[] := Dir], [a], content), PutTree(map[[] := Dir], [b], content);
    OneFile(h, content, a);
    OneFile(h, content, b);
    assert [a] in t && [a] !in t';
    TagsSplit(h, t, t', [], [a], [b]);
  }

  lemma OneFile(h: Hashing, content: string, a: string)
    requires Proper(h)
    ensures var t := PutTree(map[[] := Dir], [a], content);
            && t == map[[] := Dir, [a] := File(content)]
            && Listing(h, t, []) == [a]
            && Tag(h, t, [] + [a]) == h.digest(content)
  {
    var t := PutTree(map[[] := Dir], [a], content);
    forall q { PutTreeAt(map[[] := Dir], [a], content, q); }
    assert t == map[[] := Dir, [a] := File(content)];
    forall n ensures n in Children(t, []) <==> n == a { ChildPresent(t, [], n); assert [] + [n] == [n]; }
    assert Children(t, []) == {a};
    var names := Listing(h, t, []);
    ListingLength(names, {a});
    assert [] + [a] == [a];
  }

  /** Files and directories are not told apart either: a file that holds the concatenation
      of a directory's child tags has that directory's tag. */
  lemma FileTaggedLikeDirectory(h: Hashing, t: Tree, d: Path, p: Path)
    requires Proper(h) && d in t && t[d].Dir? && !(d <= p) && !(p <= d)
    ensures var t' := PutTree(t, p, Preimage(h, t, d));
            && d in t' && t'[d].Dir? && p in t' && t'[p].File?
            && Tag(h, t', p) == Tag(h, t', d)
  {
    hide PutTree;
    var content := Preimage(h, t, d);
    var t' := PutTree(t, p, content);
    forall q { PutTreeAt(t, p, content, q); }
    TagOfFile(h, t', p);
    UntouchedTag(h, t, t', p, d);
  }

  // ----- the string hashed for a directory -----

  lemma {:induction false} TagsAt(h: Hashing, t: Tree, p: Path, names: seq<string>, i: nat)
    requires Proper(h) && p in t && i < |names|
    requires forall n | n in names :: p + [n] in t
    ensures |Tags(h, t, p, names)| == TAG_LENGTH * |names|
    ensures Tags(h, t, p, names)[TAG_LENGTH * i..TAG_LENGTH * (i + 1)] == Tag(h, t, p + [names[i]])
    decreases i
  {
    var first, others := Tag(h, t, p + [names[0]]), Tags(h, t, p, names[1..]);
    var all := Tags(h, t, p, names);
    assert all == first + others;
    if i == 0 {
      assert all[..TAG_LENGTH] == first;
    } else {
      TagsAt(h, t, p, names[1..], i - 1);
      assert all[TAG_LENGTH * i..TAG_LENGTH * (i + 1)] == others[TAG_LENGTH * (i - 1)..TAG_LENGTH * i];
    }
  }

  /** For a directory the tags of its children are hashed in directory order, 40 characters
      each. */
  lemma DirectoryPreimage(h: Hashing, t: Tree, p: Path, i: nat)
    requires Proper(h) && p in t && t[p].Dir? && i < |h.order(Children(t, p))|
    ensures var names := h.order(Children(t, p));
            && |Preimage(h, t, p)| == 40 * |names|
            && p + [names[i]] in t
            && Preimage(h, t, p)[40 * i..40 * (i + 1)] == Tag(h, t, p + [names[i]])
  {
    var names := h.order(Children(t, p));
    assert names == Listing(h, t, p) && names[i] in names;
    TagsAt(h, t, p, names, i);
  }

  /** Two documents: their digests in directory order. */
  lemma TwoDocuments(h: Hashing, a: string, b: string, c: string, d: string)
    requires Proper(h) && a != b && h.order({a, b}) == [a, b]
    ensures var t: Tree := map[[] := Dir, [a] := File(c), [b] := File(d)];
            Tag(h, t, []) == h.digest(h.digest(c) + h.digest(d))
  {
    var t: Tree := map[[] := Dir, [a] := File(c), [b] := File(d)];
    forall n
      ensures n in Children(t, []) <==> n in {a, b}
    {
      ChildPresent(t, [], n);
      assert [] + [n] == [n];
    }
    assert Children(t, []) == {a, b};
    DirectoryPreimage(h, t, [], 0);
    DirectoryPreimage(h, t, [], 1);
    assert [] + [a] == [a] && [] + [b] == [b];
    TagOfFile(h, t, [a]);
    TagOfFile(h, t, [b]);
    var s := Preimage(h, t, []);
    assert s == s[0..40] + s[40..80];
  }
}
