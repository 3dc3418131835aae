/** Whole runs of requests. The server handles one request at a time, so every
    interleaving of clients is a sequence of requests.
 */
module Runs {
  import opened Strings
  import opened FileTree
  import opened Merkle
  import opened Attributes
  import opened Json
  import opened Storage

  // ----- one request -----

  /** A request that changes the tree is a PUT or DELETE of a document answered 200 or 201. */
  ghost predicate Writes(h: Hashing, s: Settings, t: Tree, r: Request)
    requires Proper(h)
  {
    r.verb in {PUT, DELETE} && Serve(h, s, t, r).status in {200, 201}
  }

  /** What a write amounts to. Requests here name places of the tree. On disk paths with
      "." or ".." a request answered 500 can change the tree as well, and leave an empty
      directory (DotStopsClimb and ParentLeavesEmptyDir in module DiskPaths). */
  lemma WriteCases(h: Hashing, s: Settings, t: Tree, r: Request)
    requires Proper(h) && WellFormed(t)
    ensures var e, p := Serve(h, s, t, r), r.target.Location();
            if !Writes(h, s, t, r) then e.tree == t
            else && r.target.Document? && p != []
                 && (r.verb == PUT ==> Reachable(t, p) && (p in t ==> t[p].File?) && e.tree == PutTree(t, p, r.body))
                 && (r.verb == DELETE ==> p in t && t[p].File? && p != [] && e.tree == DeleteTree(t, p))
  {
    hide PutTree, DeleteTree, Tag, Print, ListingMembers, Reachable, WellFormed;
    match r.verb
    case PUT =>
    case DELETE =>
    case GET =>
    case HEAD =>
  }

  /** The status of every PUT: the preconditions first, then what is in the way. */
  lemma PutStatus(h: Hashing, s: Settings, t: Tree, r: Request)
    requires Proper(h) && WellFormed(t) && r.verb == PUT
    ensures var status, p := Serve(h, s, t, r).status, r.target.Location();
            if r.target.Folder? then status == 400
            else if r.ifMatch.Some? && (p !in t || r.ifMatch.value != Tag(h, t, p)) then status == 412
            else if r.ifNoneMatch == Some("*") && p in t then status == 412
            else if exists d :: d < p && d in t && t[d].File? then status == 400
            else status == if p !in t then 201 else if t[p].File? then 200 else 500
  {
    hide PutTree, Tag, WellFormed, Reachable;
    if r.target.Document? && !PutPreconditionFails(h, t, r.target.Location(), r) {
      PutResult(h, s, t, r, []);
    }
  }

  /** The status and tag of every DELETE. */
  lemma DeleteStatuses(h: Hashing, s: Settings, t: Tree, r: Request)
    requires Proper(h) && r.verb == DELETE
    ensures var e, p := Serve(h, s, t, r), r.target.Location();
            if r.target.Folder? then e.status == 400
            else if p !in t then e.status == 404
            else if t[p].Dir? then e.status == 400
            else if r.ifMatch.Some? && r.ifMatch.value != h.digest(t[p].content) then e.status == 412
            else e.status == 200 && e.etag == Some(h.digest(t[p].content))
  {
    hide DeleteTree;
    var p := r.target.Location();
    if p in t && t[p].File? {
      TagOfFile(h, t, p);
    }
  }

  /** The status, tag and body of every GET of a document, and of every HEAD. */
  lemma ReadStatuses(h: Hashing, s: Settings, t: Tree, r: Request)
    requires Proper(h) && r.verb in {GET, HEAD}
    ensures var e, p := Serve(h, s, t, r), r.target.Location();
            && e.tree == t
            && if r.verb == HEAD && !s.experimental then e.status == 405
               else if p !in t || (t[p].Dir? <==> r.target.Document?) then e.status == 404
               else if r.ifNoneMatch == Some(Tag(h, t, p)) && !(r.verb == GET && r.target.Folder?) then e.status == 304
               else && e.status == 200 && e.etag == Some(Tag(h, t, p))
                    && (r.verb == HEAD ==> e.body == "")
                    && (r.verb == GET && r.target.Document? ==> File(e.body) == t[p])
  {
    hide Tag, Print, ListingMembers;
  }

  /** The whole result of a PUT of a document whose preconditions hold: 400 exactly if a
      file is in the way, 500 exactly if the target is a directory, else 201 exactly if the
      target was absent; and every node of the new tree. */
  lemma PutResult(h: Hashing, s: Settings, t: Tree, r: Request, q: Path)
    requires Proper(h) && WellFormed(t) && r.verb == PUT && r.target.Document?
    requires !PutPreconditionFails(h, t, r.target.Location(), r)
    ensures var e, p := Serve(h, s, t, r), r.target.Location();
            && (e.status == 400 <==> exists d :: d < p && d in t && t[d].File?)
            && (e.status == 500 <==> p in t && t[p].Dir?)
            && (e.status == 201 <==> p !in t && e.status != 400)
            && (e.status == 200 <==> p in t && t[p].File?)
            && e.status in {200, 201, 400, 500}
            && if e.status in {400, 500} then e.tree == t
               else && (q in e.tree <==> q in t || q <= p)
                    && (q in e.tree ==> e.tree[q] == if q == p then File(r.body) else if q in t then t[q] else Dir)
                    && e.etag == Some(Tag(h, e.tree, p))
  {
    hide PutTree, Tag, WellFormed;
    var p := r.target.Location();
    PutTreeAt(t, p, r.body, q);
    PutTreeAt(t, p, r.body, p);
    TagOfFile(h, PutTree(t, p, r.body), p);
    if p in t {
      forall d | d < p && d in t
        ensures t[d].Dir?
      {
        PrefixPresent(t, d, p);
      }
    }
    if !Reachable(t, p) {
      var d :| d in t && d < p && t[d].File?;
      assert d < p && d in t && t[d].File?;
    }
  }

  /** The whole result of a successful DELETE: gone are the document and the directories
      above it that held nothing else, never the root. */
  lemma DeleteResult(h: Hashing, s: Settings, t: Tree, r: Request, q: Path)
    requires Proper(h) && WellFormed(t) && r.verb == DELETE && Serve(h, s, t, r).status == 200
    ensures var t', p := Serve(h, s, t, r).tree, r.target.Location();
            && (q in t' <==> q in t && (q == [] || !(q <= p) || exists m :: m in t && q <= m && !(m <= p)))
            && (q in t' ==> t'[q] == t[q])
            && p !in t' && [] in t'
  {
    hide Tag;
    var p := r.target.Location();
    FileIsRemoved(t, p);
    if q in t && q != [] && q <= p && !OnlyChain(t, q, p) {
      var m :| m in t && q <= m && !(m <= p);
      assert m in t && q <= m && !(m <= p);
    }
  }

  lemma StepKeepsWellFormed(h: Hashing, s: Settings, t: Tree, r: Request)
    requires Proper(h) && WellFormed(t)
    ensures WellFormed(Serve(h, s, t, r).tree)
  {
    hide Serve, PutTree, DeleteTree;
    WriteCases(h, s, t, r);
    if Writes(h, s, t, r) {
      if r.verb == PUT {
        PutTreeWellFormed(t, r.target.Location(), r.body);
      } else {
        DeleteTreeWellFormed(t, r.target.Location());
      }
    }
  }

  /** For requests that name places of the tree, as above. */
  lemma StepKeepsNoEmptyDirs(h: Hashing, s: Settings, t: Tree, r: Request)
    requires Proper(h) && WellFormed(t) && NoEmptyDirs(t)
    ensures NoEmptyDirs(Serve(h, s, t, r).tree)
  {
    hide Serve, PutTree, DeleteTree, NoEmptyDirs;
    WriteCases(h, s, t, r);
    if Writes(h, s, t, r) {
      if r.verb == PUT {
        PutTreeNoEmptyDirs(t, r.target.Location(), r.body);
      } else {
        DeleteTreeNoEmptyDirs(t, r.target.Location());
      }
    }
  }

  /** One request changes the tag of a node that is there before and after exactly if it
      changes the tree and the node is on the way to the document written. */
  lemma TagsTrackChanges(h: Hashing, s: Settings, t: Tree, r: Request, q: Path)
    requires Proper(h) && WellFormed(t)
    requires NoCollision(h, Inputs(h, t) + Inputs(h, Serve(h, s, t, r).tree))
    requires q in t && q in Serve(h, s, t, r).tree
    ensures Tag(h, t, q) != Tag(h, Serve(h, s, t, r).tree, q)
            <==> Serve(h, s, t, r).tree != t && q <= r.target.Location()
  {
    hide Serve, PutTree, DeleteTree, WellFormed;
    var t', p := Serve(h, s, t, r).tree, r.target.Location();
    WriteCases(h, s, t, r);
    if Writes(h, s, t, r) {
      if r.verb == PUT {
        if p in t && t[p].content == r.body {
          SamePut(t, p, r.body);
        } else {
          PutChangesTags(h, t, p, r.body, q);
          PutTreeAt(t, p, r.body, p);
        }
      } else {
        DeleteChangesTags(h, t, p, q);
        FileIsRemoved(t, p);
        DeleteTreeLacks(t, p);
      }
    }
  }

  lemma DeleteTreeLacks(t: Tree, p: Path)
    requires p in t && p in Removed(t, p)
    ensures DeleteTree(t, p) != t
  {
    assert p !in DeleteTree(t, p);
  }

  lemma SamePut(t: Tree, p: Path, content: string)
    requires WellFormed(t) && p in t && t[p] == File(content)
    ensures PutTree(t, p, content) == t
  {
    forall q
      ensures q in PutTree(t, p, content) <==> q in t
      ensures q in t ==> PutTree(t, p, content)[q] == t[q]
    {
      PutTreeAt(t, p, content, q);
      if q <= p { PrefixPresent(t, q, p); }
    }
  }

  // ----- runs -----

  /** The tree before request `i`. */
  ghost function TreeAt(h: Hashing, s: Settings, t: Tree, rs: seq<Request>, i: nat): Tree
    requires Proper(h) && i <= |rs|
  {
    if i == 0 then t else Serve(h, s, TreeAt(h, s, t, rs, i - 1), rs[i - 1]).tree
  }

  /** The answer to request `i`. */
  ghost function EffectAt(h: Hashing, s: Settings, t: Tree, rs: seq<Request>, i: nat): Effect
    requires Proper(h) && i < |rs|
  {
    Serve(h, s, TreeAt(h, s, t, rs, i), rs[i])
  }

  /** No reachable tree has an empty directory below its root. */
  lemma {:induction false} RunKeepsInvariants(h: Hashing, s: Settings, t: Tree, rs: seq<Request>, i: nat)
    requires Proper(h) && i <= |rs| && WellFormed(t)
    ensures WellFormed(TreeAt(h, s, t, rs, i))
    ensures NoEmptyDirs(t) ==> NoEmptyDirs(TreeAt(h, s, t, rs, i))
  {
    hide Serve, WellFormed, NoEmptyDirs;
    if i > 0 {
      RunKeepsInvariants(h, s, t, rs, i - 1);
      StepKeepsWellFormed(h, s, TreeAt(h, s, t, rs, i - 1), rs[i - 1]);
      if NoEmptyDirs(t) {
        StepKeepsNoEmptyDirs(h, s, TreeAt(h, s, t, rs, i - 1), rs[i - 1]);
      }
    }
  }

  // ----- conditional writes -----

  /** Answer `i` told a client that the document at `p` has this content and this tag. */
  ghost predicate Learned(h: Hashing, s: Settings, t: Tree, rs: seq<Request>, i: nat, p: Path, content: string, tag: string)
    requires Proper(h) && i < |rs|
  {
    var e, r := EffectAt(h, s, t, rs, i), rs[i];
    && r.target.Document? && r.target.Location() == p && e.etag == Some(tag)
    && (|| (r.verb == GET && e.status == 200 && e.body == content)
        || (r.verb == PUT && e.status in {200, 201} && r.body == content))
  }

  /** The string hashed for `content` collides with nothing in `t`. */
  ghost predicate Distinct(h: Hashing, t: Tree, content: string)
    requires Proper(h)
  {
    NoCollision(h, Inputs(h, t) + {content})
  }

  /** The tag learned is the digest of the content learned. */
  lemma LearnedTag(h: Hashing, s: Settings, t: Tree, rs: seq<Request>, i: nat, p: Path, content: string, tag: string)
    requires Proper(h) && i < |rs| && Learned(h, s, t, rs, i, p, content, tag)
    ensures tag == h.digest(content)
  {
    var now := TreeAt(h, s, t, rs, i);
    hide TreeAt, Tag;
    if rs[i].verb == GET {
      TagOfFile(h, now, p);
    }
  }

  /** A PUT or DELETE carrying a learned tag that is answered 200 acts on exactly the
      content learned, however the requests in between were interleaved. */
  lemma NoLostUpdate(h: Hashing, s: Settings, t: Tree, rs: seq<Request>, i: nat, j: nat, p: Path, content: string, tag: string)
    requires Proper(h) && i < |rs| && j < |rs|
    requires Learned(h, s, t, rs, i, p, content, tag)
    requires Distinct(h, TreeAt(h, s, t, rs, j), content)
    requires rs[j].verb in {PUT, DELETE} && rs[j].target.Location() == p && rs[j].ifMatch == Some(tag)
    requires EffectAt(h, s, t, rs, j).status == 200
    ensures p in TreeAt(h, s, t, rs, j) && TreeAt(h, s, t, rs, j)[p] == File(content)
  {
    LearnedTag(h, s, t, rs, i, p, content, tag);
    var now := TreeAt(h, s, t, rs, j);
    hide TreeAt;
    assert p in now && now[p].File? && Tag(h, now, p) == tag;
    InputsContain(h, now, p);
  }

  /** The answer to such a request without If-None-Match in every case: 200 exactly if the
      document still holds the content learned. */
  lemma RefusedOnlyWhenChanged(h: Hashing, s: Settings, t: Tree, rs: seq<Request>, i: nat, j: nat, p: Path, content: string, tag: string)
    requires Proper(h) && i < |rs| && j < |rs| && WellFormed(t)
    requires Learned(h, s, t, rs, i, p, content, tag)
    requires Distinct(h, TreeAt(h, s, t, rs, j), content)
    requires rs[j].verb in {PUT, DELETE} && rs[j].target.Document? && rs[j].target.Location() == p
    requires rs[j].ifMatch == Some(tag) && rs[j].ifNoneMatch.None?
    ensures var now := TreeAt(h, s, t, rs, j); var status := EffectAt(h, s, t, rs, j).status; var delete := rs[j].verb == DELETE;
            if p !in now then status == if delete then 404 else 412
            else if now[p].Dir? then status == if delete then 400 else if Tag(h, now, p) == tag then 500 else 412
            else if now[p] == File(content) then status == 200
            else status == 412
  {
    LearnedTag(h, s, t, rs, i, p, content, tag);
    RunKeepsInvariants(h, s, t, rs, j);
    var now := TreeAt(h, s, t, rs, j);
    hide TreeAt, Tag, PutTree, DeleteTree;
    if p in now {
      InputsContain(h, now, p);
      ExistingIsReachable(now, p);
      if now[p].File? {
        TagOfFile(h, now, p);
      }
    }
  }

  lemma ExistingIsReachable(t: Tree, p: Path)
    requires WellFormed(t) && p in t
    ensures Reachable(t, p)
  {
    forall d | d < p && d in t
      ensures t[d].Dir?
    {
      PrefixPresent(t, d, p);
    }
  }

  /** A conditional read of a document with a learned tag is answered 304 exactly when the
      document still holds the content learned, so a client's copy is never stale. */
  lemma NotModifiedIff(h: Hashing, s: Settings, t: Tree, rs: seq<Request>, i: nat, j: nat, p: Path, content: string, tag: string)
    requires Proper(h) && i < |rs| && j < |rs|
    requires Learned(h, s, t, rs, i, p, content, tag)
    requires Distinct(h, TreeAt(h, s, t, rs, j), content)
    requires rs[j].verb == GET || (rs[j].verb == HEAD && s.experimental)
    requires rs[j].target.Document? && rs[j].target.Location() == p && rs[j].ifNoneMatch == Some(tag)
    ensures var now := TreeAt(h, s, t, rs, j);
            EffectAt(h, s, t, rs, j).status == 304 <==> p in now && now[p] == File(content)
  {
    LearnedTag(h, s, t, rs, i, p, content, tag);
    var now := TreeAt(h, s, t, rs, j);
    hide TreeAt, Print, ListingMembers;
    if p in now {
      InputsContain(h, now, p);
    }
  }

  /** A HEAD, where it is allowed, has no body, and the status and tag of the same GET except
      for a folder whose tag is in If-None-Match: only HEAD looks at it. */
  lemma HeadMatchesGet(h: Hashing, s: Settings, t: Tree, get: Request, head: Request)
    requires Proper(h) && s.experimental
    requires get.verb == GET && head.verb == HEAD
    requires head.target == get.target && head.ifNoneMatch == get.ifNoneMatch
    ensures var g, e, p := Serve(h, s, t, get), Serve(h, s, t, head), get.target.Location();
            && e.tree == g.tree && e.body == ""
            && (e.status == g.status && e.etag == g.etag <==>
                !(get.target.Folder? && Present(t, get.target) && get.ifNoneMatch == Some(Tag(h, t, p))))
  {
    hide Tag, Print, ListingMembers;
  }

  /** Request `k` deleted the document at `p`. */
  ghost predicate Deletes(h: Hashing, s: Settings, t: Tree, rs: seq<Request>, k: nat, p: Path)
    requires Proper(h) && k < |rs|
  {
    rs[k].verb == DELETE && rs[k].target.Location() == p && EffectAt(h, s, t, rs, k).status == 200
  }

  lemma FileSurvivesStep(h: Hashing, s: Settings, t: Tree, r: Request, p: Path)
    requires Proper(h) && WellFormed(t) && p in t && t[p].File?
    requires !(r.verb == DELETE && r.target.Location() == p && Serve(h, s, t, r).status == 200)
    ensures p in Serve(h, s, t, r).tree && Serve(h, s, t, r).tree[p].File?
  {
    hide Serve, PutTree, WellFormed, DeleteTree;
    WriteCases(h, s, t, r);
    var q := r.target.Location();
    if Writes(h, s, t, r) {
      if r.verb == PUT {
        PutTreeAt(t, q, r.body, p);
      } else {
        assert Serve(h, s, t, r).status == 200 by { DeleteStatus(h, s, t, r); }
        OtherFileKept(t, q, p);
      }
    }
  }

  lemma DeleteStatus(h: Hashing, s: Settings, t: Tree, r: Request)
    requires Proper(h) && r.verb == DELETE
    ensures Serve(h, s, t, r).status != 201
  {
    hide DeleteTree, Tag;
  }

  lemma OtherFileKept(t: Tree, q: Path, p: Path)
    requires WellFormed(t) && q in t && p in t && t[p].File? && p != q
    ensures p in DeleteTree(t, q) && DeleteTree(t, q)[p] == t[p]
  {
    if p <= q {
      PrefixPresent(t, p, q);
    }
  }

  lemma {:induction false} FileSurvives(h: Hashing, s: Settings, t: Tree, rs: seq<Request>, i: nat, j: nat, p: Path)
    requires Proper(h) && WellFormed(t) && i <= j <= |rs|
    requires p in TreeAt(h, s, t, rs, i) && TreeAt(h, s, t, rs, i)[p].File?
    requires forall k | i <= k < j :: !Deletes(h, s, t, rs, k, p)
    ensures p in TreeAt(h, s, t, rs, j) && TreeAt(h, s, t, rs, j)[p].File?
    decreases j - i
  {
    hide Serve, WellFormed;
    if i < j {
      FileSurvives(h, s, t, rs, i, j - 1, p);
      RunKeepsInvariants(h, s, t, rs, j - 1);
      assert !Deletes(h, s, t, rs, j - 1, p);
      FileSurvivesStep(h, s, TreeAt(h, s, t, rs, j - 1), rs[j - 1], p);
    }
  }

  /** A PUT that demands that the document does not exist. */
  ghost predicate Creates(h: Hashing, s: Settings, t: Tree, rs: seq<Request>, k: nat, p: Path)
    requires Proper(h) && k < |rs|
  {
    && rs[k].verb == PUT && rs[k].target.Location() == p && rs[k].ifNoneMatch == Some("*")
    && EffectAt(h, s, t, rs, k).status in {200, 201}
  }

  lemma CreateStep(h: Hashing, s: Settings, t: Tree, r: Request)
    requires Proper(h) && r.verb == PUT && r.ifNoneMatch == Some("*")
    requires Serve(h, s, t, r).status in {200, 201}
    ensures r.target.Location() !in t && Serve(h, s, t, r).status == 201
    ensures var p := r.target.Location(); p in Serve(h, s, t, r).tree && Serve(h, s, t, r).tree[p].File?
  {
    PutTreeAt(t, r.target.Location(), r.body, r.target.Location());
  }

  /** Of two creating PUTs of one document that both succeed, the first is undone by a
      DELETE in between: between two deletions at most one succeeds. */
  lemma AtMostOneCreate(h: Hashing, s: Settings, t: Tree, rs: seq<Request>, i: nat, j: nat, p: Path)
    requires Proper(h) && WellFormed(t) && i < j < |rs|
    requires Creates(h, s, t, rs, i, p) && Creates(h, s, t, rs, j, p)
    ensures exists k :: i < k < j && Deletes(h, s, t, rs, k, p)
  {
    hide Serve, WellFormed;
    CreateStep(h, s, TreeAt(h, s, t, rs, i), rs[i]);
    CreateStep(h, s, TreeAt(h, s, t, rs, j), rs[j]);
    if forall k | i + 1 <= k < j :: !Deletes(h, s, t, rs, k, p) {
      FileSurvives(h, s, t, rs, i + 1, j, p);
    }
  }

  // ----- reading what was written, and undoing it -----

  /** A GET right after a successful PUT returns the body put, under the tag the PUT
      answered; a GET of any other document returns what it would have before. */
  lemma GetAfterPut(h: Hashing, s: Settings, t: Tree, put: Request, get: Request)
    requires Proper(h) && WellFormed(t)
    requires put.verb == PUT && Serve(h, s, t, put).status in {200, 201}
    requires get.verb == GET && get.target.Document? && get.ifNoneMatch.None?
    ensures var before, after := Serve(h, s, t, get), Serve(h, s, Serve(h, s, t, put).tree, get);
            if get.target.Location() == put.target.Location() then
              after.status == 200 && after.body == put.body && after.etag == Serve(h, s, t, put).etag
            else after.status == before.status && after.body == before.body && after.etag == before.etag
  {
    WriteCases(h, s, t, put);
    var p, q := put.target.Location(), get.target.Location();
    hide PutTree, Tag;
    PutTreeAt(t, p, put.body, q);
    if Present(PutTree(t, p, put.body), get.target) {
      TagOfFile(h, PutTree(t, p, put.body), q);
    }
    if Present(t, get.target) {
      TagOfFile(h, t, q);
    }
  }

  /** On a tree without empty directories, a PUT answered 201 and a DELETE of the same
      document leave the tree exactly as it was. */
  lemma DeleteUndoesPut(h: Hashing, s: Settings, t: Tree, put: Request, del: Request)
    requires Proper(h) && WellFormed(t) && NoEmptyDirs(t)
    requires put.verb == PUT && Serve(h, s, t, put).status == 201
    requires del.verb == DELETE && del.target == put.target && del.ifMatch.None?
    ensures Serve(h, s, Serve(h, s, t, put).tree, del).status == 200
    ensures Serve(h, s, Serve(h, s, t, put).tree, del).tree == t
  {
    hide PutTree, DeleteTree, Tag, WellFormed, NoEmptyDirs, Reachable;
    var p := put.target.Location();
    PutTreeAt(t, p, put.body, p);
    PutThenDeleteRestores(t, p, put.body);
  }

  /** A DELETE answered 200 and a PUT of the deleted content restore every well-formed
      tree, and the PUT is answered 201. */
  lemma PutUndoesDelete(h: Hashing, s: Settings, t: Tree, del: Request, put: Request)
    requires Proper(h) && WellFormed(t)
    requires del.verb == DELETE && Serve(h, s, t, del).status == 200
    requires put.verb == PUT && put.target == del.target && put.ifMatch.None?
    requires t[del.target.Location()] == File(put.body)
    ensures Serve(h, s, Serve(h, s, t, del).tree, put).status == 201
    ensures Serve(h, s, Serve(h, s, t, del).tree, put).tree == t
  {
    hide PutTree, DeleteTree, Tag, WellFormed, Reachable;
    var p := del.target.Location();
    ReachableAfterDelete(t, p);
    DeleteThenPutRestores(t, p);
  }

  lemma ReachableAfterDelete(t: Tree, p: Path)
    requires WellFormed(t) && p in t && t[p].File?
    ensures p !in DeleteTree(t, p) && Reachable(DeleteTree(t, p), p)
  {
    FileIsRemoved(t, p);
    forall q | q in t && q < p
      ensures t[q].Dir?
    {
      PrefixPresent(t, q, p);
    }
  }

  /** The body of a directory GET parses back to the listing exactly if no name in the
      directory has a control character (tags being printable). */
  lemma ListingRoundTrip(h: Hashing, s: Settings, t: Tree, r: Request)
    requires Proper(h) && forall x :: Clean(h.digest(x))
    requires r.verb == GET && r.target.Folder? && Serve(h, s, t, r).status == 200
    ensures var d := r.target.Location(); var listing := Obj(ListingMembers(h, t, d));
            ParseValue(Serve(h, s, t, r).body) == Some((listing, ""))
            <==> forall n | n in Children(t, d) :: Clean(n)
  {
    var d := r.target.Location();
    var names, members := Listing(h, t, d), ListingMembers(h, t, d);
    assert Serve(h, s, t, r).body == Print(Obj(members)) + "";
    PrintRoundTrip(Obj(members), "");
    forall i | 0 <= i < |names|
      ensures Clean(members[i].key) && Supported(members[i].value) <==> Clean(names[i])
    {
      CleanKey(names[i], t[d + [names[i]]].Dir?);
    }
    assert Supported(Obj(members)) <==> forall i | 0 <= i < |names| :: Clean(names[i]) by {
      assert forall i | 0 <= i < |names| :: members[i] in members;
    }
  }

  /** What a client reads off a folder: an object with pairwise distinct keys, one for each
      child, the name with a slash for a directory and without for a file, and as value the
      child's current tag. */
  lemma FolderIsListed(h: Hashing, s: Settings, t: Tree, r: Request) returns (members: seq<Member>)
    requires Proper(h) && forall x :: Clean(h.digest(x))
    requires r.verb == GET && r.target.Folder? && Serve(h, s, t, r).status == 200
    requires forall n | n in Children(t, r.target.Location()) :: Clean(n) && '/' !in n
    ensures ParseValue(Serve(h, s, t, r).body) == Some((Obj(members), ""))
    ensures |members| == |Children(t, r.target.Location())|
    ensures forall i, j | 0 <= i < j < |members| :: members[i].key != members[j].key
    ensures var names := h.order(Children(t, r.target.Location()));
            |members| == |names| && forall i | 0 <= i < |names| :: names[i] <= members[i].key
    ensures var d := r.target.Location();
            forall n | n in Children(t, d) ::
              && d + [n] in t
              && (Member(n + "/", Str(Tag(h, t, d + [n]))) in members <==> t[d + [n]].Dir?)
              && (Member(n, Str(Tag(h, t, d + [n]))) in members <==> t[d + [n]].File?)
  {
    var d := r.target.Location();
    ListingRoundTrip(h, s, t, r);
    members := ListingMembers(h, t, d);
    var names := Listing(h, t, d);
    ListingLength(names, Children(t, d));
    hide Serve, Print, ParseValue, Tag;
    forall i | 0 <= i < |names|
      ensures names[i] in Children(t, d)
      ensures members[i] == Member(names[i] + (if t[d + [names[i]]].Dir? then "/" else ""), Str(Tag(h, t, d + [names[i]])))
    {
    }
    forall i, j | 0 <= i < j < |members|
      ensures members[i].key != members[j].key
    {
      KeysDiffer(names[i], t[d + [names[i]]].Dir?, names[j], t[d + [names[j]]].Dir?);
    }
    forall n | n in Children(t, d)
      ensures d + [n] in t
      ensures Member(n + "/", Str(Tag(h, t, d + [n]))) in members <==> t[d + [n]].Dir?
      ensures Member(n, Str(Tag(h, t, d + [n]))) in members <==> t[d + [n]].File?
    {
      ChildPresent(t, d, n);
      assert n in names;
      var k :| 0 <= k < |names| && names[k] == n;
      assert members[k] in members;
      forall i | 0 <= i < |names| && (members[i].key == n || members[i].key == n + "/")
        ensures names[i] == n
      {
        KeyOfChild(names[i], t[d + [names[i]]].Dir?, n);
      }
      assert n + "" == n && n + "/" != n;
    }
  }

  lemma KeysDiffer(a: string, aDir: bool, b: string, bDir: bool)
    requires a != b && '/' !in a && '/' !in b
    ensures a + (if aDir then "/" else "") != b + (if bDir then "/" else "")
  {
    KeyOfChild(a, aDir, b);
    assert b + "" == b;
  }

  lemma KeyOfChild(a: string, aDir: bool, b: string)
    requires '/' !in a && '/' !in b
    ensures var key := a + (if aDir then "/" else ""); key == b || key == b + "/" ==> a == b
  {
    var key := a + (if aDir then "/" else "");
    SpanUntilIs(key, '/', |a|);
    SpanUntilIs(b, '/', |b|);
    SpanUntilIs(b + "/", '/', |b|);
    assert key[..|a|] == a && (b + "/")[..|b|] == b && b[..|b|] == b;
  }

  lemma CleanKey(n: string, isDir: bool)
    ensures Clean(n + (if isDir then "/" else "")) <==> Clean(n)
  {
    var key := n + (if isDir then "/" else "");
    assert forall i | 0 <= i < |n| :: key[i] == n[i];
  }

  // ----- the handlers run the model -----

  /** A content type without any mime type makes the source dereference a null pointer. */
  predicate Acceptable(r: Request) {
    r.contentType.Some? ==> HasMime(r.contentType.value)
  }

  method Handle(disk: Disk, s: Settings, r: Request) returns (resp: Response)
    requires disk.Valid() && Acceptable(r)
    modifies disk
    ensures disk.Valid()
    ensures Gives(disk, resp, Serve(disk.hashing, s, old(disk.tree), r))
  {
    match r.verb {
      case PUT => resp := Put(disk, s, r);
      case DELETE => resp := Delete(disk, s, r);
      case GET => resp := Get(disk, s, r);
      case HEAD => resp := Head(disk, s, r);
    }
  }

  lemma Unfold(h: Hashing, s: Settings, t: Tree, rs: seq<Request>, i: nat)
    requires Proper(h) && i <= |rs|
    ensures TreeAt(h, s, t, rs, 0) == t
    ensures i < |rs| ==> EffectAt(h, s, t, rs, i) == Serve(h, s, TreeAt(h, s, t, rs, i), rs[i])
    ensures i < |rs| ==> TreeAt(h, s, t, rs, i + 1) == EffectAt(h, s, t, rs, i).tree
  {
    hide Serve;
  }

  predicate Answers(resp: Response, e: Effect) {
    resp.status == e.status && resp.etag == e.etag && resp.body == e.body
  }

  /** The responses so far are the answers of the model. */
  ghost predicate Answered(h: Hashing, s: Settings, t: Tree, rs: seq<Request>, resps: seq<Response>)
    requires Proper(h)
  {
    |resps| <= |rs| && forall i | 0 <= i < |resps| :: Answers(resps[i], EffectAt(h, s, t, rs, i))
  }

  lemma AnsweredSnoc(h: Hashing, s: Settings, t: Tree, rs: seq<Request>, resps: seq<Response>, resp: Response)
    requires Proper(h) && Answered(h, s, t, rs, resps) && |resps| < |rs|
    requires Answers(resp, EffectAt(h, s, t, rs, |resps|))
    ensures Answered(h, s, t, rs, resps + [resp])
  {
    hide EffectAt, Answers;
  }

  /** Whatever attributes are stored along the way, a run of the handlers gives the
      answers of the run of the model. */
  method Run(disk: Disk, s: Settings, rs: seq<Request>) returns (resps: seq<Response>)
    requires disk.Valid()
    requires forall i | 0 <= i < |rs| :: Acceptable(rs[i])
    modifies disk
    ensures disk.Valid() && |resps| == |rs|
    ensures disk.tree == TreeAt(disk.hashing, s, old(disk.tree), rs, |rs|)
    ensures Answered(disk.hashing, s, old(disk.tree), rs, resps)
  {
    ghost var h, t := disk.hashing, disk.tree;
    assert Proper(h);
    hide Serve, Disk.Valid, Acceptable, TreeAt, EffectAt, Answered;
    resps := [];
    Unfold(h, s, t, rs, 0);
    for i := 0 to |rs|
      invariant disk.Valid() && |resps| == i
      invariant disk.tree == TreeAt(h, s, t, rs, i)
      invariant Answered(h, s, t, rs, resps)
    {
      var resp := Turn(disk, s, rs, i, t);
      AnsweredSnoc(h, s, t, rs, resps, resp);
      resps := resps + [resp];
    }
  }

  /** One request of a run. */
  method Turn(disk: Disk, s: Settings, rs: seq<Request>, i: nat, ghost t: Tree) returns (resp: Response)
    requires disk.Valid() && i < |rs| && Acceptable(rs[i])
    requires Proper(disk.hashing) && disk.tree == TreeAt(disk.hashing, s, t, rs, i)
    modifies disk
    ensures disk.Valid() && disk.tree == TreeAt(disk.hashing, s, t, rs, i + 1)
    ensures Answers(resp, EffectAt(disk.hashing, s, t, rs, i))
  {
    hide Serve, Disk.Valid, Acceptable, TreeAt, EffectAt;
    Unfold(disk.hashing, s, t, rs, i);
    resp := Handle(disk, s, rs[i]);
  }

  /** The content type of a GET after a successful PUT is the normalised one, or guessed
      when the mime type is too long to be read back. */
  method TypeAfterPut(disk: Disk, s: Settings, put: Request, get: Request) returns (resp: Response)
    requires disk.Valid() && put.verb == PUT && get.verb == GET
    requires put.contentType.Some? ==> HasMime(put.contentType.value)
    requires get.target == put.target && get.ifNoneMatch.None?
    requires Serve(disk.hashing, s, disk.tree, put).status in {200, 201}
    modifies disk
    ensures resp.status == 200 && resp.body == put.body
    ensures var sent := put.contentType.GetOr(OCTET_STREAM);
            resp.contentType == Some(Normalised(sent).GetOr(s.guess(put.body).GetOr(OCTET_STREAM)))
  {
    hide PutTree, Tag, Reachable, WellFormed, Normalised;
    GetAfterPut(disk.hashing, s, disk.tree, put, get);
    var written := Put(disk, s, put);
    resp := Get(disk, s, get);
  }
}
