/** Storage requests on any path that stays in the storage root. Module Storage has the
    handlers on places of the tree; on disk a path may also go through "." and "..", which
    the walks and the climb of src/handler/storage.c then meet name by name.
 */
module DiskPaths {
  import opened Strings
  import opened FileTree
  import opened Merkle
  import opened Attributes
  import opened Storage

  // ----- places on disk -----

  predicate IsDots(n: string) {
    n == "." || n == ".."
  }

  /** From the directory `at` one name on; None is above the storage root. */
  function Step(at: Path, n: string): Option<Path> {
    if n == "." then Some(at)
    else if n == ".." then (if at == [] then None else Some(Parent(at)))
    else Some(at + [n])
  }

  /** The place that the names lead to from `at`; there are no symbolic links. */
  function OnDisk(at: Path, names: seq<string>): Option<Path>
    decreases |names|
  {
    if names == [] then Some(at)
    else
      match Step(at, names[0])
      case None => None
      case Some(next) => OnDisk(next, names[1..])
  }

  /** Going down from `depth`, the names never lead above where depth is 0. */
  predicate NeverClimbs(depth: nat, names: seq<string>)
    decreases |names|
  {
    if names == [] then true
    else if names[0] == "." then NeverClimbs(depth, names[1..])
    else if names[0] == ".." then depth > 0 && NeverClimbs(depth - 1, names[1..])
    else NeverClimbs(depth + 1, names[1..])
  }

  /** Every place on the way is `base` or below it. */
  ghost predicate StaysIn(base: Path, at: Path, names: seq<string>) {
    forall k | 0 <= k <= |names| :: InAfter(base, at, names, k)
  }

  predicate InAfter(base: Path, at: Path, names: seq<string>, k: nat)
    requires k <= |names|
  {
    OnDisk(at, names[..k]).Some? && base <= OnDisk(at, names[..k]).value
  }

  lemma OnDiskFirst(at: Path, names: seq<string>, k: nat)
    requires 0 < k <= |names|
    ensures OnDisk(at, names[..k]) ==
            match Step(at, names[0])
            case None => None
            case Some(next) => OnDisk(next, names[1..][..k - 1])
  {
    assert names[..k][1..] == names[1..][..k - 1];
  }

  lemma StaysFirst(base: Path, at: Path, names: seq<string>)
    requires names != [] && base <= at
    ensures StaysIn(base, at, names) <==>
            var next := Step(at, names[0]); next.Some? && base <= next.value && StaysIn(base, next.value, names[1..])
  {
    hide OnDisk;
    var next := Step(at, names[0]);
    assert OnDisk(at, names[..0]) == Some(at) by { OnDiskNothing(at, names); }
    OnDiskFirst(at, names, 1);
    forall k | 0 < k <= |names|
      ensures InAfter(base, at, names, k) <==> next.Some? && InAfter(base, next.value, names[1..], k - 1)
    {
      OnDiskFirst(at, names, k);
    }
    if next.Some? {
      OnDiskNothing(next.value, names[1..]);
      forall k | 0 <= k <= |names[1..]|
        ensures InAfter(base, next.value, names[1..], k) <==> InAfter(base, at, names, k + 1)
      {
        OnDiskFirst(at, names, k + 1);
      }
      assert InAfter(base, at, names, 1) <==> InAfter(base, next.value, names[1..], 0);
    } else {
      assert !InAfter(base, at, names, 1);
    }
  }

  lemma OnDiskNothing(at: Path, names: seq<string>)
    ensures OnDisk(at, names[..0]) == Some(at)
  {
  }

  /** A walk from below `base` stays in it exactly if it never climbs above it. */
  lemma {:induction false} StaysIff(base: Path, extra: Path, names: seq<string>)
    ensures StaysIn(base, base + extra, names) <==> NeverClimbs(|extra|, names)
    decreases |names|
  {
    hide StaysIn;
    if names == [] {
      StaysHere(base, base + extra);
    } else {
      StaysFirst(base, base + extra, names);
      if names[0] == "." {
        StaysIff(base, extra, names[1..]);
      } else if names[0] == ".." {
        if extra != [] {
          assert Parent(base + extra) == base + Parent(extra);
          StaysIff(base, Parent(extra), names[1..]);
        } else {
          assert base + extra == base;
        }
      } else {
        assert base + extra + [names[0]] == base + (extra + [names[0]]);
        StaysIff(base, extra + [names[0]], names[1..]);
      }
    }
  }

  lemma StaysHere(base: Path, at: Path)
    ensures StaysIn(base, at, []) <==> base <= at
  {
    assert InAfter(base, at, [], 0) <==> base <= at;
  }

  lemma {:induction false} OnDiskAppend(at: Path, a: seq<string>, b: seq<string>)
    ensures OnDisk(at, a + b) ==
            match OnDisk(at, a)
            case None => None
            case Some(p) => OnDisk(p, b)
    decreases |a|
  {
    if a == [] {
      assert a + b == b;
    } else {
      assert (a + b)[1..] == a[1..] + b;
      if Step(at, a[0]).Some? {
        OnDiskAppend(Step(at, a[0]).value, a[1..], b);
      }
    }
  }

  /** Names without dots lead to themselves. */
  lemma {:induction false} OnDiskPlain(at: Path, names: seq<string>)
    requires forall n | n in names :: !IsDots(n)
    ensures OnDisk(at, names) == Some(at + names)
    decreases |names|
  {
    if names == [] {
      assert at + names == at;
    } else {
      assert names[0] in names && at + [names[0]] + names[1..] == at + names;
      OnDiskPlain(at + [names[0]], names[1..]);
    }
  }

  lemma {:induction false} PlainNeverClimbs(depth: nat, names: seq<string>)
    requires forall n | n in names :: !IsDots(n)
    ensures NeverClimbs(depth, names)
    decreases |names|
  {
    if names != [] {
      assert names[0] in names;
      PlainNeverClimbs(depth + 1, names[1..]);
    }
  }

  /** The names, all of which stay in the storage root, lead somewhere. */
  lemma InRootLeads(names: seq<string>, k: nat)
    requires NeverClimbs(0, names) && k <= |names|
    ensures OnDisk([], names[..k]).Some?
  {
    var root: Path := [];
    assert root + root == root;
    StaysIff(root, root, names);
    assert InAfter([], [], names, k);
  }

  /** The names lead through `n`, or to it. */
  ghost predicate Visits(at: Path, names: seq<string>, n: Path) {
    exists k :: 0 < k <= |names| && OnDisk(at, names[..k]) == Some(n)
  }

  lemma VisitsFirst(at: Path, names: seq<string>, n: Path)
    requires names != [] && Step(at, names[0]).Some?
    ensures Visits(at, names, Step(at, names[0]).value)
    ensures Visits(Step(at, names[0]).value, names[1..], n) ==> Visits(at, names, n)
  {
    var next := Step(at, names[0]).value;
    OnDiskFirst(at, names, 1);
    OnDiskNothing(next, names[1..]);
    if Visits(next, names[1..], n) {
      var k :| 0 < k <= |names[1..]| && OnDisk(next, names[1..][..k]) == Some(n);
      OnDiskFirst(at, names, k + 1);
    }
  }

  // ----- requests -----

  /** A disk path: its names, whether it ends in a slash, and whether the request path did. */
  datatype Spot = Spot(names: seq<string>, slash: bool, folder: bool)

  datatype DiskRequest = DiskRequest(verb: Verb, spot: Spot, ifMatch: Option<string>, ifNoneMatch: Option<string>,
                                     contentType: Option<string>, body: string)
  {
    function At(target: Target): Request {
      Request(verb, target, ifMatch, ifNoneMatch, contentType, body)
    }
  }

  /** What the model covers: disk paths that stay in the storage root, unless they are not
      looked at; and folder listings with a slash to put names behind. */
  predicate Covered(r: DiskRequest) {
    match r.verb
    case GET => NeverClimbs(0, r.spot.names) && (r.spot.folder ==> r.spot.slash)
    case HEAD => NeverClimbs(0, r.spot.names)
    case _ => r.spot.folder || NeverClimbs(0, r.spot.names)
  }

  /** The kernel's lookup: every place on the way has to be an existing directory. */
  function LookUp(t: Tree, at: Path, names: seq<string>): (r: Option<Path>)
    ensures r.Some? ==> r.value in t
    decreases |names|
  {
    if at !in t then None
    else if names == [] then Some(at)
    else if t[at].File? then None
    else
      match Step(at, names[0])
      case None => None
      case Some(next) => LookUp(t, next, names[1..])
  }

  /** stat(): a path that ends in a slash is found only if it leads to a directory. */
  function Found(t: Tree, spot: Spot): (r: Option<Path>)
    ensures r.Some? ==> r.value in t
  {
    match LookUp(t, [], spot.names)
    case None => None
    case Some(p) => if spot.slash && t[p].File? then None else Some(p)
  }

  function Front(names: seq<string>): seq<string> {
    if names == [] then [] else names[..|names| - 1]
  }

  // ----- PUT -----

  /** The walk's result: the tree with the directories made, 0 or the status of a refusal,
      and the directory reached. */
  datatype Walked = Walked(tree: Tree, status: int, at: Path)

  function WalkTree(t: Tree, at: Path, names: seq<string>): Walked
    requires OnDisk(at, names).Some?
    decreases |names|
  {
    if names == [] then Walked(t, 0, at)
    else
      var next := Step(at, names[0]).value;
      if next in t && t[next].File? then Walked(t, 400, at)
      else WalkTree(if next in t then t else t[next := Dir], next, names[1..])
  }

  ghost predicate PutFails(h: Hashing, t: Tree, r: DiskRequest)
    requires Proper(h)
  {
    var found := Found(t, r.spot);
    || (r.ifMatch.Some? && (found.None? || Tag(h, t, found.value) != r.ifMatch.value))
    || (r.ifNoneMatch == Some("*") && found.Some?)
  }

  /** open() with O_CREAT: the path must end in a name. */
  predicate IsNamed(spot: Spot) {
    spot.names != [] && !spot.slash && !IsDots(spot.names[|spot.names| - 1])
  }

  ghost function PutAt(h: Hashing, t: Tree, r: DiskRequest): Effect
    requires Proper(h) && (r.spot.folder || NeverClimbs(0, r.spot.names))
  {
    if r.spot.folder then Refused(t, 400)
    else if PutFails(h, t, r) then Refused(t, 412)
    else OpenAt(h, WalkFront(t, r.spot.names), Found(t, r.spot).Some?, r)
  }

  function WalkFront(t: Tree, names: seq<string>): Walked
    requires NeverClimbs(0, names)
  {
    InRootLeads(names, |Front(names)|);
    assert names[..|Front(names)|] == Front(names);
    WalkTree(t, [], Front(names))
  }

  /** After the walk: whether the document was found before it decides between 200 and 201. */
  ghost function OpenAt(h: Hashing, w: Walked, found: bool, r: DiskRequest): Effect {
    if w.status != 0 then Refused(w.tree, w.status)
    else if !IsNamed(r.spot) then Refused(w.tree, 500)
    else
      var p := w.at + [r.spot.names[|r.spot.names| - 1]];
      if p in w.tree && w.tree[p].Dir? then Refused(w.tree, 500)
      else Effect(w.tree[p := File(r.body)], if found then 200 else 201, Some(h.digest(r.body)), "")
  }

  // ----- DELETE -----

  /** rmdir() of a path: "." is refused as invalid, ".." as not empty. */
  function RmdirAt(t: Tree, names: seq<string>): RmdirResult
    requires names != []
  {
    var last := names[|names| - 1];
    match LookUp(t, [], Front(names))
    case None => RmdirFailed
    case Some(d) =>
      if t[d].File? || last == "." then RmdirFailed
      else if last == ".." then NotEmpty
      else RmdirOutcome(t, d + [last])
  }

  datatype Climb = Climb(tree: Tree, status: int)

  /** The climb from the first `k` names; a path that has become "." counts as the root. */
  function ClimbTree(t: Tree, names: seq<string>, k: nat): Climb
    requires k <= |names|
    decreases k
  {
    if k == 0 || names[..k] == ["."] then Climb(t, 200)
    else
      match RmdirAt(t, names[..k])
      case NotEmpty => Climb(t, 200)
      case RmdirFailed => Climb(t, 500)
      case DirRemoved => ClimbTree(t - {RemovedAt(t, names[..k])}, names, k - 1)
  }

  function RemovedAt(t: Tree, names: seq<string>): (p: Path)
    requires names != [] && RmdirAt(t, names) == DirRemoved
    ensures p in t && t[p].Dir? && p != [] && Children(t, p) == {}
  {
    LookUp(t, [], Front(names)).value + [names[|names| - 1]]
  }

  ghost function DeleteAt(h: Hashing, t: Tree, r: DiskRequest): Effect
    requires Proper(h)
  {
    if r.spot.folder then Refused(t, 400)
    else
      match Found(t, r.spot)
      case None => Refused(t, 404)
      case Some(p) =>
        if t[p].Dir? then Refused(t, 400)
        else if r.ifMatch.Some? && Tag(h, t, p) != r.ifMatch.value then Refused(t, 412)
        else
          var c := ClimbTree(t - {p}, r.spot.names, |Front(r.spot.names)|);
          Effect(c.tree, c.status, Some(Tag(h, t, p)), "")
  }

  // ----- GET and HEAD, and all together -----

  ghost function ReadAt(h: Hashing, s: Settings, t: Tree, r: DiskRequest): Effect
    requires Proper(h) && r.verb in {GET, HEAD}
  {
    if r.verb == HEAD && !s.experimental then Refused(t, 405)
    else
      match Found(t, r.spot)
      case None => Refused(t, 404)
      case Some(p) =>
        if r.spot.folder then Serve(h, s, t, r.At(Folder(p)))
        else if p == [] || t[p].Dir? then Refused(t, 404)
        else Serve(h, s, t, r.At(Document(Parent(p), p[|p| - 1])))
  }

  ghost function ServeAt(h: Hashing, s: Settings, t: Tree, r: DiskRequest): Effect
    requires Proper(h) && Covered(r)
  {
    match r.verb
    case PUT => PutAt(h, t, r)
    case DELETE => DeleteAt(h, t, r)
    case _ => ReadAt(h, s, t, r)
  }

  // ----- paths without dots: the handlers of module Storage -----

  function SpotOf(target: Target): Spot {
    Spot(target.Location(), target.Folder?, target.Folder?)
  }

  predicate IsPlain(names: seq<string>) {
    forall n | n in names :: !IsDots(n)
  }

  lemma {:induction false} LookUpChain(t: Tree, at: Path, names: seq<string>)
    requires IsPlain(names)
    requires forall j | 0 <= j <= |names| :: at + names[..j] in t && (j < |names| ==> t[at + names[..j]].Dir?)
    ensures LookUp(t, at, names) == Some(at + names)
    decreases |names|
  {
    assert at + names[..0] == at;
    if names == [] {
      assert at + names == at;
    } else {
      var next, rest := at + [names[0]], names[1..];
      assert names[0] in names;
      forall j | 0 <= j <= |rest|
        ensures next + rest[..j] == at + names[..j + 1]
      {
      }
      LookUpChain(t, next, rest);
      assert next + rest == at + names;
    }
  }

  lemma {:induction false} LookUpIsOnDisk(t: Tree, at: Path, names: seq<string>)
    ensures LookUp(t, at, names).Some? ==> OnDisk(at, names) == LookUp(t, at, names)
    decreases |names|
  {
    if names != [] && Step(at, names[0]).Some? {
      LookUpIsOnDisk(t, Step(at, names[0]).value, names[1..]);
    }
  }

  lemma LookUpPlain(t: Tree, names: seq<string>)
    requires WellFormed(t) && IsPlain(names)
    ensures LookUp(t, [], names) == if names in t then Some(names) else None
  {
    hide LookUp, WellFormed;
    LookUpIsOnDisk(t, [], names);
    OnDiskPlain([], names);
    assert [] + names == names;
    if names in t {
      forall j | 0 <= j <= |names|
        ensures [] + names[..j] in t && (j < |names| ==> t[[] + names[..j]].Dir?)
      {
        assert [] + names[..j] == names[..j];
        PrefixPresent(t, names[..j], names);
      }
      LookUpChain(t, [], names);
    }
  }

  /** The walk over plain names is that of the closed form: all missing directories, or
      nothing and 400 if there is a file among them. */
  lemma {:induction false} WalkPlain(t: Tree, dir: Path, i: nat)
    requires WellFormed(t) && IsPlain(dir) && i <= |dir| && NoFileOn(t, dir, i + 1)
    ensures OnDisk(dir[..i], dir[i..]).Some?
    ensures WalkTree(MakeDirs(t, dir, i + 1), dir[..i], dir[i..]) ==
            if NoFileOn(t, dir, |dir| + 1) then Walked(MakeDirs(t, dir, |dir| + 1), 0, dir)
            else Walked(t, 400, WalkTree(MakeDirs(t, dir, i + 1), dir[..i], dir[i..]).at)
    decreases |dir| - i
  {
    hide MakeDirs, WellFormed, NoFileOn;
    assert forall n | n in dir[i..] :: n in dir;
    OnDiskPlain(dir[..i], dir[i..]);
    if i == |dir| {
      assert dir[..i] == dir;
    } else {
      WalkStep(t, dir, i);
      assert dir[i..][0] == dir[i] && dir[i] in dir && dir[i..][1..] == dir[i + 1..];
      assert dir[..i] + [dir[i]] == dir[..i + 1];
      WalkAgain(t, dir, i);
    }
  }

  lemma WalkAgain(t: Tree, dir: Path, i: nat)
    requires WellFormed(t) && IsPlain(dir) && i < |dir| && NoFileOn(t, dir, i + 1)
    requires NoFileOn(t, dir, i + 2) <==> dir[..i + 1] in t ==> t[dir[..i + 1]].Dir?
    ensures NoFileOn(t, dir, i + 2) ==>
              && OnDisk(dir[..i + 1], dir[i + 1..]).Some?
              && WalkTree(MakeDirs(t, dir, i + 2), dir[..i + 1], dir[i + 1..]) ==
                 (if NoFileOn(t, dir, |dir| + 1) then Walked(MakeDirs(t, dir, |dir| + 1), 0, dir)
                  else Walked(t, 400, WalkTree(MakeDirs(t, dir, i + 2), dir[..i + 1], dir[i + 1..]).at))
    decreases |dir| - i, 0
  {
    if NoFileOn(t, dir, i + 2) {
      WalkPlain(t, dir, i + 1);
    }
  }

  /** A PUT on a plain path is the PUT of module Storage. */
  lemma PutAgrees(h: Hashing, t: Tree, r: DiskRequest, target: Target)
    requires Proper(h) && WellFormed(t) && IsPlain(target.Location()) && r.spot == SpotOf(target)
    ensures NeverClimbs(0, r.spot.names)
    ensures PutAt(h, t, r) == ServePut(h, t, r.At(target))
  {
    hide WalkTree, LookUp, MakeDirs, WellFormed, NoFileOn, PutTree, Tag, Reachable;
    var p := target.Location();
    PlainNeverClimbs(0, p);
    LookUpPlain(t, p);
    if target.Document? {
      var dir, name := target.dir, target.name;
      assert Front(p) == dir && p[|p| - 1] == name && name in p;
      assert forall n | n in dir :: n in p;
      WalkStarts(t, dir);
      WalkPlain(t, dir, 0);
      assert dir[..0] == [] && dir[0..] == dir;
      ParentsOfDocument(t, dir, name, r.body);
      if NoFileOn(t, dir, |dir| + 1) {
        ParentsReady(t, dir, name);
      }
    }
  }

  lemma {:induction false} ClimbPlain(t: Tree, p: Path, k: nat)
    requires WellFormed(t) && p in t && t[p].File? && IsPlain(p) && k < |p|
    ensures ClimbTree(Climbed(t, p, k), p, k) == Climb(DeleteTree(t, p), 200)
    decreases k
  {
    hide Climbed, DeleteTree, WellFormed, RmdirAt;
    if k == 0 {
      ClimbEnds(t, p);
    } else {
      ClimbStep(t, p, k);
      RmdirPlain(t, p, k);
      assert p[0] in p && p[..k][0] == p[0];
      if Children(Climbed(t, p, k), p[..k]) == {} {
        ClimbPlain(t, p, k - 1);
      }
    }
  }

  lemma FrontFound(t: Tree, p: Path, k: nat)
    requires WellFormed(t) && p in t && t[p].File? && IsPlain(p) && 1 <= k < |p|
    ensures var front := p[..k - 1]; var found := LookUp(Climbed(t, p, k), [], front);
            found == Some(front) && Climbed(t, p, k)[front].Dir?
  {
    hide Climbed, WellFormed, LookUp;
    var now, front := Climbed(t, p, k), p[..k - 1];
    forall j | 0 <= j <= |front|
      ensures [] + front[..j] in now && now[[] + front[..j]].Dir?
    {
      assert [] + front[..j] == p[..j];
      PrefixPresent(t, p[..j], p);
      ClimbAt(t, p, k, p[..j]);
    }
    assert forall n | n in front :: n in p;
    LookUpChain(now, [], front);
    assert [] + front == front && front[..|front|] == front;
  }

  lemma RmdirPlain(t: Tree, p: Path, k: nat)
    requires WellFormed(t) && p in t && t[p].File? && IsPlain(p) && 1 <= k < |p|
    ensures var now := Climbed(t, p, k);
            && RmdirAt(now, p[..k]) == (if Children(now, p[..k]) == {} then DirRemoved else NotEmpty)
            && (RmdirAt(now, p[..k]) == DirRemoved ==> RemovedAt(now, p[..k]) == p[..k])
  {
    hide Climbed, WellFormed, LookUp, Children, ClimbTree;
    var now, d := Climbed(t, p, k), p[..k];
    FrontFound(t, p, k);
    assert Front(d) == p[..k - 1] && d[k - 1] == p[k - 1] && p[k - 1] in p;
    assert Front(d) + [d[k - 1]] == d;
    ClimbStep(t, p, k);
    hide RemovedAt;
    assert RmdirAt(now, d) == RmdirOutcome(now, d);
    if RmdirAt(now, d) == DirRemoved {
      RemovedAtIs(now, d);
    }
  }

  lemma RemovedAtIs(t: Tree, names: seq<string>)
    requires names != [] && RmdirAt(t, names) == DirRemoved
    ensures RemovedAt(t, names) == LookUp(t, [], Front(names)).value + [names[|names| - 1]]
  {
  }

  /** A DELETE on a plain path is the DELETE of module Storage. */
  lemma DeleteAgrees(h: Hashing, t: Tree, r: DiskRequest, target: Target)
    requires Proper(h) && WellFormed(t) && IsPlain(target.Location()) && r.spot == SpotOf(target)
    ensures r.verb == DELETE ==> DeleteAt(h, t, r) == ServeDelete(h, t, r.At(target))
  {
    hide LookUp, WellFormed, DeleteTree, ClimbTree, Tag;
    var p := target.Location();
    LookUpPlain(t, p);
    if p in t && t[p].File? {
      ClimbStarts(t, p);
      ClimbPlain(t, p, |p| - 1);
    }
  }

  /** On plain paths the answer is that of module Storage in every case. */
  lemma PlainAgrees(h: Hashing, s: Settings, t: Tree, r: DiskRequest, target: Target)
    requires Proper(h) && WellFormed(t) && IsPlain(target.Location()) && r.spot == SpotOf(target)
    ensures Covered(r) && ServeAt(h, s, t, r) == Serve(h, s, t, r.At(target))
  {
    hide PutAt, DeleteAt, LookUp, ServePut, ServeDelete, Tag, ListingMembers, WellFormed;
    PutAgrees(h, t, r, target);
    DeleteAgrees(h, t, r, target);
    var p := target.Location();
    LookUpPlain(t, p);
    assert target.Document? ==> Parent(p) == target.dir && p[|p| - 1] == target.name;
  }

  // ----- what a request leaves alone -----

  /** The entry at `n` is the same in both trees. */
  predicate SameAt(t: Tree, t': Tree, n: Path) {
    (n in t <==> n in t') && (n in t ==> t[n] == t'[n])
  }

  lemma {:induction false} WalkChanges(t: Tree, at: Path, names: seq<string>, n: Path)
    requires OnDisk(at, names).Some?
    ensures SameAt(t, WalkTree(t, at, names).tree, n) || Visits(at, names, n)
    decreases |names|
  {
    hide Visits;
    if names != [] {
      var next := Step(at, names[0]).value;
      VisitsFirst(at, names, n);
      if !(next in t && t[next].File?) {
        WalkChanges(if next in t then t else t[next := Dir], next, names[1..], n);
      }
    }
  }

  lemma StepIsDir(t: Tree, at: Path, n: string)
    requires WellFormed(t) && at in t && t[at].Dir? && Step(at, n).Some?
    ensures var next := Step(at, n).value;
            && (next !in t || IsDots(n) ==> next == [] || (Parent(next) in t && t[Parent(next)].Dir?))
            && (next !in t ==> next != [] && Parent(next) == at)
            && (IsDots(n) ==> next in t && t[next].Dir?)
  {
    assert n != "." && n != ".." ==> Parent(at + [n]) == at;
  }

  /** The walk keeps the tree well formed and ends in a directory, the one the names lead
      to, unless it is refused. */
  lemma {:induction false} WalkWellFormed(t: Tree, at: Path, names: seq<string>)
    requires WellFormed(t) && at in t && t[at].Dir? && OnDisk(at, names).Some?
    ensures var w := WalkTree(t, at, names);
            && WellFormed(w.tree) && w.at in w.tree && w.tree[w.at].Dir?
            && (w.status == 0 || w.status == 400)
            && (w.status == 0 ==> w.at == OnDisk(at, names).value)
    decreases |names|
  {
    if names != [] {
      var next := Step(at, names[0]).value;
      StepIsDir(t, at, names[0]);
      if !(next in t && t[next].File?) {
        var t' := if next in t then t else t[next := Dir];
        MadeWellFormed(t, next);
        hide WellFormed;
        WalkWellFormed(t', next, names[1..]);
      }
    }
  }

  lemma MadeWellFormed(t: Tree, p: Path)
    requires WellFormed(t) && (p !in t ==> p != [] && Parent(p) in t && t[Parent(p)].Dir?)
    ensures WellFormed(if p in t then t else t[p := Dir])
  {
  }

  lemma WrittenWellFormed(t: Tree, p: Path, content: string)
    requires WellFormed(t) && p != [] && Parent(p) in t && t[Parent(p)].Dir? && (p in t ==> t[p].File?)
    ensures WellFormed(t[p := File(content)])
  {
  }

  lemma RemovedWellFormed(t: Tree, p: Path)
    requires WellFormed(t) && p in t && p != [] && (t[p].File? || Children(t, p) == {})
    ensures WellFormed(t - {p})
  {
    forall q | q in t && q != [] && q != p
      ensures Parent(q) != p
    {
      if Parent(q) == p && t[p].Dir? {
        assert q == p + [q[|p|]];
        ChildPresent(t, p, q[|p|]);
      }
    }
  }

  lemma RemovedPlace(t: Tree, names: seq<string>)
    requires names != [] && RmdirAt(t, names) == DirRemoved
    ensures OnDisk([], names) == Some(RemovedAt(t, names))
  {
    hide LookUp;
    var last := names[|names| - 1];
    RemovedAtIs(t, names);
    LookUpIsOnDisk(t, [], Front(names));
    OnDiskAppend([], Front(names), [last]);
    assert Front(names) + [last] == names;
    OnDiskOne(LookUp(t, [], Front(names)).value, last);
  }

  lemma OnDiskOne(at: Path, n: string)
    ensures OnDisk(at, [n]) == Step(at, n)
  {
  }

  lemma {:induction false} ClimbChanges(t: Tree, names: seq<string>, k: nat, n: Path)
    requires WellFormed(t) && k <= |names|
    ensures WellFormed(ClimbTree(t, names, k).tree)
    ensures SameAt(t, ClimbTree(t, names, k).tree, n) || Visits([], names, n)
    ensures ClimbTree(t, names, k).status in {200, 500}
    decreases k
  {
    hide Visits, WellFormed, RmdirAt, RemovedAt, OnDisk;
    if k > 0 && names[..k] != ["."] && RmdirAt(t, names[..k]) == DirRemoved {
      var p := RemovedAt(t, names[..k]);
      RemovedPlace(t, names[..k]);
      VisitsAt(names, k);
      RemovedWellFormed(t, p);
      ClimbChanges(t - {p}, names, k - 1, n);
    }
  }

  lemma VisitsAt(names: seq<string>, k: nat)
    requires 0 < k <= |names| && OnDisk([], names[..k]).Some?
    ensures Visits([], names, OnDisk([], names[..k]).value)
  {
  }

  lemma VisitsFront(at: Path, names: seq<string>, n: Path)
    ensures Visits(at, Front(names), n) ==> Visits(at, names, n)
  {
    if Visits(at, Front(names), n) {
      var k :| 0 < k <= |Front(names)| && OnDisk(at, Front(names)[..k]) == Some(n);
      assert Front(names)[..k] == names[..k];
    }
  }

  lemma PutChanges(h: Hashing, t: Tree, r: DiskRequest, n: Path)
    requires Proper(h) && WellFormed(t) && (r.spot.folder || NeverClimbs(0, r.spot.names))
    ensures WellFormed(PutAt(h, t, r).tree)
    ensures SameAt(t, PutAt(h, t, r).tree, n) || Visits([], r.spot.names, n)
  {
    hide Visits, WalkTree, WellFormed, OnDisk, PutFails, Found, NeverClimbs;
    var names := r.spot.names;
    if !r.spot.folder && !PutFails(h, t, r) {
      InRootLeads(names, |Front(names)|);
      assert names[..|Front(names)|] == Front(names);
      RootIsDir(t);
      WalkChanges(t, [], Front(names), n);
      VisitsFront([], names, n);
      WalkWellFormed(t, [], Front(names));
      if IsNamed(r.spot) {
        var w, last := WalkFront(t, names), names[|names| - 1];
        OpenedPlace(w, names);
        assert Parent(w.at + [last]) == w.at;
        if w.status == 0 && !(w.at + [last] in w.tree && w.tree[w.at + [last]].Dir?) {
          WrittenWellFormed(w.tree, w.at + [last], r.body);
        }
      }
    }
  }

  lemma RootIsDir(t: Tree)
    requires WellFormed(t)
    ensures [] in t && t[[]].Dir?
  {
  }

  lemma OpenedPlace(w: Walked, names: seq<string>)
    requires names != [] && !IsDots(names[|names| - 1])
    ensures OnDisk([], Front(names)) == Some(w.at) ==> Visits([], names, w.at + [names[|names| - 1]])
  {
    var last := names[|names| - 1];
    OnDiskAppend([], Front(names), [last]);
    assert Front(names) + [last] == names && names[..|names|] == names;
    OnDiskOne(w.at, last);
  }

  lemma DeleteChanges(h: Hashing, t: Tree, r: DiskRequest, n: Path)
    requires Proper(h) && WellFormed(t)
    ensures WellFormed(DeleteAt(h, t, r).tree)
    ensures SameAt(t, DeleteAt(h, t, r).tree, n) || Visits([], r.spot.names, n)
  {
    hide Visits, ClimbTree, WellFormed, LookUp, OnDisk, Tag;
    var names := r.spot.names;
    if Found(t, r.spot).Some? && t[Found(t, r.spot).value].File? {
      var p := Found(t, r.spot).value;
      RootIsDir(t);
      LookUpIsOnDisk(t, [], names);
      assert names[..|names|] == names;
      NothingIsRoot(t, names);
      VisitsAt(names, |names|);
      RemovedWellFormed(t, p);
      ClimbChanges(t - {p}, names, |Front(names)|, n);
    }
  }

  lemma NothingIsRoot(t: Tree, names: seq<string>)
    ensures names == [] && LookUp(t, [], names).Some? ==> LookUp(t, [], names).value == []
  {
  }

  /** A request changes nothing but places that its disk path leads through or to, whatever
      dots are in it, and keeps the tree well formed. */
  lemma ServeAtChanges(h: Hashing, s: Settings, t: Tree, r: DiskRequest, n: Path)
    requires Proper(h) && WellFormed(t) && Covered(r)
    ensures WellFormed(ServeAt(h, s, t, r).tree)
    ensures SameAt(t, ServeAt(h, s, t, r).tree, n) || (r.verb in {PUT, DELETE} && !r.spot.folder && Visits([], r.spot.names, n))
  {
    hide PutAt, DeleteAt, Visits, WellFormed, Tag, ListingMembers, LookUp;
    match r.verb
    case PUT =>
      PutChanges(h, t, r, n);
      FolderRefused(h, t, r);
    case DELETE =>
      DeleteChanges(h, t, r, n);
      FolderRefused(h, t, r);
    case GET =>
    case HEAD =>
  }

  lemma FolderRefused(h: Hashing, t: Tree, r: DiskRequest)
    requires Proper(h)
    ensures r.spot.folder ==> PutAt(h, t, r).tree == t && DeleteAt(h, t, r).tree == t
  {
  }

  // ----- the handlers -----

  /** One name of the walk: what is there is looked at, what is missing is made. */
  method EnterNext(disk: Disk, next: Path) returns (status: int)
    requires disk.Valid() && (next !in disk.tree ==> next != [] && Parent(next) in disk.tree && disk.tree[Parent(next)].Dir?)
    modifies disk`tree
    ensures disk.Valid()
    ensures status == if next in old(disk.tree) && old(disk.tree)[next].File? then 400 else 0
    ensures disk.tree == if next in old(disk.tree) then old(disk.tree) else old(disk.tree)[next := Dir]
  {
    if next in disk.tree {
      return if disk.tree[next].File? then 400 else 0;
    }
    status := Enter(disk, next);
  }

  /** The walk: opens, or makes and opens, one name after the other. */
  method WalkNames(disk: Disk, names: seq<string>) returns (status: int, at: Path)
    requires disk.Valid() && OnDisk([], names).Some?
    modifies disk`tree
    ensures disk.Valid()
    ensures WalkTree(old(disk.tree), [], names) == Walked(disk.tree, status, at)
    ensures status == 0 ==> at == OnDisk([], names).value && at in disk.tree && disk.tree[at].Dir?
  {
    ghost var result := WalkTree(disk.tree, [], names);
    RootIsDir(disk.tree);
    WalkWellFormed(disk.tree, [], names);
    hide WellFormed, Disk.Valid, WalkTree, OnDisk;
    at := [];
    assert names[0..] == names;
    for i := 0 to |names|
      invariant disk.Valid() && at in disk.tree && disk.tree[at].Dir?
      invariant OnDisk(at, names[i..]) == OnDisk([], names) && WalkTree(disk.tree, at, names[i..]) == result
    {
      WalkNext(disk.tree, at, names, i);
      ValidIsWellFormed(disk);
      StepIsDir(disk.tree, at, names[i]);
      var next := Step(at, names[i]).value;
      status := EnterNext(disk, next);
      if status != 0 {
        return;
      }
      at := next;
    }
    WalkDone(disk.tree, at, names);
    status := 0;
  }

  lemma ValidIsWellFormed(disk: Disk)
    requires disk.Valid()
    ensures WellFormed(disk.tree) && Proper(disk.hashing)
  {
  }

  lemma WalkNext(t: Tree, at: Path, names: seq<string>, i: nat)
    requires i < |names| && OnDisk(at, names[i..]).Some?
    ensures Step(at, names[i]).Some?
    ensures var next := Step(at, names[i]).value;
            && OnDisk(next, names[i + 1..]) == OnDisk(at, names[i..])
            && WalkTree(t, at, names[i..]) ==
               if next in t && t[next].File? then Walked(t, 400, at)
               else WalkTree(if next in t then t else t[next := Dir], next, names[i + 1..])
  {
    assert names[i..][0] == names[i] && names[i..][1..] == names[i + 1..];
  }

  lemma WalkDone(t: Tree, at: Path, names: seq<string>)
    ensures OnDisk(at, names[|names|..]) == Some(at) && WalkTree(t, at, names[|names|..]) == Walked(t, 0, at)
  {
  }

  /** PUT on any path in the storage root. */
  method PutOnDisk(disk: Disk, r: DiskRequest) returns (resp: Response)
    requires disk.Valid() && r.verb == PUT && Covered(r)
    requires r.contentType.Some? ==> HasMime(r.contentType.value)
    modifies disk
    ensures disk.Valid()
    ensures Gives(disk, resp, PutAt(disk.hashing, old(disk.tree), r))
  {
    hide Disk.Valid, LookUp, WalkTree, NeverClimbs, OnDisk, HasMime;
    ValidIsWellFormed(disk);
    if r.spot.folder {
      return Bare(400);
    }
    var found := Found(disk.tree, r.spot);
    if r.ifMatch.Some? {
      if found.None? {
        return Bare(412);
      }
      var current := disk.GetEtag(found.value);
      if current != r.ifMatch.value {
        return Bare(412);
      }
    }
    if r.ifNoneMatch == Some("*") && found.Some? {
      return Bare(412);
    }
    resp := WriteOnDisk(disk, r, found.Some?);
  }

  method WriteOnDisk(disk: Disk, r: DiskRequest, found: bool) returns (resp: Response)
    requires disk.Valid() && NeverClimbs(0, r.spot.names)
    requires r.contentType.Some? ==> HasMime(r.contentType.value)
    modifies disk
    ensures disk.Valid()
    ensures Gives(disk, resp, OpenAt(disk.hashing, WalkFront(old(disk.tree), r.spot.names), found, r))
  {
    hide Disk.Valid, WalkTree, NeverClimbs, OnDisk, HasMime;
    var names := r.spot.names;
    InRootLeads(names, |Front(names)|);
    assert names[..|Front(names)|] == Front(names);
    var status, at := WalkNames(disk, Front(names));
    if status != 0 {
      return Bare(status);
    }
    if !IsNamed(r.spot) {
      return Bare(500);
    }
    var p := at + [names[|names| - 1]];
    assert Parent(p) == at;
    var ok := disk.WriteFile(p, r.body);
    if !ok {
      return Bare(500);
    }
    var contentType := r.contentType.GetOr(OCTET_STREAM);
    DefaultTypeHasMime();
    ValidIsWellFormed(disk);
    var etag := StoreType(disk, p, contentType);
    TagOfFile(disk.hashing, disk.tree, p);
    resp := Response(if found then 200 else 201, Some(etag), Some(contentType), "");
  }

  /** unlinkat() with AT_REMOVEDIR. */
  method RmdirNames(disk: Disk, names: seq<string>) returns (result: RmdirResult)
    requires disk.Valid() && names != []
    modifies disk
    ensures disk.Valid()
    ensures result == RmdirAt(old(disk.tree), names)
    ensures disk.tree == if result == DirRemoved then old(disk.tree) - {RemovedAt(old(disk.tree), names)} else old(disk.tree)
  {
    hide Disk.Valid, LookUp;
    var last := names[|names| - 1];
    match LookUp(disk.tree, [], Front(names)) {
      case None =>
        result := RmdirFailed;
      case Some(d) =>
        if disk.tree[d].File? || last == "." {
          result := RmdirFailed;
        } else if last == ".." {
          result := NotEmpty;
        } else {
          result := disk.Rmdir(d + [last]);
        }
    }
  }

  /** The climb of a DELETE on any path. */
  method ClimbNames(disk: Disk, names: seq<string>) returns (status: int)
    requires disk.Valid()
    modifies disk
    ensures disk.Valid()
    ensures Climb(disk.tree, status) == ClimbTree(old(disk.tree), names, |Front(names)|)
  {
    ghost var t := disk.tree;
    hide Disk.Valid, RmdirAt, RemovedAt;
    var k: nat := |Front(names)|;
    while k > 0 && names[..k] != ["."]
      invariant disk.Valid() && k <= |names|
      invariant ClimbTree(disk.tree, names, k) == ClimbTree(t, names, |Front(names)|)
    {
      var result := RmdirNames(disk, names[..k]);
      match result {
        case NotEmpty =>
          return 200;
        case RmdirFailed =>
          return 500;
        case DirRemoved =>
          k := k - 1;
      }
    }
    return 200;
  }

  /** DELETE on any path in the storage root. */
  method DeleteOnDisk(disk: Disk, r: DiskRequest) returns (resp: Response)
    requires disk.Valid() && r.verb == DELETE
    modifies disk
    ensures disk.Valid()
    ensures Gives(disk, resp, DeleteAt(disk.hashing, old(disk.tree), r))
    ensures resp.status == 200 ==>
              var p := Found(old(disk.tree), r.spot);
              p.Some? && old(disk.tree)[p.value].File? && resp.etag == Some(disk.hashing.digest(old(disk.tree)[p.value].content))
  {
    hide Disk.Valid, LookUp, ClimbTree;
    ValidIsWellFormed(disk);
    if r.spot.folder {
      return Bare(400);
    }
    var found := Found(disk.tree, r.spot);
    if found.None? {
      return Bare(404);
    }
    var p := found.value;
    if disk.tree[p].Dir? {
      return Bare(400);
    }
    var etag := disk.GetEtag(p);
    if r.ifMatch.Some? && etag != r.ifMatch.value {
      return Bare(412);
    }
    var ok := disk.Unlink(p);
    var status := ClimbNames(disk, r.spot.names);
    resp := Response(status, Some(etag), None, "");
  }

  /** GET and HEAD on any path in the storage root. */
  method ReadOnDisk(disk: Disk, s: Settings, r: DiskRequest) returns (resp: Response)
    requires disk.Valid() && r.verb in {GET, HEAD}
    modifies disk`xattr
    ensures disk.Valid() && disk.OnlyTagsStored()
    ensures Gives(disk, resp, ReadAt(disk.hashing, s, disk.tree, r))
  {
    hide Disk.Valid, LookUp, Serve;
    if r.verb == HEAD && !s.experimental {
      return Bare(405);
    }
    var found := Found(disk.tree, r.spot);
    if found.None? {
      return Bare(404);
    }
    var p := found.value;
    var target := Folder(p);
    if !r.spot.folder {
      if p == [] || disk.tree[p].Dir? {
        return Bare(404);
      }
      target := Document(Parent(p), p[|p| - 1]);
    }
    if r.verb == GET {
      resp := Get(disk, s, r.At(target));
    } else {
      resp := Head(disk, s, r.At(target));
    }
  }

  method HandleOnDisk(disk: Disk, s: Settings, r: DiskRequest) returns (resp: Response)
    requires disk.Valid() && Covered(r)
    requires r.contentType.Some? ==> HasMime(r.contentType.value)
    modifies disk
    ensures disk.Valid()
    ensures Proper(disk.hashing) && Gives(disk, resp, ServeAt(disk.hashing, s, old(disk.tree), r))
  {
    hide PutAt, DeleteAt, ReadAt;
    match r.verb {
      case PUT => resp := PutOnDisk(disk, r);
      case DELETE => resp := DeleteOnDisk(disk, r);
      case GET => resp := ReadOnDisk(disk, s, r);
      case HEAD => resp := ReadOnDisk(disk, s, r);
    }
  }

  // ----- what dots break -----

  /** The tree with one document in a directory. */
  function OneDocument(d: string, n: string, content: string): Tree {
    map[[] := Dir, [d] := Dir, [d, n] := File(content)]
  }

  /** A "." on the way stops the climb of a DELETE: the document is gone, the answer is 500
      and its empty directory stays. */
  lemma DotStopsClimb(h: Hashing, d: string, n: string, content: string, r: DiskRequest)
    requires Proper(h) && !IsDots(d) && !IsDots(n)
    requires r.verb == DELETE && r.spot == Spot([d, ".", n], false, false) && r.ifMatch.None?
    ensures var t := OneDocument(d, n, content); var e := DeleteAt(h, t, r);
            && WellFormed(t) && NoEmptyDirs(t)
            && e.status == 500 && e.tree == t - {[d, n]} && !NoEmptyDirs(e.tree)
  {
    var t := OneDocument(d, n, content);
    OneDocumentIsFine(d, n, content);
    LookUpDotted(t, d, n);
    hide LookUp, ClimbTree, WellFormed, NoEmptyDirs, Tag;
    var t' := t - {[d, n]};
    assert t' == map[[] := Dir, [d] := Dir];
    assert Front([d, ".", n]) == [d, "."];
    ClimbStopped(t', d, n);
    EmptyThere(t', d);
  }

  lemma ClimbStopped(t: Tree, d: string, n: string)
    requires !IsDots(d) && [] in t && t[[]].Dir? && [d] in t
    ensures ClimbTree(t, [d, ".", n], 2) == Climb(t, 500)
  {
    assert [d, ".", n][..2] == [d, "."] && Front([d, "."]) == [d];
    LookUpOne(t, d);
    assert RmdirAt(t, [d, "."]) == RmdirFailed;
  }

  lemma LookUpOne(t: Tree, d: string)
    requires !IsDots(d) && [] in t && t[[]].Dir? && [d] in t
    ensures LookUp(t, [], [d]) == Some([d])
  {
    assert [] + [d] == [d] && [d][1..] == [];
  }

  lemma LookUpDotted(t: Tree, d: string, n: string)
    requires !IsDots(d) && !IsDots(n) && [] in t && t[[]].Dir? && [d] in t && t[[d]].Dir? && [d, n] in t
    ensures LookUp(t, [], [d, ".", n]) == Some([d, n])
  {
    assert [] + [d] == [d] && [d] + [n] == [d, n];
    assert [d, ".", n][1..] == [".", n] && [".", n][1..] == [n] && [n][1..] == [];
    assert LookUp(t, [d], [n]) == Some([d, n]);
    assert LookUp(t, [d], [".", n]) == Some([d, n]);
  }

  lemma OneDocumentIsFine(d: string, n: string, content: string)
    ensures WellFormed(OneDocument(d, n, content)) && NoEmptyDirs(OneDocument(d, n, content))
  {
    var t := OneDocument(d, n, content);
    assert Parent([d, n]) == [d] && Parent([d]) == [];
    assert [d] + [n] == [d, n];
    ChildPresent(t, [d], n);
  }

  lemma EmptyThere(t: Tree, d: string)
    requires t == map[[] := Dir, [d] := Dir]
    ensures !NoEmptyDirs(t)
  {
    forall n
      ensures n !in Children(t, [d])
    {
      ChildPresent(t, [d], n);
      assert |[d] + [n]| == 2;
    }
    assert Children(t, [d]) == {};
  }

  /** A ".." on the way leaves the directories made before it empty. */
  lemma ParentLeavesEmptyDir(h: Hashing, d: string, n: string, r: DiskRequest)
    requires Proper(h) && !IsDots(d) && !IsDots(n) && d != n
    requires r.verb == PUT && r.spot == Spot([d, "..", n], false, false) && r.ifMatch.None? && r.ifNoneMatch.None?
    ensures NeverClimbs(0, r.spot.names)
    ensures var t: Tree := map[[] := Dir]; var e := PutAt(h, t, r);
            && e.status == 201 && e.tree == map[[] := Dir, [d] := Dir, [n] := File(r.body)] && !NoEmptyDirs(e.tree)
  {
    var t: Tree := map[[] := Dir];
    var names := [d, "..", n];
    assert names[1..] == ["..", n] && ["..", n][1..] == [n] && [n][1..] == [];
    assert NeverClimbs(0, [n]) && NeverClimbs(1, ["..", n]);
    assert NeverClimbs(0 + 1, names[1..]);
    assert names[0] == d && NeverClimbs(0, names);
    assert Front(names) == [d, ".."] && [d, ".."][1..] == [".."] && [".."][1..] == [];
    assert [] + [d] == [d] && Parent([d]) == [] && [] + [n] == [n];
    var t' := t[[d] := Dir];
    assert OnDisk([d], [".."]) == Some([]) && OnDisk([], [d, ".."]) == Some([]);
    assert WalkTree(t', [d], [".."]) == Walked(t', 0, []);
    assert WalkTree(t, [], [d, ".."]) == Walked(t', 0, []);
    assert LookUp(t, [], names) == None;
    var e := PutAt(h, t, r);
    assert [d] in e.tree && e.tree[[d]].Dir?;
    forall m
      ensures m !in Children(e.tree, [d])
    {
      ChildPresent(e.tree, [d], m);
      assert |[d] + [m]| == 2;
    }
    assert Children(e.tree, [d]) == {};
  }
}
