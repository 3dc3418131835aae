/** The storage handlers (src/handler/storage.c): PUT, DELETE, GET and HEAD on one user's
    tree. `Serve` is the answer as a function of the tree; the methods do what the
    handlers do, call by call, and are proved to give that answer.
 */
module Storage {
  import opened Strings
  import opened FileTree
  import opened Merkle
  import opened Attributes
  import opened Json
  import opened JsonWriter

  const OCTET_STREAM := "application/octet-stream" + "; charset=binary"

  /** A request path either ends in '/' or names a document in a directory. */
  datatype Target = Folder(dir: Path) | Document(dir: Path, name: string)
  {
    function Location(): Path {
      match this
      case Folder(dir) => dir
      case Document(dir, name) => dir + [name]
    }
  }

  datatype Verb = GET | HEAD | PUT | DELETE

  datatype Request = Request(verb: Verb, target: Target, ifMatch: Option<string>, ifNoneMatch: Option<string>,
                             contentType: Option<string>, body: string)

  datatype Response = Response(status: int, etag: Option<string>, contentType: Option<string>, body: string)

  /** `guess` stands for libmagic. */
  datatype Settings = Settings(experimental: bool, guess: string -> Option<string>)

  // ----- the answer as a function of the tree -----

  datatype Effect = Effect(tree: Tree, status: int, etag: Option<string>, body: string)

  function Refused(t: Tree, status: int): Effect {
    Effect(t, status, None, "")
  }

  ghost function Serve(h: Hashing, s: Settings, t: Tree, r: Request): Effect
    requires Proper(h)
  {
    match r.verb
    case PUT => ServePut(h, t, r)
    case DELETE => ServeDelete(h, t, r)
    case GET => ServeGet(h, t, r)
    case HEAD => if s.experimental then ServeHead(h, t, r) else Refused(t, 405)
  }

  /** Does a precondition of a PUT fail? */
  ghost predicate PutPreconditionFails(h: Hashing, t: Tree, p: Path, r: Request)
    requires Proper(h)
  {
    || (r.ifMatch.Some? && (p !in t || Tag(h, t, p) != r.ifMatch.value))
    || (r.ifNoneMatch == Some("*") && p in t)
  }

  ghost function ServePut(h: Hashing, t: Tree, r: Request): Effect
    requires Proper(h)
  {
    var p := r.target.Location();
    if r.target.Folder? then Refused(t, 400)
    else if PutPreconditionFails(h, t, p, r) then Refused(t, 412)
    else WriteEffect(h, t, r)
  }

  /** The outcome of a PUT whose preconditions hold. */
  ghost function WriteEffect(h: Hashing, t: Tree, r: Request): Effect {
    var p := r.target.Location();
    if !Reachable(t, p) then Refused(t, 400)
    else if p in t && t[p].Dir? then Refused(t, 500)
    else Effect(PutTree(t, p, r.body), if p in t then 200 else 201, Some(h.digest(r.body)), "")
  }

  ghost function ServeDelete(h: Hashing, t: Tree, r: Request): Effect
    requires Proper(h)
  {
    var p := r.target.Location();
    if r.target.Folder? then Refused(t, 400)
    else if p !in t then Refused(t, 404)
    else if t[p].Dir? then Refused(t, 400)
    else if r.ifMatch.Some? && Tag(h, t, p) != r.ifMatch.value then Refused(t, 412)
    else Effect(DeleteTree(t, p), 200, Some(Tag(h, t, p)), "")
  }

  /** Does the path lead to what it says, a directory or a file? */
  predicate Present(t: Tree, target: Target) {
    var p := target.Location();
    p in t && (t[p].Dir? <==> target.Folder?)
  }

  ghost function ServeGet(h: Hashing, t: Tree, r: Request): Effect
    requires Proper(h)
  {
    var p := r.target.Location();
    if !Present(t, r.target) then Refused(t, 404)
    else if r.target.Folder? then Effect(t, 200, Some(Tag(h, t, p)), Print(Obj(ListingMembers(h, t, p))))
    else if r.ifNoneMatch == Some(Tag(h, t, p)) then Refused(t, 304)
    else Effect(t, 200, Some(Tag(h, t, p)), t[p].content)
  }

  ghost function ServeHead(h: Hashing, t: Tree, r: Request): Effect
    requires Proper(h)
  {
    var p := r.target.Location();
    if !Present(t, r.target) then Refused(t, 404)
    else if r.ifNoneMatch == Some(Tag(h, t, p)) then Refused(t, 304)
    else Effect(t, 200, Some(Tag(h, t, p)), "")
  }

  /** A directory listing: each child's name, with a slash if it is a directory, and tag. */
  ghost function ListingMember(h: Hashing, t: Tree, d: Path, n: string): Member
    requires Proper(h) && d + [n] in t
  {
    Member(n + (if t[d + [n]].Dir? then "/" else ""), Str(Tag(h, t, d + [n])))
  }

  ghost function ListingMembers(h: Hashing, t: Tree, d: Path): (members: seq<Member>)
    requires Proper(h)
    ensures |members| == |Listing(h, t, d)|
  {
    var names := Listing(h, t, d);
    seq(|names|, i requires 0 <= i < |names| => ListingMember(h, t, d, names[i]))
  }

  // ----- content types -----

  /** The content type of a GET or HEAD on a document. */
  function ServedType(s: Settings, mime: Option<string>, charset: Option<string>, content: string): string {
    match ReadBack(mime, charset)
    case Some(ct) => ct
    case None => s.guess(content).GetOr(OCTET_STREAM)
  }

  // ----- the handlers -----

  /** The response and the disk agree with the answer. */
  predicate Gives(disk: Disk, resp: Response, e: Effect)
    reads disk
  {
    disk.tree == e.tree && resp.status == e.status && resp.etag == e.etag && resp.body == e.body
  }

  function Bare(status: int): Response {
    Response(status, None, None, "")
  }

  /** Every prefix of `dir` shorter than `n` that exists is a directory. */
  ghost predicate NoFileOn(t: Tree, dir: Path, n: nat) {
    forall k | 0 <= k < n && k <= |dir| && dir[..k] in t :: t[dir[..k]].Dir?
  }

  /** All facts about one step of the walk along `dir`. */
  lemma WalkStep(t: Tree, dir: Path, i: nat)
    requires WellFormed(t) && i < |dir|
    requires NoFileOn(t, dir, i + 1)
    ensures var s, next := MakeDirs(t, dir, i + 1), dir[..i] + [dir[i]];
            && next == dir[..i + 1] && Parent(next) == dir[..i]
            && dir[..i] in s && s[dir[..i]].Dir?
            && (next in s <==> next in t)
            && (next in t ==> s == t && MakeDirs(t, dir, i + 2) == t)
            && (next !in t ==> MakeDirs(t, dir, i + 2) == s[next := Dir])
            && (NoFileOn(t, dir, i + 2) <==> next in t ==> t[next].Dir?)
            && (next in t && t[next].File? ==> !NoFileOn(t, dir, |dir| + 1))
  {
    hide MakeDirs, WellFormed;
    var next := dir[..i] + [dir[i]];
    assert next == dir[..i + 1];
    assert NoFileOn(t, dir, i + 1) && dir[..i] in t ==> t[dir[..i]].Dir?;
    hide NoFileOn;
    MakeDirsAt(t, dir, i + 1, dir[..i]);
    MakeDirsStep(t, dir, i + 1);
    NoFileStep(t, dir, i);
    if next in t {
      NothingMade(t, dir, i + 1);
    }
  }

  lemma NoFileStep(t: Tree, dir: Path, i: nat)
    requires i < |dir| && NoFileOn(t, dir, i + 1)
    ensures NoFileOn(t, dir, i + 2) <==> dir[..i + 1] in t ==> t[dir[..i + 1]].Dir?
    ensures dir[..i + 1] in t && t[dir[..i + 1]].File? ==> !NoFileOn(t, dir, |dir| + 1)
  {
  }

  lemma WalkStarts(t: Tree, dir: Path)
    requires WellFormed(t)
    ensures MakeDirs(t, dir, 1) == t && NoFileOn(t, dir, 1)
  {
    assert dir[..0] == [];
    NothingMade(t, dir, 0);
  }

  /** One component of the walk: look it up, and make it if it is missing. */
  method Enter(disk: Disk, next: Path) returns (status: int)
    requires disk.Valid() && next != [] && Parent(next) in disk.tree && disk.tree[Parent(next)].Dir?
    modifies disk`tree
    ensures disk.Valid()
    ensures status == if next in old(disk.tree) && old(disk.tree)[next].File? then 400 else 0
    ensures disk.tree == if next in old(disk.tree) then old(disk.tree) else old(disk.tree)[next := Dir]
  {
    if next in disk.tree {
      return if disk.tree[next].File? then 400 else 0;
    }
    var ok := disk.Mkdir(next);
    return if ok then 0 else 500;
  }

  /** Walks along the names of `dir` and makes the directories that are missing. */
  method MakeParents(disk: Disk, dir: Path) returns (status: int)
    requires disk.Valid()
    modifies disk`tree
    ensures disk.Valid()
    ensures status == 0 || status == 400
    ensures status == 0 <==> NoFileOn(old(disk.tree), dir, |dir| + 1)
    ensures disk.tree == if status == 0 then MakeDirs(old(disk.tree), dir, |dir| + 1) else old(disk.tree)
  {
    ghost var t := disk.tree;
    assert WellFormed(t);
    hide MakeDirs, WellFormed, Disk.Valid, NoFileOn;
    WalkStarts(t, dir);
    for i := 0 to |dir|
      invariant disk.Valid() && disk.tree == MakeDirs(t, dir, i + 1)
      invariant NoFileOn(t, dir, i + 1)
    {
      WalkStep(t, dir, i);
      status := Enter(disk, dir[..i] + [dir[i]]);
      if status != 0 {
        return;
      }
    }
    return 0;
  }

  lemma ParentsOfDocument(t: Tree, dir: Path, name: string, content: string)
    ensures PutTree(t, dir + [name], content) == MakeDirs(t, dir, |dir| + 1)[dir + [name] := File(content)]
    ensures Reachable(t, dir + [name]) <==> NoFileOn(t, dir, |dir| + 1)
  {
    var p := dir + [name];
    forall q
      ensures q in MakeDirs(t, p, |p|) <==> q in MakeDirs(t, dir, |dir| + 1)
      ensures q in MakeDirs(t, p, |p|) ==> MakeDirs(t, p, |p|)[q] == MakeDirs(t, dir, |dir| + 1)[q]
    {
      hide MakeDirs;
      MakeDirsAt(t, p, |p|, q);
      MakeDirsAt(t, dir, |dir| + 1, q);
      PrefixOfDocument(dir, name, q);
    }
    assert MakeDirs(t, p, |p|) == MakeDirs(t, dir, |dir| + 1);
    if NoFileOn(t, dir, |dir| + 1) {
      forall q | q in t && q < p
        ensures t[q].Dir?
      {
        PrefixOfDocument(dir, name, q);
        assert q == dir[..|q|];
      }
    }
    forall k | 0 <= k <= |dir|
      ensures dir[..k] < p
    {
      PrefixOfDocument(dir, name, dir[..k]);
    }
  }

  lemma PrefixOfDocument(dir: Path, name: string, q: Path)
    ensures q < dir + [name] <==> q <= dir
    ensures q <= dir + [name] && |q| <= |dir| <==> q <= dir
  {
    if |q| <= |dir| {
      assert (dir + [name])[..|q|] == dir[..|q|];
    }
  }

  /** After the walk the document's directory is there, and the document if it was. */
  lemma ParentsReady(t: Tree, dir: Path, name: string)
    requires WellFormed(t)
    requires NoFileOn(t, dir, |dir| + 1)
    ensures var s, p := MakeDirs(t, dir, |dir| + 1), dir + [name];
            && p != [] && Parent(p) == dir
            && dir in s && s[dir].Dir?
            && (p in s <==> p in t)
            && (p in t ==> s == t)
  {
    hide MakeDirs;
    var p := dir + [name];
    assert dir[..|dir|] == dir && Parent(p) == dir;
    MakeDirsAt(t, dir, |dir| + 1, dir);
    MakeDirsAt(t, dir, |dir| + 1, p);
    if p in t {
      PrefixPresent(t, dir, p);
      NothingMade(t, dir, |dir|);
    }
  }

  lemma DefaultTypeHasMime()
    ensures HasMime(OCTET_STREAM)
  {
    assert OCTET_STREAM[0] == 'a';
  }

  /** The content type of every node that survives is what it was. */
  twostate predicate OtherTypesKept(disk: Disk, p: Path)
    reads disk
  {
    forall q, key | key != ETAG && q != p && q in disk.tree :: disk.Attr(q, key) == old(disk.Attr(q, key))
  }

  /** PUT: check the preconditions, make the parents, write the file and its content type. */
  method Put(disk: Disk, s: Settings, r: Request) returns (resp: Response)
    requires disk.Valid() && r.verb == PUT
    requires r.contentType.Some? ==> HasMime(r.contentType.value)
    modifies disk
    ensures disk.Valid()
    ensures Gives(disk, resp, Serve(disk.hashing, s, old(disk.tree), r))
    ensures OtherTypesKept(disk, r.target.Location())
    ensures resp.status in {200, 201} ==>
              var sent := r.contentType.GetOr(OCTET_STREAM); var p := r.target.Location();
              && resp.contentType == Some(sent)
              && ReadBack(disk.Attr(p, MIME_TYPE), disk.Attr(p, CHARSET)) == Normalised(sent)
  {
    if r.target.Folder? {
      return Bare(400);
    }
    var p := r.target.Location();
    var present := p in disk.tree;
    if r.ifMatch.Some? {
      if !present {
        return Bare(412);
      }
      var current := disk.GetEtag(p);
      if current != r.ifMatch.value {
        return Bare(412);
      }
    }
    if r.ifNoneMatch == Some("*") && present {
      return Bare(412);
    }
    resp := WriteDocument(disk, r, present);
  }

  /** The part of PUT after the preconditions. */
  method WriteDocument(disk: Disk, r: Request, present: bool) returns (resp: Response)
    requires disk.Valid() && r.target.Document?
    requires present <==> r.target.Location() in disk.tree
    requires r.contentType.Some? ==> HasMime(r.contentType.value)
    modifies disk
    ensures disk.Valid()
    ensures Gives(disk, resp, WriteEffect(disk.hashing, old(disk.tree), r))
    ensures OtherTypesKept(disk, r.target.Location())
    ensures resp.status in {200, 201} ==>
              var sent := r.contentType.GetOr(OCTET_STREAM); var p := r.target.Location();
              && resp.contentType == Some(sent)
              && ReadBack(disk.Attr(p, MIME_TYPE), disk.Attr(p, CHARSET)) == Normalised(sent)
  {
    assert Proper(disk.hashing);
    hide Reachable, PutTree, ReadBack, Normalised, HasMime, Disk.Valid;
    var p := r.target.Location();
    var status := WriteTree(disk, r.target.dir, r.target.name, r.body);
    if status != 0 {
      return Bare(status);
    }
    var contentType := r.contentType.GetOr(OCTET_STREAM);
    DefaultTypeHasMime();
    var etag := StoreType(disk, p, contentType);
    TagOfFile(disk.hashing, disk.tree, p);
    resp := Response(if present then 200 else 201, Some(etag), Some(contentType), "");
  }

  /** The content type's part, and the tag to answer. */
  method StoreType(disk: Disk, p: Path, contentType: string) returns (etag: string)
    requires disk.Valid() && p in disk.tree && HasMime(contentType)
    modifies disk`xattr
    ensures disk.Valid() && OtherTypesKept(disk, p)
    ensures ReadBack(disk.Attr(p, MIME_TYPE), disk.Attr(p, CHARSET)) == Normalised(contentType)
    ensures etag == Tag(disk.hashing, disk.tree, p)
  {
    hide ReadBack, Normalised, MimePart, CharsetPart, HasMime;
    disk.ContentTypeToXattr(p, contentType);
    etag := disk.GetEtag(p);
  }

  /** The tree's part: parents, then the file. */
  method WriteTree(disk: Disk, dir: Path, name: string, content: string) returns (status: int)
    requires disk.Valid()
    modifies disk`tree
    ensures disk.Valid()
    ensures var t, p := old(disk.tree), dir + [name];
            && status == (if !Reachable(t, p) then 400 else if p in t && t[p].Dir? then 500 else 0)
            && disk.tree == (if status == 0 then PutTree(t, p, content) else t)
    ensures status == 0 ==> dir + [name] in disk.tree && disk.tree[dir + [name]] == File(content)
  {
    ghost var t := disk.tree;
    hide PutTree, MakeDirs, WellFormed;
    ParentsOfDocument(t, dir, name, content);
    status := MakeParents(disk, dir);
    if status == 0 {
      ParentsReady(t, dir, name);
      var ok := disk.WriteFile(dir + [name], content);
      if !ok {
        status := 500;
      }
    }
  }

  /** DELETE: unlink the document, then climb and remove the parents this leaves empty. */
  method Delete(disk: Disk, s: Settings, r: Request) returns (resp: Response)
    requires disk.Valid() && r.verb == DELETE
    modifies disk
    ensures disk.Valid()
    ensures Gives(disk, resp, Serve(disk.hashing, s, old(disk.tree), r))
    ensures OtherTypesKept(disk, r.target.Location())
    ensures resp.status == 200 ==>
              var p := r.target.Location();
              p in old(disk.tree) && old(disk.tree)[p].File? && resp.etag == Some(disk.hashing.digest(old(disk.tree)[p].content))
  {
    hide DeleteTree, WellFormed;
    if r.target.Folder? {
      return Bare(400);
    }
    var p := r.target.Location();
    if p !in disk.tree {
      return Bare(404);
    }
    if disk.tree[p].Dir? {
      return Bare(400);
    }
    var etag := disk.GetEtag(p);
    if r.ifMatch.Some? && etag != r.ifMatch.value {
      return Bare(412);
    }
    var status := UnlinkDocument(disk, p);
    resp := Response(status, Some(etag), None, "");
  }

  method UnlinkDocument(disk: Disk, p: Path) returns (status: int)
    requires disk.Valid() && p in disk.tree && disk.tree[p].File?
    modifies disk
    ensures disk.Valid()
    ensures status == 200 && disk.tree == DeleteTree(old(disk.tree), p)
    ensures OtherTypesKept(disk, p)
  {
    ghost var t := disk.tree;
    var ok := disk.Unlink(p);
    if !ok {
      return 500;
    }
    status := RemoveEmptyParents(disk, p, t);
  }

  /** The climb: remove the directory above while that succeeds; a directory that is not
      empty ends it, and any other failure is an error. */
  method RemoveEmptyParents(disk: Disk, p: Path, ghost t: Tree) returns (status: int)
    requires disk.Valid()
    requires WellFormed(t) && p in t && t[p].File? && disk.tree == t - {p}
    modifies disk
    ensures disk.Valid()
    ensures status == 200 && disk.tree == DeleteTree(t, p)
    ensures OtherTypesKept(disk, p)
  {
    hide DeleteTree, Climbed, WellFormed, Disk.Valid;
    ClimbStarts(t, p);
    var k := |p| - 1;
    while k > 0
      invariant 0 <= k < |p|
      invariant disk.Valid() && disk.tree == Climbed(t, p, k)
      invariant OtherTypesKept(disk, p)
    {
      ClimbStep(t, p, k);
      var result := disk.Rmdir(p[..k]);
      match result {
        case NotEmpty =>
          return 200;
        case RmdirFailed =>
          return 500;
        case DirRemoved =>
          k := k - 1;
      }
    }
    ClimbEnds(t, p);
    return 200;
  }

  /** The common part of GET and HEAD on an existing path: the headers, or an early
      answer. `mimeType` is given for directories. */
  method ServeFileHead(disk: Disk, s: Settings, r: Request, mimeType: Option<string>) returns (resp: Response)
    requires disk.Valid() && r.target.Location() in disk.tree
    modifies disk`xattr
    ensures disk.Valid() && disk.OnlyTagsStored()
    ensures var p := r.target.Location(); var tag := Tag(disk.hashing, disk.tree, p);
            if !Present(disk.tree, r.target) then resp == Bare(404)
            else if r.ifNoneMatch == Some(tag) then resp == Bare(304)
            else && resp.status == 0 && resp.etag == Some(tag) && resp.body == ""
                 && (mimeType.Some? ==> resp.contentType == mimeType)
                 && (mimeType.None? && r.target.Document? ==> resp.contentType == Some(DocumentType(disk, s, p)))
  {
    var p := r.target.Location();
    if r.target.Folder? {
      if !disk.tree[p].Dir? {
        return Bare(404);
      }
    } else {
      if disk.tree[p].Dir? {
        return Bare(404);
      }
    }
    var etag := disk.GetEtag(p);
    if r.ifNoneMatch == Some(etag) {
      return Bare(304);
    }
    var contentType := mimeType;
    if contentType == None {
      contentType := disk.ContentTypeFromXattr(p);
      if contentType == None {
        var content := if disk.tree[p].File? then disk.tree[p].content else "";
        contentType := Some(s.guess(content).GetOr(OCTET_STREAM));
      }
    }
    resp := Response(0, Some(etag), contentType, "");
  }

  /** The content type a document is served with. */
  function DocumentType(disk: Disk, s: Settings, p: Path): string
    requires p in disk.tree && disk.tree[p].File?
    reads disk
  {
    ServedType(s, disk.Attr(p, MIME_TYPE), disk.Attr(p, CHARSET), disk.tree[p].content)
  }

  /** A directory's listing, written child by child in directory order. */
  method ServeDirectory(disk: Disk, d: Path) returns (resp: Response)
    requires disk.Valid() && d in disk.tree && disk.tree[d].Dir?
    modifies disk`xattr
    ensures disk.Valid() && disk.OnlyTagsStored()
    ensures resp == Response(200, Some(Tag(disk.hashing, disk.tree, d)), Some("application/json; charset=UTF-8"),
                             Print(Obj(ListingMembers(disk.hashing, disk.tree, d))))
  {
    hide Print, PrintMembers, PrintMember;
    assert Proper(disk.hashing);
    hide Disk.Valid;
    var w := new Writer();
    ghost var members := ListingMembers(disk.hashing, disk.tree, d);
    var names := disk.hashing.order(Children(disk.tree, d));
    w.StartObject();
    Opened("", members);
    for i := 0 to |names|
      invariant disk.Valid() && disk.OnlyTagsStored()
      invariant w.Valid() && w.sp == 1 && w.ss[1] == if i == 0 then 0 else 1
      invariant Written("", members[..i], w.out)
    {
      var entry := d + [names[i]];
      var key := names[i] + (if disk.tree[entry].Dir? then "/" else "");
      var val := disk.GetEtag(entry);
      Add(w, "", members, i, key, val);
    }
    Closed("", members, w.out);
    w.EndObject();
    var etag := disk.GetEtag(d);
    resp := Response(200, Some(etag), Some("application/json; charset=UTF-8"), w.out);
  }

  /** GET and HEAD. */
  method GetOrHead(disk: Disk, s: Settings, r: Request, includeBody: bool) returns (resp: Response)
    requires disk.Valid()
    modifies disk`xattr
    ensures disk.Valid() && disk.OnlyTagsStored()
    ensures Gives(disk, resp, if includeBody then ServeGet(disk.hashing, disk.tree, r) else ServeHead(disk.hashing, disk.tree, r))
    ensures resp.status == 200 && r.target.Document? ==>
              resp.contentType == Some(DocumentType(disk, s, r.target.Location()))
    ensures resp.status == 200 && r.target.Folder? ==>
              resp.contentType == Some(if includeBody then "application/json; charset=UTF-8" else "application/json")
  {
    var p := r.target.Location();
    // a path ending in '/' is found only if it leads to a directory
    if p !in disk.tree || (r.target.Folder? && disk.tree[p].File?) {
      return Bare(404);
    }
    if r.target.Folder? {
      if includeBody {
        resp := ServeDirectory(disk, p);
      } else {
        resp := ServeFileHead(disk, s, r, Some("application/json"));
        if resp.status == 0 {
          resp := resp.(status := 200);
        }
      }
    } else {
      resp := ServeFileHead(disk, s, r, None);
      if resp.status == 0 {
        resp := resp.(status := 200, body := if includeBody then disk.tree[p].content else "");
      }
    }
  }

  method Get(disk: Disk, s: Settings, r: Request) returns (resp: Response)
    requires disk.Valid() && r.verb == GET
    modifies disk`xattr
    ensures disk.Valid() && disk.OnlyTagsStored()
    ensures Gives(disk, resp, Serve(disk.hashing, s, old(disk.tree), r))
    ensures resp.status == 200 && r.target.Document? ==>
              resp.contentType == Some(DocumentType(disk, s, r.target.Location()))
  {
    resp := GetOrHead(disk, s, r, true);
  }

  method Head(disk: Disk, s: Settings, r: Request) returns (resp: Response)
    requires disk.Valid() && r.verb == HEAD
    modifies disk`xattr
    ensures disk.Valid() && disk.OnlyTagsStored()
    ensures Gives(disk, resp, Serve(disk.hashing, s, old(disk.tree), r))
    ensures resp.status == 200 && r.target.Document? ==>
              resp.contentType == Some(DocumentType(disk, s, r.target.Location()))
  {
    if s.experimental {
      resp := GetOrHead(disk, s, r, false);
    } else {
      resp := Bare(405);
    }
  }
}
