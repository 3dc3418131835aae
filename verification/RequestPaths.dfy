/** Request paths and the places in the tree they lead to. The authorization check reads the
    path as it was sent (src/handler/auth.c), the storage handlers use it rewritten
    (src/handler/storage.c); here is when the two agree.
 */
module RequestPaths {
  import opened Strings
  import opened FileTree
  import opened Storage
  import opened PathRewriting
  import opened Authorize
  import opened DiskPaths

  // ----- the place a path leads to -----

  /** A name that a directory can hold. */
  predicate IsTreeName(n: string) {
    IsName(n) && !IsDots(n)
  }

  /** What a request path leads to, if rewriting leaves it a path of tree names that still
      says whether it is a folder. */
  function Resolve(raw: string): Option<Target> {
    var path := Rewritten(raw);
    var names := Tokens(path);
    if exists n | n in names :: !IsTreeName(n) then None
    else if EndsInSlash(raw) then
      if path == Join(names) + "/" then Some(Folder(names)) else None
    else if names != [] && path == Join(names) then Some(Document(Parent(names), names[|names| - 1]))
    else None
  }

  lemma ResolvedLocation(raw: string)
    ensures Resolve(raw).Some? ==> Resolve(raw).value.Location() == Tokens(Rewritten(raw))
    ensures Resolve(raw).Some? ==> forall n | n in Resolve(raw).value.Location() :: IsTreeName(n)
  {
    hide Rewritten, Tokens;
    var names := Tokens(Rewritten(raw));
    assert names != [] ==> Parent(names) + [names[|names| - 1]] == names;
  }

  /** The disk path of a request, behind the storage root. */
  function DiskSpot(raw: string): Spot {
    Spot(Tokens(Rewritten(raw)), EndsInSlash(Rewritten(raw)), EndsInSlash(raw))
  }

  /** The disk path never leaves the storage root: it continues the root's path with a
      slash, and no ".." leads above it. */
  predicate StaysInRoot(raw: string) {
    KeepsSlash(raw) && NeverClimbs(0, Tokens(Rewritten(raw)))
  }

  /** The condition is exact: the text put behind the root is rooted, and every directory
      that the names lead through is in the root. */
  lemma InRootIff(raw: string)
    ensures StaysInRoot(raw) <==> Rooted(Rewritten(raw)) && StaysIn([], [], Tokens(Rewritten(raw)))
  {
    hide Rewritten, Tokens, KeepsSlash, StaysIn, NeverClimbs;
    RootedIff(raw);
    var root: Path := [];
    assert root + root == root;
    StaysIff(root, root, Tokens(Rewritten(raw)));
  }

  /** A path that leads to a place of the tree has that place for its disk path. */
  lemma ResolvedSpot(raw: string)
    requires Resolve(raw).Some?
    ensures var target := Resolve(raw).value;
            DiskSpot(raw) == SpotOf(target) && IsPlain(target.Location()) && StaysInRoot(raw)
  {
    hide Rewritten, Tokens, KeepsSlash, Join;
    ResolvedLocation(raw);
    var names := Tokens(Rewritten(raw));
    assert forall n | n in names :: IsTreeName(n);
    JoinEnds(names);
    JoinStarts(names);
    NoJoin();
    PlainNeverClimbs(0, names);
    RootedIff(raw);
  }

  /** A path without "//" that starts with a slash is the join of its names, up to a slash
      at the end. */
  lemma {:induction false} JoinOfTokens(path: string)
    requires Free(path, SLASHES) && path != "" && path[0] == '/'
    ensures path == Join(Tokens(path)) + (if EndsInSlash(path) then "/" else "")
    ensures forall n | n in Tokens(path) :: IsName(n)
    decreases |path|
  {
    hide Tokens, Join, SpanUntil, Free;
    var rest := path[1..];
    OneSlash(path);
    TokensUnfold(path);
    NoJoin();
    if rest == "" {
      assert path == "/";
    } else {
      var n := SpanUntil(rest, '/');
      var name, tail := rest[..n], rest[n..];
      assert path == "/" + name + tail;
      JoinCons(name, Tokens(tail));
      if tail == "" {
        assert path[|path| - 1] == name[n - 1];
        assert Tokens(tail) == [] by { TokensUnfold(""); }
      } else {
        TailFree(path, SLASHES, 1 + n);
        assert tail == path[1 + n..];
        JoinOfTokens(tail);
        assert tail[|tail| - 1] == path[|path| - 1];
      }
    }
  }

  lemma OneSlash(path: string)
    requires Free(path, SLASHES) && path != "" && path[0] == '/'
    ensures SpanOf(path, '/') == 1
    ensures path[1..] != "" ==> SpanUntil(path[1..], '/') > 0
  {
    SlashesAt(path, 0);
    SpanOfIs(path, 1);
  }

  lemma JoinCons(name: string, names: seq<string>)
    ensures Join([name] + names) == "/" + name + Join(names)
  {
    assert ([name] + names)[1..] == names;
  }

  lemma TailFree(path: string, pat: string, k: nat)
    requires Free(path, pat) && k <= |path|
    ensures Free(path[k..], pat)
  {
    forall i: nat
      ensures !OccursAt(path[k..], pat, i)
    {
      assert !OccursAt(path, pat, k + i);
      if k + i + |pat| <= |path| {
        assert path[k..][i..i + |pat|] == path[k + i..k + i + |pat|];
      }
    }
  }

  /** On such a path "/.." occurs exactly if a name begins with "..". */
  lemma NamesWithoutParent(path: string)
    requires Free(path, SLASHES) && path != "" && path[0] == '/'
    ensures Free(path, PARENT) <==> forall n | n in Tokens(path) :: !StartsWith(n, "..")
  {
    hide Tokens, Join;
    JoinOfTokens(path);
    var names := Tokens(path);
    JoinParentFree(names);
    forall i: nat
      ensures OccursAt(Join(names), PARENT, i) <==> OccursAt(path, PARENT, i)
    {
      ParentAt(Join(names), i);
      ParentAt(path, i);
    }
  }

  /** Which request paths lead to a place in the tree: read off the path between the two
      loops. The leading run of slashes is odd, no name is "." or "..", and the trailing
      run is odd exactly if the path was sent as a folder's. */
  lemma ResolveIff(raw: string)
    ensures var mid := NormalForm(raw, PARENT);
            Resolve(raw).Some? <==>
              && SpanOf(mid, '/') % 2 == 1
              && (RunBefore(mid, |mid|) % 2 == 1 <==> EndsInSlash(raw))
              && forall n | n in Tokens(Rewritten(raw)) :: n != "." && n != ".."
  {
    hide Tokens, Join, NormalForm;
    var mid, path := NormalForm(raw, PARENT), Rewritten(raw);
    var names := Tokens(path);
    CleanResult(raw);
    StartsIff(raw);
    EndsInSlashIff(raw);
    if path != "" && path[0] == '/' {
      JoinOfTokens(path);
      JoinEnds(names);
    } else {
      JoinStarts(names);
      NoJoin();
    }
  }

  /** Enough for ".." not to be among the names: nothing like "/.." in the result. */
  lemma NoParentName(raw: string)
    ensures Rooted(Rewritten(raw)) && (forall i: nat :: !RestoredAt(NormalForm(raw, PARENT), i)) ==>
              ".." !in Tokens(Rewritten(raw))
  {
    hide Tokens, NormalForm;
    CleanResult(raw);
    var path := Rewritten(raw);
    if path == "" {
      TokensUnfold("");
    } else if path[0] == '/' {
      NamesWithoutParent(path);
    }
  }

  lemma StartsIff(raw: string)
    ensures var path, mid := Rewritten(raw), NormalForm(raw, PARENT);
            path != "" && path[0] == '/' <==> SpanOf(mid, '/') % 2 == 1
  {
    var mid := NormalForm(raw, PARENT);
    SlashesNormalForm(mid);
    HalvedStart(mid);
  }

  lemma {:induction false} JoinEnds(names: seq<string>)
    requires forall n | n in names :: IsName(n)
    ensures !EndsInSlash(Join(names))
    ensures names != [] ==> Join(names) != ""
    ensures names == [] ==> Join(names) == ""
  {
    if names != [] {
      JoinEnds(names[1..]);
      assert names[0] in names && names[0][|names[0]| - 1] in names[0];
    }
  }

  lemma NoJoin()
    ensures Join([]) == ""
  {
  }

  // ----- ordinary paths -----

  /** The part of the URL after the user name, for a place in the tree. */
  function RawPath(target: Target): string {
    match target
    case Folder(dir) => Join(dir) + "/"
    case Document(dir, name) => Join(dir + [name])
  }

  /** A path made of names that do not begin with "..", none of them ".". */
  predicate NamedTarget(target: Target) {
    forall n | n in target.Location() :: IsName(n) && n != "." && !StartsWith(n, "..")
  }

  /** The path of such a target reaches the disk unchanged and leads to the target. */
  lemma NamedTargetResolves(target: Target)
    requires NamedTarget(target)
    ensures Rewritten(RawPath(target)) == RawPath(target)
    ensures Resolve(RawPath(target)) == Some(target)
    ensures forall scope :: StaysBelow(scope, RawPath(target))
  {
    hide Tokens, Join, NormalForm, Free, StaysBelow;
    var names := target.Location();
    match target {
      case Document(dir, name) =>
        NamesUnchanged(names);
        JoinEnds(names);
        JoinSlashFree(names);
        JoinParentFree(names);
        assert Parent(names) == dir;
      case Folder(dir) =>
        FolderPathClean(dir);
        CleanResult(RawPath(target));
        FreeIsNormal(RawPath(target), PARENT);
        TokensOfFolder(dir);
    }
    forall scope ensures StaysBelow(scope, RawPath(target)) { FreeStaysBelow(scope, RawPath(target)); }
  }

  lemma FolderPathClean(dir: Path)
    requires forall n | n in dir :: IsName(n) && !StartsWith(n, "..")
    ensures Free(Join(dir) + "/", SLASHES) && Free(Join(dir) + "/", PARENT)
  {
    var path := Join(dir) + "/";
    JoinSlashFree(dir);
    JoinParentFree(dir);
    JoinEnds(dir);
    SlashFree(Join(dir));
    SlashFree(path);
    forall k: nat ensures !DoubleAt(path, k) {
      assert !DoubleAt(Join(dir), k);
    }
    forall k: nat ensures !OccursAt(path, PARENT, k) {
      ParentAt(path, k);
      ParentAt(Join(dir), k);
      assert !OccursAt(Join(dir), PARENT, k);
    }
  }

  lemma TokensOfFolder(dir: Path)
    requires forall n | n in dir :: IsName(n)
    ensures Tokens(Join(dir) + "/") == dir
  {
    hide Tokens;
    assert Tokens("/") == [] by { TokensUnfold("/"); SpanOfIs("/", 1); }
    if dir == [] {
      assert Join(dir) + "/" == "/";
    } else {
      TokensAfter(dir, "/");
      var last := dir[|dir| - 1];
      assert "/"[..0] == "" && "/"[0..] == "/" && last + "" == last;
      assert Parent(dir) + [last] + [] == dir;
    }
  }

  // ----- paths below a directory -----

  /** A name that rewriting leaves alone behind a slash and in front of one. */
  predicate IsScopeName(n: string) {
    IsName(n) && n != "." && !StartsWith(n, "..")
  }

  predicate EndsInParentPart(s: string) {
    EndsInSlash(s) || (|s| >= 2 && s[|s| - 2] == '/' && s[|s| - 1] == '.')
  }

  lemma PushBehind(acc: string, b: string, c: char)
    requires !EndsInParentPart(acc)
    ensures Push(acc + b, c, PARENT) == acc + Push(b, c, PARENT)
  {
    EndsWithParent(acc + b + [c]);
    EndsWithParent(b + [c]);
    var s := acc + b + [c];
    assert s == acc + (b + [c]);
    if EndsWith(b + [c], PARENT) {
      assert s[..|s| - 3] == acc + (b + [c])[..|b| - 2];
    }
    assert |b| == 1 && |acc| > 0 ==> s[|s| - 3] == acc[|acc| - 1];
    assert |b| == 0 && |acc| > 1 ==> s[|s| - 3] == acc[|acc| - 2] && s[|s| - 2] == acc[|acc| - 1];
  }

  /** Behind a text that cannot begin a "/..", the rest is reduced by itself. */
  lemma {:induction false} ReduceBehind(acc: string, b: string, s: string)
    requires !EndsInParentPart(acc)
    ensures Reduce(acc + b, s, PARENT) == acc + Reduce(b, s, PARENT)
    decreases |s|
  {
    hide Push;
    if s != "" {
      PushBehind(acc, b, s[0]);
      ReduceBehind(acc, Push(b, s[0], PARENT), s[1..]);
    }
  }

  lemma {:induction false} JoinLast(scope: Path)
    requires scope != []
    ensures Join(scope) == Join(Parent(scope)) + ("/" + scope[|scope| - 1])
  {
    if |scope| == 1 {
      assert Join(scope) == "/" + scope[0] + Join(scope[1..]);
      assert Parent(scope) == [];
    } else {
      JoinLast(scope[1..]);
      assert Parent(scope)[0] == scope[0] && Parent(scope)[1..] == Parent(scope[1..]);
      assert Join(Parent(scope)) == "/" + scope[0] + Join(Parent(scope[1..]));
    }
  }

  lemma ScopeEnd(scope: Path)
    requires scope != [] && forall n | n in scope :: IsScopeName(n)
    ensures !EndsInParentPart(Join(scope)) && Free(Join(scope), PARENT) && Free(Join(scope), SLASHES)
  {
    var last := scope[|scope| - 1];
    var s := Join(scope);
    JoinLast(scope);
    JoinSlashFree(scope);
    JoinParentFree(scope);
    assert last in scope && last[|last| - 1] in last;
    assert s[|s| - 1] == last[|last| - 1];
    if |last| == 1 {
      assert last == [last[0]];
    } else {
      assert last[|last| - 2] in last && s[|s| - 2] == last[|last| - 2];
    }
  }

  /** Behind the path of a directory the rest is rewritten by itself. */
  lemma RewrittenBehind(scope: Path, rest: string)
    requires scope != [] && forall n | n in scope :: IsScopeName(n)
    ensures Rewritten(Join(scope) + rest) == Join(scope) + Rewritten(rest)
  {
    hide Reduce, Join, Free;
    var front, mid := Join(scope), NormalForm(rest, PARENT);
    ScopeEnd(scope);
    ReduceAppend("", front, rest, PARENT);
    FreeIsNormal(front, PARENT);
    assert front + "" == front;
    ReduceBehind(front, "", rest);
    ReduceAppend("", front, mid, SLASHES);
    FreeIsNormal(front, SLASHES);
    ReduceHalvesRuns(front, mid);
    SlashesNormalForm(mid);
  }

  /** The names of a text behind the path of a directory: up to its first slash it belongs
      to the directory's last name. */
  lemma {:induction false} TokensAfter(scope: Path, tail: string)
    requires scope != [] && forall n | n in scope :: IsName(n)
    ensures var m := SpanUntil(tail, '/');
            Tokens(Join(scope) + tail) == Parent(scope) + [scope[|scope| - 1] + tail[..m]] + Tokens(tail[m..])
  {
    hide Tokens, SpanUntil;
    var name, others := scope[0], scope[1..];
    assert name in scope;
    assert Join(scope) == "/" + name + Join(others);
    if others == [] {
      assert Join(others) == "" && "/" + name + "" == "/" + name;
      TokensAfterName(name, tail);
      assert Parent(scope) == [] && scope[|scope| - 1] == name;
      assert forall a, b: Path :: [] + a + b == a + b;
    } else {
      var text := Join(others) + tail;
      assert Join(scope) + tail == "/" + name + text;
      JoinStarts(others);
      assert text[0] == Join(others)[0];
      TokensStep(name, text);
      TokensAfter(others, tail);
      assert Parent(scope) == [name] + Parent(others);
    }
  }

  lemma TokensAfterName(name: string, tail: string)
    requires IsName(name)
    ensures var m := SpanUntil(tail, '/');
            Tokens("/" + name + tail) == [name + tail[..m]] + Tokens(tail[m..])
  {
    hide Tokens;
    var m := SpanUntil(tail, '/');
    var first, after := tail[..m], tail[m..];
    assert '/' !in first && (after != "" ==> after[0] == '/');
    assert tail == first + after;
    hide SpanUntil;
    assert "/" + name + tail == "/" + (name + first) + after;
    TokensStep(name + first, after);
  }

  /** `p` is below the parent of `scope`, in an entry whose name begins with its name. */
  predicate Near(scope: Path, p: Path)
    requires scope != []
  {
    var k := |scope| - 1;
    |p| > k && p[..k] == Parent(scope) && StartsWith(p[k], scope[k])
  }

  /** The names of a path that was sent below the directory `scope`: the directory's own,
      and those of the rest, if the rest keeps its slash; else the last of the directory's
      names is longer. */
  lemma NamesBelow(scope: Path, rest: string)
    requires scope != [] && forall n | n in scope :: IsScopeName(n)
    ensures var p, k := Tokens(Rewritten(Join(scope) + rest)), |scope| - 1;
            && |p| > k && p[..k] == Parent(scope) && IsName(p[k]) && StartsWith(p[k], scope[k])
            && (KeepsSlash(rest) ==> p == scope + Tokens(Rewritten(rest)))
            && (!KeepsSlash(rest) ==> |p[k]| > |scope[k]|)
  {
    hide Tokens, Join, KeepsSlash, Rewritten;
    var tail, k := Rewritten(rest), |scope| - 1;
    RewrittenBehind(scope, rest);
    TokensAfter(scope, tail);
    RootedIff(rest);
    var p := Tokens(Join(scope) + tail);
    var m := SpanUntil(tail, '/');
    assert p[..k] == Parent(scope) && p[k] == scope[k] + tail[..m] && scope[k] in scope;
    assert |p[k]| == |scope[k]| + m;
    if m == 0 {
      assert tail[0..] == tail && p[k] == scope[k];
      assert Parent(scope) + [scope[k]] == scope;
    }
  }

  /** From the directory on, every place that the names lead through is it or below it. */
  ghost predicate BehindIsBelow(scope: Path, names: seq<string>) {
    && |scope| <= |names|
    && forall k | |scope| <= k <= |names| :: InAfter(scope, [], names, k)
  }

  /** The first names being plain, the places behind them are below them exactly if the
      other names never climb. */
  lemma BehindIff(base: Path, others: seq<string>)
    requires IsPlain(base)
    ensures BehindIsBelow(base, base + others) <==> NeverClimbs(0, others)
  {
    var root: Path := [];
    assert base + root == base;
    StaysIff(base, root, others);
    OnDiskPlain(root, base);
    assert root + base == base;
    var names := base + others;
    forall k | 0 <= k <= |others|
      ensures InAfter(base, root, names, |base| + k) <==> InAfter(base, base, others, k)
    {
      assert names[..|base| + k] == base + others[..k];
      OnDiskAppend(root, base, others[..k]);
    }
    assert StaysIn(base, base, others) <==> forall k | 0 <= k <= |others| :: InAfter(base, base, others, k);
    if BehindIsBelow(base, names) {
      forall k | 0 <= k <= |others|
        ensures InAfter(base, base, others, k)
      {
        assert InAfter(base, root, names, |base| + k);
      }
    }
    if StaysIn(base, base, others) {
      forall k | |base| <= k <= |names|
        ensures InAfter(base, root, names, k)
      {
        assert InAfter(base, base, others, k - |base|);
      }
    }
  }

  /** Where a path that was sent below the directory `scope` leads on disk: every place
      behind the directory is below it if and only if the rest keeps its slash and its
      names never climb. */
  lemma BelowIff(scope: Path, rest: string)
    requires scope != [] && forall n | n in scope :: IsScopeName(n)
    ensures BehindIsBelow(scope, Tokens(Rewritten(Join(scope) + rest))) <==>
            KeepsSlash(rest) && NeverClimbs(0, Tokens(Rewritten(rest)))
  {
    hide Tokens, Join, KeepsSlash, Rewritten, BehindIsBelow, NeverClimbs;
    NamesBelow(scope, rest);
    if KeepsSlash(rest) {
      BehindIff(scope, Tokens(Rewritten(rest)));
    } else {
      LongerIsBeside(scope, Tokens(Rewritten(Join(scope) + rest)));
    }
  }

  lemma LongerIsBeside(scope: Path, names: seq<string>)
    requires scope != [] && |names| >= |scope| && forall n | n in scope :: IsScopeName(n)
    requires var k := |scope| - 1;
             names[..k] == Parent(scope) && StartsWith(names[k], scope[k]) && |names[k]| > |scope[k]|
    ensures !BehindIsBelow(scope, names)
    ensures IsPlain(names[..|scope|])
  {
    hide OnDisk;
    var k, first := |scope| - 1, names[..|scope|];
    assert first == names[..k] + [names[k]];
    assert scope[k] in scope && names[k][..|scope[k]|] == scope[k];
    assert forall n | n in first :: n in scope || n == names[k];
    OnDiskPlain([], first);
    assert [] + first == first && first[k] != scope[k];
    assert !InAfter(scope, [], names, |scope|);
  }

  // ----- scopes -----

  /** The name of the scope for the directory `scope`. */
  function ScopeName(scope: Path): string {
    var joined := Join(scope);
    if joined == "" then "" else joined[1..]
  }

  lemma CoveredText(scope: Path, path: string)
    requires scope != [] && forall n | n in scope :: IsName(n)
    ensures Covers(ScopeName(scope), path) <==> Join(scope) + "/" <= path
  {
    JoinStarts(scope);
    assert scope[0] in scope && |Join(scope)| >= 1 + |scope[0]|;
    assert "/" + ScopeName(scope) == Join(scope);
  }

  /** A request path, if it is covered by the scope of the directory, stays below it: what
      is behind the directory keeps its slash when rewritten, and never climbs. */
  predicate StaysBelow(scope: Path, path: string) {
    Join(scope) + "/" <= path ==>
      var rest := path[|Join(scope)|..];
      KeepsSlash(rest) && NeverClimbs(0, Tokens(Rewritten(rest)))
  }

  /** The weaker guard: what is behind the last of the directory's names never climbs. */
  predicate StaysNear(scope: Path, path: string) {
    Join(scope) + "/" <= path ==>
      var names := Tokens(Rewritten(path));
      |names| >= |scope| && NeverClimbs(0, names[|scope|..])
  }

  lemma CoveredRest(scope: Path, path: string)
    requires scope != [] && forall n | n in scope :: IsScopeName(n)
    requires Covers(ScopeName(scope), path)
    ensures Join(scope) + "/" <= path && path == Join(scope) + path[|Join(scope)|..]
  {
    hide Join;
    CoveredText(scope, path);
    var front := Join(scope);
    assert front == (front + "/")[..|front|] == path[..|front|];
  }

  /** The scope covers the path as it was sent; every place that its disk path leads through
      behind the scope's directory is below that directory exactly under the guard. */
  lemma CoveredIff(scope: Path, path: string)
    requires scope != [] && forall n | n in scope :: IsScopeName(n)
    requires Covers(ScopeName(scope), path)
    ensures BehindIsBelow(scope, Tokens(Rewritten(path))) <==> StaysBelow(scope, path)
  {
    hide Tokens, Join, KeepsSlash, Rewritten, BehindIsBelow, NeverClimbs;
    CoveredRest(scope, path);
    BelowIff(scope, path[|Join(scope)|..]);
  }

  /** What the guards mean for the names: plain ones up to the directory's depth, near it,
      and then names that never climb. */
  lemma CoveredNames(scope: Path, path: string)
    requires scope != [] && forall n | n in scope :: IsScopeName(n)
    requires Covers(ScopeName(scope), path)
    ensures var names := Tokens(Rewritten(path));
            && |names| >= |scope| && IsPlain(names[..|scope|]) && Near(scope, names[..|scope|])
            && (StaysBelow(scope, path) ==> names[..|scope|] == scope && StaysNear(scope, path))
            && (StaysNear(scope, path) ==> NeverClimbs(0, names[|scope|..]))
  {
    hide Tokens, Join, KeepsSlash, Rewritten, NeverClimbs;
    CoveredRest(scope, path);
    var rest, names, k := path[|Join(scope)|..], Tokens(Rewritten(path)), |scope| - 1;
    NamesBelow(scope, rest);
    assert names[..|scope|][..k] == names[..k] && names[..|scope|][k] == names[k];
    if KeepsSlash(rest) {
      assert names[..|scope|] == scope && names[|scope|..] == Tokens(Rewritten(rest));
    } else {
      LongerIsBeside(scope, names);
    }
  }

  /** A covered path under a guard stays in the storage root. */
  lemma CoveredInRoot(scope: Path, path: string)
    requires scope != [] && forall n | n in scope :: IsScopeName(n)
    requires Covers(ScopeName(scope), path) && (StaysBelow(scope, path) || StaysNear(scope, path))
    ensures StaysInRoot(path)
  {
    hide Tokens, Join, KeepsSlash, Rewritten, NeverClimbs, StaysBelow, StaysNear;
    CoveredRest(scope, path);
    CoveredNames(scope, path);
    var rest, names := path[|Join(scope)|..], Tokens(Rewritten(path));
    RewrittenBehind(scope, rest);
    JoinStarts(scope);
    RootedIff(path);
    assert names == names[..|scope|] + names[|scope|..];
    DeeperNeverClimbs(0, names[..|scope|], names[|scope|..]);
  }

  lemma {:induction false} DeeperNeverClimbs(depth: nat, front: seq<string>, names: seq<string>)
    requires IsPlain(front) && NeverClimbs(0, names)
    ensures NeverClimbs(depth, front + names)
    decreases |front|
  {
    if front == [] {
      assert front + names == names;
      HigherNeverClimbs(0, depth, names);
    } else {
      assert front[0] in front && (front + names)[1..] == front[1..] + names;
      DeeperNeverClimbs(depth + 1, front[1..], names);
    }
  }

  lemma {:induction false} HigherNeverClimbs(a: nat, b: nat, names: seq<string>)
    requires a <= b && NeverClimbs(a, names)
    ensures NeverClimbs(b, names)
    decreases |names|
  {
    if names != [] {
      if names[0] == "." {
        HigherNeverClimbs(a, b, names[1..]);
      } else if names[0] == ".." {
        HigherNeverClimbs(a - 1, b - 1, names[1..]);
      } else {
        HigherNeverClimbs(a + 1, b + 1, names[1..]);
      }
    }
  }

  /** A covered path leads only through the way to the directory and, under the guards,
      places below it or near it. */
  lemma CoveredVisits(scope: Path, path: string, n: Path)
    requires scope != [] && forall m | m in scope :: IsScopeName(m)
    requires Covers(ScopeName(scope), path) && Visits([], Tokens(Rewritten(path)), n)
    ensures StaysBelow(scope, path) ==> n <= scope || scope <= n
    ensures StaysNear(scope, path) ==> n <= scope || Near(scope, n)
  {
    hide Tokens, Join, KeepsSlash, Rewritten, NeverClimbs, StaysBelow, StaysNear, Covers, ScopeName, OnDisk, Near, BehindIsBelow;
    CoveredNames(scope, path);
    var names := Tokens(Rewritten(path));
    var base, others := names[..|scope|], names[|scope|..];
    assert names == base + others;
    BehindIff(base, others);
    var k :| 0 < k <= |names| && OnDisk([], names[..k]) == Some(n);
    if StaysNear(scope, path) {
      VisitsNear(scope, names, k, n);
    }
  }

  lemma VisitsNear(scope: Path, names: seq<string>, k: nat, n: Path)
    requires scope != [] && |scope| <= |names| && 0 < k <= |names|
    requires IsPlain(names[..|scope|]) && Near(scope, names[..|scope|]) && BehindIsBelow(names[..|scope|], names)
    requires OnDisk([], names[..k]) == Some(n)
    ensures n <= scope || Near(scope, n)
    ensures names[..|scope|] == scope ==> n <= scope || scope <= n
  {
    hide OnDisk;
    var base, last := names[..|scope|], |scope| - 1;
    if k >= |scope| {
      assert InAfter(base, [], names, k);
      assert base <= n && n[..|scope|] == base;
      assert n[..last] == base[..last] && n[last] == base[last];
    } else {
      assert names[..k] == base[..k] && forall m | m in base[..k] :: m in base;
      OnDiskPlain([], names[..k]);
      assert [] + names[..k] == names[..k];
      assert base[..k] == base[..last][..k] == scope[..k];
    }
  }

  /** Paths without "//" and "/.." pass the guard for every directory. */
  lemma FreeStaysBelow(scope: Path, path: string)
    requires Free(path, SLASHES) && Free(path, PARENT)
    ensures StaysBelow(scope, path)
  {
    hide Free;
    var front := Join(scope);
    if front + "/" <= path {
      var rest := path[|front|..];
      assert rest[0] == path[..|front| + 1][|front|] == '/';
      TailFree(path, SLASHES, |front|);
      TailFree(path, PARENT, |front|);
      FreeIsNormal(rest, PARENT);
      OneSlash(rest);
      CleanResult(rest);
      NamesWithoutParent(rest);
      NoParentNeverClimbs(0, Tokens(rest));
    }
  }

  lemma {:induction false} NoParentNeverClimbs(depth: nat, names: seq<string>)
    requires forall n | n in names :: !StartsWith(n, "..")
    ensures NeverClimbs(depth, names)
    decreases |names|
  {
    if names != [] {
      assert names[0] in names;
      NoParentNeverClimbs(if names[0] == "." then depth else depth + 1, names[1..]);
    }
  }

  lemma PublicIsScope()
    ensures Join(["public"]) == "/public" && ScopeName(["public"]) == "public" && IsScopeName("public")
  {
    assert Join(["public"]) == "/" + "public" + Join(["public"][1..]);
    assert "public"[0] == 'p';
  }

  /** Reads that need no authorization lead through places below "public" only, exactly
      under the same guard. */
  lemma PublicReadIff(access: Access)
    requires IsPublicRead(access)
    ensures BehindIsBelow(["public"], Tokens(Rewritten(access.path))) <==> StaysBelow(["public"], access.path)
  {
    PublicIsScope();
    CoveredIff(["public"], access.path);
  }

  /** A path for which the second part of the guard fails: the rest keeps its slash, but a
      restored ".." leads out of the directory again. */
  lemma ClimbsOut(scope: Path, other: string)
    requires scope != [] && forall n | n in scope :: IsScopeName(n)
    requires IsName(other) && !StartsWith(other, ".")
    ensures var rest := "/.//./" + other; var path := Join(scope) + rest; var names := scope + ["..", other];
            && Covers(ScopeName(scope), path) && KeepsSlash(rest) && !StaysBelow(scope, path)
            && Tokens(Rewritten(path)) == names && OnDisk([], names) == Some(Parent(scope) + [other])
            && !EndsInSlash(path) && !EndsInSlash(Rewritten(path)) && NeverClimbs(0, names)
  {
    hide Tokens, Join, KeepsSlash, Rewritten, NeverClimbs, Covers, ScopeName;
    var rest := "/.//./" + other;
    var path, names := Join(scope) + rest, ["..", other];
    assert path == Join(scope) + "/" + (".//./" + other);
    assert path[..|Join(scope)| + 1] == Join(scope) + "/" && path[|Join(scope)|..] == rest;
    CoveredText(scope, path);
    ParentRestored(other);
    RootedIff(rest);
    RestoredNames(other);
    NamesBelow(scope, rest);
    RewrittenBehind(scope, rest);
    ClimbsOnDisk(scope, other);
    assert other[|other| - 1] in other;
    assert path[|path| - 1] == rest[|rest| - 1] == other[|other| - 1];
    var disk := Join(scope) + ("/../" + other);
    assert disk[|disk| - 1] == other[|other| - 1];
  }

  lemma RestoredNames(other: string)
    requires IsName(other)
    ensures Tokens("/../" + other) == ["..", other]
  {
    hide Tokens;
    assert IsName("..");
    var names := ["..", other];
    assert Join(names) == "/" + ".." + Join([other]) by { assert names[1..] == [other]; }
    assert Join([other]) == "/" + other + Join([]) by { assert [other][1..] == []; }
    assert Join(names) == "/../" + other;
    TokensOfJoin(names);
  }

  lemma ClimbsOnDisk(scope: Path, other: string)
    requires scope != [] && (forall n | n in scope :: IsScopeName(n)) && IsName(other) && !StartsWith(other, ".")
    ensures OnDisk([], scope + ["..", other]) == Some(Parent(scope) + [other])
    ensures NeverClimbs(0, scope + ["..", other]) && !NeverClimbs(0, ["..", other])
  {
    var names, all := ["..", other], scope + ["..", other];
    var front := Parent(scope);
    OnDiskPlain([], scope);
    assert [] + scope == scope;
    OnDiskAppend([], scope, names);
    assert names[1..] == [other] && [other][1..] == [];
    assert other[..1] != "." by { assert !StartsWith(other, "."); }
    assert OnDisk(Parent(scope), [other]) == Some(Parent(scope) + [other]);
    var last := scope[|scope| - 1];
    assert scope == front + [last] && all == front + [last, "..", other];
    assert last in scope && forall n | n in front :: n in scope;
    var back := [last, "..", other];
    assert back[1..] == names && NeverClimbs(0, [other]) && NeverClimbs(1, names);
    assert NeverClimbs(0 + 1, back[1..]);
    assert NeverClimbs(0, back);
    DeeperNeverClimbs(0, front, back);
  }

  /** The same with reads that need no authorization: what is read is outside "public". */
  lemma PublicReadOutside(access: Access, other: string)
    requires IsName(other) && !StartsWith(other, ".")
    requires access.path == "/public/.//./" + other && access.isRead && access.isFile
    ensures IsPublicRead(access)
    ensures OnDisk([], Tokens(Rewritten(access.path))) == Some([other])
  {
    hide Tokens, Rewritten, Join, OnDisk;
    var scope := ["public"];
    PublicIsScope();
    ClimbsOut(scope, other);
    assert access.path == Join(scope) + ("/.//./" + other);
    assert access.path[..8] == PUBLIC;
    assert Parent(scope) + [other] == [other];
  }

  /** A path for which the guard fails: with a doubled slash behind the directory, the
      document is beside it. */
  lemma BesideScope(scope: Path, other: string)
    requires scope != [] && forall n | n in scope :: IsScopeName(n)
    requires IsName(other) && !StartsWith(other, "..")
    ensures var path, p := Join(scope) + SLASHES + other, Document(Parent(scope), scope[|scope| - 1] + other);
            && Covers(ScopeName(scope), path) && !StaysBelow(scope, path)
            && Resolve(path) == Some(p) && Tokens(Rewritten(path)) == p.Location() && !(scope <= p.Location())
  {
    hide Tokens, Join, KeepsSlash, Rewritten, Covers, Resolve, StaysBelow, BehindIsBelow, IsTreeName;
    var path, k := Join(scope) + SLASHES + other, |scope| - 1;
    var name := scope[k] + other;
    var names := Parent(scope) + [name];
    CoversDoubled(scope, other);
    BesidePath(scope, other);
    ResolvedBeside(names, path);
    LongerName(scope, name);
    LongerIsBeside(scope, names);
    CoveredIff(scope, path);
  }

  lemma LongerName(scope: Path, name: string)
    requires scope != [] && |name| > |scope[|scope| - 1]|
    ensures var names := Parent(scope) + [name];
            && !(scope <= names) && Parent(names) == Parent(scope) && names[|names| - 1] == name
            && |names| == |scope| && names[..|scope| - 1] == Parent(scope)
  {
    var names, k := Parent(scope) + [name], |scope| - 1;
    assert names[k] == name != scope[k];
  }

  lemma CoversDoubled(scope: Path, other: string)
    requires scope != [] && forall n | n in scope :: IsScopeName(n)
    ensures Covers(ScopeName(scope), Join(scope) + SLASHES + other)
  {
    hide Join, Covers;
    var path := Join(scope) + SLASHES + other;
    CoveredText(scope, path);
    assert path == Join(scope) + "/" + ("/" + other);
  }

  lemma BesidePath(scope: Path, other: string)
    requires scope != [] && forall n | n in scope :: IsScopeName(n)
    requires IsName(other) && !StartsWith(other, "..")
    ensures var path, names := Join(scope) + SLASHES + other, Parent(scope) + [scope[|scope| - 1] + other];
            && Rewritten(path) == Join(names) && !EndsInSlash(path)
            && (forall n | n in names :: IsTreeName(n)) && Tokens(Rewritten(path)) == names
  {
    hide Tokens, Join, Rewritten;
    var path, last := Join(scope) + SLASHES + other, scope[|scope| - 1];
    var names := Parent(scope) + [last + other];
    assert path == Join(scope) + (SLASHES + other);
    PairVanishes(other);
    RewrittenBehind(scope, SLASHES + other);
    JoinLast(scope);
    JoinLast(names);
    assert Parent(names) == Parent(scope);
    assert Join(names) == Join(scope) + other;
    assert last in scope && forall n | n in names :: n == last + other || n in scope;
    JoinedName(last, other);
    TokensOfJoin(names);
    assert path[|path| - 1] == other[|other| - 1] && other[|other| - 1] in other;
  }

  lemma ResolvedBeside(names: Path, path: string)
    requires names != [] && (forall n | n in names :: IsTreeName(n))
    requires Rewritten(path) == Join(names) && Tokens(Rewritten(path)) == names && !EndsInSlash(path)
    ensures Resolve(path) == Some(Document(Parent(names), names[|names| - 1]))
  {
    hide Rewritten, Tokens, Join;
  }

  lemma JoinedName(a: string, b: string)
    requires IsScopeName(a) && IsName(b)
    ensures IsTreeName(a + b)
  {
    assert a == (a + b)[..|a|];
    assert (a + b) == ".." ==> |a| == 1 && a == ".";
  }

  lemma PairVanishes(other: string)
    requires IsName(other) && !StartsWith(other, "..")
    ensures Rewritten(SLASHES + other) == other
  {
    var path := "" + SLASHES + other;
    assert path == SLASHES + other && "" + other == other;
    forall i: nat
      ensures !OccursAt(path, PARENT, i) && !OccursAt("", SLASHES, i) && !OccursAt(other, SLASHES, i)
    {
      ParentAt(path, i);
      SlashesAt(other, i);
      assert i == 1 && |other| >= 2 ==> other[..2] == [other[0], other[1]];
      assert i > 1 && i < |path| ==> path[i] == other[i - 2];
    }
    DoubledSlashVanishes("", other);
  }

  /** A folder sent with a doubled slash at its end loses it: its path does not lead to
      any place by the rule above, and on disk it has no slash at the end. */
  lemma FolderSlashLost(dir: Path)
    requires dir != [] && forall n | n in dir :: IsScopeName(n)
    ensures Rewritten(Join(dir) + SLASHES) == Join(dir)
    ensures Resolve(Join(dir) + SLASHES) == None
  {
    hide Tokens, Join, NormalForm;
    RewrittenBehind(dir, SLASHES);
    DoubledSlashVanishesAlone();
    assert Join(dir) + "" == Join(dir);
    TokensOfJoin(dir);
    assert |Join(dir) + "/"| != |Join(dir)|;
  }

  lemma DoubledSlashVanishesAlone()
    ensures Rewritten(SLASHES) == ""
  {
    assert "" + SLASHES + "" == SLASHES && "" + "" == "";
    forall i: nat
      ensures !OccursAt(SLASHES, PARENT, i) && !OccursAt("", SLASHES, i)
    {
      ParentAt(SLASHES, i);
    }
    DoubledSlashVanishes("", "");
  }

  // ----- scopes and ordinary paths -----

  /** On paths of names a scope covers exactly the documents properly below its directory:
      it does not reach into a directory whose name it only begins. */
  lemma {:induction false} CoversNames(scope: Path, p: Path)
    requires forall n | n in scope :: IsName(n)
    requires forall n | n in p :: IsName(n)
    ensures Join(scope) + "/" <= Join(p) <==> scope < p
    decreases |scope|
  {
    hide Join;
    NoJoin();
    JoinStarts(p);
    if scope == [] {
      assert Join(scope) + "/" == "/";
      if p != [] { assert Join(p)[..1] == "/"; }
    } else if p == [] {
      assert |Join(scope) + "/"| >= 1;
    } else {
      var others, names := scope[1..], p[1..];
      assert scope == [scope[0]] + others && p == [p[0]] + names;
      assert scope[0] in scope && p[0] in p;
      JoinCons(scope[0], others);
      JoinCons(p[0], names);
      JoinStarts(others);
      JoinStarts(names);
      FirstNames(scope[0], Join(others) + "/", p[0], Join(names));
      assert Join(scope) + "/" == "/" + (scope[0] + (Join(others) + "/"));
      assert Join(p) == "/" + (p[0] + Join(names));
      CoversNames(others, names);
    }
  }

  lemma FirstNames(a: string, x: string, b: string, y: string)
    requires '/' !in a && '/' !in b && x != "" && x[0] == '/' && (y == "" || y[0] == '/')
    ensures "/" + (a + x) <= "/" + (b + y) <==> a == b && x <= y
  {
    DropSlash(a + x, b + y);
    if a + x <= b + y {
      SameName(a, x, b, y);
    }
    assert a == b && x <= y ==> b + y == a + x + y[|x|..];
  }

  lemma DropSlash(a: string, b: string)
    ensures "/" + a <= "/" + b <==> a <= b
  {
    assert ("/" + b)[1..] == b && ("/" + a)[1..] == a;
    if "/" + a <= "/" + b {
      assert "/" + a == ("/" + b)[..|a| + 1];
    }
  }

  /** Two texts that go on with '/' after a name without '/' begin with the same name. */
  lemma SameName(a: string, x: string, b: string, y: string)
    requires '/' !in a && '/' !in b && a + x <= b + y
    requires x != "" && x[0] == '/' && (y == "" || y[0] == '/')
    ensures a == b && x <= y
  {
    var part, whole := a + x, b + y;
    assert part == whole[..|part|];
    assert whole[|a|] == '/' by { assert part[|a|] == x[0]; }
    SpanUntilIs(whole, '/', |b|);
    assert forall i | 0 <= i < |a| :: whole[i] != '/' by {
      assert forall i | 0 <= i < |a| :: whole[i] == part[i] == a[i];
    }
    SpanUntilIs(whole, '/', |a|);
    assert a == whole[..|a|] && b == whole[..|b|];
    assert x == part[|a|..] && y == whole[|b|..];
  }
}
