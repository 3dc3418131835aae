/** The rewriting of a request path into a disk path (make_disk_path in
    src/handler/storage.c): two loops that delete a pattern as long as it occurs.

    Deleting a pattern is a string-rewriting system. `Reduce` is its normal form, computed
    in one pass with a stack; the order in which occurrences are deleted does not matter.
 */
module PathRewriting {
  import opened Strings

  const PARENT := "/.."
  const SLASHES := "//"

  /** `pat` does not occur in `s`. */
  ghost predicate Free(s: string, pat: string) {
    forall i: nat :: !OccursAt(s, pat, i)
  }

  function Cut(s: string, i: nat, n: nat): string
    requires i + n <= |s|
  {
    s[..i] + s[i + n..]
  }

  // ----- the one-pass reduction -----

  predicate EndsWith(s: string, pat: string) {
    |pat| <= |s| && s[|s| - |pat|..] == pat
  }

  function Push(acc: string, c: char, pat: string): string {
    var s := acc + [c];
    if EndsWith(s, pat) then s[..|s| - |pat|] else s
  }

  function Reduce(acc: string, s: string, pat: string): string
    decreases |s|
  {
    if s == "" then acc else Reduce(Push(acc, s[0], pat), s[1..], pat)
  }

  function NormalForm(s: string, pat: string): string {
    Reduce("", s, pat)
  }

  /** The pattern read on top of any pattern-free stack leaves that stack. */
  ghost predicate Cancels(pat: string) {
    pat != "" && forall acc | Free(acc, pat) :: Reduce(acc, pat, pat) == acc
  }

  lemma PartOccurs(s: string, pat: string, n: nat, i: nat)
    requires n <= |s|
    ensures OccursAt(s[..n], pat, i) ==> OccursAt(s, pat, i)
    ensures i + |pat| <= n && OccursAt(s, pat, i) ==> OccursAt(s[..n], pat, i)
  {
    if i + |pat| <= n {
      assert s[i..i + |pat|] == s[..n][i..i + |pat|];
    }
  }

  lemma FreePart(s: string, pat: string, n: nat)
    requires Free(s, pat) && n <= |s|
    ensures Free(s[..n], pat)
  {
    forall i: nat { PartOccurs(s, pat, n, i); }
  }

  lemma PushFree(acc: string, c: char, pat: string)
    requires Free(acc, pat) && pat != ""
    ensures Free(Push(acc, c, pat), pat)
  {
    var s := acc + [c];
    assert s[..|acc|] == acc;
    if EndsWith(s, pat) {
      assert s[..|s| - |pat|] == acc[..|s| - |pat|];
      FreePart(acc, pat, |s| - |pat|);
    } else {
      forall i: nat ensures !OccursAt(s, pat, i) {
        PartOccurs(s, pat, |acc|, i);
        if i + |pat| == |s| {
          assert s[i..i + |pat|] == s[|s| - |pat|..];
        }
      }
    }
  }

  lemma {:induction false} ReduceFree(acc: string, s: string, pat: string)
    requires Free(acc, pat) && pat != ""
    ensures Free(Reduce(acc, s, pat), pat)
    decreases |s|
  {
    if s != "" {
      PushFree(acc, s[0], pat);
      ReduceFree(Push(acc, s[0], pat), s[1..], pat);
    }
  }

  lemma {:induction false} ReduceOfFree(acc: string, s: string, pat: string)
    requires Free(acc + s, pat) && pat != ""
    ensures Reduce(acc, s, pat) == acc + s
    decreases |s|
  {
    if s != "" {
      var acc' := acc + [s[0]];
      assert acc + s == acc' + s[1..];
      if EndsWith(acc', pat) {
        assert (acc + s)[|acc'| - |pat|..|acc'|] == pat;
        assert OccursAt(acc + s, pat, |acc'| - |pat|);
      }
      ReduceOfFree(acc', s[1..], pat);
    }
  }

  lemma FreeIsNormal(s: string, pat: string)
    requires Free(s, pat) && pat != ""
    ensures NormalForm(s, pat) == s
  {
    assert "" + s == s;
    ReduceOfFree("", s, pat);
  }

  lemma {:induction false} ReduceAppend(acc: string, a: string, b: string, pat: string)
    ensures Reduce(acc, a + b, pat) == Reduce(Reduce(acc, a, pat), b, pat)
    decreases |a|
  {
    if a == "" {
      assert a + b == b;
    } else {
      assert (a + b)[1..] == a[1..] + b;
      ReduceAppend(Push(acc, a[0], pat), a[1..], b, pat);
    }
  }

  // ----- the order of deletions does not matter -----

  /** Deleting any occurrence leaves the normal form unchanged. */
  lemma CutKeepsNormalForm(s: string, pat: string, i: nat)
    requires Cancels(pat) && OccursAt(s, pat, i)
    ensures NormalForm(Cut(s, i, |pat|), pat) == NormalForm(s, pat)
  {
    var a, b := s[..i], s[i + |pat|..];
    assert s == a + (pat + b);
    ReduceAppend("", a, pat + b, pat);
    ReduceAppend(Reduce("", a, pat), pat, b, pat);
    ReduceFree("", a, pat);
    ReduceAppend("", a, b, pat);
  }

  /** Each string of `chain` is the previous one with some occurrence deleted. */
  ghost predicate Deletions(chain: seq<string>, pat: string) {
    && chain != []
    && forall k | 0 <= k < |chain| - 1 :: Deletion(chain[k], chain[k + 1], pat)
  }

  ghost predicate Deletion(s: string, t: string, pat: string) {
    exists i: nat :: OccursAt(s, pat, i) && t == Cut(s, i, |pat|)
  }

  /** Every sequence of deletions that ends in a pattern-free string ends in the normal
      form, and has exactly as many steps as the lengths say. */
  lemma {:induction false} Confluence(chain: seq<string>, pat: string)
    requires Cancels(pat) && Deletions(chain, pat)
    ensures NormalForm(chain[|chain| - 1], pat) == NormalForm(chain[0], pat)
    ensures |chain[0]| == |chain[|chain| - 1]| + |pat| * (|chain| - 1)
    ensures Free(chain[|chain| - 1], pat) ==> chain[|chain| - 1] == NormalForm(chain[0], pat)
    decreases |chain|
  {
    if |chain| > 1 {
      FirstDeletion(chain, pat);
      Confluence(chain[1..], pat);
    }
    if Free(chain[|chain| - 1], pat) {
      FreeIsNormal(chain[|chain| - 1], pat);
    }
  }

  lemma FirstDeletion(chain: seq<string>, pat: string)
    requires Cancels(pat) && Deletions(chain, pat) && |chain| > 1
    ensures NormalForm(chain[1], pat) == NormalForm(chain[0], pat)
    ensures |chain[0]| == |chain[1]| + |pat|
    ensures Deletions(chain[1..], pat)
  {
    assert Deletion(chain[0], chain[0 + 1], pat);
    var i: nat :| OccursAt(chain[0], pat, i) && chain[1] == Cut(chain[0], i, |pat|);
    CutKeepsNormalForm(chain[0], pat, i);
    var rest := chain[1..];
    forall k | 0 <= k < |rest| - 1
      ensures Deletion(rest[k], rest[k + 1], pat)
    {
      assert Deletion(chain[k + 1], chain[k + 1 + 1], pat);
    }
  }

  lemma EndsWithParent(s: string)
    ensures EndsWith(s, PARENT) <==> |s| >= 3 && s[|s| - 3] == '/' && s[|s| - 2] == '.' && s[|s| - 1] == '.'
  {
    if |s| >= 3 {
      assert s[|s| - 3..] == [s[|s| - 3], s[|s| - 2], s[|s| - 1]];
    }
  }

  lemma EndsWithSlashes(s: string)
    ensures EndsWith(s, SLASHES) <==> |s| >= 2 && s[|s| - 2] == '/' && s[|s| - 1] == '/'
  {
    if |s| >= 2 {
      assert s[|s| - 2..] == [s[|s| - 2], s[|s| - 1]];
    }
  }

  /** One character on a stack, for the pattern "//". */
  lemma PushSlashes(acc: string, c: char)
    ensures Push(acc, c, SLASHES) ==
            if acc != "" && acc[|acc| - 1] == '/' && c == '/' then acc[..|acc| - 1] else acc + [c]
  {
    var s := acc + [c];
    EndsWithSlashes(s);
    assert |s| >= 2 ==> s[..|s| - 2] == acc[..|acc| - 1];
  }

  lemma ReduceOne(acc: string, c: char, pat: string)
    ensures Reduce(acc, [c], pat) == Push(acc, c, pat)
  {
  }

  lemma ReduceTwo(acc: string, c: char, d: char, pat: string)
    ensures Reduce(acc, [c, d], pat) == Push(Push(acc, c, pat), d, pat)
  {
    hide Push;
    assert [c, d][1..] == [d];
    ReduceOne(Push(acc, c, pat), d, pat);
  }

  lemma ReduceThree(acc: string, c: char, d: char, e: char, pat: string)
    ensures Reduce(acc, [c, d, e], pat) == Push(Push(Push(acc, c, pat), d, pat), e, pat)
  {
    hide Push;
    assert [c, d, e][1..] == [d, e];
    ReduceTwo(Push(acc, c, pat), d, e, pat);
  }

  /** One character on a stack, for the pattern "/..". */
  lemma PushParent(acc: string, c: char)
    ensures var s := acc + [c];
            Push(acc, c, PARENT) == if EndsWith(s, PARENT) then s[..|s| - 3] else s
  {
  }

  lemma ParentCancels()
    ensures Cancels(PARENT)
  {
    forall acc | Free(acc, PARENT)
      ensures Reduce(acc, PARENT, PARENT) == acc
    {
      PushesCancel(acc);
    }
  }

  lemma PushesCancel(acc: string)
    ensures Reduce(acc, PARENT, PARENT) == acc
  {
    hide Push, Reduce, EndsWith;
    var a := acc + ['/'];
    var b := a + ['.'];
    var c := b + ['.'];
    EndsWithParent(a);
    EndsWithParent(b);
    EndsWithParent(c);
    PushParent(acc, '/');
    PushParent(a, '.');
    PushParent(b, '.');
    assert c[..|c| - 3] == acc;
    assert PARENT == ['/', '.', '.'];
    ReduceThree(acc, '/', '.', '.', PARENT);
  }

  lemma SlashesCancel()
    ensures Cancels(SLASHES)
  {
    hide Push, Reduce, EndsWith;
    forall acc | Free(acc, SLASHES)
      ensures Reduce(acc, SLASHES, SLASHES) == acc
    {
      assert SLASHES == ['/', '/'];
      ReduceTwo(acc, '/', '/', SLASHES);
      PushSlashes(acc, '/');
      PushSlashes(Push(acc, '/', SLASHES), '/');
      if acc != "" && acc[|acc| - 1] == '/' {
        LastTwo(acc);
        assert acc[..|acc| - 1] + ['/'] == acc;
      }
    }
  }

  lemma LastTwo(acc: string)
    requires Free(acc, SLASHES)
    ensures |acc| >= 2 ==> acc[|acc| - 2] != '/' || acc[|acc| - 1] != '/'
  {
    if |acc| >= 2 {
      assert !OccursAt(acc, SLASHES, |acc| - 2);
      assert acc[|acc| - 2..|acc|] == [acc[|acc| - 2], acc[|acc| - 1]];
    }
  }

  // ----- what the second loop computes -----

  /** Each maximal run of n slashes becomes n mod 2 slashes. */
  function HalveRuns(s: string): string
    decreases |s|
  {
    if s == "" then ""
    else if s[0] != '/' then [s[0]] + HalveRuns(s[1..])
    else
      var n := SpanOf(s, '/');
      (if n % 2 == 1 then "/" else "") + HalveRuns(s[n..])
  }

  lemma {:induction false} RunOfSlashes(acc: string, run: string)
    requires acc == "" || acc[|acc| - 1] != '/'
    requires forall i | 0 <= i < |run| :: run[i] == '/'
    ensures Reduce(acc, run, SLASHES) == acc + (if |run| % 2 == 1 then "/" else "")
    decreases |run|
  {
    if |run| == 1 {
      assert run == ['/'];
      PushSlashes(acc, '/');
      ReduceOne(acc, '/', SLASHES);
    } else if |run| >= 2 {
      var b := acc + "/";
      assert run[0] == '/' && run[1] == '/' && run[1..][0] == '/' && run[1..][1..] == run[2..];
      PushSlashes(acc, '/');
      PushSlashes(b, '/');
      RunOfSlashes(acc, run[2..]);
    }
  }

  lemma {:induction false} ReduceHalvesRuns(acc: string, s: string)
    requires acc == "" || acc[|acc| - 1] != '/'
    ensures Reduce(acc, s, SLASHES) == acc + HalveRuns(s)
    decreases |s|
  {
    hide Push, Reduce, HalveRuns;
    Ends(acc);
    if s == "" {
    } else if s[0] != '/' {
      AfterRun(acc, s);
      ReduceHalvesRuns(acc + [s[0]], s[1..]);
    } else {
      var n := SpanOf(s, '/');
      var rest := s[n..];
      var acc' := acc + (if n % 2 == 1 then "/" else "");
      OneRun(acc, s);
      Ends(acc');
      if rest != "" {
        AfterRun(acc', rest);
        ReduceHalvesRuns(acc' + [rest[0]], rest[1..]);
      }
    }
  }

  lemma Ends(acc: string)
    ensures Reduce(acc, "", SLASHES) == acc && HalveRuns("") == ""
  {
  }

  lemma OneRun(acc: string, s: string)
    requires acc == "" || acc[|acc| - 1] != '/'
    requires s != "" && s[0] == '/'
    ensures var n := SpanOf(s, '/'); var odd := if n % 2 == 1 then "/" else "";
            && n >= 1
            && Reduce(acc, s, SLASHES) == Reduce(acc + odd, s[n..], SLASHES)
            && HalveRuns(s) == odd + HalveRuns(s[n..])
  {
    hide Push, Reduce;
    var n := SpanOf(s, '/');
    assert s == s[..n] + s[n..];
    ReduceAppend(acc, s[..n], s[n..], SLASHES);
    RunOfSlashes(acc, s[..n]);
  }

  lemma AfterRun(acc: string, rest: string)
    requires rest != "" && rest[0] != '/'
    ensures Reduce(acc, rest, SLASHES) == Reduce(acc + [rest[0]], rest[1..], SLASHES)
    ensures HalveRuns(rest) == [rest[0]] + HalveRuns(rest[1..])
  {
    PushSlashes(acc, rest[0]);
  }

  /** Collapsing slashes halves each run; it is not a reduction of runs to one slash. */
  lemma SlashesNormalForm(s: string)
    ensures NormalForm(s, SLASHES) == HalveRuns(s)
  {
    ReduceHalvesRuns("", s);
    assert "" + HalveRuns(s) == HalveRuns(s);
  }

  // ----- the first loop creates no double slash -----

  predicate DoubleAt(s: string, k: nat) {
    k + 1 < |s| && s[k] == '/' && s[k + 1] == '/'
  }

  lemma SlashesAt(s: string, k: nat)
    ensures OccursAt(s, SLASHES, k) <==> DoubleAt(s, k)
  {
    if k + 2 <= |s| {
      assert s[k..k + 2] == [s[k], s[k + 1]];
    }
  }

  lemma SlashFree(s: string)
    ensures Free(s, SLASHES) <==> forall k: nat :: !DoubleAt(s, k)
  {
    forall k: nat { SlashesAt(s, k); }
  }

  lemma CutKeepsSlashFree(s: string, i: nat)
    requires OccursAt(s, PARENT, i) && Free(s, SLASHES)
    ensures Free(Cut(s, i, 3), SLASHES)
  {
    var t := Cut(s, i, 3);
    SlashFree(s);
    SlashFree(t);
    assert s[i] == '/' by { assert s[i..i + 3][0] == s[i]; }
    forall k: nat ensures !DoubleAt(t, k) {
      assert !DoubleAt(s, k) && !DoubleAt(s, k + 3);
    }
  }

  lemma {:induction false} ParentKeepsSlashFree(s: string)
    requires Free(s, SLASHES)
    ensures Free(NormalForm(s, PARENT), SLASHES)
    decreases |s|
  {
    match Find(s, PARENT)
    case None =>
      FreeIsNormal(s, PARENT);
    case Some(i) =>
      ParentCancels();
      CutKeepsNormalForm(s, PARENT, i);
      CutKeepsSlashFree(s, i);
      ParentKeepsSlashFree(Cut(s, i, 3));
  }

  /** The rewritten path. */
  function Rewritten(path: string): string {
    NormalForm(NormalForm(path, PARENT), SLASHES)
  }

  // ----- what the second loop brings together -----

  /** How many slashes end right before position `i`. */
  function RunBefore(s: string, i: nat): (n: nat)
    requires i <= |s|
    ensures n <= i
  {
    if i > 0 && s[i - 1] == '/' then 1 + RunBefore(s, i - 1) else 0
  }

  /** A '.' at `i` after an odd run of slashes; then an even run, perhaps empty; then '.'. */
  predicate MeetAt(s: string, i: nat) {
    i < |s| && s[i] == '.' && RunBefore(s, i) % 2 == 1 && DotNext(s[i + 1..])
  }

  predicate DotNext(s: string) {
    var m := SpanOf(s, '/');
    m % 2 == 0 && m < |s| && s[m] == '.'
  }

  /** The same with slashes between the dots: deleting them in pairs makes a "/..". */
  predicate RestoredAt(s: string, i: nat) {
    MeetAt(s, i) && SpanOf(s[i + 1..], '/') > 0
  }

  lemma {:induction false} RunBeforeDrop(s: string, n: nat, j: nat)
    requires 0 < n && n + j <= |s|
    requires s[n - 1] != '/' || (j > 0 && s[n] != '/')
    ensures RunBefore(s, n + j) == RunBefore(s[n..], j)
    decreases j
  {
    if j > 0 && s[n + j - 1] == '/' {
      RunBeforeDrop(s, n, j - 1);
    }
  }

  lemma {:induction false} RunBeforeRun(s: string, n: nat)
    requires n <= |s| && forall i | 0 <= i < n :: s[i] == '/'
    ensures RunBefore(s, n) == n
    decreases n
  {
    if n > 0 { RunBeforeRun(s, n - 1); }
  }

  lemma {:induction false} HalvedStep(s: string)
    ensures var n := SpanOf(s, '/');
            && (s == "" ==> HalveRuns(s) == "")
            && (s != "" && s[0] != '/' ==> n == 0 && HalveRuns(s) == [s[0]] + HalveRuns(s[1..]))
            && (s != "" && s[0] == '/' ==>
                  n > 0 && HalveRuns(s) == (if n % 2 == 1 then "/" else "") + HalveRuns(s[n..]))
  {
  }

  /** How a string with its runs halved begins. */
  lemma {:induction false} HalvedStart(s: string)
    ensures var n, r := SpanOf(s, '/'), HalveRuns(s);
            && (n % 2 == 1 ==> r != "" && r[0] == '/')
            && (n % 2 == 0 && n == |s| ==> r == "")
            && (n % 2 == 0 && n < |s| ==> r != "" && r[0] == s[n] != '/')
  {
    hide HalveRuns;
    HalvedStep(s);
    HalvedStep(s[SpanOf(s, '/')..]);
  }

  lemma PrependOccurs(c: char, s: string, k: nat)
    ensures OccursAt([c] + s, PARENT, k + 1) <==> OccursAt(s, PARENT, k)
    ensures OccursAt([c] + s, PARENT, 0) <==> c == '/' && |s| >= 2 && s[0] == '.' && s[1] == '.'
  {
    ParentAt([c] + s, k + 1);
    ParentAt(s, k);
    ParentAt([c] + s, 0);
  }

  lemma FreeOfPrepend(c: char, s: string)
    ensures Free([c] + s, PARENT) <==> Free(s, PARENT) && !(c == '/' && |s| >= 2 && s[0] == '.' && s[1] == '.')
  {
    hide OccursAt;
    PrependOccurs(c, s, 0);
    forall k: nat
      ensures k > 0 ==> (OccursAt([c] + s, PARENT, k) <==> OccursAt(s, PARENT, k - 1))
    {
      if k > 0 { PrependOccurs(c, s, k - 1); }
    }
    forall k: nat
      ensures OccursAt(s, PARENT, k) <==> OccursAt([c] + s, PARENT, k + 1)
    {
      PrependOccurs(c, s, k);
    }
  }

  ghost predicate Meets(s: string) {
    exists i: nat :: MeetAt(s, i)
  }

  lemma MeetsAfterOther(s: string)
    requires s != "" && s[0] != '/'
    ensures Meets(s) <==> Meets(s[1..])
  {
    forall i: nat | i < |s| - 1
      ensures MeetAt(s, i + 1) <==> MeetAt(s[1..], i)
    {
      RunBeforeDrop(s, 1, i);
      assert s[1..][i + 1..] == s[i + 2..];
    }
    if Meets(s) {
      var i: nat :| MeetAt(s, i);
      assert i > 0;
      assert MeetAt(s[1..], i - 1);
    }
    if Meets(s[1..]) {
      var i: nat :| MeetAt(s[1..], i);
      assert MeetAt(s, i + 1);
    }
  }

  lemma MeetInRest(s: string, i: nat)
    requires s != "" && s[0] == '/'
    ensures var n := SpanOf(s, '/');
            && n > 0
            && (MeetAt(s, i) ==> i >= n)
            && (i > n ==> (MeetAt(s, i) <==> MeetAt(s[n..], i - n)))
            && !MeetAt(s[n..], 0)
  {
    hide DotNext;
    var n := SpanOf(s, '/');
    if n < i < |s| {
      RunBeforeDrop(s, n, i - n);
      assert s[n..][i - n + 1..] == s[i + 1..];
    }
  }

  lemma MeetAfterRun(s: string)
    requires s != "" && s[0] == '/'
    ensures var n := SpanOf(s, '/'); var u := s[n..];
            MeetAt(s, n) <==> n % 2 == 1 && u != "" && u[0] == '.' && DotNext(u[1..])
  {
    hide DotNext;
    var n := SpanOf(s, '/');
    RunBeforeRun(s, n);
    if n < |s| {
      assert s[n..][1..] == s[n + 1..];
    }
  }

  lemma MeetsAfterRun(s: string)
    requires s != "" && s[0] == '/'
    ensures var n := SpanOf(s, '/'); var u := s[n..];
            Meets(s) <==> Meets(u) || (n % 2 == 1 && u != "" && u[0] == '.' && DotNext(u[1..]))
  {
    hide MeetAt, DotNext, SpanOf;
    var n := SpanOf(s, '/');
    var u := s[n..];
    forall i: nat
      ensures MeetAt(s, i) ==> i >= n
      ensures i > n ==> (MeetAt(s, i) <==> MeetAt(u, i - n))
      ensures !MeetAt(u, 0)
    {
      MeetInRest(s, i);
    }
    MeetAfterRun(s);
    if Meets(s) {
      var i: nat :| MeetAt(s, i);
      assert i > n ==> MeetAt(u, i - n);
    }
    if Meets(u) {
      var i: nat :| MeetAt(u, i);
      assert MeetAt(s, n + i);
    }
  }

  lemma {:induction false} HalvedFreeIff(s: string)
    ensures Free(HalveRuns(s), PARENT) <==> !Meets(s)
    decreases |s|
  {
    hide Meets, Free;
    if s == "" {
      NothingMeets();
    } else if s[0] != '/' {
      HalvedFreeIff(s[1..]);
      FreeOfPrepend(s[0], HalveRuns(s[1..]));
      MeetsAfterOther(s);
    } else {
      var n := SpanOf(s, '/');
      var u := s[n..];
      HalvedFreeIff(u);
      MeetsAfterRun(s);
      assert "" + HalveRuns(u) == HalveRuns(u);
      if n % 2 == 1 {
        FreeOfPrepend('/', HalveRuns(u));
        DotsIff(u);
      }
    }
  }

  lemma NothingMeets()
    ensures Free("", PARENT) && !Meets("")
  {
  }

  lemma DotsIff(u: string)
    requires u == "" || u[0] != '/'
    ensures var r := HalveRuns(u);
            |r| >= 2 && r[0] == '.' && r[1] == '.' <==> u != "" && u[0] == '.' && DotNext(u[1..])
  {
    if u != "" {
      HalvedStart(u[1..]);
    }
  }

  /** What rewriting achieves, for every path. The result never has "//". It has no "/.."
      exactly if nowhere between the loops an odd run of slashes is followed by '.', an
      even run of slashes and '.'. On a path without "//" the second loop does nothing. */
  lemma CleanResult(path: string)
    ensures Free(Rewritten(path), SLASHES)
    ensures Free(Rewritten(path), PARENT) <==> forall i: nat :: !RestoredAt(NormalForm(path, PARENT), i)
    ensures Free(path, SLASHES) ==> Rewritten(path) == NormalForm(path, PARENT) && Free(Rewritten(path), PARENT)
  {
    var mid := NormalForm(path, PARENT);
    ReduceFree("", path, PARENT);
    ReduceFree("", mid, SLASHES);
    SlashesNormalForm(mid);
    HalvedFreeIff(mid);
    forall i: nat
      ensures MeetAt(mid, i) <==> RestoredAt(mid, i)
    {
      MeetsApart(mid, i);
    }
    if Free(path, SLASHES) {
      ParentKeepsSlashFree(path);
      FreeIsNormal(mid, SLASHES);
    }
  }

  lemma MeetsApart(s: string, i: nat)
    requires Free(s, PARENT)
    ensures MeetAt(s, i) ==> RestoredAt(s, i)
  {
    if MeetAt(s, i) {
      ParentAt(s, i - 1);
    }
  }

  /** Goes on like a path: empty, or with a slash in front. */
  predicate Rooted(s: string) {
    s == "" || s[0] == '/'
  }

  /** The leading run of slashes, once "/.." is deleted, is odd or is all there is. */
  predicate KeepsSlash(s: string) {
    var mid := NormalForm(s, PARENT);
    var n := SpanOf(mid, '/');
    n % 2 == 1 || n == |mid|
  }

  /** Exactly then the result still continues the storage root, which it is put behind
      without a separator. */
  lemma RootedIff(path: string)
    ensures Rooted(Rewritten(path)) <==> KeepsSlash(path)
  {
    var mid := NormalForm(path, PARENT);
    SlashesNormalForm(mid);
    HalvedStart(mid);
  }

  predicate EndsInSlash(s: string) {
    s != "" && s[|s| - 1] == '/'
  }

  lemma {:induction false} HalvedEnd(s: string)
    ensures EndsInSlash(HalveRuns(s)) <==> RunBefore(s, |s|) % 2 == 1
    decreases |s|
  {
    hide HalveRuns, RunBefore, SpanOf;
    HalvedStep(s);
    if s == "" {
      RunBeforeRun(s, 0);
    } else if s[0] != '/' {
      HalvedEnd(s[1..]);
      RunBeforeDrop(s, 1, |s| - 1);
    } else {
      var n := SpanOf(s, '/');
      var u := s[n..];
      if u == "" {
        HalvedStep(u);
        RunBeforeRun(s, n);
      } else {
        HalvedEnd(u);
        HalvedStep(u);
        RunBeforeDrop(s, n, |u|);
      }
    }
  }

  /** The result ends in a slash exactly if the trailing run is odd. */
  lemma EndsInSlashIff(path: string)
    ensures var mid := NormalForm(path, PARENT);
            EndsInSlash(Rewritten(path)) <==> RunBefore(mid, |mid|) % 2 == 1
  {
    var mid := NormalForm(path, PARENT);
    SlashesNormalForm(mid);
    HalvedEnd(mid);
  }

  // ----- inputs on which the loops miss their purpose -----

  /** A doubled slash disappears altogether. */
  lemma DoubledSlashVanishes(front: string, rest: string)
    requires Free(front + SLASHES + rest, PARENT) && Free(front, SLASHES) && Free(rest, SLASHES)
    requires !EndsInSlash(front) && (rest == "" || rest[0] != '/')
    ensures Rewritten(front + SLASHES + rest) == front + rest
  {
    hide Reduce, Push, HalveRuns, Free;
    var path := front + SLASHES + rest;
    FreeIsNormal(path, PARENT);
    assert path == front + (SLASHES + rest);
    ReduceAppend("", front, SLASHES + rest, SLASHES);
    FreeIsNormal(front, SLASHES);
    ReduceHalvesRuns(front, SLASHES + rest);
    HalvedPair(rest);
    FreeIsNormal(rest, SLASHES);
    SlashesNormalForm(rest);
  }

  lemma HalvedPair(rest: string)
    requires rest == "" || rest[0] != '/'
    ensures HalveRuns(SLASHES + rest) == HalveRuns(rest)
  {
    var s := SLASHES + rest;
    assert s[0] == '/' && s[1] == '/';
    assert SpanOf(s, '/') == 2 by { SpanOfIs(s, 2); }
    assert s[2..] == rest;
    assert "" + HalveRuns(rest) == HalveRuns(rest);
  }

  lemma SpanOfIs(s: string, n: nat)
    requires n <= |s| && forall i | 0 <= i < n :: s[i] == '/'
    requires n < |s| ==> s[n] != '/'
    ensures SpanOf(s, '/') == n
  {
  }

  /** The second loop can bring "/.." back. */
  lemma ParentRestored(other: string)
    requires '/' !in other && !StartsWith(other, ".")
    ensures Rewritten("/.//./" + other) == "/../" + other
    ensures RestoredAt(NormalForm("/.//./" + other, PARENT), 1)
  {
    hide Reduce, Push, Rewritten;
    var path, front, rest := "/.//./" + other, "/.", "./" + other;
    assert path == front + SLASHES + rest;
    DotsApart(other);
    FreeIsNormal(path, PARENT);
    forall k: nat
      ensures !OccursAt(front, SLASHES, k) && !OccursAt(rest, SLASHES, k)
    {
      SlashesAt(front, k);
      SlashesAt(rest, k);
      assert 1 < k < |rest| ==> rest[k] == other[k - 2];
      assert |rest| > 2 ==> rest[2] == other[0];
    }
    DoubledSlashVanishes(front, rest);
    assert front + rest == "/../" + other;
    RestoredInside(path);
  }

  lemma DotsApart(other: string)
    requires '/' !in other && !StartsWith(other, ".")
    ensures Free("/.//./" + other, PARENT)
  {
    var path := "/.//./" + other;
    assert |other| > 0 ==> other[..1] == [other[0]];
    forall k: nat
      ensures !OccursAt(path, PARENT, k)
    {
      ParentAt(path, k);
      assert 5 < k < |path| ==> path[k] == other[k - 6];
      assert |path| > 6 ==> path[6] == other[0];
    }
  }

  lemma RestoredInside(s: string)
    requires |s| >= 5 && s[0] == '/' && s[1] == '.' && s[2] == '/' && s[3] == '/' && s[4] == '.'
    ensures RestoredAt(s, 1)
  {
    SpanOfIs(s[2..], 2);
    assert RunBefore(s, 0) == 0 && RunBefore(s, 1) == 1;
  }

  // ----- paths made of names -----

  predicate IsName(n: string) {
    n != "" && '/' !in n
  }

  function Join(names: seq<string>): string {
    if names == [] then "" else "/" + names[0] + Join(names[1..])
  }

  /** The names of a path (strtok with "/"). */
  function Tokens(path: string): (names: seq<string>)
    decreases |path|
  {
    var rest := path[SpanOf(path, '/')..];
    if rest == "" then []
    else
      var n := SpanUntil(rest, '/');
      [rest[..n]] + Tokens(rest[n..])
  }

  lemma JoinStarts(names: seq<string>)
    ensures names != [] ==> Join(names) != "" && Join(names)[0] == '/'
  {
  }

  lemma TokensStep(n: string, tail: string)
    requires IsName(n) && (tail == "" || tail[0] == '/')
    ensures Tokens("/" + n + tail) == [n] + Tokens(tail)
  {
    hide Tokens;
    var path := "/" + n + tail;
    var rest := n + tail;
    assert path[1..] == rest && path[1] == n[0];
    assert SpanOf(path, '/') == 1;
    SpanUntilIs(rest, '/', |n|);
    assert rest[..|n|] == n && rest[|n|..] == tail;
    TokensUnfold(path);
  }

  lemma TokensUnfold(path: string)
    ensures var rest := path[SpanOf(path, '/')..]; var n := SpanUntil(rest, '/');
            Tokens(path) == if rest == "" then [] else [rest[..n]] + Tokens(rest[n..])
  {
  }

  /** Splitting a joined path gives its names back. */
  lemma {:induction false} TokensOfJoin(names: seq<string>)
    requires forall n | n in names :: IsName(n)
    ensures Tokens(Join(names)) == names
  {
    hide Tokens;
    if names == [] {
      TokensUnfold("");
    } else {
      assert Join(names) == "/" + names[0] + Join(names[1..]);
      assert names[0] in names;
      JoinStarts(names[1..]);
      TokensStep(names[0], Join(names[1..]));
      TokensOfJoin(names[1..]);
    }
  }

  lemma {:induction false} JoinSlashFree(names: seq<string>)
    requires forall n | n in names :: IsName(n)
    ensures Free(Join(names), SLASHES)
  {
    if names != [] {
      JoinSlashFree(names[1..]);
      var n, tail := names[0], Join(names[1..]);
      var path := Join(names);
      assert path == "/" + n + tail && n in names;
      SlashFree(path);
      SlashFree(tail);
      forall k: nat ensures !DoubleAt(path, k) {
        if k <= |n| {
          assert k > 0 ==> path[k] == n[k - 1];
          assert k < |n| ==> path[k + 1] == n[k];
        } else {
          assert !DoubleAt(tail, k - 1 - |n|);
        }
      }
    }
  }

  /** A joined path has no "/.." exactly if no name begins with "..". */
  lemma {:induction false} JoinParentFree(names: seq<string>)
    requires forall n | n in names :: IsName(n)
    ensures Free(Join(names), PARENT) <==> forall n | n in names :: !StartsWith(n, "..")
  {
    if names != [] {
      var n, tail := names[0], Join(names[1..]);
      var path := Join(names);
      assert path == "/" + n + tail && n in names && names == [n] + names[1..];
      JoinParentFree(names[1..]);
      JoinStarts(names[1..]);
      forall k: nat { ParentInJoin(n, tail, k); }
      if StartsWith(n, "..") {
        assert OccursAt(path, PARENT, 0);
      }
      if !Free(tail, PARENT) {
        var k: nat :| OccursAt(tail, PARENT, k);
        ParentInJoin(n, tail, k + 1 + |n|);
        assert OccursAt(path, PARENT, k + 1 + |n|);
      }
    }
  }

  lemma ParentInJoin(n: string, tail: string, k: nat)
    requires IsName(n) && (tail == "" || tail[0] == '/')
    ensures OccursAt("/" + n + tail, PARENT, k) <==>
            if k == 0 then StartsWith(n, "..") else k > |n| && OccursAt(tail, PARENT, k - 1 - |n|)
  {
    var path := "/" + n + tail;
    ParentAt(path, k);
    if k == 0 {
      assert |n| >= 1 && path[1] == n[0];
      assert |n| >= 2 ==> path[2] == n[1] && n[..2] == [n[0], n[1]];
    } else if k <= |n| {
      assert path[k] == n[k - 1];
    } else {
      ParentAt(tail, k - 1 - |n|);
    }
  }

  lemma ParentAt(s: string, k: nat)
    ensures OccursAt(s, PARENT, k) <==> k + 3 <= |s| && s[k] == '/' && s[k + 1] == '.' && s[k + 2] == '.'
  {
    if k + 3 <= |s| {
      assert s[k..k + 3] == [s[k], s[k + 1], s[k + 2]];
    }
  }

  /** Rewriting leaves the path of a list of names alone exactly if no name begins with
      "..", and then splitting the result gives those names. */
  lemma NamesUnchanged(names: seq<string>)
    requires forall n | n in names :: IsName(n)
    ensures Rewritten(Join(names)) == Join(names) <==> forall n | n in names :: !StartsWith(n, "..")
    ensures Rewritten(Join(names)) == Join(names) ==> Tokens(Rewritten(Join(names))) == names
  {
    var path := Join(names);
    TokensOfJoin(names);
    JoinSlashFree(names);
    JoinParentFree(names);
    CleanResult(path);
    if Free(path, PARENT) {
      FreeIsNormal(path, PARENT);
    }
  }

  // ----- the loops, in place -----

  ghost predicate Terminated(buffer: array<char>)
    reads buffer
  {
    NUL in buffer[..]
  }

  /** Moves what follows the occurrence, terminator included, to where it began. */
  method CutInPlace(buffer: array<char>, pos: nat, n: nat)
    requires Terminated(buffer) && pos + n <= |CString(buffer[..])|
    modifies buffer
    ensures Terminated(buffer)
    ensures CString(buffer[..]) == Cut(old(CString(buffer[..])), pos, n)
  {
    hide SpanUntil;
    ghost var before := CString(buffer[..]);
    var length := SpanUntil(buffer[..], NUL);
    assert before == buffer[..length];
    var restlen := length - (pos + n);
    forall i | pos <= i < pos + restlen {
      buffer[i] := buffer[i + n];
    }
    buffer[pos + restlen] := NUL;
    assert buffer[..pos + restlen] == Cut(before, pos, n);
    assert NulFree(Cut(before, pos, n));
    SpanUntilIs(buffer[..], NUL, pos + restlen);
  }

  /** Deletes the first occurrence of `pat` until there is none. */
  method DeleteAll(buffer: array<char>, pat: string)
    requires Terminated(buffer) && Cancels(pat)
    modifies buffer
    ensures Terminated(buffer)
    ensures CString(buffer[..]) == NormalForm(old(CString(buffer[..])), pat)
    ensures Free(CString(buffer[..]), pat)
  {
    var pos := Find(CString(buffer[..]), pat);
    while pos.Some?
      invariant Terminated(buffer) && pos == Find(CString(buffer[..]), pat)
      invariant NormalForm(CString(buffer[..]), pat) == NormalForm(old(CString(buffer[..])), pat)
      decreases |CString(buffer[..])|
    {
      CutKeepsNormalForm(CString(buffer[..]), pat, pos.value);
      CutInPlace(buffer, pos.value, |pat|);
      pos := Find(CString(buffer[..]), pat);
    }
    FreeIsNormal(CString(buffer[..]), pat);
  }

  lemma ContinuesIff(root: string, s: string)
    ensures root + s == root || root + "/" <= root + s <==> Rooted(s)
  {
    assert s != "" ==> (root + s)[|root|] == s[0];
    if s != "" && s[0] == '/' {
      assert s == "/" + s[1..];
      assert root + s == root + "/" + s[1..];
    }
    if root + "/" <= root + s {
      assert (root + s)[|root|] == (root + "/")[|root|];
    }
  }

  /** Rewrites the request path in place and puts the storage root before it. */
  method MakeDiskPath(user: string, serveRoot: string, path: array<char>)
    returns (diskPath: string, storageRoot: string)
    requires Terminated(path)
    modifies path
    ensures Terminated(path) && CString(path[..]) == Rewritten(old(CString(path[..])))
    ensures storageRoot == "/home/" + user + "/" + serveRoot
    ensures diskPath == storageRoot + Rewritten(old(CString(path[..])))
    ensures diskPath == storageRoot || storageRoot + "/" <= diskPath <==> KeepsSlash(old(CString(path[..])))
  {
    ghost var raw := CString(path[..]);
    storageRoot := "/home/" + user + "/" + serveRoot;
    ParentCancels();
    DeleteAll(path, PARENT);
    SlashesCancel();
    DeleteAll(path, SLASHES);
    diskPath := storageRoot + CString(path[..]);
    RootedIff(raw);
    ContinuesIff(storageRoot, Rewritten(raw));
  }
}
