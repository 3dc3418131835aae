/** Extended attributes (src/common/attributes.c): fetching with a growing buffer, content
    types, and the version tag of a node.
 */
module Attributes {
  import opened Strings
  import opened FileTree
  import opened Merkle

  /** The attributes in use: user.etag, user.mime_type and user.charset. */
  datatype Key = ETAG | MIME_TYPE | CHARSET

  // ----- fetching one attribute -----

  /** The largest buffer the fetching loop tries. */
  function Capacity(maxlen: nat): nat {
    if maxlen < 32 then 0 else 32 + 16 * ((maxlen - 32) / 16)
  }

  /** What fetching returns: the attribute if it is set, non-empty and fits. */
  function Fetched(attr: Option<string>, maxlen: nat): Option<string> {
    if attr.Some? && 0 < |attr.value| <= Capacity(maxlen) then attr else None
  }

  datatype Errno = ERANGE | ENOATTR | ENOTSUP | Other

  /** The getxattr system call on a buffer of `len` bytes. When it returns 0 it leaves
      errno as it was. */
  method GetXattrCall(attr: Option<string>, len: nat, errno: Errno) returns (actual: int, errno': Errno)
    ensures attr.None? ==> actual == -1 && errno' == ENOATTR
    ensures attr.Some? && |attr.value| > len ==> actual == -1 && errno' == ERANGE
    ensures attr.Some? && |attr.value| <= len ==> actual == |attr.value| && errno' == errno
  {
    match attr
    case None => return -1, ENOATTR;
    case Some(v) => if |v| > len { return -1, ERANGE; } else { return |v|, errno; }
  }

  /** A buffer of 32 bytes, enlarged by 16 while the attribute does not fit and the size
      is within `maxlen`. */
  method GetXattr(attr: Option<string>, maxlen: nat, errno: Errno) returns (value: Option<string>)
    ensures value == Fetched(attr, maxlen)
  {
    var len := 32;
    var errno' := errno;
    while len <= maxlen
      invariant len % 16 == 0 && 32 <= len
      invariant attr.Some? && |attr.value| > 0 ==> len > 32 ==> |attr.value| > len - 16
      invariant len > 32 ==> attr.Some?
      invariant len <= maxlen + 16 || len == 32
      decreases maxlen + 16 - len
    {
      var actual;
      actual, errno' := GetXattrCall(attr, len, errno');
      if actual > 0 {
        return attr;
      } else if errno' == ERANGE {
        len := len + 16;
      } else {
        return None;
      }
    }
    return None;
  }

  /** A 40-character tag never fits the buffers tried for it. */
  lemma StoredTagIsNotFetched(tag: string)
    requires |tag| == TAG_LENGTH
    ensures Fetched(Some(tag), TAG_LENGTH + 1) == None
  {
    assert Capacity(41) == 32;
  }

  /** Only an attribute of at most 32 bytes would be taken for the stored tag. */
  lemma TagFetchedIff(attr: Option<string>)
    ensures Fetched(attr, TAG_LENGTH + 1) == attr <==> attr.None? || 0 < |attr.value| <= 32
  {
    assert Capacity(41) == 32;
  }

  // ----- content types -----

  /** A content type from which strtok can extract a mime type. */
  predicate HasMime(ct: string) {
    NulFree(ct) && exists i | 0 <= i < |ct| :: ct[i] != ';'
  }

  /** The part up to the first ';', leading ';' skipped. */
  function MimePart(ct: string): (m: string)
    ensures ';' !in m
    ensures HasMime(ct) ==> m != ""
  {
    var rest := ct[SpanOf(ct, ';')..];
    rest[..SpanUntil(rest, ';')]
  }

  /** What follows the ';' that ended the mime type. */
  function AfterMime(ct: string): string {
    var rest := ct[SpanOf(ct, ';')..];
    var n := SpanUntil(rest, ';');
    if n < |rest| then rest[n + 1..] else ""
  }

  function CharsetPart(ct: string): string {
    match Find(AfterMime(ct), "charset=")
    case Some(i) => AfterMime(ct)[i + 8..]
    case None => "UTF-8"
  }

  /** The content type read back from the two attributes. */
  function ReadBack(mime: Option<string>, charset: Option<string>): Option<string> {
    match Fetched(mime, 128)
    case None => None
    case Some(m) =>
      match Fetched(charset, 64)
      case None => Some(CString(m))
      case Some(c) => Some(CString(m) + "; charset=" + CString(c))
  }

  /** What a stored content type reads back as. */
  function Normalised(ct: string): Option<string> {
    ReadBack(Some(MimePart(ct) + [NUL]), Some(CharsetPart(ct) + [NUL]))
  }

  /** Cuts a content type in two (strtok twice, then strstr). */
  method CutContentType(contentType: string) returns (mime: string, charset: string)
    ensures mime == MimePart(contentType) && charset == CharsetPart(contentType)
  {
    hide SpanOf, SpanUntil, Find;
    var rest := contentType[SpanOf(contentType, ';')..];
    var n := SpanUntil(rest, ';');
    mime := rest[..n];
    rest := if n < |rest| then rest[n + 1..] else "";
    assert rest == AfterMime(contentType);
    charset := "UTF-8";
    var begin := Find(rest, "charset=");
    if begin.Some? {
      charset := rest[begin.value + 8..];
    }
  }

  /** How a content type is taken apart: behind leading ';' and up to the next one is the
      mime type; behind the first "charset=" after that is the charset, or it is UTF-8. */
  lemma ContentTypeParts(lead: string, mime: string, tail: string, before: string, charset: Option<string>)
    requires (forall c | c in lead :: c == ';') && mime != "" && ';' !in mime
    requires tail == (match charset
                      case Some(c) => ";" + before + "charset=" + c
                      case None => if before == "" then "" else ";" + before)
    requires NoneBefore(if charset.Some? then before + "charset=" else before, "charset=", |before|)
    ensures MimePart(lead + mime + tail) == mime
    ensures CharsetPart(lead + mime + tail) == charset.GetOr("UTF-8")
  {
    hide SpanOf, SpanUntil, MimePart, AfterMime, Find, NoneBefore;
    var ct := lead + mime + tail;
    AfterParts(lead, mime, tail);
    match charset
    case Some(c) =>
      assert AfterMime(ct) == before + "charset=" + c;
      FirstCharset(before, c);
    case None =>
      assert AfterMime(ct) == before;
      NoCharset(before);
  }

  lemma NoCharset(before: string)
    requires NoneBefore(before, "charset=", |before|)
    ensures Find(before, "charset=").None?
  {
  }

  lemma AfterParts(lead: string, mime: string, tail: string)
    requires (forall c | c in lead :: c == ';') && mime != "" && ';' !in mime && (tail == "" || tail[0] == ';')
    ensures MimePart(lead + mime + tail) == mime
    ensures AfterMime(lead + mime + tail) == if tail == "" then "" else tail[1..]
  {
    var ct, rest := lead + mime + tail, mime + tail;
    LeadingSemicolons(lead, rest);
    assert ct == lead + rest && ct[|lead|..] == rest;
    SpanUntilIs(rest, ';', |mime|);
  }

  lemma {:induction false} LeadingSemicolons(lead: string, rest: string)
    requires (forall c | c in lead :: c == ';') && rest != "" && rest[0] != ';'
    ensures SpanOf(lead + rest, ';') == |lead|
    decreases |lead|
  {
    if lead == "" {
      assert lead + rest == rest;
    } else {
      assert lead == [lead[0]] + lead[1..] && (lead + rest)[1..] == lead[1..] + rest;
      assert lead[0] in lead && forall c | c in lead[1..] :: c in lead;
      LeadingSemicolons(lead[1..], rest);
    }
  }

  lemma FirstCharset(before: string, charset: string)
    requires NoneBefore(before + "charset=", "charset=", |before|)
    ensures Find(before + "charset=" + charset, "charset=") == Some(|before|)
    ensures (before + "charset=" + charset)[|before| + 8..] == charset
  {
    var start := before + "charset=";
    var text := start + charset;
    forall i | 0 <= i < |before|
      ensures !OccursAt(text, "charset=", i)
    {
      assert !OccursAt(start, "charset=", i);
      assert text[i..i + 8] == start[i..i + 8];
    }
    assert text[|before|..|before| + 8] == "charset=";
    FindIs(text, "charset=", |before|);
  }

  lemma PartsNulFree(ct: string)
    requires NulFree(ct)
    ensures NulFree(MimePart(ct)) && NulFree(CharsetPart(ct))
  {
  }

  lemma NulFreeIfMime(ct: string)
    requires HasMime(ct)
    ensures NulFree(ct)
  {
  }

  /** Storing and reading back, in closed form. */
  lemma NormalisedIs(ct: string)
    requires HasMime(ct)
    ensures Normalised(ct) ==
            if |MimePart(ct)| >= 128 then None
            else if |CharsetPart(ct)| >= 64 then Some(MimePart(ct))
            else Some(MimePart(ct) + "; charset=" + CharsetPart(ct))
  {
    hide MimePart, CharsetPart, CString, SpanUntil, HasMime;
    NulFreeIfMime(ct);
    PartsNulFree(ct);
    CStringOfTerminated(MimePart(ct));
    CStringOfTerminated(CharsetPart(ct));
    assert Capacity(128) == 128 && Capacity(64) == 64;
  }

  lemma PartsOfNormalForm(m: string, c: string)
    requires m != "" && ';' !in m
    ensures MimePart(m + "; charset=" + c) == m
    ensures CharsetPart(m + "; charset=" + c) == c
  {
    var ct := m + "; charset=" + c;
    assert ct[0] == m[0];
    assert SpanOf(ct, ';') == 0 && ct[0..] == ct;
    assert ct[|m|] == ';';
    SpanUntilIs(ct, ';', |m|);
    assert AfterMime(ct) == " charset=" + c;
    assert AfterMime(ct)[0..8][0] != "charset="[0];
    FindIs(AfterMime(ct), "charset=", 1);
  }

  lemma PartsOfBareMime(m: string)
    requires m != "" && ';' !in m
    ensures MimePart(m) == m && CharsetPart(m) == "UTF-8"
  {
    assert SpanOf(m, ';') == 0 && m[0..] == m;
    SpanUntilIs(m, ';', |m|);
  }

  /** Storing is a normalisation: a content type that reads back at all reads back the
      same the second time exactly when its charset is within the length limit. */
  lemma NormalisedTwice(ct: string)
    requires HasMime(ct)
    ensures Normalised(ct).Some? ==>
              && HasMime(Normalised(ct).value)
              && (Normalised(Normalised(ct).value) == Normalised(ct) <==> |CharsetPart(ct)| < 64)
  {
    hide MimePart, CharsetPart, Normalised;
    NormalisedIs(ct);
    PartsNulFree(ct);
    if Normalised(ct).None? {
      return;
    }
    var m, c, n := MimePart(ct), CharsetPart(ct), Normalised(ct).value;
    assert n[0] == m[0] && m[0] in m;
    if |c| < 64 {
      PartsOfNormalForm(m, c);
    } else {
      PartsOfBareMime(m);
      assert |m + "; charset=UTF-8"| > |m|;
    }
    NormalisedIs(n);
  }

  // ----- the disk -----

  datatype RmdirResult = DirRemoved | NotEmpty | RmdirFailed

  function RmdirOutcome(t: Tree, p: Path): RmdirResult {
    if p == [] || p !in t || t[p].File? then RmdirFailed
    else if Children(t, p) != {} then NotEmpty
    else DirRemoved
  }

  function AttrsOf(p: Path): set<(Path, Key)> {
    {(p, ETAG), (p, MIME_TYPE), (p, CHARSET)}
  }

  /** The tree below the storage root, with the extended attributes of its nodes. */
  class Disk {
    var tree: Tree
    var xattr: map<(Path, Key), string>
    const hashing: Hashing

    constructor (hashing: Hashing)
      requires Proper(hashing)
      ensures Valid() && this.hashing == hashing && tree == map[[] := Dir] && xattr == map[]
    {
      this.hashing := hashing;
      tree := map[[] := Dir];
      xattr := map[];
    }

    ghost predicate Valid()
      reads this
    {
      && Proper(hashing)
      && WellFormed(tree)
      && (forall k | k in xattr :: k.0 in tree)
      && forall k | k in xattr && k.1 == ETAG :: |xattr[k]| == TAG_LENGTH
    }

    // ----- the system calls the handlers make; a failed call changes nothing -----

    method Mkdir(p: Path) returns (ok: bool)
      requires Valid()
      modifies `tree
      ensures Valid()
      ensures ok <==> p != [] && p !in old(tree) && Parent(p) in old(tree) && old(tree)[Parent(p)].Dir?
      ensures tree == if ok then old(tree)[p := Dir] else old(tree)
    {
      ok := p != [] && p !in tree && Parent(p) in tree && tree[Parent(p)].Dir?;
      if ok {
        tree := tree[p := Dir];
      }
    }

    /** Creates or truncates the file at `p` and writes `content`; the attributes of an
        existing file stay. */
    method WriteFile(p: Path, content: string) returns (ok: bool)
      requires Valid()
      modifies `tree
      ensures Valid()
      ensures ok <==> && p != [] && Parent(p) in old(tree) && old(tree)[Parent(p)].Dir?
                      && (p in old(tree) ==> old(tree)[p].File?)
      ensures tree == if ok then old(tree)[p := File(content)] else old(tree)
    {
      ok := && p != [] && Parent(p) in tree && tree[Parent(p)].Dir?
            && (p in tree ==> tree[p].File?);
      if ok {
        tree := tree[p := File(content)];
      }
    }

    method Unlink(p: Path) returns (ok: bool)
      requires Valid()
      modifies this
      ensures Valid()
      ensures ok <==> p in old(tree) && old(tree)[p].File?
      ensures tree == if ok then old(tree) - {p} else old(tree)
      ensures xattr == if ok then old(xattr) - AttrsOf(p) else old(xattr)
    {
      ok := p in tree && tree[p].File?;
      if ok {
        tree := tree - {p};
        xattr := xattr - AttrsOf(p);
      }
    }

    method Rmdir(p: Path) returns (r: RmdirResult)
      requires Valid()
      modifies this
      ensures Valid()
      ensures r == RmdirOutcome(old(tree), p)
      ensures tree == if r == DirRemoved then old(tree) - {p} else old(tree)
      ensures xattr == if r == DirRemoved then old(xattr) - AttrsOf(p) else old(xattr)
    {
      r := RmdirOutcome(tree, p);
      if r == DirRemoved {
        forall q | q in tree && q != [] && Parent(q) == p
          ensures false
        {
          assert q == p + [q[|p|]];
          ChildPresent(tree, p, q[|p|]);
        }
        tree := tree - {p};
        xattr := xattr - AttrsOf(p);
      }
    }

    function Attr(p: Path, key: Key): Option<string>
      reads this
    {
      if (p, key) in xattr then Some(xattr[(p, key)]) else None
    }

    method SetXattr(p: Path, key: Key, value: string)
      modifies this`xattr
      ensures xattr == old(xattr)[(p, key) := value]
    {
      xattr := xattr[(p, key) := value];
    }

    method ContentTypeFromXattr(p: Path) returns (r: Option<string>)
      ensures r == ReadBack(Attr(p, MIME_TYPE), Attr(p, CHARSET))
    {
      var mime := GetXattr(Attr(p, MIME_TYPE), 128, Other);
      if mime == None {
        return None;
      }
      var charset := GetXattr(Attr(p, CHARSET), 64, Other);
      if charset == None {
        return Some(CString(mime.value));
      }
      return Some(CString(mime.value) + "; charset=" + CString(charset.value));
    }

    /** Stores both parts of a content type with their terminators. */
    method ContentTypeToXattr(p: Path, contentType: string)
      requires HasMime(contentType)
      modifies this`xattr
      ensures xattr == old(xattr)[(p, MIME_TYPE) := MimePart(contentType) + [NUL]]
                                 [(p, CHARSET) := CharsetPart(contentType) + [NUL]]
      ensures ReadBack(Attr(p, MIME_TYPE), Attr(p, CHARSET)) == Normalised(contentType)
    {
      hide ReadBack, MimePart, CharsetPart;
      var mime, charset := CutContentType(contentType);
      SetXattr(p, MIME_TYPE, mime + [NUL]);
      SetXattr(p, CHARSET, charset + [NUL]);
    }

    /** What a tag request leaves alone: the tree, and every attribute but tags. */
    twostate predicate OnlyTagsStored()
      reads this
    {
      && tree == old(tree)
      && forall k: (Path, Key) | k.1 != ETAG :: (k in xattr <==> k in old(xattr)) && (k in xattr ==> xattr[k] == old(xattr[k]))
    }

    /** Whatever tags are stored, the result is the digest of the tree as it is now. */
    method GetEtag(p: Path) returns (tag: string)
      requires Valid() && p in tree
      modifies this`xattr
      ensures Valid() && OnlyTagsStored()
      ensures tag == Tag(hashing, tree, p)
      decreases Below(tree, p), 1
    {
      var stored := GetXattr(Attr(p, ETAG), TAG_LENGTH + 1, Other);
      match stored {
        case Some(copy) =>
          tag := copy;
        case None =>
          var context;
          match tree[p] {
            case Dir => context := HashChildren(p);
            case File(content) => context := HashContent(content);
          }
          tag := hashing.digest(context);
          SetXattr(p, ETAG, tag);
      }
    }

    /** The loop over a directory's children. */
    method HashChildren(p: Path) returns (context: string)
      requires Valid() && p in tree && tree[p].Dir?
      modifies this`xattr
      ensures Valid() && OnlyTagsStored()
      ensures context == Preimage(hashing, tree, p)
      ensures var names := hashing.order(Children(tree, p));
              && |context| == 40 * |names|
              && forall i | 0 <= i < |names| ::
                   p + [names[i]] in tree && context[40 * i..40 * (i + 1)] == Tag(hashing, tree, p + [names[i]])
      decreases Below(tree, p), 0
    {
      context := "";
      var names := hashing.order(Children(tree, p));
      assert names == Listing(hashing, tree, p);
      forall i | 0 <= i < |names|
        ensures p + [names[i]] in tree
        ensures Preimage(hashing, tree, p)[40 * i..40 * (i + 1)] == Tag(hashing, tree, p + [names[i]])
      {
        DirectoryPreimage(hashing, tree, p, i);
      }
      for i := 0 to |names|
        invariant Valid() && OnlyTagsStored()
        invariant context + Tags(hashing, tree, p, names[i..]) == Tags(hashing, tree, p, names)
      {
        BelowChild(tree, p, names[i]);
        var child := GetEtag(p + [names[i]]);
        assert names[i..][0] == names[i] && names[i..][1..] == names[i + 1..];
        context := context + child;
      }
    }
  }

  /** The loop that reads a file in blocks of 4096 bytes. */
  method HashContent(content: string) returns (context: string)
    ensures context == content
  {
    context := "";
    var read := 0;
    while read < |content|
      invariant 0 <= read <= |content|
      invariant context == content[..read]
    {
      var bytes := if |content| - read < 4096 then |content| - read else 4096;
      context := context + content[read..read + bytes];
      read := read + bytes;
    }
  }
}
