# rs-serve: a verified model

rs-serve is a remoteStorage server (draft-dejong-remotestorage-01). This project models its five
components with real state or real algorithms in Dafny 4.11 and proves what they promise. Verify it with
`dafny verify dfyconfig.toml`.

## What is modelled

**Storage.** One user's storage is a finite tree (`FileTree`) with extended attributes on its nodes
(`Attributes.Disk`). `Storage` has the handlers GET, HEAD, PUT and DELETE as methods that make the same
system calls in the same order as `src/handler/storage.c`: the walk that makes missing directories, the
climb that removes emptied ones, the preconditions, the listing. Each handler is proved to give the answer
of one function on trees, `Storage.Serve`. `Merkle` defines version tags, and `Runs` proves the protocol
properties over every sequence of requests; the server is a single event loop, so every interleaving of
clients is such a sequence. `PathRewriting` is the in-place rewriting of a request path into a disk path, as
a string-rewriting system.

**Template compiler.** `MustacheScanner`, `MustacheParse`, `MustacheTokens`, `MustacheRender` and
`MustacheEscape` follow `auth/frontend/mustache.js`, `MustacheTags` says which token the characters of a tag
give, and `Mustache` puts the passes together. The parser is
proved against a function (`MustacheParse.Lex`) that gives the tokens or the error of every template, and
against a declarative account of which white space is stripped (`MustacheParse.Deleted`); spans, sections and
nesting are properties of that function, for every template.

**Trie.** `Trie` keeps the parallel arrays of keys and children of `src/trie.c` and proves every operation
against a finite map. The recursive call at `src/trie.c:92` leaves out the last argument that the definition
at `src/trie.c:79` has; the model passes it on.

**Authorizations.** `AuthCodec` is the byte format of a stored authorization, `AuthStore` the database and its
histories, `Authorize` the check of a request. `DiskPaths` has the storage handlers on any disk path that stays
in the storage root, "." and ".." included, and proves that on other paths they are those of `Storage`.
`RequestPaths` relates the path as it was sent to the places its rewritten form leads through, and `Dispatch` is
the step that puts user check, authorization and storage together, with confinement over whole runs.

**JSON.** `JsonWriter` is the streaming writer with its bounded nesting stack, `Json` the documents, their
text and a parser following sections 4, 5 and 7 of RFC 8259, `Webfinger` the client that reaches the depth
limit.

One `char` stands for one byte in the C parts. SHA-1, the order in which a directory yields its names, the
libmagic guess, URL unescaping, the password database and the lookup of template names are parameters. A
digest cannot be free of collisions on all strings, so the properties that need it ask it of the finite set
of strings hashed for the trees they speak of (`Merkle.NoCollision`).

## Where the code differs from what one would expect

Each of these is proved, with the exact condition where there is one.

- A stored version tag is never read back: 40 bytes do not fit the 32-byte buffer, and the next size, 48,
  is above the limit 41. Tags are therefore always current (`Attributes.StoredTagIsNotFetched`,
  `Attributes.Disk.GetEtag`).
- Directory tags do not depend on names, so they do not determine a listing (`Merkle.TagIgnoresNames`), and
  files and directories are hashed without distinction (`Merkle.FileTaggedLikeDirectory`).
- A PUT that creates a document and a DELETE of it restore the tree exactly if the deepest directory that
  existed was the root or not empty (`FileTree.PutThenDelete`); on reachable trees it always was.
- A HEAD of a folder honours If-None-Match, a GET does not (`Runs.HeadMatchesGet`).
- The second rewriting loop takes away slashes in pairs: a run of n becomes n mod 2 slashes
  (`PathRewriting.SlashesNormalForm`). What the rewriting is for therefore holds under conditions only.
  The result is free of "/.." exactly if, between the loops, no odd run of slashes is followed by '.', a
  non-empty even run and '.' (`PathRewriting.CleanResult`); "/.//./x" becomes "/../x"
  (`PathRewriting.ParentRestored`). As a text it continues the storage root's path exactly if the leading run
  is odd or all there is (`PathRewriting.RootedIff`); "//x" becomes "x" (`PathRewriting.DoubledSlashVanishes`).
  On disk every directory it leads through is in the storage root exactly if, besides, its names never climb
  above it (`RequestPaths.InRootIff`). A folder's path keeps its slash exactly if the trailing run is odd
  (`PathRewriting.EndsInSlashIff`): "/a//" reaches the disk as "/a" (`RequestPaths.FolderSlashLost`), and the
  listing at `src/handler/storage.c:361-368` then puts child names behind it without a slash.
- Scopes are compared with the path as it was sent, the storage handlers use it rewritten. Every place that a
  covered path leads through behind the scope's directory is below that directory exactly if what is behind the
  scope keeps its leading slash and its names never climb (`RequestPaths.CoveredIff`). Either part fails on
  some input: for the scope "foo", "/foo//bar" leads to "/foobar" (`RequestPaths.BesideScope`,
  `Dispatch.SlashIsNeeded`), and "/foo/.//./bar" to "/bar" (`RequestPaths.ClimbsOut`,
  `Dispatch.NotClimbingIsNeeded`). The same condition decides whether reads without authorization stay below
  "public" (`RequestPaths.PublicReadIff`); "/public/.//./x" leads to "/x" (`RequestPaths.PublicReadOutside`).
  Confinement over runs is proved under that condition (`Dispatch.RunIsConfined`), and what remains of it
  under its second part alone (`Dispatch.RunStaysNear`) or without it (`Dispatch.RunSpares`).
- The walk and the climb take "." and ".." as names. A DELETE through "." removes the document, answers 500 and
  leaves its directory empty (`DiskPaths.DotStopsClimb`); a PUT through ".." leaves directories it made empty
  (`DiskPaths.ParentLeavesEmptyDir`). So the results of `Runs` on which answers change the tree and on empty
  directories are about requests that name places of the tree (`RequestPaths.ResolveIff`).
- A name that begins with ".." is changed by path rewriting (`PathRewriting.NamesUnchanged`).
- A content type whose charset is 64 characters or longer is not stable under storing and reading back
  (`Attributes.NormalisedTwice`).
- The key "user|token" tells users apart only if their names have no '|' (`AuthStore.KeyInjective`,
  `AuthStore.KeyShared`).
- `uid_t` is unsigned, so the failure results -1 and -2 pass the check of the smallest allowed uid, and
  Webfinger answers 200 for users that do not exist (`Webfinger.AnsweredIff`).
- JSON strings with control characters are written as they are and do not parse back
  (`Json.QuoteRoundTrip`, `Runs.ListingRoundTrip`).

## Model

| member | source | states |
|---|---|---|
| `FileTree.PutTreeAt` | src/handler/storage.c:106-198 | The whole tree after a PUT, path by path: the target holds the body, exactly the missing ancestors are directories, everything else is as before |
| `FileTree.PutTreeWellFormed` | src/handler/storage.c:106-198 | After a PUT every node still sits in a directory |
| `FileTree.PutTreeNoEmptyDirs` | src/handler/storage.c:106-198 | A PUT leaves no directory it creates empty |
| `FileTree.MakeDirsStep` | src/handler/storage.c:132-172 | One turn of the walk adds the next component if it is missing and nothing else |
| `FileTree.NothingMade` | src/handler/storage.c:132-172 | If a component is found, no earlier turn has made a directory, so a refusal at a file leaves the tree unchanged |
| `FileTree.DeleteTreeWellFormed` | src/handler/storage.c:264-310 | Removing a document with its emptied ancestors keeps the tree well formed |
| `FileTree.DeleteTreeNoEmptyDirs` | src/handler/storage.c:264-310 | A DELETE leaves no empty directory behind |
| `FileTree.ClimbStep` | src/handler/storage.c:287-308 | At each directory of the climb: empty exactly if it is one of those to remove; if it is not empty, the climb is complete |
| `FileTree.PutThenDelete` | src/handler/storage.c:106-308 | A creating PUT and a DELETE restore the tree if and only if the deepest directory that existed is the root or was not empty |
| `FileTree.PutThenDeleteRestores` | src/handler/storage.c:106-308 | On a tree without empty directories they always do: names, kinds and contents |
| `FileTree.DeleteThenPutRestores` | src/handler/storage.c:106-308 | Putting back the content of a deleted document restores every well-formed tree |
| `Merkle.TagOfFile` | src/common/attributes.c:178-194 | A document's tag is the digest of its content |
| `Merkle.SameTag` | src/common/attributes.c:150-203 | A tag depends only on the subtree below the node |
| `Merkle.DirectoryPreimage` | src/common/attributes.c:168-175 | What is hashed for a directory, cut into pieces of 40 characters, is the tags of its children in directory order, and nothing else |
| `Merkle.TwoDocuments` | src/common/attributes.c:168-203 | A directory listing two documents, in that order, has the digest of their digests in that order |
| `Merkle.TagsSplit` | src/common/attributes.c:168-175 | Concatenations of 40-character child tags are equal exactly if there are equally many and they agree one by one |
| `Merkle.DirectoryTagIff` | src/common/attributes.c:150-203 | Without collisions a directory's tag is unchanged exactly if the sequence of its children's tags is |
| `Merkle.TagsAgreeIff` | src/common/attributes.c:150-203 | Without collisions two nodes of any kind have the same tag exactly if the same string is hashed for them |
| `Merkle.ChildAppears` | src/common/attributes.c:168-175 | A child more or less changes the length of the string hashed |
| `Merkle.WriteChangesTags` | src/common/attributes.c:119-208 | A single write changes the tags of exactly the surviving nodes on the way from the root to the file |
| `Merkle.PutChangesTags` | src/handler/storage.c:181-222 | The same for a PUT that creates a document or changes its content |
| `Merkle.DeleteChangesTags` | src/handler/storage.c:264-308 | The same for a DELETE |
| `Merkle.TagIgnoresNames` | src/common/attributes.c:168-175 | Two different directories, the same content under different names, have the same tag |
| `Merkle.FileTaggedLikeDirectory` | src/common/attributes.c:150-194 | A file holding the concatenation of a directory's child tags has that directory's tag |
| `Attributes.GetXattr` | src/common/attributes.c:28-63 | The growing-buffer loop returns an attribute exactly if it is non-empty and no longer than 32 + 16 * ((maxlen - 32) / 16), whatever errno was before |
| `Attributes.StoredTagIsNotFetched` | src/common/attributes.c:119-121 | A 40-character attribute is never returned for a limit of 41 |
| `Attributes.TagFetchedIff` | src/common/attributes.c:119-121 | Exactly the attributes of 1 to 32 bytes would be taken for a stored tag |
| `Attributes.ContentTypeParts` | src/common/attributes.c:97-112 | However a content type is composed of leading ';', a mime type, and a rest with or without a first "charset=", exactly these parts are stored, UTF-8 standing in for a missing charset |
| `Attributes.NormalisedIs` | src/common/attributes.c:70-117 | What a stored content type reads back as, by the lengths of its two parts |
| `Attributes.NormalisedTwice` | src/common/attributes.c:70-117 | Storing and reading back again changes nothing exactly if the charset is shorter than 64 |
| `Attributes.Disk.ContentTypeToXattr` | src/common/attributes.c:91-117 | Sets the two attributes of this node only; reading them gives the normalised content type |
| `Attributes.Disk.ContentTypeFromXattr` | src/common/attributes.c:70-89 | Reads the two attributes within their limits 128 and 64 |
| `Attributes.Disk.GetEtag` | src/common/attributes.c:119-208 | Whatever tags are stored, returns the Merkle tag of the tree as it is now, and changes nothing but stored tags |
| `Attributes.Disk.HashChildren` | src/common/attributes.c:150-177 | The loop over children hashes their current tags in directory order, 40 characters each |
| `Attributes.HashContent` | src/common/attributes.c:178-194 | Reading in blocks of 4096 hashes the whole content |
| `Storage.Put` | src/handler/storage.c:46-231 | Status, ETag, content type and whole new tree of a PUT in every case, and that no other node's content type changes |
| `Storage.WriteDocument` | src/handler/storage.c:106-230 | The same for the part after the preconditions |
| `Storage.WriteTree` | src/handler/storage.c:106-198 | 400 exactly if a file is on the way, 500 exactly if the target is a directory, both leaving the tree alone; else the tree of `PutTreeAt` |
| `Storage.MakeParents` | src/handler/storage.c:106-178 | The walk either makes all missing directories or stops at a file having made none |
| `Storage.Enter` | src/handler/storage.c:135-160 | One component: accepted, refused with 400, or made |
| `Storage.WalkStep` | src/handler/storage.c:132-172 | The invariant of the walk from one component to the next |
| `Storage.ParentsReady` | src/handler/storage.c:174-188 | After the walk the directory exists and the document exists only if it did before |
| `Storage.ParentsOfDocument` | src/handler/storage.c:106-188 | Walk and open together are the PUT of the document's path; the walk fails exactly if the path is not reachable |
| `Storage.StoreType` | src/handler/storage.c:200-222 | Stores the content type of the document and returns its new tag |
| `Storage.Delete` | src/handler/storage.c:233-319 | Status, ETag and whole new tree of a DELETE in every case; the ETag of an answered one is the digest of the content removed |
| `Storage.RemoveEmptyParents` | src/handler/storage.c:270-309 | The climb never fails and removes exactly the ancestors that became empty, never the root |
| `Storage.ServeFileHead` | src/handler/storage.c:396-474 | 404 on the wrong kind of path, 304 exactly on the current tag, else the headers with the document's content type |
| `Storage.ServeDirectory` | src/handler/storage.c:326-394 | The body is the text of the listing: every child once, a slash after directories, each with its current tag |
| `Storage.GetOrHead` | src/handler/storage.c:530-572 | GET and HEAD in every case; the tree and the content types are untouched |
| `Storage.Get` | src/handler/storage.c:41-44 | A GET gives the answer of `Serve` |
| `Storage.Head` | src/handler/storage.c:33-39 | HEAD is refused with 405 unless experimental features are on |
| `Runs.WriteCases` | src/handler/storage.c:46-319 | For requests that name places of the tree: only a PUT or DELETE of a document answered 200 or 201 changes the tree, and what it makes of it |
| `Runs.PutStatus` | src/handler/storage.c:46-231 | The status of every PUT: folder, preconditions, a file on the way, a directory as target, created or overwritten |
| `Runs.DeleteStatuses` | src/handler/storage.c:233-319 | The status of every DELETE, and the tag answered |
| `Runs.ReadStatuses` | src/handler/storage.c:396-572 | The status of every GET and HEAD, the tag, and the body of a document |
| `Runs.PutResult` | src/handler/storage.c:62-230 | Each status of a PUT whose preconditions hold, if and only if, and every node of the new tree |
| `Runs.DeleteResult` | src/handler/storage.c:264-310 | A successful DELETE removes the document and exactly the ancestors that held nothing else |
| `Runs.StepKeepsNoEmptyDirs` | src/handler/storage.c:46-319 | Every request that names a place of the tree keeps the absence of empty directories |
| `Runs.TagsTrackChanges` | src/handler/storage.c:46-319 | Over one request a tag changes exactly if the tree does and the node is on the way to the document |
| `Runs.RunKeepsInvariants` | src/handler/storage.c:46-319 | In every run every reachable tree is well formed and has no empty directory below its root, if the first has none |
| `Runs.LearnedTag` | src/handler/storage.c:222-230 | The tag a client gets with a document or for its PUT is the digest of that content |
| `Runs.NoLostUpdate` | src/handler/storage.c:70-77 | In every interleaving, a PUT or DELETE with If-Match answered 200 acts on exactly the content whose tag the client held |
| `Runs.RefusedOnlyWhenChanged` | src/handler/storage.c:255-260 | The status of such a request in every case: 200 if the document holds the content learned, else 412, or 404 and 400 for a DELETE of nothing and of a directory, or 500 for a PUT on a directory with that tag |
| `Runs.NotModifiedIff` | src/handler/storage.c:426-433 | In every interleaving a conditional read is answered 304 exactly if the document still holds the content learned |
| `Runs.HeadMatchesGet` | src/handler/storage.c:551-571 | HEAD has no body, and status and tag of the GET except for a folder whose tag is in If-None-Match |
| `Runs.FileSurvives` | src/handler/storage.c:233-319 | A document stays until a DELETE of its own path succeeds |
| `Runs.AtMostOneCreate` | src/handler/storage.c:79-86 | Between two successful PUTs of one document with If-None-Match: * there is a successful DELETE of it |
| `Runs.GetAfterPut` | src/handler/storage.c:530-572 | A GET after a PUT returns the body put under the tag answered; GETs of other documents are unaffected |
| `Runs.DeleteUndoesPut` | src/handler/storage.c:264-310 | On a tree without empty directories a DELETE after a PUT answered 201 restores the tree |
| `Runs.PutUndoesDelete` | src/handler/storage.c:106-230 | Putting back a deleted document is answered 201 and restores the tree |
| `Runs.ListingRoundTrip` | src/handler/storage.c:343-375 | A listing parses back to names and tags exactly if no name has a control character |
| `Runs.FolderIsListed` | src/handler/storage.c:343-375 | What a client parses from a folder: one key for each child, in directory order and distinct, the name with a slash exactly for directories, with the child's current tag |
| `Runs.Handle` | src/handler/dispatch.c:65-85 | Each verb's handler gives the answer of `Serve` |
| `Runs.Run` | src/handler/dispatch.c:65-93 | A run of the handlers, with all the attributes they store, gives the answers and the final tree of the run on trees |
| `Runs.TypeAfterPut` | src/handler/storage.c:200-210 | A GET after a PUT has the normalised content type, or a guessed one if the mime type is too long |
| `PathRewriting.CutKeepsNormalForm` | src/handler/storage.c:514-518 | Deleting any occurrence of the pattern, not only the first, keeps the one-pass normal form |
| `PathRewriting.Confluence` | src/handler/storage.c:514-524 | Every order of deletions ends in the same string after the same number of steps |
| `PathRewriting.ParentCancels` | src/handler/storage.c:514-518 | "/.." cancels on every stack without it, so the first loop is confluent |
| `PathRewriting.SlashesCancel` | src/handler/storage.c:520-524 | The same for "//", which overlaps itself |
| `PathRewriting.SlashesNormalForm` | src/handler/storage.c:520-524 | Each run of n slashes becomes n mod 2 slashes |
| `PathRewriting.ParentKeepsSlashFree` | src/handler/storage.c:514-518 | The first loop creates no "//" on a path without one |
| `PathRewriting.CleanResult` | src/handler/storage.c:511-524 | For every path: the result has no "//"; it has no "/.." if and only if between the loops no odd run of slashes is followed by '.', a non-empty even run and '.'; without "//" in the path the second loop does nothing |
| `PathRewriting.RootedIff` | src/handler/storage.c:519-526 | For every path the result is empty or begins with a slash if and only if, once "/.." is deleted, the leading run of slashes is odd or all there is |
| `PathRewriting.EndsInSlashIff` | src/handler/storage.c:519-524 | For every path the result ends in a slash if and only if the trailing run is odd |
| `PathRewriting.ParentRestored` | src/handler/storage.c:511-524 | Inputs on which the second loop brings "/.." back, so the first loop's purpose is missed |
| `PathRewriting.DoubledSlashVanishes` | src/handler/storage.c:519-524 | A doubled slash is deleted altogether, not replaced by one, so the names beside it are joined |
| `PathRewriting.TokensOfJoin` | src/handler/storage.c:132-134 | Splitting a path at slashes gives back the names it was joined from |
| `PathRewriting.NamesUnchanged` | src/handler/storage.c:511-524 | A path of names is left alone exactly if no name begins with ".." |
| `PathRewriting.CutInPlace` | src/handler/storage.c:515-517 | memmove and terminator delete exactly the occurrence from the C string |
| `PathRewriting.DeleteAll` | src/handler/storage.c:514-524 | A deletion loop terminates in the pattern-free normal form of the C string |
| `PathRewriting.MakeDiskPath` | src/handler/storage.c:488-528 | The path is rewritten in place by both loops and put behind the storage root; the disk path is the root or continues it with a slash exactly if the leading run is odd or all there is |
| `DiskPaths.StaysIff` | src/handler/storage.c:132-176 | A walk from below a directory stays in it if and only if the names never climb above it |
| `DiskPaths.WalkPlain` | src/handler/storage.c:132-172 | Over names without dots the walk makes all missing directories, or stops at a file having made none |
| `DiskPaths.PutAgrees` | src/handler/storage.c:46-231 | On a path without dots the general PUT is the PUT of module Storage: same tree, status and tag |
| `DiskPaths.DeleteAgrees` | src/handler/storage.c:233-319 | The same for DELETE and its climb |
| `DiskPaths.PlainAgrees` | src/handler/storage.c:33-319 | The same for all four verbs |
| `DiskPaths.WalkWellFormed` | src/handler/storage.c:132-172 | With any dots the walk ends in the directory the names lead to, or is refused, and keeps the tree well formed |
| `DiskPaths.ServeAtChanges` | src/handler/storage.c:33-319 | With any dots a request changes nothing but places its disk path leads through or to, and keeps the tree well formed |
| `DiskPaths.WalkNames` | src/handler/storage.c:132-172 | The loop over names, dots included, computes the walk and reaches the directory they lead to |
| `DiskPaths.PutOnDisk` | src/handler/storage.c:46-231 | Status, ETag and whole new tree of a PUT on any disk path in the storage root |
| `DiskPaths.ClimbNames` | src/handler/storage.c:287-308 | The climb over any names: a "." among them is an error, ".." ends it |
| `DiskPaths.DeleteOnDisk` | src/handler/storage.c:233-319 | Status, ETag and whole new tree of a DELETE on any disk path in the storage root; the ETag of an answered one is the digest of the content removed |
| `DiskPaths.ReadOnDisk` | src/handler/storage.c:530-572 | GET and HEAD on any disk path in the storage root; the tree is untouched |
| `DiskPaths.DotStopsClimb` | src/handler/storage.c:287-308 | Inputs on which a DELETE answers 500, has removed the document and leaves an empty directory |
| `DiskPaths.ParentLeavesEmptyDir` | src/handler/storage.c:132-178 | Inputs on which a PUT leaves a directory it made empty |
| `RequestPaths.JoinOfTokens` | src/handler/storage.c:132-134 | A rooted path without "//" is the join of its names, up to a slash at the end |
| `RequestPaths.ResolveIff` | src/handler/storage.c:511-526 | Which raw request paths lead to a folder or document of the tree, if and only if, by the leading and trailing runs of slashes and the names |
| `RequestPaths.NoParentName` | src/handler/storage.c:511-524 | No name is ".." if the result is rooted and "/.." is not restored |
| `RequestPaths.NamedTargetResolves` | src/handler/storage.c:511-526 | The path of a place with ordinary names reaches the disk unchanged, leads to that place, and passes the guard of every scope |
| `RequestPaths.RewrittenBehind` | src/handler/storage.c:511-524 | Behind the path of a directory the rest of a request path is rewritten by itself |
| `RequestPaths.InRootIff` | src/handler/storage.c:511-526 | A disk path is the root or continues it, and every directory it leads through is in the root, if and only if the leading run allows it and the names never climb |
| `RequestPaths.ResolvedSpot` | src/handler/storage.c:511-526 | A raw path that leads to a place of the tree has exactly that place for its disk path |
| `RequestPaths.NamesBelow` | src/handler/storage.c:511-526 | The names of a raw path behind a directory: the directory's and those of the rest, or its last name grown longer |
| `RequestPaths.BehindIff` | src/handler/storage.c:132-176 | Behind plain names, every place is below them if and only if the other names never climb |
| `RequestPaths.BelowIff` | src/handler/storage.c:132-176 | Behind a directory, every place that a raw path leads through on disk is below the directory if and only if the rest of the path keeps its leading slash and its names never climb |
| `RequestPaths.CoveredIff` | src/handler/auth.c:17-33 | The scope is compared with the path as sent; every place its disk path leads through behind the scope's directory is below it exactly under that guard |
| `RequestPaths.CoveredInRoot` | src/handler/auth.c:17-33 | A covered path under the guard, or its second part alone, stays in the storage root |
| `RequestPaths.CoveredVisits` | src/handler/auth.c:17-33 | Under the guard a covered path leads through nothing but the way to the directory and places below it; under the second part alone, near it |
| `RequestPaths.PublicReadIff` | src/handler/auth.c:61-66 | The same for reads without authorization and the directory "public" |
| `RequestPaths.PublicReadOutside` | src/handler/auth.c:61-66 | Inputs on which that guard fails: read without authorization, and leading outside "public" |
| `RequestPaths.BesideScope` | src/handler/auth.c:22-24 | Inputs on which the first part of the guard fails: covered, and leading to a document beside the directory |
| `RequestPaths.ClimbsOut` | src/handler/auth.c:22-24 | Inputs on which only the second part fails: covered, the slash kept, and leading to a document beside the directory |
| `RequestPaths.FolderSlashLost` | src/handler/storage.c:520-526 | A folder path that ends in a doubled slash reaches the disk without any |
| `RequestPaths.CoversNames` | src/handler/auth.c:22-24 | On paths of names a scope covers a path if and only if its directory is a proper prefix of it, name by name |
| `Trie.TrieNode.constructor` | src/trie.c:27-46 | A new node is a valid trie with no entry but its value |
| `Trie.TrieNode.FindChild` | src/trie.c:68-77 | Returns the child stored under the key, null exactly if there is none |
| `Trie.TrieNode.Append` | src/trie.c:52-66 | Appends to both arrays, keeps them parallel and the contents unchanged |
| `Trie.TrieNode.Insert` | src/trie.c:79-98 | Updates the map at the key and nowhere else, reports the old value, keeps the invariant |
| `Trie.TrieNode.InsertBelow` | src/trie.c:79-98 | The same for the recursive call through one child |
| `Trie.TrieNode.SetValue` | src/trie.c:93-97 | The same at the end of the key |
| `Trie.TrieNode.Search` | src/trie.c:100-112 | Gives the map's value at the key, NULL exactly if there is none |
| `Trie.TrieNode.Iterate` | src/trie.c:129-137 | Calls back once for each key with a value, with that value, and for nothing else |
| `Trie.ListsMore` | src/trie.c:134-136 | The visits of one more child extend the listing to the keys that begin with its character |
| `Trie.VisitsSameValues` | src/trie.c:129-137 | The multiset of values visited is fixed by the map, one for each key |
| `Trie.LatestInsert` | src/trie.c:79-98 | After any list of inserts a key has the value inserted last under it |
| `Trie.NeverInserted` | src/trie.c:79-112 | A key never inserted is not found |
| `Trie.InsertAll` | src/trie.c:48-137 | A new trie after any list of inserts: search and iteration agree with the map of the list |
| `AuthCodec.Pack` | src/common/auth.c:153-198 | The buffer has the size computed first and holds the encoding; every byte is written |
| `AuthCodec.ReadString` | src/common/auth.c:200-220 | The string up to the next NUL and the offset after it, or nothing at the end of the data |
| `AuthCodec.Unpack` | src/common/auth.c:222-266 | The authorization, one of the two errors, or an overrun, for every byte string |
| `AuthCodec.ReadScopes` | src/common/auth.c:247-263 | The loop over scopes reads the decoded list and ends at its offset |
| `AuthCodec.LittleEndianRoundTrip` | src/common/auth.c:182-183 | The four bytes of the count give the count back |
| `AuthCodec.RoundTrip` | src/common/auth.c:153-266 | Unpacking what was packed gives the authorization back and reads exactly the packed size |
| `AuthCodec.EncodeInjective` | src/common/auth.c:153-198 | Different authorizations have different encodings |
| `AuthCodec.Layout` | src/common/auth.c:174-184 | Where user name, token and count stand in the bytes, each with its NUL, the count lowest byte first |
| `AuthCodec.ScopeLayout` | src/common/auth.c:185-194 | Where each scope stands behind those before it: name, NUL, flag |
| `AuthCodec.UnpackErrors` | src/common/auth.c:227-237 | No user name exactly if the data has no NUL, no token exactly if it has just one |
| `AuthStore.KeyInjective` | src/common/auth.c:83-89 | The key determines user and token if the user name has no pipe |
| `AuthStore.KeyShared` | src/common/auth.c:83-89 | Every user name with a pipe shares a key with another user |
| `AuthStore.LookupIsLatest` | src/common/auth.c:82-151 | After any history, for all user names, a lookup gives the authorization added last under the same key and not removed since |
| `AuthStore.LatestIsSurviving` | src/common/auth.c:82-151 | Without a pipe in user names, entries under the same key are entries of the same user and token |
| `AuthStore.LookupIsSurviving` | src/common/auth.c:82-151 | For user names without a pipe a lookup gives the entry added last for the user and token and not removed since |
| `AuthStore.EntriesAreSurviving` | src/common/auth.c:268-289 | Every entry of the database is a surviving authorization under its own key |
| `AuthStore.ListingIsSurviving` | src/common/auth.c:384-441 | A listing calls back exactly once with each surviving entry of the user |
| `AuthStore.CallsInOrder` | src/common/auth.c:431-438 | The callbacks come in cursor order |
| `AuthStore.AuthDb.AddAuthorization` | src/common/auth.c:268-289 | The database stays that of the history, extended by the addition |
| `AuthStore.AuthDb.RemoveAuthorization` | src/common/auth.c:82-104 | The same for a removal; reports whether there was an entry |
| `AuthStore.AuthDb.LookupAuthorization` | src/common/auth.c:107-151 | For every history and user name the entry added last under the key; for users without a pipe the surviving entry of user and token |
| `AuthStore.AuthDb.ListAuthorizations` | src/common/auth.c:431-438 | The callbacks of the cursor loop, in its order |
| `Authorize.MatchScope` | src/handler/auth.c:17-33 | 0 exactly if the scope is empty or "/" + scope + "/" is a prefix of the path, and the request reads or the scope may write |
| `Authorize.CoversIs` | src/handler/auth.c:22-24 | The comparison of bytes is that prefix test |
| `Authorize.AuthorizeRequest` | src/handler/auth.c:35-68 | For every history and user name: 0 if and only if a file under "/public/" is read, or the latest entry under the key of user and token has a scope that is empty or stands between slashes at the front of the path, and the request reads or the flag is set |
| `Authorize.TryScopes` | src/handler/auth.c:51-57 | The loop succeeds exactly if some scope covers the path and suffices for the verb |
| `Authorize.PermittedIff` | src/handler/auth.c:35-68 | The same condition over every history, in both directions |
| `Authorize.ReadOnlyScope` | src/handler/auth.c:27-30 | A read-only scope just added grants the read and refuses the write of the same path |
| `Authorize.WithoutToken` | src/handler/auth.c:61-67 | Without a token exactly reads of files under "/public/" are permitted, so folders there are not |
| `Authorize.EntryIsSurviving` | src/handler/auth.c:41-47 | For users without a pipe the entry found is the one that survives for user and token |
| `Authorize.PermittedBy` | src/handler/auth.c:35-68 | What is permitted beyond public reads is covered by the latest authorization under the request's key, which without a pipe was added for this user and token |
| `Authorize.RemovedPermitsNothing` | src/handler/auth.c:35-68 | After any history a removed token permits only public reads until something is added under its key again |
| `Dispatch.DispatchStorage` | src/handler/dispatch.c:37-94 | For every history, user name and raw path whose disk path, if a handler looks at it, stays in the storage root: status, body and new tree, with the check on the path as sent and the handler on the path rewritten; 401 and an unchanged tree exactly for what is not permitted, 204 for OPTIONS, 405 for other verbs |
| `Dispatch.ResolvedAnswer` | src/handler/dispatch.c:65-85 | For paths that lead to a place of the tree the handler's answer is that of the runs on trees |
| `Dispatch.NextTreeIs` | src/handler/dispatch.c:65-85 | Requests that cannot write leave the tree as it is; for the others the tree followed over runs is the answer's |
| `Dispatch.UserPasses` | src/handler/dispatch.c:22-35 | Exactly the existing users with an allowed uid other than the two failure values pass; 500 for failed lookups, 404 else |
| `Dispatch.ChangeIsAuthorized` | src/handler/dispatch.c:49-86 | Whatever its path holds, a request that changes an entry is a PUT or DELETE with a stored write scope that covers its path as sent, and the entry is one its disk path leads through or to |
| `Dispatch.StepSpares` | src/handler/dispatch.c:37-94 | A user with any set of write scopes changes only what disk paths of covered requests lead through or to |
| `Dispatch.StepIsConfined` | src/handler/dispatch.c:37-94 | A user with any set of write scopes changes nothing outside their directories with a request whose path passes the guard of each scope covering it |
| `Dispatch.WrittenBelowIff` | src/handler/dispatch.c:49-86 | A PUT under a scope leaves the body where its disk path leads; all places it goes through behind the directory are below it if and only if the path passes the guard |
| `Dispatch.SlashIsNeeded` | src/handler/dispatch.c:49-86 | Inputs without the first part of the guard on which a covered PUT writes outside the directory |
| `Dispatch.NotClimbingIsNeeded` | src/handler/dispatch.c:49-86 | Inputs with the first part and without the second on which it does, too |
| `Dispatch.RunSpares` | src/handler/dispatch.c:37-94 | Over every run that stays in the storage root, with any paths, nothing changes but what disk paths of covered requests lead through or to |
| `Dispatch.RunIsConfined` | src/handler/dispatch.c:37-94 | Over every run of requests with any paths that pass the guard of each write scope covering them, while authorizations come and go, nothing outside the scopes' directories changes |
| `Dispatch.RunStaysNear` | src/handler/dispatch.c:37-94 | Over every run whose covered paths pass the second part of the guard, nothing changes but the ways to the directories and entries beside them whose names begin with their names |
| `Dispatch.FoundUnderIff` | src/common/auth.c:83-89 | Without a pipe in user names, the authorizations a lookup for a user can find are the user's own |
| `Json.CharsRoundTrip` | src/common/json.c:37-57 | An escaped string parses back exactly if it has no control character |
| `Json.QuoteRoundTrip` | src/common/json.c:37-57 | The same with its quotes |
| `Json.PrintRoundTrip` | src/common/json.c:74-115 | The text of a document parses back to it exactly if its strings are clean and its arrays have at most one element |
| `JsonWriter.MakeString` | src/common/json.c:37-57 | Fills the buffer with the quoted and escaped string, within twice its length and three |
| `JsonWriter.Writer.PushNesting` | src/common/json.c:25-31 | A new flag, or nothing at the depth limit |
| `JsonWriter.Writer.WriteKey` | src/common/json.c:102-110 | A comma exactly if a key was written before at this level |
| `JsonWriter.Writer.WriteKeyVal` | src/common/json.c:112-115 | The text of the member, with that comma |
| `JsonWriter.Writer.Write` | src/common/json.c:74-115 | Calls for any document within the limit append its text and leave the nesting stack as it was |
| `JsonWriter.PrintSnoc` | src/common/json.c:102-110 | Commas written key by key are those of the finished object |
| `Webfinger.ProcessResource` | src/handler/webfinger.c:41-94 | Succeeds exactly if the resource names an account of this host whose uid is allowed |
| `Webfinger.SplitIsUnique` | src/handler/webfinger.c:64-74 | A resource names at most one account |
| `Webfinger.WriteUser` | src/handler/webfinger.c:116-134 | The calls write the user document |
| `Webfinger.WriteHost` | src/handler/webfinger.c:138-145 | The calls write the host document |
| `Webfinger.HandleWebfinger` | src/handler/webfinger.c:100-162 | Status and body of every request; the body is the text of the answer and within the depth limit |
| `Webfinger.UserFields` | src/handler/webfinger.c:116-134 | The fields of the user document, each once, with its value |
| `Webfinger.HostFields` | src/handler/webfinger.c:138-145 | The fields of the host document |
| `Webfinger.UserDepth` | src/handler/webfinger.c:108-134 | The user document reaches the depth limit exactly |
| `Webfinger.AnswerRoundTrip` | src/handler/webfinger.c:103-150 | The body parses back to the answer exactly if resource, URIs and host name are clean |
| `Webfinger.AnsweredIff` | src/handler/webfinger.c:75-79 | A resource of this host is answered unless its user exists with a uid below the smallest allowed |
| `MustacheEscape.UnescapeEscape` | auth/frontend/mustache.js:49-62 | Decoding entities in one scan gives the string back |
| `MustacheEscape.EscapeInjective` | auth/frontend/mustache.js:58-62 | Escaping is injective |
| `MustacheEscape.EscapedIsSafe` | auth/frontend/mustache.js:58-62 | No markup character in the output, and every '&' begins an entity |
| `MustacheEscape.UnchangedIff` | auth/frontend/mustache.js:58-62 | A string is unchanged exactly if it has no special character |
| `MustacheScanner.Scanner.Scan` | auth/frontend/mustache.js:81-91 | Consumes a match at the current position or nothing; the tail stays the template from the position on |
| `MustacheScanner.Scanner.ScanUntil` | auth/frontend/mustache.js:97-116 | Consumes up to the first place where the pattern matches, or everything |
| `MustacheScanner.UntilLength` | auth/frontend/mustache.js:97-116 | No match before that place, and one at it |
| `MustacheParse.NewlineDecides` | auth/frontend/mustache.js:378-389 | At a newline, a space token of the line is deleted exactly if the line has a tag and nothing that shows |
| `MustacheParse.StandaloneIs` | auth/frontend/mustache.js:378-389 | Which lines are stripped: finished, with a tag, and with no character but white space and no variable |
| `MustacheParse.Lines.StripSpace` | auth/frontend/mustache.js:378-389 | The buffer has holes exactly where white space of finished standalone lines was |
| `MustacheParse.Lines.DeleteSpaces` | auth/frontend/mustache.js:379-382 | Deletes exactly the recorded indices |
| `MustacheParse.Lines.PushChar` | auth/frontend/mustache.js:399-412 | One text token; flags and holes describe the lines read so far |
| `MustacheParse.Lines.PushTag` | auth/frontend/mustache.js:417-453 | One tag token; the same |
| `MustacheParse.ReadTag` | auth/frontend/mustache.js:419-440 | Type, value and length of a tag, and whether it is closed |
| `MustacheParse.ReadWholeTag` | auth/frontend/mustache.js:415-442 | A tag's token spans from its opening to its closing delimiter |
| `MustacheTags.TokenOfTag` | auth/frontend/mustache.js:415-442 | Which token the characters of a tag give: the kind for each of the eight marks and for none, the value, and the span |
| `MustacheTags.ValueScan` | auth/frontend/mustache.js:423-437 | The value goes on to the first occurrence of what ends it |
| `MustacheTags.TwoWords` | auth/frontend/mustache.js:454-459 | A value of two words gives the two new delimiters |
| `MustacheParse.PushTag` | auth/frontend/mustache.js:442-453 | The check of nesting: which error, exactly when, or the new stack of open sections |
| `MustacheParse.Turn` | auth/frontend/mustache.js:392-460 | One turn of the loop advances, keeps the tiling, and continues with the delimiters in force |
| `MustacheParse.ReadTokens` | auth/frontend/mustache.js:365-464 | Terminates for all delimiters with the error of the specification, or its tokens with holes exactly at the white space of standalone lines |
| `MustacheParse.LexTurn` | auth/frontend/mustache.js:392-460 | What one turn of the loop contributes: text, a tag, the end, or one of the four errors |
| `MustacheParse.LexProgress` | auth/frontend/mustache.js:392-464 | Reading on from any point keeps the tiling and the stack of open sections, and ends with none open |
| `MustacheParse.LexRead` | auth/frontend/mustache.js:365-464 | For every template read without an error: spans without gap or overlap, every section closed by a tag of the same name |
| `MustacheParse.SpansTileTemplate` | auth/frontend/mustache.js:392-442 | With a non-empty opening delimiter the source of all tokens together is the template |
| `MustacheParse.ParseTemplate` | auth/frontend/mustache.js:360-469 | Fails exactly with the errors of reading, else returns the squashed and nested tokens |
| `MustacheParse.TilesCover` | auth/frontend/mustache.js:392-442 | Consecutive tokens cover the source between them without gap or overlap |
| `MustacheParse.LexCovers` | auth/frontend/mustache.js:392-460 | With a non-empty opening delimiter, also after changes of delimiters, reading goes to the end of the template |
| `MustacheParse.StripKeepsTags` | auth/frontend/mustache.js:378-389 | Stripping deletes no tag |
| `MustacheParse.NestingSucceeds` | auth/frontend/mustache.js:444-463 | What was read without an error always nests |
| `MustacheParse.SectionSpan` | auth/frontend/mustache.js:295-321 | A section's two offsets delimit exactly the source between its opening tag and the matching closing tag, which has the same name |
| `MustacheTokens.SquashTokens` | auth/frontend/mustache.js:327-345 | The loop with its extended last token computes the squashed list |
| `MustacheTokens.SquashedHasNoAdjacentText` | auth/frontend/mustache.js:327-345 | No two adjacent text tokens remain |
| `MustacheTokens.SquashKeepsContent` | auth/frontend/mustache.js:327-345 | All text and all other tokens are kept in order |
| `MustacheTokens.SquashTiles` | auth/frontend/mustache.js:327-345 | Without holes the spans of squashed tokens still adjoin, from the same beginning to the same end |
| `MustacheTokens.NestTokens` | auth/frontend/mustache.js:295-321 | The loop with its collector builds the tree, or fails at a closing tag without a section |
| `MustacheTokens.NestIffBalanced` | auth/frontend/mustache.js:295-321 | Nesting succeeds exactly on balanced tokens |
| `MustacheTokens.FlattenNest` | auth/frontend/mustache.js:295-321 | The tree read in order gives the tokens back: nothing is lost or reordered |
| `MustacheTokens.SectionIsPair` | auth/frontend/mustache.js:308-313 | Every section of the tree is a pair of an opening and a closing tag |
| `MustacheTokens.PairMatches` | auth/frontend/mustache.js:308-313 | The two tags of a pair match by bracket depth |
| `MustacheTokens.SquashedSectionPair` | auth/frontend/mustache.js:295-345 | Stripping and squashing change no section |
| `MustacheTokens.SquashedBalance` | auth/frontend/mustache.js:295-345 | The squashed tokens nest exactly if the tokens read are balanced |
| `MustacheRender.RenderTokens` | auth/frontend/mustache.js:227-286 | The loop over the buffer computes the rendering of the tree |
| `MustacheRender.RenderToken` | auth/frontend/mustache.js:231-283 | The same for one token: arrays element by element, objects, truthy and falsy values |
| `MustacheRender.RenderAppend` | auth/frontend/mustache.js:227-286 | A list of tokens renders to the texts of its parts in order |
| `MustacheRender.TextRenders` | auth/frontend/mustache.js:268-283 | Text shows as it is; comments, new delimiters and closing tags show nothing |
| `MustacheRender.NameRenders` | auth/frontend/mustache.js:276-279 | A variable shows no markup character, and unescaping gives its value back; null shows nothing |
| `MustacheRender.UnescapedRenders` | auth/frontend/mustache.js:272-275 | An unescaped variable shows its value as it is |
| `MustacheRender.SectionOverList` | auth/frontend/mustache.js:240-243 | A section over a list shows its children once for each element, in order, with the element as the view |
| `MustacheRender.SectionOverValue` | auth/frontend/mustache.js:244-256 | Over an object once with it as the view, over anything else once exactly if it is true |
| `MustacheRender.InvertedRenders` | auth/frontend/mustache.js:258-267 | An inverted section shows its children exactly if the value is null, false or an empty list |
| `MustacheRender.AlikeStep` | auth/frontend/mustache.js:295-321 | Nesting states that render alike stay so under every token |
| `MustacheRender.SquashSimulates` | auth/frontend/mustache.js:295-345 | Nesting squashed tokens runs alongside nesting the tokens without holes |
| `MustacheRender.SquashPreservesMeaning` | auth/frontend/mustache.js:227-345 | Squashing changes neither whether nesting succeeds nor what the tree renders to in any context |
| `Mustache.PlainTemplate` | auth/frontend/mustache.js:227-469 | A template without an opening delimiter parses without an error and renders as itself in every context |
| `Mustache.ShowTemplate` | auth/frontend/mustache.js:227-469 | Parsing and rendering together compute what a template shows |
| `Mustache.VariableInText` | auth/frontend/mustache.js:227-469 | A template with one variable, over any lines: the text, the value by its mark, the text; nothing is stripped |
| `Mustache.SectionInText` | auth/frontend/mustache.js:227-469 | A template of one line with one section: the text, the body as often as mark and value say, the text |
| `Mustache.SectionInLines` | auth/frontend/mustache.js:227-469 | The same over any lines, with what stripping leaves of the three texts |

## Left out

- The HTTP and event library, sockets, TLS, signals, forking, logging and option parsing: plumbing around the modelled handlers.
- Berkeley DB: a map from byte strings to byte strings whose cursor visits each key once; its error codes are left out.
- Allocation failures, disk errors, partial writes, ownership changes, symbolic links and the password lookup inside PUT: assumed to succeed.
- SHA-1, hex formatting, libmagic, URL unescaping and the order of directory entries: parameters. "." and ".." are never listed.
- Exact buffer sizes at src/trie.c:58-64 and src/common/attributes.c:38: the model has a cell for each terminator.
- The file system outside one user's storage root: requests whose disk path leaves it (`RequestPaths.InRootIff` says which) are followed up to their disk path, not on the disk.
- Put: requires a content type with some character other than ';' (`HasMime`); on others strlen is called on a null pointer.
- DispatchStorage: requires that a request which reaches a storage handler stays in the storage root (`RequestPaths.InRootIff`), and that a folder to be listed has kept its slash (`PathRewriting.EndsInSlashIff`).
- StepIsConfined: speaks of scopes whose names are not "." and do not begin with ".."; behind others the rewriting may change the names of the scope itself.
- GetEtag: assumes that stored tag attributes are 40 characters long, as the server writes them; shorter ones could only come from outside.
- LookupAuthorization: assumes a database filled by this program, as the source does not check the result of unpacking.
- Write: covers documents of nesting depth at most 4; beyond that the writer logs a bug and goes on.
- ServeDirectory: does not model the Content-Length header, nor headers of refused responses.
- The JSON parser leaves out white space, numbers, literals and \u escapes, which the writer never produces.
- Arrays of two or more elements: the writer puts no comma between elements, so their text does not parse back (`Json.PrintRoundTrip` says exactly that).
- Partials, functions as values, context lookup and its cache, delimiters given as one string, and the texts and positions of error messages of the template engine.
- squashTokens and nestTokens change tokens in place in JavaScript; `SquashTokens` and `NestTokens` work on values, so aliasing between the token array and the tree is not captured.
- Patterns are literal delimiters with optional white space, not general regular expressions.
- destroy_trie (freeing memory) and print_authorization with print_authorizations (output on the terminal).
- auth/backend, auth/bindings, session.js, ui.js, oauthstate.js and the command-line tools: thin wrappers and user interface.
- The attribute store in Berkeley DB (`set_meta_attr`, `get_meta_attr`): it has no implementation in the repository.
