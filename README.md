# Content-addressed file store of the event service

This project models the file store behind the event service's upload
endpoint. An uploaded file is stored under a path derived from its SHA-256
digest. Two three-character shards of the hex digest become nested
directories under the data root. The file itself is named after the rest of
the digest plus the original filename's extension. The handler gets back the
relative path and the original filename.

Modules:

- `Strings` (strings.dfy): `strings.Split` on one separator character, and
  the join that `path.Join` performs on clean segments.
- `Hex` (hex.dfy): bytes, 32-byte digests, and `hex.EncodeToString`
  (lower case, two characters per byte, high nibble first).
- `Naming` (naming.dfy): `getPathForSaving`, meaning extension extraction,
  sharding and joining.
- `Os` (os.dfy): the part of the filesystem the store touches. This is a
  tree of directories and files keyed by path-component lists, with pure
  `os.Mkdir` / `os.Create` / write effects. A `FileSystem` class holds the
  tree, and its methods are proved equal to those effects.
- `Store` (store.dfy): `initData`, `prepareSubdirs` and `saveFile`. Each is a
  method of module `Store` that takes the `FileSystem` object as a parameter
  and modifies it. Each method is proved to leave exactly
  the tree that a specification function computes from the old tree, and
  the store's properties are lemmas about those functions.

Modelling choices:

- **SHA-256 is a parameter.** `hash: seq<byte> -> Digest` is any function
  into 32-byte sequences. Every property holds for every such function.
- **Paths are lists of components.** The data root "./data" is `["data"]`.
  The working directory is `[]`, and it always exists as a directory. If no
  segment contains '/', and none is empty, "." or ".." (`Os.CleanSegment`),
  `path.Join` is list concatenation. The string path returned to the caller is turned into
  components by splitting on '/'. That split is proved to give back exactly
  the two shards and the leaf (`Store.TargetIsJoinedPath`).
- **Panics are outcomes.** `saveFile` ends in `Saved(hpath, name)` or in
  `Panicked(reason)`. The only panic modelled is a failing `os.Create`.
  That failure is determined by the filesystem state and by the leaf name:
  Linux refuses a path component longer than 255 bytes (`Os.NameMax`), and
  Go refuses a name holding a NUL byte. The leaf is 59 ASCII bytes plus the
  extension, so an extension over 196 bytes in UTF-8 makes the save panic
  (`Naming.ExtensionFits`, `Store.OverlongExtensionPanics`).
- **Errors are ignored where the code ignores them.** `os.Mkdir`'s error is
  ignored in the code, and so it is in the model. A directory that cannot be
  made shows up only later, as `os.Create` failing.
- **The data root is a parameter** of `PrepareSubdirs` and `SaveFile`.
  `InitData` takes it too; `Store.DataDir` is the configured "./data".

Two consequences of the code worth knowing:

- A filename ending in '.' gives the empty extension, so "notes." is stored
  as `…/rest.` (`Naming.ExampleExtensions`).
- Errors from `os.Mkdir` are ignored (main.go:79, 245).

## Model

| member | source | states |
|---|---|---|
| Strings.Split | main.go:267 | The split always has at least one part, and no part contains the separator, so indexing the last part is always valid |
| Strings.Join | main.go:274 | The segments joined with the separator: the first segment starts the result, is followed by the separator when more come, and the result is at least one character longer than the first segment per extra segment; JoinSplit and SplitJoin fix its value as the inverse of Split |
| Strings.JoinCountsSeparators | main.go:274 | The joined string holds at least one separator per extra segment, and exactly one per extra segment when no segment contains the separator |
| Strings.JoinSplit | main.go:267 | Putting the separator back between the parts of a split gives back the original string |
| Strings.SplitJoin | main.go:274 | Splitting a join of separator-free parts gives back exactly those parts |
| Strings.JoinThree | main.go:274 | Joining three segments gives `a/b/c`, and when the segments are free of '/', splitting it gives the three segments back |
| Strings.SplitSepFree | main.go:267 | A string without the separator splits into just itself |
| Strings.LastOfSplitCons | main.go:267-268 | Adding one character in front changes the last part only when neither it nor the rest holds a separator; then the last part is the whole string |
| Strings.LastPartSuffix | main.go:267-268 | The last part of a split ends the string and is either the whole string or directly preceded by the separator |
| Strings.LastPart | main.go:267-268 | The last part is the longest separator-free suffix: a suffix, separator-free, the whole string exactly when it has no separator, otherwise preceded by the separator |
| Hex.Digit | main.go:265 | Every nibble is written as a character of the lower-case hex alphabet |
| Hex.Value | main.go:265 | Reading a hex character gives a nibble that is written back as that same character |
| Hex.Encode | main.go:265 | The encoding has two characters per byte, all lower-case hex, so a 32-byte digest gives the 64 characters the slicing needs |
| Hex.Decode | main.go:265 | Not called by the program: the inverse of Encode, kept to prove Encode round-trips and is one-to-one; an even-length hex string decodes to half as many bytes |
| Hex.EncodeAt | main.go:265 | Characters 2i and 2i+1 of the encoding are the high and low nibble of byte i |
| Hex.DecodeEncode | main.go:265 | Decoding the encoding of any bytes gives the bytes back |
| Hex.EncodeDecode | main.go:265 | Encoding the decoding of any lower-case hex string gives the string back |
| Hex.EncodeInjective | main.go:265 | Two byte strings have the same encoding exactly when they are equal |
| Naming.Extension | main.go:267-268 | The extension ends the filename and has no '.'; it is the whole filename exactly when the name has no '.'; otherwise the character before it is '.' |
| Naming.ExtensionAfterLastDot | main.go:267-268 | Whatever comes before the last '.', the dot-free text after it is the extension |
| Naming.ExampleExtensions | main.go:267-268 | "file.jpg" gives "jpg", "archive.tar.gz" gives "gz", and "notes." gives the empty extension |
| Naming.ExampleExtensionless | main.go:267-268 | "archive", which has no dot, gives "archive" as its extension |
| Naming.Leaf | main.go:272 | The leaf is the 58 characters after the shards, a '.', then the extension; it holds no '/' when neither the digest nor the extension does |
| Naming.LeafValidName | main.go:272 | For a hex digest, the leaf is a valid name (at most 255 bytes, no NUL) exactly when the extension is at most 196 bytes and holds no NUL (`ExtensionFits`) |
| Naming.ExampleOverlongName | main.go:267-272 | A dot-free filename of 200 characters is its own extension, and it does not fit |
| Naming.Shard | main.go:270-274 | Two 3-character shards that together are the first six characters of the string; the path is `fst/sec/leaf` |
| Naming.PathForSaving | main.go:252-275 | getPathForSaving: two shards that spell the first six hex characters of the content's digest, and the path `fst/sec/rest.ext` with the rest of the digest and the filename's extension |
| Naming.ShardsAreClean | main.go:270-271 | The shard names are clean path elements: non-empty, without '/', neither "." nor ".." |
| Naming.ShardShape | main.go:270-274 | For a 64-character string: two 3-character shards that, followed by the remaining 58 characters, spell the string; the path is `fst/sec/rest.ext`; the subdirs are exactly `[fst, sec]`; the path splits into them plus the leaf |
| Naming.PathShape | main.go:260-274 | The derived path: the digest's hex is 64 lower-case hex characters; shards of length 3, rest of length 58, concatenating to the digest; the path is `fst/sec/rest.ext`; the extension holds neither '/' nor '.' |
| Naming.ShardInjective | main.go:270-274 | Two sharded placements are equal exactly when the strings and extensions they came from are equal |
| Naming.PlacementDeterminedByDigestAndExtension | main.go:260-274 | Two uploads get the same path and subdirs exactly when their contents have the same digest and their filenames the same extension |
| Os.MkdirOn | main.go:79 | Mkdir succeeds exactly when the path was absent and its parent is a directory, and then adds just that empty directory; otherwise nothing changes; the tree stays well formed |
| Os.CreateOn | main.go:225-228 | Create succeeds exactly when the last component is a valid name (at most 255 UTF-8 bytes, no NUL), the parent is a directory and the path is not one. A successful Create leaves an empty file at the path, where before there was nothing or a file; a failed one changes nothing; no other entry changes; the tree stays well formed |
| Os.WriteOn | main.go:231 | Writing appends the bytes to the open file and changes no other entry |
| Os.FileSystem.Stat | main.go:78 | Stat reports presence exactly for existing paths |
| Os.FileSystem.Mkdir | main.go:79 | The method leaves the tree and result that MkdirOn computes from the old tree |
| Os.FileSystem.Create | main.go:225 | The method leaves the tree and result that CreateOn computes from the old tree |
| Os.FileSystem.Write | main.go:231 | The method leaves the tree that WriteOn computes from the old tree |
| Store.EnsureDir | main.go:244-245 | Stat-then-mkdir never changes an existing entry; it adds at most the path itself, as a directory; it changes the tree exactly when the path was absent under a directory parent, and then adds exactly that directory |
| Store.EnsureDirs | main.go:242-247 | The directory walk never alters or removes an existing entry; everything it adds is a directory on the chain root/s0, root/s0/s1, …; the tree stays well formed |
| Store.EnsureDirsReaches | main.go:242-247 | In a well-formed tree, after the walk, root/s0/…/sn is a directory exactly when root was one and no file blocks the chain |
| Store.EnsureDirsIdempotent | main.go:242-247 | A second walk over the same subdirectories leaves the tree unchanged |
| Store.EnsureDirsFrame | main.go:242-247 | An entry deeper than the whole chain does not affect the walk and is carried through unchanged |
| Store.CreateAndCopy | main.go:225-233 | Create-then-copy succeeds exactly when the target's name is valid, the parent is a directory and the target is not; the target then holds exactly the content, whatever it held before, and nothing else changes; on failure nothing changes |
| Store.CreateAndCopyAgain | main.go:225-233 | Copying the same content into a file just written changes nothing |
| Store.PreparedAfterWrite | main.go:214-231 | A file written below the chain leaves the prepared directories prepared |
| Store.SaveAt | main.go:214-235 | Saving at a placement keeps the tree well formed |
| Store.SaveOn | main.go:210-236 | saveFile keeps the tree well formed |
| Store.SaveAtTwice | main.go:214-235 | After one successful save at a sharded placement, saving there again gives the same outcome and the same tree |
| Store.Target | main.go:216 | `full_hpath`: root followed by three more components; its parent is root plus the two shards, and its last component is the leaf |
| Store.LeafNameFits | main.go:216-228 | The target's last component is a name `os.Create` accepts exactly when the filename's extension fits |
| Store.OverlongExtensionPanics | main.go:225-228 | An upload whose extension does not fit makes saveFile panic at `os.Create`, whatever the tree |
| Store.TargetIsJoinedPath | main.go:216 | The joined path `root/hpath` has the components root, the two shards, and the leaf; its parent is root plus the shards |
| Store.SaveSucceedsIff | main.go:212-228 | In a well-formed tree, saveFile returns normally exactly when the extension fits, the data root is a directory, no file blocks the shard directories, and no directory occupies the target |
| Store.SaveEffect | main.go:210-236 | A successful save returns (hpath, filename); the target holds exactly the uploaded bytes; every other existing entry is unchanged; the only new entries are the target and shard directories. A failed save only made shard directories |
| Store.SaveOnSteps | main.go:212-235 | saveFile succeeds exactly when the extension fits and the prepared tree allows the create, and a success is the prepared tree with the target holding the content |
| Store.SavedTreeIsPrepared | main.go:214-235 | After a successful save, preparing the subdirectories again changes nothing, the target's parent is a directory, and the target holds the content |
| Store.SaveTwiceSame | main.go:210-236 | Saving the same upload again after a successful save returns the same outcome and leaves the same tree |
| Store.SaveRenamed | main.go:210-236 | Uploads with the same content and the same extension give the same tree, and the same outcome up to the returned name |
| Store.SaveAgainUnchanged | main.go:210-236 | Re-uploading identical content under any filename with the same extension returns the same path and the new filename, and leaves the filesystem as the first save left it |
| Store.LayoutPreserved | main.go:214-235 | A change that keeps other entries, adds only chain directories and leaves a file three levels down keeps the store's layout |
| Store.LayoutChainClear | main.go:242-247 | In a laid-out data root, no file blocks a two-level shard chain |
| Store.LayoutSaveSucceeds | main.go:212-228 | In a laid-out data root, every save whose extension fits succeeds |
| Store.SaveKeepsLayout | main.go:210-236 | In a data root that holds only shard directories and stored files, every save whose extension fits succeeds and the layout is kept |
| Store.NoOrphans | main.go:242-247 | In a well-formed tree, every ancestor of an entry exists |
| Store.InitDataLaysOut | main.go:75-81 | A data root that initData had to create is laid out as the store expects: nothing lies beneath it |
| Store.InitDataIdempotent | main.go:75-81 | A second initData is a no-op, and afterwards the data root is a directory unless a file already had its name |
| Store.InitData | main.go:75-81 | The method leaves the tree EnsureDir computes: the root is created only if absent, and nothing else changes |
| Store.PrepareSubdirs | main.go:238-250 | For clean subdirectory names, the loop returns root/fst/sec and leaves the tree the EnsureDirs walk computes from the old tree, visiting root/fst before root/fst/sec |
| Store.SaveFile | main.go:210-236 | The method returns the outcome and leaves the tree that SaveOn computes from the old tree |

## Left out

- HTTP handlers, routing and the echo framework (main.go:47-73, 94-208): glue
  around the store, with no logic of their own.
- gorm persistence and the `Event`/`File` records (main.go:21-33, 83-92):
  foreign ORM code whose behaviour cannot be seen.
- The rice static asset server (main.go:60-63): a foreign library.
- main_test.go is not part of this model. Its tests check HTTP status codes
  and JSON bodies; none of them checks a path the store derives or the bytes
  it writes.
- The internals of SHA-256: the digest is an arbitrary function parameter
  into 32-byte sequences.
- Opening the multipart stream, and read or copy failures (main.go:218-221,
  231-233, 254-263): these are I/O errors that depend on the transport, not
  on the filesystem state. The copy is modelled as always writing the whole
  content, and the "fail reading file" / "Save file failed" panics are not
  modelled.
- `defer file.Close()` and file handles: closing has no effect on the
  modelled tree.
- Concurrency, meaning the directory-creation race and the same-path write
  race: the code has no synchronisation, and the model is sequential.
- Permission bits (`0755`), symbolic links, and `os.Stat` errors other than
  "does not exist": the tree records only directories and regular files.
- Naming.PathForSaving: requires that the filename contains no '/'. With a
  '/', the extension could contain '/' and `path.Join` would clean the
  path, which is not modelled.
- Store.PrepareSubdirs: requires every subdirectory name to be a clean path
  element (`Os.CleanSegment`). `path.Join` drops empty elements and resolves
  "." and "..", and that cleaning is not modelled. The only caller passes
  the two hex shards, which are clean (`Naming.ShardsAreClean`).
- The disk present when the program starts is the tree given to the
  `Os.FileSystem` constructor; how it got there is outside the model.
- Go strings are byte strings, while here a filename is a sequence of
  characters. Splitting on '.' gives the same parts in both views, and
  `Os.ByteLength` counts the UTF-8 bytes for the name-length limit. A
  filename that is not valid UTF-8 has no counterpart here.
- Os.MkdirOn: does not model `os.Mkdir` failing on a name over 255 bytes or
  holding a NUL. The store makes directories only for the three-character
  hex shards and for the configured data root, and mkdir errors are ignored
  anyway.
- Os.CreateOn: checks only the last component's name. The 4096-byte limit
  on a whole path (PATH_MAX) is not modelled, and neither is a NUL byte in
  an earlier component. The earlier components are the data root and the
  hex shards. A tree given to the model may hold directory names a real
  disk could not hold.
- `deleteFile`'s id check (main.go:169-179): it only guards a database
  delete.
