/** The content-addressed file store: `initData`, `prepareSubdirs` and
    `saveFile`, over the filesystem of module Os.  Each operation is a
    method of this module that takes the filesystem object as a parameter
    and modifies it, proved equal to a function of the old tree; the
    properties of the store are lemmas about those functions. */
module Store {
  import Strings
  import Hex
  import Naming
  import Os

  /** `conf.Data_dir` as set at startup, "./data": the directory `data` of
      the working directory. */
  const DataDir: Os.Path := ["data"]

  /** What `saveFile` ends in: the relative path and display name it
      returns, or the panic that aborts the request. */
  datatype Outcome = Saved(hpath: string, name: string) | Panicked(reason: string)

  /** `q` is one of dir/s[0], dir/s[0]/s[1], ..., dir/s[0]/.../s[|s|-1]. */
  predicate OnChain(q: Os.Path, dir: Os.Path, s: seq<string>) {
    |dir| < |q| <= |dir| + |s| && q == dir + s[..|q| - |dir|]
  }

  lemma ChainStep(dir: Os.Path, s: seq<string>)
    requires |s| > 0
    ensures OnChain(dir + [s[0]], dir, s)
    ensures forall q :: OnChain(q, dir + [s[0]], s[1..]) ==> OnChain(q, dir, s)
  {
    assert s[..1] == [s[0]];
    forall q | OnChain(q, dir + [s[0]], s[1..])
      ensures OnChain(q, dir, s)
    {
      var k := |q| - |dir| - 1;
      assert s[1..][..k] == s[1..k + 1];
      assert [s[0]] + s[1..k + 1] == s[..k + 1];
    }
  }

  /** One step of `prepareSubdirs` and all of `initData`: stat the path and
      mkdir it when it does not exist, ignoring a failing mkdir.  Nothing
      that existed changes; at most `p` is added, as a directory; and it is
      added exactly when it was absent and its parent is a directory. */
  function EnsureDir(t: Os.Tree, p: Os.Path): (r: Os.Tree)
    ensures Os.WellFormed(t) ==> Os.WellFormed(r)
    ensures forall q :: q in t ==> q in r && r[q] == t[q]
    ensures forall q :: q in r && q !in t ==> q == p && r[q] == Os.Dir
    ensures Os.Exists(t, p) ==> r == t
    ensures !Os.Exists(t, p) && Os.IsDir(t, Os.Parent(p)) ==> r == t[p := Os.Dir]
    ensures r != t ==> !Os.Exists(t, p) && Os.IsDir(t, Os.Parent(p))
  {
    if Os.Exists(t, p) then t else Os.MkdirOn(t, p).1
  }

  /** The loop of `prepareSubdirs`: extend the running path by each subdir
      in turn and ensure it exists.  Nothing that existed changes, and all
      that is added are directories on the chain dir/s[0]/s[1]/... */
  function EnsureDirs(t: Os.Tree, dir: Os.Path, subdirs: seq<string>): (r: Os.Tree)
    ensures Os.WellFormed(t) ==> Os.WellFormed(r)
    ensures forall q :: q in t ==> q in r && r[q] == t[q]
    ensures forall q :: q in r && q !in t ==> OnChain(q, dir, subdirs) && r[q] == Os.Dir
    decreases |subdirs|
  {
    if subdirs == [] then t
    else
      ChainStep(dir, subdirs);
      EnsureDirs(EnsureDir(t, dir + [subdirs[0]]), dir + [subdirs[0]], subdirs[1..])
  }

  /** No file sits on the chain dir/s[0], dir/s[0]/s[1], ...: each of those
      paths is absent or a directory. */
  predicate NoFileOnChain(t: Os.Tree, dir: Os.Path, s: seq<string>)
    decreases |s|
  {
    s == [] ||
    (var p := dir + [s[0]];
     (p in t ==> t[p].Dir?) && NoFileOnChain(t, p, s[1..]))
  }

  /** The chain check only looks at paths longer than `dir`. */
  lemma {:induction false} NoFileOnChainFrame(t: Os.Tree, dir: Os.Path, s: seq<string>, q: Os.Path, v: Os.Entry)
    requires |q| <= |dir|
    ensures NoFileOnChain(t[q := v], dir, s) == NoFileOnChain(t, dir, s)
    decreases |s|
  {
    if s != [] {
      NoFileOnChainFrame(t, dir + [s[0]], s[1..], q, v);
    }
  }

  /** In a well-formed tree, preparing the subdirectories leaves dir/s a
      directory exactly when dir is one and no file blocks the chain. */
  lemma {:induction false} EnsureDirsReaches(t: Os.Tree, dir: Os.Path, s: seq<string>)
    requires Os.WellFormed(t)
    ensures Os.IsDir(EnsureDirs(t, dir, s), dir + s) <==> Os.IsDir(t, dir) && NoFileOnChain(t, dir, s)
    decreases |s|
  {
    if s == [] {
      assert dir + s == dir;
    } else {
      var p := dir + [s[0]];
      var t1 := EnsureDir(t, p);
      assert Os.Parent(p) == dir;
      assert dir + s == p + s[1..];
      EnsureDirsReaches(t1, p, s[1..]);
      if p !in t {
        NoFileOnChainFrame(t, p, s[1..], p, Os.Dir);
      }
      assert Os.IsDir(t1, p) <==> Os.IsDir(t, dir) && (p in t ==> t[p].Dir?);
    }
  }

  /** Preparing the same subdirectories twice is the same as once. */
  lemma {:induction false} EnsureDirsIdempotent(t: Os.Tree, dir: Os.Path, s: seq<string>)
    ensures EnsureDirs(EnsureDirs(t, dir, s), dir, s) == EnsureDirs(t, dir, s)
    decreases |s|
  {
    if s != [] {
      var p := dir + [s[0]];
      var t1 := EnsureDir(t, p);
      var r := EnsureDirs(t1, p, s[1..]);
      assert EnsureDirs(t, dir, s) == r;
      if p in t1 {
        assert EnsureDir(r, p) == r;
      } else {
        assert !OnChain(p, p, s[1..]) && !OnChain(dir, p, s[1..]);
        assert p !in r;
        assert dir != [] ==> (dir in r <==> dir in t1) && (dir in r ==> r[dir] == t1[dir]);
        assert EnsureDir(r, p) == r;
      }
      EnsureDirsIdempotent(t1, p, s[1..]);
    }
  }

  /** An entry deeper than the whole chain does not take part. */
  lemma {:induction false} EnsureDirsFrame(t: Os.Tree, dir: Os.Path, s: seq<string>, q: Os.Path, v: Os.Entry)
    requires |q| > |dir| + |s|
    ensures EnsureDirs(t[q := v], dir, s) == EnsureDirs(t, dir, s)[q := v]
    decreases |s|
  {
    if s != [] {
      var p := dir + [s[0]];
      EnsureDirFrame(t, p, q, v);
      EnsureDirsFrame(EnsureDir(t, p), p, s[1..], q, v);
    }
  }

  /** One step of the frame property: a deeper entry plays no part. */
  lemma EnsureDirFrame(t: Os.Tree, p: Os.Path, q: Os.Path, v: Os.Entry)
    requires |q| > |p|
    ensures EnsureDir(t[q := v], p) == EnsureDir(t, p)[q := v]
  {
    var t' := t[q := v];
    assert Os.Exists(t', p) == Os.Exists(t, p);
    if |p| > 0 {
      assert Os.IsDir(t', Os.Parent(p)) == Os.IsDir(t, Os.Parent(p));
      if !Os.Exists(t, p) && Os.IsDir(t, Os.Parent(p)) {
        assert t'[p := Os.Dir] == t[p := Os.Dir][q := v];
      }
    }
  }

  /** The tail of `saveFile`: `os.Create` the target, then copy the content
      into the freshly truncated file.  It succeeds exactly when the
      target's name is valid, the parent is a directory and the target is
      not, and the target then holds the content and nothing else changes;
      on failure nothing changes. */
  function CreateAndCopy(t: Os.Tree, full: Os.Path, content: seq<Hex.byte>): (r: (bool, Os.Tree))
    requires |full| > 0
    ensures Os.WellFormed(t) ==> Os.WellFormed(r.1)
    ensures r.0 <==> Os.ValidName(full[|full| - 1]) && Os.IsDir(t, Os.Parent(full)) && !Os.IsDir(t, full)
    ensures r.1 == if r.0 then t[full := Os.File(content)] else t
  {
    var (ok, t2) := Os.CreateOn(t, full);
    assert [] + content == content;
    if ok then (true, Os.WriteOn(t2, full, content)) else (false, t2)
  }

  /** The shape of a placement that `saveFile` relies on: its path splits on
      '/' into the shard names followed by one leaf. */
  predicate Sharded(placement: Naming.Placement) {
    var parts := Strings.Split(placement.hpath, '/');
    |parts| == |placement.subdirs| + 1 && parts[..|placement.subdirs|] == placement.subdirs
  }

  /** The body of `saveFile` once the placement is known: prepare the shard
      directories, create or truncate `root/hpath` and copy the content into
      it, and return the path and the filename; a failing create panics. */
  function SaveAt(t: Os.Tree, root: Os.Path, placement: Naming.Placement, u: Naming.Upload): (r: (Outcome, Os.Tree))
    ensures Os.WellFormed(t) ==> Os.WellFormed(r.1)
  {
    var t1 := EnsureDirs(t, root, placement.subdirs);
    var full := root + Strings.Split(placement.hpath, '/');
    var (ok, t2) := CreateAndCopy(t1, full, u.content);
    (if ok then Saved(placement.hpath, u.filename) else Panicked("Open file for saving failed"), t2)
  }

  /** The function `saveFile` computes: derive the placement, then save at
      it. */
  function SaveOn(t: Os.Tree, root: Os.Path, u: Naming.Upload, hash: seq<Hex.byte> -> Hex.Digest): (r: (Outcome, Os.Tree))
    requires '/' !in u.filename
    ensures Os.WellFormed(t) ==> Os.WellFormed(r.1)
  {
    SaveAt(t, root, Naming.PathForSaving(u, hash), u)
  }

  /** Saving a second time at a sharded placement, after a first save there
      succeeded, gives the same outcome and changes nothing more: the shard
      directories exist and the target is rewritten with the same bytes. */
  lemma SaveAtTwice(t: Os.Tree, root: Os.Path, placement: Naming.Placement, u: Naming.Upload)
    requires Sharded(placement)
    requires SaveAt(t, root, placement, u).0.Saved?
    ensures SaveAt(SaveAt(t, root, placement, u).1, root, placement, u) == SaveAt(t, root, placement, u)
  {
    var s := placement.subdirs;
    var full := root + Strings.Split(placement.hpath, '/');
    assert |full| > |root| + |s| by {
      assert |full| == |root| + |s| + 1;
    }
    var t1 := EnsureDirs(t, root, s);
    assert Os.IsDir(t1, Os.Parent(full)) by {
      assert Os.Parent(full) == root + s;
    }
    PreparedAfterWrite(t, root, s, full, Os.File(u.content));
    CreateAndCopyAgain(t1, full, u.content);
  }

  /** Copying the same content into a file just written is a no-op. */
  lemma CreateAndCopyAgain(t: Os.Tree, full: Os.Path, content: seq<Hex.byte>)
    requires |full| > 0 && Os.IsDir(t, Os.Parent(full))
    requires CreateAndCopy(t, full, content).0
    ensures CreateAndCopy(CreateAndCopy(t, full, content).1, full, content) == CreateAndCopy(t, full, content)
  {
    var r := t[full := Os.File(content)];
    assert Os.Parent(full) != full;
    assert r[full := Os.File(content)] == r;
  }

  /** A file written below the chain leaves the prepared tree prepared. */
  lemma PreparedAfterWrite(t: Os.Tree, root: Os.Path, s: seq<string>, full: Os.Path, v: Os.Entry)
    requires |full| > |root| + |s|
    ensures EnsureDirs(EnsureDirs(t, root, s)[full := v], root, s) == EnsureDirs(t, root, s)[full := v]
  {
    EnsureDirsFrame(EnsureDirs(t, root, s), root, s, full, v);
    EnsureDirsIdempotent(t, root, s);
  }

  /** Where `saveFile` writes: the data root, then the two shards, then the
      leaf `rest.ext`. */
  function Target(root: Os.Path, u: Naming.Upload, hash: seq<Hex.byte> -> Hex.Digest): (full: Os.Path)
    requires '/' !in u.filename
    ensures |full| == |root| + 3 && full[..|root|] == root
    ensures Os.Parent(full) == root + Naming.PathForSaving(u, hash).subdirs
    ensures full[|full| - 1] == Naming.Leaf(Hex.Encode(hash(u.content)), Naming.Extension(u.filename))
  {
    var h := Hex.Encode(hash(u.content));
    root + Naming.PathForSaving(u, hash).subdirs + [Naming.Leaf(h, Naming.Extension(u.filename))]
  }

  lemma TargetIsJoinedPath(root: Os.Path, u: Naming.Upload, hash: seq<Hex.byte> -> Hex.Digest)
    requires '/' !in u.filename
    ensures root + Strings.Split(Naming.PathForSaving(u, hash).hpath, '/') == Target(root, u, hash)
    ensures |Target(root, u, hash)| == |root| + 3
    ensures Os.Parent(Target(root, u, hash)) == root + Naming.PathForSaving(u, hash).subdirs
  {
    Naming.PathShape(u, hash);
  }

  /** `saveFile` in a well-formed tree returns normally exactly when the
      extension leaves the leaf a valid name, the data root is a directory,
      no file blocks the two shard directories, and no directory occupies
      the target path. */
  lemma SaveSucceedsIff(t: Os.Tree, root: Os.Path, u: Naming.Upload, hash: seq<Hex.byte> -> Hex.Digest)
    requires Os.WellFormed(t) && '/' !in u.filename
    ensures SaveOn(t, root, u, hash).0.Saved? <==>
              && Naming.ExtensionFits(u.filename)
              && Os.IsDir(t, root)
              && NoFileOnChain(t, root, Naming.PathForSaving(u, hash).subdirs)
              && !Os.IsDir(t, Target(root, u, hash))
  {
    var placement := Naming.PathForSaving(u, hash);
    var full := Target(root, u, hash);
    TargetIsJoinedPath(root, u, hash);
    Naming.PathShape(u, hash);
    LeafNameFits(root, u, hash);
    var t1 := EnsureDirs(t, root, placement.subdirs);
    EnsureDirsReaches(t, root, placement.subdirs);
    assert !OnChain(full, root, placement.subdirs);
    assert Os.IsDir(t1, full) <==> Os.IsDir(t, full);
  }

  /** The target's last component is a valid name exactly when the
      filename's extension fits. */
  lemma LeafNameFits(root: Os.Path, u: Naming.Upload, hash: seq<Hex.byte> -> Hex.Digest)
    requires '/' !in u.filename
    ensures var full := Target(root, u, hash);
            Os.ValidName(full[|full| - 1]) <==> Naming.ExtensionFits(u.filename)
  {
    Naming.PathShape(u, hash);
    Naming.LeafValidName(Hex.Encode(hash(u.content)), u.filename);
  }

  /** After a successful save the target holds exactly the uploaded bytes,
      whatever was there before; every other existing entry is unchanged;
      the only new entries are the shard directories and the target; and the
      call returns the relative path and the client's filename.  A failed
      save writes no file: at most shard directories were created. */
  lemma SaveEffect(t: Os.Tree, root: Os.Path, u: Naming.Upload, hash: seq<Hex.byte> -> Hex.Digest)
    requires '/' !in u.filename
    ensures var (out, r) := SaveOn(t, root, u, hash);
            var placement := Naming.PathForSaving(u, hash);
            var full := Target(root, u, hash);
            && (out.Saved? ==>
                  && out == Saved(placement.hpath, u.filename)
                  && full in r && r[full] == Os.File(u.content)
                  && (forall q :: q in t && q != full ==> q in r && r[q] == t[q])
                  && (forall q :: q in r && q !in t ==> q == full || (OnChain(q, root, placement.subdirs) && r[q] == Os.Dir)))
            && (out.Panicked? ==> r == EnsureDirs(t, root, placement.subdirs))
  {
    TargetIsJoinedPath(root, u, hash);
  }

  /** `saveFile` as one step: the outcome depends on whether the extension
      fits and the prepared tree lets the target be created, and a success
      is the prepared tree with the target holding the content. */
  lemma SaveOnSteps(t: Os.Tree, root: Os.Path, u: Naming.Upload, hash: seq<Hex.byte> -> Hex.Digest)
    requires '/' !in u.filename
    ensures var placement := Naming.PathForSaving(u, hash);
            var t1 := EnsureDirs(t, root, placement.subdirs);
            var full := Target(root, u, hash);
            var (out, r) := SaveOn(t, root, u, hash);
            && (out.Saved? <==> Naming.ExtensionFits(u.filename) && Os.IsDir(t1, Os.Parent(full)) && !Os.IsDir(t1, full))
            && (out.Saved? ==> out == Saved(placement.hpath, u.filename) && r == t1[full := Os.File(u.content)])
            && (out.Panicked? ==> r == t1)
  {
    TargetIsJoinedPath(root, u, hash);
    LeafNameFits(root, u, hash);
  }

  /** An upload whose extension does not fit makes `saveFile` panic, at
      `os.Create`, whatever the tree. */
  lemma OverlongExtensionPanics(t: Os.Tree, root: Os.Path, u: Naming.Upload, hash: seq<Hex.byte> -> Hex.Digest)
    requires '/' !in u.filename && !Naming.ExtensionFits(u.filename)
    ensures SaveOn(t, root, u, hash).0 == Panicked("Open file for saving failed")
  {
    SaveOnSteps(t, root, u, hash);
  }

  /** The tree a successful save leaves is already prepared for the same
      placement: preparing again changes nothing, the target's parent is a
      directory and the target a file. */
  lemma SavedTreeIsPrepared(t: Os.Tree, root: Os.Path, u: Naming.Upload, hash: seq<Hex.byte> -> Hex.Digest)
    requires '/' !in u.filename
    requires SaveOn(t, root, u, hash).0.Saved?
    ensures var r := SaveOn(t, root, u, hash).1;
            var full := Target(root, u, hash);
            && EnsureDirs(r, root, Naming.PathForSaving(u, hash).subdirs) == r
            && Os.IsDir(r, Os.Parent(full))
            && full in r && r[full] == Os.File(u.content)
  {
    var placement := Naming.PathForSaving(u, hash);
    var full := Target(root, u, hash);
    TargetIsJoinedPath(root, u, hash);
    var t1 := EnsureDirs(t, root, placement.subdirs);
    SaveOnSteps(t, root, u, hash);
    var r := SaveOn(t, root, u, hash).1;
    assert r == t1[full := Os.File(u.content)];
    EnsureDirsFrame(t1, root, placement.subdirs, full, Os.File(u.content));
    EnsureDirsIdempotent(t, root, placement.subdirs);
    assert Os.Parent(full) != full;
  }

  /** Saving the same upload a second time returns the same outcome and
      leaves the tree as the first save left it. */
  lemma SaveTwiceSame(t: Os.Tree, root: Os.Path, u: Naming.Upload, hash: seq<Hex.byte> -> Hex.Digest)
    requires '/' !in u.filename
    requires SaveOn(t, root, u, hash).0.Saved?
    ensures SaveOn(SaveOn(t, root, u, hash).1, root, u, hash) == SaveOn(t, root, u, hash)
  {
    Naming.PathShape(u, hash);
    var placement := Naming.PathForSaving(u, hash);
    assert Strings.Split(placement.hpath, '/')[..2] == placement.subdirs;
    SaveAtTwice(t, root, placement, u);
  }

  /** Only the content and the extension of the filename matter: another
      name with the same extension yields the same tree, and the same
      outcome up to the name returned. */
  lemma SaveRenamed(t: Os.Tree, root: Os.Path, u1: Naming.Upload, u2: Naming.Upload, hash: seq<Hex.byte> -> Hex.Digest)
    requires '/' !in u1.filename && '/' !in u2.filename
    requires u1.content == u2.content && Naming.Extension(u1.filename) == Naming.Extension(u2.filename)
    ensures SaveOn(t, root, u2, hash).1 == SaveOn(t, root, u1, hash).1
    ensures SaveOn(t, root, u2, hash).0 ==
              match SaveOn(t, root, u1, hash).0
              case Saved(hpath, _) => Saved(hpath, u2.filename)
              case Panicked(reason) => Panicked(reason)
  {
    assert Naming.PathForSaving(u2, hash) == Naming.PathForSaving(u1, hash);
  }

  /** Saving the same content again under a name with the same
      extension returns the same path and leaves the tree as the first save
      left it: the file is overwritten with identical bytes. */
  lemma SaveAgainUnchanged(t: Os.Tree, root: Os.Path, u1: Naming.Upload, u2: Naming.Upload, hash: seq<Hex.byte> -> Hex.Digest)
    requires '/' !in u1.filename && '/' !in u2.filename
    requires u1.content == u2.content && Naming.Extension(u1.filename) == Naming.Extension(u2.filename)
    requires SaveOn(t, root, u1, hash).0.Saved?
    ensures SaveOn(SaveOn(t, root, u1, hash).1, root, u2, hash) ==
              (Saved(SaveOn(t, root, u1, hash).0.hpath, u2.filename), SaveOn(t, root, u1, hash).1)
  {
    SaveTwiceSame(t, root, u1, hash);
    SaveRenamed(SaveOn(t, root, u1, hash).1, root, u1, u2, hash);
  }

  /** Entries below `root` that the store itself leaves there: directories
      one and two levels down, regular files three levels down. */
  ghost predicate StoreLayout(t: Os.Tree, root: Os.Path) {
    && Os.IsDir(t, root)
    && forall q :: q in t && |root| < |q| && q[..|root|] == root ==>
         (|q| <= |root| + 2 ==> t[q].Dir?) && (|q| == |root| + 3 ==> t[q].File?)
  }

  /** A change that keeps every other existing entry, adds only directories
      on a two-step chain below `root`, and leaves a file three levels down
      keeps the layout. */
  lemma LayoutPreserved(t: Os.Tree, r: Os.Tree, root: Os.Path, s: seq<string>, full: Os.Path)
    requires StoreLayout(t, root) && |s| == 2
    requires |full| == |root| + 3 && full[..|root|] == root && full in r && r[full].File?
    requires forall q :: q in t && q != full ==> q in r && r[q] == t[q]
    requires forall q :: q in r && q !in t ==> q == full || (OnChain(q, root, s) && r[q] == Os.Dir)
    ensures StoreLayout(r, root)
  {
    assert root != full;
    forall q | q in r && |root| < |q| && q[..|root|] == root
      ensures (|q| <= |root| + 2 ==> r[q].Dir?) && (|q| == |root| + 3 ==> r[q].File?)
    {
      if q !in t && q != full {
        assert OnChain(q, root, s);
      }
    }
  }

  /** In a data root laid out by the store, a save whose extension fits
      succeeds: the shard directories are absent or directories, and the
      target absent or a file. */
  lemma LayoutSaveSucceeds(t: Os.Tree, root: Os.Path, u: Naming.Upload, hash: seq<Hex.byte> -> Hex.Digest)
    requires Os.WellFormed(t) && StoreLayout(t, root) && '/' !in u.filename
    requires Naming.ExtensionFits(u.filename)
    ensures SaveOn(t, root, u, hash).0.Saved?
  {
    var s := Naming.PathForSaving(u, hash).subdirs;
    var full := Target(root, u, hash);
    TargetIsJoinedPath(root, u, hash);
    Naming.PathShape(u, hash);
    LayoutChainClear(t, root, s);
    assert full[..|root|] == root;
    SaveSucceedsIff(t, root, u, hash);
  }

  /** In a laid-out data root no file sits on a two-step chain below it. */
  lemma LayoutChainClear(t: Os.Tree, root: Os.Path, s: seq<string>)
    requires StoreLayout(t, root) && |s| == 2
    ensures NoFileOnChain(t, root, s)
  {
    var p1, p2 := root + [s[0]], root + [s[0]] + [s[1]];
    assert p1[..|root|] == root && p2[..|root|] == root;
    assert s[1..] == [s[1]] && s[1..][1..] == [];
  }

  /** In a data root laid out by the store, every save whose extension fits
      succeeds and keeps the layout. */
  lemma SaveKeepsLayout(t: Os.Tree, root: Os.Path, u: Naming.Upload, hash: seq<Hex.byte> -> Hex.Digest)
    requires Os.WellFormed(t) && StoreLayout(t, root) && '/' !in u.filename
    requires Naming.ExtensionFits(u.filename)
    ensures SaveOn(t, root, u, hash).0.Saved?
    ensures StoreLayout(SaveOn(t, root, u, hash).1, root)
  {
    var full := Target(root, u, hash);
    TargetIsJoinedPath(root, u, hash);
    Naming.PathShape(u, hash);
    assert full[..|root|] == root;
    LayoutSaveSucceeds(t, root, u, hash);
    SaveEffect(t, root, u, hash);
    LayoutPreserved(t, SaveOn(t, root, u, hash).1, root, Naming.PathForSaving(u, hash).subdirs, full);
  }

  /** An entry in a well-formed tree lies below existing directories only. */
  lemma {:induction false} NoOrphans(t: Os.Tree, p: Os.Path, q: Os.Path)
    requires Os.WellFormed(t) && q in t
    requires 0 < |p| <= |q| && q[..|p|] == p
    ensures p in t
    decreases |q|
  {
    if |p| < |q| {
      var parent := Os.Parent(q);
      assert parent[..|p|] == p;
      NoOrphans(t, p, parent);
    } else {
      assert q == p;
    }
  }

  /** A data root that `initData` had to create is laid out by the store:
      nothing can be below a directory that did not exist. */
  lemma InitDataLaysOut(t: Os.Tree)
    requires Os.WellFormed(t) && DataDir !in t
    ensures StoreLayout(EnsureDir(t, DataDir), DataDir)
  {
    var r := EnsureDir(t, DataDir);
    assert Os.Parent(DataDir) == [];
    forall q | q in r && |DataDir| < |q| && q[..|DataDir|] == DataDir
      ensures false
    {
      NoOrphans(t, DataDir, q);
    }
  }

  /** `initData` is a no-op the second time, and afterwards the data root is
      a directory unless a file already occupied its name. */
  lemma InitDataIdempotent(t: Os.Tree)
    ensures EnsureDir(EnsureDir(t, DataDir), DataDir) == EnsureDir(t, DataDir)
    ensures Os.IsDir(EnsureDir(t, DataDir), DataDir) <==> !(DataDir in t && t[DataDir].File?)
  {
    assert Os.Parent(DataDir) == [];
  }

  /** `initData`: create the data root unless something exists there. */
  method InitData(fs: Os.FileSystem, dataDir: Os.Path)
    requires fs.Valid()
    modifies fs
    ensures fs.Valid()
    ensures fs.tree == EnsureDir(old(fs.tree), dataDir)
  {
    var present := fs.Stat(dataDir);
    if !present {
      var _ := fs.Mkdir(dataDir);
    }
  }

  /** `prepareSubdirs`: walk the subdirectories under the data root,
      creating each missing one, and return the innermost path. */
  method PrepareSubdirs(fs: Os.FileSystem, root: Os.Path, subdirs: seq<string>) returns (dirPath: Os.Path)
    requires fs.Valid()
    requires forall i :: 0 <= i < |subdirs| ==> Os.CleanSegment(subdirs[i])
    modifies fs
    ensures fs.Valid()
    ensures dirPath == root + subdirs
    ensures fs.tree == EnsureDirs(old(fs.tree), root, subdirs)
  {
    dirPath := root;
    for i := 0 to |subdirs|
      invariant fs.Valid()
      invariant dirPath == root + subdirs[..i]
      invariant EnsureDirs(fs.tree, dirPath, subdirs[i..]) == EnsureDirs(old(fs.tree), root, subdirs)
    {
      assert subdirs[i..][1..] == subdirs[i + 1..];
      dirPath := dirPath + [subdirs[i]];
      assert dirPath == root + subdirs[..i + 1];
      var present := fs.Stat(dirPath);
      if !present {
        var _ := fs.Mkdir(dirPath);
      }
    }
    assert subdirs[..|subdirs|] == subdirs;
  }

  /** `saveFile`: on a filename without '/', derive the placement, prepare
      the shard directories, create the target and copy the content. */
  method SaveFile(fs: Os.FileSystem, root: Os.Path, u: Naming.Upload, hash: seq<Hex.byte> -> Hex.Digest)
    returns (out: Outcome)
    requires fs.Valid() && '/' !in u.filename
    modifies fs
    ensures fs.Valid()
    ensures (out, fs.tree) == SaveOn(old(fs.tree), root, u, hash)
  {
    var placement := Naming.PathForSaving(u, hash);
    Naming.ShardsAreClean(u, hash);
    var _ := PrepareSubdirs(fs, root, placement.subdirs);
    var full := root + Strings.Split(placement.hpath, '/');
    var created := fs.Create(full);
    if !created {
      return Panicked("Open file for saving failed");
    }
    fs.Write(full, u.content);
    out := Saved(placement.hpath, u.filename);
  }
}
