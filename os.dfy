/** The part of the operating system's filesystem that the store touches:
    `os.Stat`, `os.Mkdir`, `os.Create` and writing into the created file.
    Paths are cleaned and kept as their list of components, so `path.Join`
    of clean segments is list concatenation; the empty path is the working
    directory, which always exists and is a directory. */
module Os {
  import Hex

  type Path = seq<string>

  datatype Entry = Dir | File(data: seq<Hex.byte>)

  /** Every entry of the filesystem other than the working directory. */
  type Tree = map<Path, Entry>

  predicate Exists(t: Tree, p: Path) {
    p == [] || p in t
  }

  predicate IsDir(t: Tree, p: Path) {
    p == [] || (p in t && t[p].Dir?)
  }

  /** A path element that `path.Join` keeps as it is: non-empty, without
      '/', and neither "." nor "..". */
  predicate CleanSegment(s: string) {
    s != "" && '/' !in s && s != "." && s != ".."
  }

  /** Longest name a single path component may have, in bytes (NAME_MAX
      on Linux); a longer one makes the system call fail. */
  const NameMax: nat := 255

  /** Bytes taken by one character in UTF-8, the encoding of Go strings. */
  function CharBytes(c: char): (n: nat)
    ensures 1 <= n <= 4
  {
    if c as int < 0x80 then 1
    else if c as int < 0x800 then 2
    else if c as int < 0x1_0000 then 3
    else 4
  }

  /** Length in bytes of the UTF-8 encoding of `s`. */
  function ByteLength(s: string): (n: nat)
    ensures |s| <= n <= 4 * |s|
  {
    if s == [] then 0 else CharBytes(s[0]) + ByteLength(s[1..])
  }

  lemma {:induction false} ByteLengthAppend(a: string, b: string)
    ensures ByteLength(a + b) == ByteLength(a) + ByteLength(b)
  {
    if a == [] {
      assert a + b == b;
    } else {
      assert (a + b)[1..] == a[1..] + b;
      ByteLengthAppend(a[1..], b);
    }
  }

  /** A string of ASCII characters takes one byte per character. */
  lemma {:induction false} ByteLengthAscii(s: string)
    requires forall i :: 0 <= i < |s| ==> s[i] as int < 0x80
    ensures ByteLength(s) == |s|
  {
    if s != [] {
      ByteLengthAscii(s[1..]);
    }
  }

  /** A name the kernel accepts as the last component of a path to open:
      at most `NameMax` bytes, and no NUL byte, which Go refuses to pass
      to the system call. */
  predicate ValidName(name: string) {
    ByteLength(name) <= NameMax && '\0' !in name
  }

  function Parent(p: Path): Path
    requires |p| > 0
  {
    p[..|p| - 1]
  }

  /** Every entry sits inside a directory; the working directory is never
      an entry of its own. */
  ghost predicate WellFormed(t: Tree) {
    forall p :: p in t ==> |p| > 0 && IsDir(t, Parent(p))
  }

  /** `os.Mkdir`: succeeds exactly when nothing is at `p` and the parent is a
      directory, and then adds the empty directory `p`. */
  function MkdirOn(t: Tree, p: Path): (r: (bool, Tree))
    ensures WellFormed(t) ==> WellFormed(r.1)
    ensures forall q :: q in t ==> q in r.1 && r.1[q] == t[q]
    ensures r.0 <==> !Exists(t, p) && IsDir(t, Parent(p))
    ensures r.0 <==> p !in t && p in r.1
    ensures r.0 ==> r.1 == t[p := Dir]
    ensures !r.0 ==> r.1 == t
  {
    if !Exists(t, p) && IsDir(t, Parent(p)) then (true, t[p := Dir]) else (false, t)
  }

  /** `os.Create`: opens `p` for writing, creating it or truncating it to
      empty; fails when its name is too long or holds a NUL, when the
      parent is not a directory, or when `p` is one. */
  function CreateOn(t: Tree, p: Path): (r: (bool, Tree))
    ensures WellFormed(t) ==> WellFormed(r.1)
    ensures r.0 <==> |p| > 0 && ValidName(p[|p| - 1]) && IsDir(t, Parent(p)) && !IsDir(t, p)
    ensures r.0 ==> p in r.1 && r.1[p] == File([]) && (p in t ==> t[p].File?)
    ensures !r.0 ==> r.1 == t
    ensures forall q :: q != p ==> (q in t <==> q in r.1) && (q in t ==> r.1[q] == t[q])
  {
    if |p| > 0 && ValidName(p[|p| - 1]) && IsDir(t, Parent(p)) && !IsDir(t, p) then (true, t[p := File([])]) else (false, t)
  }

  /** Writing `data` into the open file at `p`: it is appended after what the
      file already holds, and nothing else changes. */
  function WriteOn(t: Tree, p: Path, data: seq<Hex.byte>): (r: Tree)
    requires p in t && t[p].File?
    ensures WellFormed(t) ==> WellFormed(r)
    ensures r.Keys == t.Keys
    ensures r[p] == File(t[p].data + data)
    ensures forall q :: q in t && q != p ==> r[q] == t[q]
  {
    t[p := File(t[p].data + data)]
  }

  /** The filesystem as a mutable object: the store takes it as a parameter
      instead of reaching for global state. */
  class FileSystem {
    var tree: Tree

    ghost predicate Valid()
      reads this
    {
      WellFormed(tree)
    }

    constructor (initial: Tree)
      requires WellFormed(initial)
      ensures Valid() && tree == initial
    {
      tree := initial;
    }

    /** `os.Stat` reports "does not exist" exactly for absent paths. */
    method Stat(p: Path) returns (present: bool)
      ensures present <==> Exists(tree, p)
    {
      present := p == [] || p in tree;
    }

    method Mkdir(p: Path) returns (ok: bool)
      requires Valid()
      modifies this
      ensures Valid()
      ensures (ok, tree) == MkdirOn(old(tree), p)
    {
      ok, tree := MkdirOn(tree, p).0, MkdirOn(tree, p).1;
    }

    method Create(p: Path) returns (ok: bool)
      requires Valid()
      modifies this
      ensures Valid()
      ensures (ok, tree) == CreateOn(old(tree), p)
    {
      ok, tree := CreateOn(tree, p).0, CreateOn(tree, p).1;
    }

    method Write(p: Path, data: seq<Hex.byte>)
      requires Valid()
      requires p in tree && tree[p].File?
      modifies this
      ensures Valid()
      ensures tree == WriteOn(old(tree), p, data)
    {
      tree := WriteOn(tree, p, data);
    }
  }
}
