/** Path derivation of `getPathForSaving`: the extension of the client's
    filename, the hex digest of the content, and the sharded relative path
    `fst/sec/rest.ext` together with the shard directory names. */
module Naming {
  import Strings
  import Hex
  import Os

  /** One uploaded file as the form parser hands it over: the client-side
      filename and the bytes that opening the part yields. */
  datatype Upload = Upload(filename: string, content: seq<Hex.byte>)

  /** What `getPathForSaving` returns: the relative storage path and the
      two shard directory names, outermost first. */
  datatype Placement = Placement(hpath: string, subdirs: seq<string>)

  /** Number of hex characters in each of the two shard names. */
  const ShardWidth: nat := 3

  /** Length of the hex-encoded digest. */
  const HashLength: nat := 2 * Hex.DigestSize

  /** The last piece of the filename split on '.': the text after the last
      dot, the whole name when there is no dot, and empty when the name ends
      in a dot.  The split is never empty, so the index is always valid. */
  function Extension(filename: string): (ext: string)
    ensures |ext| <= |filename| && filename[|filename| - |ext|..] == ext
    ensures '.' !in ext
    ensures '.' !in filename <==> ext == filename
    ensures |ext| < |filename| ==> filename[|filename| - |ext| - 1] == '.'
  {
    Strings.LastPart(filename, '.');
    Strings.Last(Strings.Split(filename, '.'))
  }

  /** The converse characterisation: whatever precedes the last dot, the
      dot-free text after it is the extension. */
  lemma ExtensionAfterLastDot(stem: string, ext: string)
    requires '.' !in ext
    ensures Extension(stem + "." + ext) == ext
  {
    var f := stem + "." + ext;
    assert f[|stem|] == '.';
    assert f[|f| - |ext|..] == ext;
  }

  /** The name of the stored file inside the second shard directory. */
  function Leaf(strHash: string, ext: string): (leaf: string)
    requires |strHash| == HashLength
    ensures |leaf| == HashLength - 2 * ShardWidth + 1 + |ext|
    ensures leaf[..HashLength - 2 * ShardWidth] == strHash[2 * ShardWidth..]
    ensures leaf[HashLength - 2 * ShardWidth] == '.'
    ensures leaf[HashLength - 2 * ShardWidth + 1..] == ext
    ensures '/' !in strHash && '/' !in ext ==> '/' !in leaf
  {
    strHash[2 * ShardWidth..] + "." + ext
  }

  /** Characters of the leaf before the extension: the rest of the digest
      and the '.'. */
  const LeafStemLength: nat := HashLength - 2 * ShardWidth + 1

  /** The extension leaves the leaf a name `os.Create` accepts: at most
      `Os.NameMax - LeafStemLength` bytes and no NUL. */
  predicate ExtensionFits(filename: string) {
    var ext := Extension(filename);
    Os.ByteLength(ext) <= Os.NameMax - LeafStemLength && '\0' !in ext
  }

  /** For a hex digest, the leaf is a valid name exactly when the extension
      fits: the digest part and the '.' are ASCII, one byte each, and none
      of them is NUL. */
  lemma LeafValidName(strHash: string, filename: string)
    requires |strHash| == HashLength
    requires forall i :: 0 <= i < |strHash| ==> Hex.IsHexChar(strHash[i])
    ensures Os.ValidName(Leaf(strHash, Extension(filename))) <==> ExtensionFits(filename)
  {
    var ext := Extension(filename);
    var rest := strHash[2 * ShardWidth..];
    assert forall i :: 0 <= i < |rest| ==> Hex.IsHexChar(rest[i]);
    Os.ByteLengthAscii(rest + ".");
    Os.ByteLengthAppend(rest + ".", ext);
    assert Leaf(strHash, ext) == (rest + ".") + ext;
    assert '\0' !in rest + ".";
  }

  /** Slices the hex digest into two shards and the rest, and joins them with
      the leaf name as `path.Join(fst, sec, last)` does on clean segments. */
  function Shard(strHash: string, ext: string): (p: Placement)
    requires |strHash| == HashLength
    ensures |p.subdirs| == 2 && |p.subdirs[0]| == ShardWidth && |p.subdirs[1]| == ShardWidth
    ensures p.subdirs[0] + p.subdirs[1] == strHash[..2 * ShardWidth]
    ensures p.hpath == p.subdirs[0] + "/" + p.subdirs[1] + "/" + Leaf(strHash, ext)
  {
    var fst := strHash[0..ShardWidth];
    var sec := strHash[ShardWidth..2 * ShardWidth];
    Strings.JoinThree(fst, sec, Leaf(strHash, ext), '/');
    Placement(Strings.Join([fst, sec, Leaf(strHash, ext)], '/'), [fst, sec])
  }

  /** `getPathForSaving`: SHA-256 (the parameter `hash`) over the whole
      content, hex-encoded, sharded, with the filename's extension.  A
      filename with a '/' is outside the model: only without one are all
      three segments clean, so that `path.Join` is plain joining. */
  function PathForSaving(u: Upload, hash: seq<Hex.byte> -> Hex.Digest): (p: Placement)
    requires '/' !in u.filename
    ensures var h := Hex.Encode(hash(u.content));
            && |p.subdirs| == 2
            && p.subdirs[0] + p.subdirs[1] == h[..2 * ShardWidth]
            && p.hpath == p.subdirs[0] + "/" + p.subdirs[1] + "/" + h[2 * ShardWidth..] + "." + Extension(u.filename)
  {
    Shard(Hex.Encode(hash(u.content)), Extension(u.filename))
  }

  /** Sharding a 64-character string without '/': two three-character
      shards that, followed by the remaining 58 characters, spell the whole
      string; the path is `fst/sec/rest.ext`, and it splits on '/' into
      exactly the shard names followed by the leaf. */
  lemma ShardShape(h: string, ext: string)
    requires |h| == HashLength && '/' !in h && '/' !in ext
    ensures var p := Shard(h, ext);
            && |p.subdirs| == 2
            && |p.subdirs[0]| == ShardWidth && |p.subdirs[1]| == ShardWidth
            && p.subdirs[0] + p.subdirs[1] + h[2 * ShardWidth..] == h
            && p.hpath == p.subdirs[0] + "/" + p.subdirs[1] + "/" + h[2 * ShardWidth..] + "." + ext
            && Strings.Split(p.hpath, '/') == p.subdirs + [Leaf(h, ext)]
  {
    var fst, sec, leaf := h[..ShardWidth], h[ShardWidth..2 * ShardWidth], Leaf(h, ext);
    assert '/' !in fst && '/' !in sec && '/' !in leaf;
    Strings.JoinThree(fst, sec, leaf, '/');
    assert fst + sec + h[2 * ShardWidth..] == h;
  }

  /** The shape of the derived path: `ShardShape` of the 64 lower-case hex
      characters of the digest, with an extension free of '/' and '.'. */
  lemma PathShape(u: Upload, hash: seq<Hex.byte> -> Hex.Digest)
    requires '/' !in u.filename
    ensures var p := PathForSaving(u, hash);
            var h := Hex.Encode(hash(u.content));
            var ext := Extension(u.filename);
            && |h| == HashLength
            && |p.subdirs| == 2
            && |p.subdirs[0]| == ShardWidth && |p.subdirs[1]| == ShardWidth
            && |h[2 * ShardWidth..]| == HashLength - 2 * ShardWidth
            && p.subdirs[0] + p.subdirs[1] + h[2 * ShardWidth..] == h
            && p.hpath == p.subdirs[0] + "/" + p.subdirs[1] + "/" + h[2 * ShardWidth..] + "." + ext
            && Strings.Split(p.hpath, '/') == p.subdirs + [Leaf(h, ext)]
            && (forall i :: 0 <= i < |h| ==> Hex.IsHexChar(h[i]))
            && '/' !in ext && '.' !in ext
  {
    var h := Hex.Encode(hash(u.content));
    var ext := Extension(u.filename);
    assert '/' !in h by {
      assert forall i :: 0 <= i < |h| ==> h[i] != '/';
    }
    assert '/' !in ext by {
      assert ext == u.filename[|u.filename| - |ext|..];
    }
    ShardShape(h, ext);
  }

  /** The shard names are clean path elements: three hex characters,
      never empty, never "." or "..", never holding '/'. */
  lemma ShardsAreClean(u: Upload, hash: seq<Hex.byte> -> Hex.Digest)
    requires '/' !in u.filename
    ensures forall i :: 0 <= i < |PathForSaving(u, hash).subdirs| ==>
              Os.CleanSegment(PathForSaving(u, hash).subdirs[i])
  {
    PathShape(u, hash);
    var s := PathForSaving(u, hash).subdirs;
    assert |s[0]| == ShardWidth && |s[1]| == ShardWidth;
    assert '/' !in s[0] && '/' !in s[1] by {
      var h := Hex.Encode(hash(u.content));
      assert s[0] == h[..ShardWidth] && s[1] == h[ShardWidth..2 * ShardWidth];
      assert forall i :: 0 <= i < |h| ==> h[i] != '/';
    }
  }

  /** Sharding is injective: the placement gives back the string and the
      extension it was made from. */
  lemma ShardInjective(h1: string, e1: string, h2: string, e2: string)
    requires |h1| == HashLength && '/' !in h1 && '/' !in e1
    requires |h2| == HashLength && '/' !in h2 && '/' !in e2
    ensures Shard(h1, e1) == Shard(h2, e2) <==> h1 == h2 && e1 == e2
  {
    if Shard(h1, e1) == Shard(h2, e2) {
      ShardShape(h1, e1);
      ShardShape(h2, e2);
      var p1, p2 := Shard(h1, e1).hpath, Shard(h2, e2).hpath;
      var k := 2 * ShardWidth + 2;
      assert p1[k..HashLength + 2] == h1[2 * ShardWidth..] && p2[k..HashLength + 2] == h2[2 * ShardWidth..];
      assert p1[HashLength + 3..] == e1 && p2[HashLength + 3..] == e2;
    }
  }

  /** Content addressing: two uploads get the same placement exactly when
      their contents have the same digest and their filenames the same
      extension; the rest of the filename plays no part. */
  lemma PlacementDeterminedByDigestAndExtension(u1: Upload, u2: Upload, hash: seq<Hex.byte> -> Hex.Digest)
    requires '/' !in u1.filename && '/' !in u2.filename
    ensures PathForSaving(u1, hash) == PathForSaving(u2, hash) <==>
              hash(u1.content) == hash(u2.content) && Extension(u1.filename) == Extension(u2.filename)
  {
    PathShape(u1, hash);
    PathShape(u2, hash);
    var h1, h2 := Hex.Encode(hash(u1.content)), Hex.Encode(hash(u2.content));
    assert '/' !in h1 && '/' !in h2 by {
      assert forall i :: 0 <= i < |h1| ==> h1[i] != '/';
      assert forall i :: 0 <= i < |h2| ==> h2[i] != '/';
    }
    ShardInjective(h1, Extension(u1.filename), h2, Extension(u2.filename));
    Hex.EncodeInjective(hash(u1.content), hash(u2.content));
  }

  /** Extension examples: several dots, no dot, a trailing dot. */
  lemma ExampleExtensions()
    ensures Extension("file.jpg") == "jpg"
    ensures Extension("archive.tar.gz") == "gz"
    ensures Extension("notes.") == ""
  {
    ExtensionAfterLastDot("file", "jpg");
    assert "file.jpg" == "file" + "." + "jpg";
    ExtensionAfterLastDot("archive.tar", "gz");
    assert "archive.tar.gz" == "archive.tar" + "." + "gz";
    ExtensionAfterLastDot("notes", "");
    assert "notes." == "notes" + "." + "";
  }

  /** A dot-free filename of 200 characters is its own extension, which
      does not fit: the leaf would be 259 bytes. */
  lemma ExampleOverlongName()
    ensures !ExtensionFits(seq(200, _ => 'a'))
  {
    var name := seq(200, _ => 'a');
    assert '.' !in name by {
      assert forall i :: 0 <= i < |name| ==> name[i] == 'a';
    }
  }

  lemma ExampleExtensionless()
    ensures Extension("archive") == "archive"
  {
    assert '.' !in "archive";
  }
}
