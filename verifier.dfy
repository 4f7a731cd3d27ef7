// The content verifier: calculateFileHash (Main.py lines 19-28) and the
// keep-or-delete decision after a download (Main.py lines 161-167).
// SHA-256 is not modelled: the digest is a parameter `hash`, an arbitrary
// function of the whole byte sequence, and feeding chunks to the running
// digest is modelled as accumulating their concatenation.
module Verifier {
  import opened Common

  /** The hex digest of a whole byte sequence (hashlib's `sha256(...).hexdigest()`). */
  type Hash = seq<byte> -> string

  /** A hash that never maps two different byte sequences to the same digest. */
  ghost predicate CollisionFree(hash: Hash)
  {
    forall a, b :: hash(a) == hash(b) ==> a == b
  }

  /** The running `hashlib.sha256()` object: what matters of it is the bytes fed so far. */
  class Accumulator {
    var fed: seq<byte>

    constructor ()
      ensures fed == []
    {
      fed := [];
    }

    /** `update(chunk)` */
    method Update(chunk: seq<byte>)
      modifies this
      ensures fed == old(fed) + chunk
    {
      fed := fed + chunk;
    }

    /** `hexdigest()` */
    function HexDigest(hash: Hash): string
      reads this
    {
      hash(fed)
    }
  }

  /** The digest of a file, or None when the file cannot be opened. */
  function FileDigest(dir: Dir, name: string, hash: Hash): (r: Option<string>)
    ensures r.Some? <==> name in dir && dir[name].File? && dir[name].readable
    ensures r.Some? ==> r.value == hash(dir[name].content)
  {
    match Readable(dir, name)
    case None => None
    case Some(content) => Some(hash(content))
  }

  /**
   * calculateFileHash: open the file (None when that raises an OSError),
   * feed it to the accumulator one `read(ChunkSize)` at a time, and return the
   * digest once a read comes back empty.
   */
  method CalculateFileHash(dir: Dir, name: string, hash: Hash) returns (r: Option<string>)
    ensures r == FileDigest(dir, name, hash)
  {
    var file := Readable(dir, name);
    if file.None? {
      return None;
    }
    var content := file.value;
    var acc := new Accumulator();
    var pos := 0;
    while pos < |content|
      invariant 0 <= pos <= |content|
      invariant acc.fed == content[..pos]
      decreases |content| - pos
    {
      var n := if |content| - pos < ChunkSize then |content| - pos else ChunkSize;
      acc.Update(content[pos..pos + n]);
      assert content[..pos + n] == content[..pos] + content[pos..pos + n];
      pos := pos + n;
    }
    assert content[..pos] == content;
    r := Some(acc.HexDigest(hash));
  }

  datatype Verdict = Verified | Corrupt

  /** The downloaded copy is kept only when its optional digest equals the reference's. */
  function Verify(downloaded: Option<string>, reference: Option<string>): Verdict
  {
    if downloaded == reference then Verified else Corrupt
  }

  /** Identical readable contents, or two unreadable files, always pass, whatever the hash. */
  lemma SameContentVerifies(downloads: Dir, uploads: Dir, name: string, hash: Hash)
    requires Readable(downloads, name) == Readable(uploads, name)
    ensures Verify(FileDigest(downloads, name, hash), FileDigest(uploads, name, hash)) == Verified
  {
  }

  /** A readable download with no readable reference copy is always judged corrupt. */
  lemma MissingReferenceRejects(downloads: Dir, uploads: Dir, name: string, hash: Hash)
    requires Readable(downloads, name).Some? && Readable(uploads, name).None?
    ensures Verify(FileDigest(downloads, name, hash), FileDigest(uploads, name, hash)) == Corrupt
  {
  }

  /**
   * With a collision-free hash the verdict is exact: it passes if and only
   * if both copies are readable with equal bytes, or neither is readable.
   */
  lemma VerifiedIffSameContent(downloads: Dir, uploads: Dir, name: string, hash: Hash)
    requires CollisionFree(hash)
    ensures Verify(FileDigest(downloads, name, hash), FileDigest(uploads, name, hash)) == Verified
        <==> Readable(downloads, name) == Readable(uploads, name)
  {
    var d, u := Readable(downloads, name), Readable(uploads, name);
    if d.Some? && u.Some? && hash(d.value) == hash(u.value) {
      assert d.value == u.value;
    }
  }
}
