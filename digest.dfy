/**
 * `hash_file`: the SHA-1 hex digest of a file, read in chunks of
 * 0x100000 bytes.
 *
 * SHA-1 itself is not modelled: it is a parameter `sha1` mapping a whole
 * message to its 20-byte digest. The file system is a map from path to the
 * content of a regular file; a path it does not hold cannot be opened. The
 * open file and the `hashlib` object are objects whose state the loop
 * updates, as in the script.
 */
module Digest {
  import opened Trees

  /** The size of every read in `hash_file`. */
  const ChunkSize: nat := 0x100000

  /** A SHA-1 digest: 20 bytes. */
  type Sha1Digest = s: Bytes | |s| == 20 witness seq(20, i => 0)

  /** Either a value, or the path of a file that could not be opened. */
  datatype Result<T> = Ok(value: T) | CannotOpen(path: string)

  /** The lower-case hexadecimal digits `hexdigest` uses. */
  const HexDigits: string := "0123456789abcdef"

  /** `bytes.hex()`: two lower-case hexadecimal digits per byte, high half first. */
  function Hex(bs: Bytes): (h: string)
    ensures |h| == 2 * |bs|
    decreases |bs|
  {
    if bs == [] then ""
    else [HexDigits[bs[0] as int / 16], HexDigits[bs[0] as int % 16]] + Hex(bs[1..])
  }

  /** `Hex` writes nothing but lower-case hexadecimal digits. */
  lemma {:induction false} HexDigitsOnly(bs: Bytes)
    ensures forall i :: 0 <= i < |Hex(bs)| ==> Hex(bs)[i] in HexDigits
    decreases |bs|
  {
    if bs != [] {
      HexDigitsOnly(bs[1..]);
      var h, tail := Hex(bs), Hex(bs[1..]);
      assert h == [HexDigits[bs[0] as int / 16], HexDigits[bs[0] as int % 16]] + tail;
      forall i | 2 <= i < |h| ensures h[i] in HexDigits {
        assert h[i] == tail[i - 2];
      }
    }
  }

  /** The value of a hexadecimal digit. */
  function DigitValue(c: char): nat
  {
    if '0' <= c <= '9' then c as int - '0' as int
    else if 'a' <= c <= 'f' then c as int - 'a' as int + 10
    else 0
  }

  /** Reads back the bytes of a hexadecimal string, two digits at a time: the inverse of `Hex`. */
  function Unhex(h: string): Bytes
    decreases |h|
  {
    if |h| < 2 then []
    else [(DigitValue(h[0]) * 16 + DigitValue(h[1])) as byte] + Unhex(h[2..])
  }

  /** `Unhex` undoes `Hex`. */
  lemma {:induction false} UnhexHex(bs: Bytes)
    ensures Unhex(Hex(bs)) == bs
    decreases |bs|
  {
    if bs != [] {
      var tail := Hex(bs[1..]);
      var c0, c1 := HexDigits[bs[0] as int / 16], HexDigits[bs[0] as int % 16];
      assert Hex(bs) == [c0, c1] + tail;
      UnhexCons(c0, c1, tail);
      ByteDigits(bs[0]);
      UnhexHex(bs[1..]);
      assert bs == [bs[0]] + bs[1..];
    }
  }

  /** `Unhex` reads the first two digits as one byte and goes on with the rest. */
  lemma UnhexCons(c0: char, c1: char, tail: string)
    ensures Unhex([c0, c1] + tail) == [(DigitValue(c0) * 16 + DigitValue(c1)) as byte] + Unhex(tail)
  {
    var h := [c0, c1] + tail;
    assert h[0] == c0 && h[1] == c1 && h[2..] == tail;
  }

  /** The two digits `Hex` writes for a byte read back as that byte. */
  lemma ByteDigits(x: byte)
    ensures (DigitValue(HexDigits[x as int / 16]) * 16 + DigitValue(HexDigits[x as int % 16])) as byte == x
  {
    HexDigitValue(x as int / 16);
    HexDigitValue(x as int % 16);
  }

  /** Every digit reads back as its own value. */
  lemma HexDigitValue(v: nat)
    requires v < 16
    ensures DigitValue(HexDigits[v]) == v
  {
  }

  /** Different digests have different hexadecimal forms. */
  lemma HexInjective(x: Bytes, y: Bytes)
    ensures Hex(x) == Hex(y) <==> x == y
  {
    if Hex(x) == Hex(y) {
      UnhexHex(x);
      UnhexHex(y);
    }
  }

  /** An open binary file: its content and the position of the next read. */
  class OpenFile {
    const data: Bytes
    var pos: nat

    ghost predicate Valid()
      reads this
    {
      pos <= |data|
    }

    /** `open(path, 'rb')` on a file holding `content`. */
    constructor (content: Bytes)
      ensures data == content && pos == 0 && Valid()
    {
      data := content;
      pos := 0;
    }

    /** `f.read(size)`: the next `size` bytes, fewer at the end of the file, none once it is reached. */
    method Read(size: nat) returns (buf: Bytes)
      requires Valid()
      modifies this
      ensures Valid()
      ensures |buf| == if size <= |data| - old(pos) then size else |data| - old(pos)
      ensures pos == old(pos) + |buf| && buf == data[old(pos)..pos]
    {
      var n := if size <= |data| - pos then size else |data| - pos;
      buf := data[pos..pos + n];
      pos := pos + n;
    }
  }

  /** A `hashlib.sha1()` object: the bytes fed to it so far, and the chunks they came in. */
  class Hasher {
    const sha1: Bytes -> Sha1Digest
    var fed: Bytes
    ghost var chunks: seq<Bytes>

    /** `hashlib.sha1()`. */
    constructor (sha1: Bytes -> Sha1Digest)
      ensures this.sha1 == sha1 && fed == [] && chunks == []
    {
      this.sha1 := sha1;
      fed := [];
      chunks := [];
    }

    /** `hasher.update(buf)`. */
    method Update(buf: Bytes)
      modifies this
      ensures fed == old(fed) + buf && chunks == old(chunks) + [buf]
    {
      fed := fed + buf;
      chunks := chunks + [buf];
    }

    /** `hasher.hexdigest()`: the digest of everything fed so far, in 40 hexadecimal digits. */
    method HexDigest() returns (h: string)
      ensures h == Hex(sha1(fed)) && |h| == 40
    {
      h := Hex(sha1(fed));
    }
  }

  /** What `hash_file(path)` returns: the hex digest of the whole file, or the failure to open it. */
  function FileHash(fs: map<string, Bytes>, path: string, sha1: Bytes -> Sha1Digest): (r: Result<string>)
    ensures r.Ok? <==> path in fs
    ensures r.CannotOpen? ==> r.path == path
    ensures r.Ok? ==> |r.value| == 40
  {
    if path in fs then Ok(Hex(sha1(fs[path]))) else CannotOpen(path)
  }

  /** Two files hash alike exactly when SHA-1 gives their contents the same digest. */
  lemma SameHash(fs: map<string, Bytes>, p: string, q: string, sha1: Bytes -> Sha1Digest)
    requires p in fs && q in fs
    ensures FileHash(fs, p, sha1) == FileHash(fs, q, sha1) <==> sha1(fs[p]) == sha1(fs[q])
    ensures fs[p] == fs[q] ==> FileHash(fs, p, sha1) == FileHash(fs, q, sha1)
  {
    HexInjective(sha1(fs[p]), sha1(fs[q]));
  }

  /** The bytes of a sequence of chunks, one after the other. */
  function Concat(chunks: seq<Bytes>): Bytes
  {
    if chunks == [] then [] else Concat(chunks[..|chunks| - 1]) + chunks[|chunks| - 1]
  }

  /** Every chunk holds between 1 and `ChunkSize` bytes, and every one but the last exactly `ChunkSize`. */
  ghost predicate Chunked(chunks: seq<Bytes>)
  {
    (forall i :: 0 <= i < |chunks| ==> 0 < |chunks[i]| <= ChunkSize) &&
    (forall i :: 0 <= i < |chunks| - 1 ==> |chunks[i]| == ChunkSize)
  }

  /** Feeding one more chunk after a full one keeps the chunks well formed and adds its bytes at the end. */
  lemma ChunkedSnoc(chunks: seq<Bytes>, buf: Bytes)
    requires Chunked(chunks) && 0 < |buf| <= ChunkSize
    requires chunks != [] ==> |chunks[|chunks| - 1]| == ChunkSize
    ensures Chunked(chunks + [buf])
    ensures Concat(chunks + [buf]) == Concat(chunks) + buf
  {
    assert (chunks + [buf])[..|chunks|] == chunks;
  }

  /**
   * `hash_file`: opens the file, feeds it to SHA-1 one chunk of at most
   * `ChunkSize` bytes at a time until a read comes back empty, and returns
   * the hex digest, which is that of the whole content. `chunks` are the
   * chunks fed: none for an empty file, every one but the last full, and
   * together the whole content.
   */
  method HashFile(fs: map<string, Bytes>, path: string, sha1: Bytes -> Sha1Digest) returns (r: Result<string>, ghost chunks: seq<Bytes>)
    ensures r == FileHash(fs, path, sha1)
    ensures path in fs ==> Concat(chunks) == fs[path]
    ensures path in fs ==> (chunks == [] <==> fs[path] == [])
    ensures forall i :: 0 <= i < |chunks| ==> 0 < |chunks[i]| <= ChunkSize
    ensures forall i :: 0 <= i < |chunks| - 1 ==> |chunks[i]| == ChunkSize
  {
    if path !in fs {
      return CannotOpen(path), [];
    }
    var f := new OpenFile(fs[path]);
    var hasher := new Hasher(sha1);
    while true
      invariant f.Valid() && f.data == fs[path]
      invariant hasher.sha1 == sha1 && hasher.fed == f.data[..f.pos] && Concat(hasher.chunks) == hasher.fed
      invariant Chunked(hasher.chunks)
      invariant hasher.chunks == [] <==> f.pos == 0
      invariant hasher.chunks != [] && f.pos < |f.data| ==> |hasher.chunks[|hasher.chunks| - 1]| == ChunkSize
      decreases |f.data| - f.pos
    {
      ghost var start := f.pos;
      var buf := f.Read(ChunkSize);
      if |buf| == 0 {
        assert f.pos == |f.data|;
        break;
      }
      ChunkedSnoc(hasher.chunks, buf);
      hasher.Update(buf);
      assert f.data[..f.pos] == f.data[..start] + buf;
    }
    assert f.data[..f.pos] == f.data;
    var h := hasher.HexDigest();
    return Ok(h), hasher.chunks;
  }
}
