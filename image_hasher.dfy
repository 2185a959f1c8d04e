/**
 * The hash engine (`ImageHasher`): the SHA-256 content hash computed by a
 * chunked read loop, the optional perceptual hash, and the Hamming distance
 * between perceptual hashes with its match threshold. The class has no
 * state, so its methods are members of this module.
 */
module ImageHasher {
  import opened Common
  import opened Library
  import opened FileSystem

  /** The block size of the read loop. */
  const ChunkSize: nat := 4096

  /** The threshold `is_match` uses when the caller gives none. */
  const DefaultThreshold: int := 5

  /** `f.read(ChunkSize)` on a file whose read position is `offset`. */
  function NextChunk(data: Bytes, offset: nat): (block: Bytes)
    requires offset <= |data|
    ensures block == data[offset..if offset + ChunkSize <= |data| then offset + ChunkSize else |data|]
    ensures block == [] <==> offset == |data|
  {
    if offset + ChunkSize <= |data| then data[offset..offset + ChunkSize] else data[offset..]
  }

  /**
   * `get_cryptographic_hash`: feeds the file to an incremental SHA-256 one
   * chunk at a time until a read returns no bytes. The hash object is
   * modelled by the message it has absorbed so far; `hexdigest()` is the
   * digest of that message. A missing or unreadable file gives `None`.
   */
  method GetCryptographicHash(fs: Fs, sha256: Sha256, path: Path) returns (r: Option<string>)
    ensures path !in fs.files || path in fs.unreadable ==> r == None
    ensures path in fs.files && path !in fs.unreadable ==> r == Some(sha256(fs.files[path]))
  {
    var read := fs.ReadAll(path);
    if !read.Read? {
      return None;
    }
    var data := read.data;
    var absorbed: Bytes := [];
    var offset: nat := 0;
    var block := NextChunk(data, offset);
    while block != []
      invariant offset <= |data|
      invariant absorbed == data[..offset]
      invariant block == NextChunk(data, offset)
      decreases |data| - offset
    {
      absorbed := absorbed + block;
      offset := offset + |block|;
      block := NextChunk(data, offset);
    }
    assert absorbed == data;
    return Some(sha256(absorbed));
  }

  /**
   * `get_perceptual_hash`: the dHash of the file's bytes, or `None` when
   * the file is missing, unreadable, or not an image PIL can decode.
   */
  function GetPerceptualHash(fs: Fs, dhash: DHash, path: Path): (r: Option<string>)
    reads fs
    ensures path !in fs.files || path in fs.unreadable ==> r == None
    ensures path in fs.files && path !in fs.unreadable ==> r == dhash(fs.files[path])
  {
    if path in fs.files && path !in fs.unreadable then dhash(fs.files[path]) else None
  }

  /** Bit `j` (0 = least significant) of a hexadecimal digit's value. */
  function Bit(v: int, j: nat): (b: bool)
    requires 0 <= v < 16 && j < 4
  {
    (if j == 0 then v else if j == 1 then v / 2 else if j == 2 then v / 4 else v / 8) % 2 == 1
  }

  /** What `imagehash.hex_to_hash` makes of one digit: its four bits, most significant first. */
  function DigitBits(c: char): (bits: seq<bool>)
    requires IsHexDigit(c)
    ensures |bits| == 4
  {
    var v := HexValue(c);
    [Bit(v, 3), Bit(v, 2), Bit(v, 1), Bit(v, 0)]
  }

  /** The bit array `hex_to_hash` builds from a hex string, flattened. */
  function HexToBits(s: string): (bits: seq<bool>)
    requires IsHex(s)
    ensures |bits| == 4 * |s|
  {
    if s == [] then [] else DigitBits(s[0]) + HexToBits(s[1..])
  }

  /** `numpy.count_nonzero(a != b)` on two flattened bit arrays. */
  function CountDiffering(a: seq<bool>, b: seq<bool>): (n: nat)
    requires |a| == |b|
    ensures n <= |a|
  {
    if a == [] then 0 else (if a[0] != b[0] then 1 else 0) + CountDiffering(a[1..], b[1..])
  }

  /** A digit value is the sum of its weighted bits. */
  lemma BitsDetermineValue(v: int)
    requires 0 <= v < 16
    ensures v == (if Bit(v, 0) then 1 else 0) + (if Bit(v, 1) then 2 else 0)
                 + (if Bit(v, 2) then 4 else 0) + (if Bit(v, 3) then 8 else 0)
  {
    assert v == v % 2 + 2 * ((v / 2) % 2) + 4 * ((v / 4) % 2) + 8 * (v / 8);
  }

  /** Number of bits in which two hexadecimal digits differ. */
  function DigitDistance(c: char, d: char): (n: nat)
    requires IsHexDigit(c) && IsHexDigit(d)
    ensures n <= 4
    ensures n == 0 <==> HexValue(c) == HexValue(d)
  {
    var x, y := HexValue(c), HexValue(d);
    BitsDetermineValue(x);
    BitsDetermineValue(y);
    (if Bit(x, 0) != Bit(y, 0) then 1 else 0) + (if Bit(x, 1) != Bit(y, 1) then 1 else 0)
    + (if Bit(x, 2) != Bit(y, 2) then 1 else 0) + (if Bit(x, 3) != Bit(y, 3) then 1 else 0)
  }

  /** Equal digit values position by position: the two strings denote the same hash. */
  predicate SameHash(a: string, b: string)
    requires |a| == |b| && IsHex(a) && IsHex(b)
  {
    forall i :: 0 <= i < |a| ==> HexValue(a[i]) == HexValue(b[i])
  }

  /**
   * `compare_hashes`: `hex_to_hash(hash1) - hex_to_hash(hash2)`, the number
   * of bits in which two equally long hexadecimal hashes differ, summed
   * digit by digit. imagehash raises on the empty string (`int('', 16)`);
   * strings of different lengths are outside the model, since the library
   * raises on some such pairs and reshapes others.
   */
  function CompareHashes(hash1: string, hash2: string): (distance: nat)
    requires |hash1| == |hash2| > 0 && IsHex(hash1) && IsHex(hash2)
    ensures distance <= 4 * |hash1|
    ensures distance == 0 <==> SameHash(hash1, hash2)
  {
    if |hash1| == 1 then DigitDistance(hash1[0], hash2[0])
    else
      var rest := CompareHashes(hash1[1..], hash2[1..]);
      assert SameHash(hash1, hash2) <==> HexValue(hash1[0]) == HexValue(hash2[0]) && SameHash(hash1[1..], hash2[1..]) by {
        if HexValue(hash1[0]) == HexValue(hash2[0]) && SameHash(hash1[1..], hash2[1..]) {
          forall i | 0 <= i < |hash1| ensures HexValue(hash1[i]) == HexValue(hash2[i]) {
            if i > 0 { assert hash1[i] == hash1[1..][i - 1] && hash2[i] == hash2[1..][i - 1]; }
          }
        }
      }
      DigitDistance(hash1[0], hash2[0]) + rest
  }

  /** `is_match`: the distance is within the threshold. */
  function IsMatch(hash1: string, hash2: string, threshold: int): (matched: bool)
    requires |hash1| == |hash2| > 0 && IsHex(hash1) && IsHex(hash2)
    ensures threshold < 0 ==> !matched
    ensures threshold >= 4 * |hash1| ==> matched
    ensures SameHash(hash1, hash2) ==> (matched <==> threshold >= 0)
  {
    CompareHashes(hash1, hash2) <= threshold
  }

  /** `is_match(hash1, hash2)` with the default threshold of 5. */
  function IsMatchDefault(hash1: string, hash2: string): (matched: bool)
    requires |hash1| == |hash2| > 0 && IsHex(hash1) && IsHex(hash2)
    ensures matched == IsMatch(hash1, hash2, DefaultThreshold)
    ensures matched <==> CompareHashes(hash1, hash2) <= 5
  {
    IsMatch(hash1, hash2, DefaultThreshold)
  }

  /** One digit contributes exactly its differing bits to the bit count. */
  lemma DigitDistanceCountsBits(c: char, d: char)
    requires IsHexDigit(c) && IsHexDigit(d)
    ensures DigitDistance(c, d) == CountDiffering(DigitBits(c), DigitBits(d))
  {
    var a, b := DigitBits(c), DigitBits(d);
    var x, y := HexValue(c), HexValue(d);
    assert a[3..][1..] == [] && b[3..][1..] == [];
    assert CountDiffering(a[3..], b[3..]) == if Bit(x, 0) != Bit(y, 0) then 1 else 0;
    assert a[2..][1..] == a[3..] && b[2..][1..] == b[3..];
    assert CountDiffering(a[2..], b[2..]) == (if Bit(x, 1) != Bit(y, 1) then 1 else 0) + CountDiffering(a[3..], b[3..]);
    assert a[1..][1..] == a[2..] && b[1..][1..] == b[2..];
    assert CountDiffering(a[1..], b[1..]) == (if Bit(x, 2) != Bit(y, 2) then 1 else 0) + CountDiffering(a[2..], b[2..]);
  }

  lemma {:induction false} CountDifferingAppend(a1: seq<bool>, a2: seq<bool>, b1: seq<bool>, b2: seq<bool>)
    requires |a1| == |b1| && |a2| == |b2|
    ensures CountDiffering(a1 + a2, b1 + b2) == CountDiffering(a1, b1) + CountDiffering(a2, b2)
  {
    if a1 != [] {
      assert (a1 + a2)[1..] == a1[1..] + a2 && (b1 + b2)[1..] == b1[1..] + b2;
      CountDifferingAppend(a1[1..], a2, b1[1..], b2);
    } else {
      assert a1 + a2 == a2 && b1 + b2 == b2;
    }
  }

  /**
   * The digit-wise sum agrees with imagehash's own definition: expand both
   * strings to bit arrays and count the positions that differ.
   */
  lemma {:induction false} CompareHashesCountsBits(hash1: string, hash2: string)
    requires |hash1| == |hash2| > 0 && IsHex(hash1) && IsHex(hash2)
    ensures CompareHashes(hash1, hash2) == CountDiffering(HexToBits(hash1), HexToBits(hash2))
  {
    DigitDistanceCountsBits(hash1[0], hash2[0]);
    if |hash1| == 1 {
      assert hash1[1..] == [] && hash2[1..] == [];
      assert DigitBits(hash1[0]) + [] == DigitBits(hash1[0]) && DigitBits(hash2[0]) + [] == DigitBits(hash2[0]);
    } else {
      CompareHashesCountsBits(hash1[1..], hash2[1..]);
      CountDifferingAppend(DigitBits(hash1[0]), HexToBits(hash1[1..]), DigitBits(hash2[0]), HexToBits(hash2[1..]));
    }
  }

  /** The distance does not depend on the order of its arguments. */
  lemma {:induction false} CompareHashesSymmetric(hash1: string, hash2: string)
    requires |hash1| == |hash2| > 0 && IsHex(hash1) && IsHex(hash2)
    ensures CompareHashes(hash1, hash2) == CompareHashes(hash2, hash1)
  {
    if |hash1| > 1 {
      CompareHashesSymmetric(hash1[1..], hash2[1..]);
    }
  }

  /** A hash is at distance 0 from itself. */
  lemma CompareHashesSelf(h: string)
    requires |h| > 0 && IsHex(h)
    ensures CompareHashes(h, h) == 0
  {
  }

  /**
   * For hashes spelled as `str(ImageHash)` spells them (lower case),
   * distance 0 means equal strings: distinct hashes are at positive distance.
   */
  lemma DistinctHashesPositive(hash1: string, hash2: string)
    requires |hash1| == |hash2| > 0 && IsLowerHex(hash1) && IsLowerHex(hash2)
    ensures IsHex(hash1) && IsHex(hash2)
    ensures CompareHashes(hash1, hash2) > 0 <==> hash1 != hash2
  {
    if hash1 != hash2 {
      var i :| 0 <= i < |hash1| && hash1[i] != hash2[i];
      LowerHexValueInjective(hash1[i], hash2[i]);
    }
  }

  /**
   * A match holds exactly from the distance upwards: `is_match` is true for
   * every threshold at least the distance and false for every smaller one.
   */
  lemma IsMatchThreshold(hash1: string, hash2: string, t: int)
    requires |hash1| == |hash2| > 0 && IsHex(hash1) && IsHex(hash2)
    ensures IsMatch(hash1, hash2, t) <==> t >= CompareHashes(hash1, hash2)
    ensures IsMatch(hash1, hash2, t) ==> forall u :: u >= t ==> IsMatch(hash1, hash2, u)
  {
  }

  /** Identical hashes match under any threshold that is not negative. */
  lemma SameHashMatches(h: string, t: int)
    requires |h| > 0 && IsHex(h) && t >= 0
    ensures IsMatch(h, h, t)
  {
  }

  /**
   * Two perceptual hashes the vault computed can always be compared, and
   * they are at positive distance exactly when they differ.
   */
  lemma PerceptualHashesComparable(dhash: DHash, image1: Bytes, image2: Bytes)
    requires SixteenDigitDHashes(dhash) && dhash(image1).Some? && dhash(image2).Some?
    ensures var h1, h2 := dhash(image1).value, dhash(image2).value;
      && |h1| == |h2| > 0 && IsHex(h1) && IsHex(h2)
      && (CompareHashes(h1, h2) > 0 <==> h1 != h2)
  {
    DistinctHashesPositive(dhash(image1).value, dhash(image2).value);
  }
}
