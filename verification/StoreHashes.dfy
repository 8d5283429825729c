/**
 The store with the hash it really uses, MurmurHash3_x64_128 under the store's seed: which blocks that
 hash is proved to tell apart.
 */
module StoreHashes {
  import opened StoreModel
  import opened StoreExact
  import opened StoreRuns
  import Murmur3
  import HashVectors

  const HASH_SEED: bv32 := 0xad64_fac3

  /** Blocks longer than the hash can take do not occur: a block size is at most 2^30. */
  function MurmurStore(blockSize: int): Config
    requires 0 < blockSize
  {
    Settings(blockSize, (b: Block) => if |b| < 0x8000_0000 then Murmur3.Digest(b, HASH_SEED) else [])
  }

  /** The hash of a block of one zero byte. */
  lemma HashOfZeroByte()
    ensures MurmurStore(1).hash([0])
         == [0xd5, 0x8d, 0xc6, 0xf8, 0xde, 0x0c, 0xc5, 0xc0, 0x02, 0xb9, 0xb2, 0xbf, 0xa5, 0xb9, 0xe6, 0x8f]
  {
    hide Murmur3.Digest;
    HashVectors.ZeroByteDigest();
  }

  /** Two blocks that agree outside of one aligned 16-byte lane. */
  predicate OneLaneApart(x: Block, y: Block, i: int) {
    && |x| == |y| && 0 <= i && 16 * i + 16 <= |x|
    && x[..16 * i] == y[..16 * i] && x[16 * i + 16..] == y[16 * i + 16..]
  }

  lemma OneLaneApartDiffers(blockSize: int, x: Block, y: Block, i: int)
    requires 0 < blockSize && |x| < 0x8000_0000 && OneLaneApart(x, y, i)
    requires MurmurStore(blockSize).hash(x) == MurmurStore(blockSize).hash(y)
    ensures x == y
  {
    hide Murmur3.Digest;
    var pre, suf := x[..16 * i], x[16 * i + 16..];
    var a, b := x[16 * i..16 * i + 16], y[16 * i..16 * i + 16];
    assert x == pre + a + suf && y == pre + b + suf;
    Murmur3.OneLaneNeverCollides(pre, a, b, suf, HASH_SEED);
  }

  /** Blocks that pairwise differ in one lane meet the store's demand on its hash. */
  lemma LaneVariantsAreCollisionFree(blockSize: int, seen: iset<Block>)
    requires 0 < blockSize
    requires forall x :: x in seen ==> |x| < 0x8000_0000
    requires forall x, y :: x in seen && y in seen ==> exists i :: OneLaneApart(x, y, i)
    ensures CollisionFree(MurmurStore(blockSize), seen)
  {
    hide Murmur3.Digest, MurmurStore, OneLaneApart;
    var c := MurmurStore(blockSize);
    forall x, y | x in seen && y in seen && c.hash(x) == c.hash(y)
      ensures x == y
    {
      var i :| OneLaneApart(x, y, i);
      OneLaneApartDiffers(blockSize, x, y, i);
    }
  }

  ghost function BlocksOfSize(blockSize: int): iset<Block> {
    iset x: Block | |x| == blockSize
  }

  /** All blocks of one size of at most 16 bytes do. */
  lemma SmallBlocksAreCollisionFree(blockSize: int)
    requires 0 < blockSize <= 16
    ensures CollisionFree(MurmurStore(blockSize), BlocksOfSize(blockSize))
  {
    hide Murmur3.Digest;
    var c := MurmurStore(blockSize);
    forall x: Block, y: Block | |x| == blockSize && |y| == blockSize && c.hash(x) == c.hash(y)
      ensures x == y
    {
      if blockSize == 16 {
        assert OneLaneApart(x, y, 0);
        OneLaneApartDiffers(blockSize, x, y, 0);
      } else {
        assert [] + x == x && [] + y == y;
        Murmur3.TailNeverCollides([], x, y, HASH_SEED);
      }
    }
  }

  /** A store with such blocks is faithful to sparse files over every careful run from empty, whatever is written. */
  lemma SmallBlocksAreSafe(blockSize: int, disk: map<int, Block>, steps: seq<Step>)
    requires 0 < blockSize <= 16
    requires CarefulRun(MurmurStore(blockSize), BlocksOfSize(blockSize), SparseWorld(Sparse(map[], map[]), map[]), steps)
    ensures var c := MurmurStore(blockSize);
            var w := World(Store(map[], map[], map[], 0, map[], disk), map[]);
            var a := SparseWorld(Sparse(map[], map[]), map[]);
            && WorldOk(c, w) && Run(c, w, steps).Done? && Run(c, w, steps).value.1 == SparseRun(c, a, steps).1
            && Refines(c, BlocksOfSize(blockSize), Run(c, w, steps).value.0, SparseRun(c, a, steps).0)
  {
    hide CarefulRun, Run, SparseRun, MurmurStore, Refines;
    var c := MurmurStore(blockSize);
    var seen := BlocksOfSize(blockSize);
    SmallBlocksAreCollisionFree(blockSize);
    EmptyStoreRefines(c, seen, disk);
    RunRefinesSparseFiles(c, seen, World(Store(map[], map[], map[], 0, map[], disk), map[]),
                          SparseWorld(Sparse(map[], map[]), map[]), steps);
  }
}
