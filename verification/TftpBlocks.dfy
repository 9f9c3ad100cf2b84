/** How a file is cut into numbered TFTP blocks: block k (k >= 1) is the k-th
    stretch of `blksize` bytes, and the first block that is not full, possibly
    empty, is the last one. */
module TftpBlocks {
  import opened Bytes

  /** The bytes of the file before block k + 1. */
  function Prefix(file: seq<byte>, blksize: nat, k: nat): (p: seq<byte>) {
    file[..Min(k * blksize, |file|)]
  }

  function Block(file: seq<byte>, blksize: nat, k: nat): (b: seq<byte>)
    requires k >= 1
  {
    Scale(k - 1, k, blksize);
    file[Min((k - 1) * blksize, |file|)..Min(k * blksize, |file|)]
  }

  function LastBlock(file: seq<byte>, blksize: nat): (n: nat)
    requires blksize >= 1
  {
    |file| / blksize + 1
  }

  /** All blocks up to and including block n, one after another. */
  function Concat(file: seq<byte>, blksize: nat, n: nat): (s: seq<byte>) {
    if n == 0 then [] else Concat(file, blksize, n - 1) + Block(file, blksize, n)
  }

  lemma Scale(a: nat, b: nat, m: nat)
    requires a <= b
    ensures 0 <= a * m <= b * m
  {
  }

  /** Up to which block number the file fills whole blocks. */
  lemma FullBlocks(size: nat, blksize: nat, k: nat)
    requires blksize >= 1
    ensures k * blksize <= size <==> k <= size / blksize
  {
    var q, r := size / blksize, size % blksize;
    assert size == q * blksize + r;
    if k <= q {
      Scale(k, q, blksize);
    } else {
      Scale(q + 1, k, blksize);
      assert (q + 1) * blksize == q * blksize + blksize;
    }
  }

  /** Every block before the last is full; the last is strictly short. */
  lemma BlockLength(file: seq<byte>, blksize: nat, k: nat)
    requires blksize >= 1 && 1 <= k <= LastBlock(file, blksize)
    ensures |Block(file, blksize, k)| <= blksize
    ensures |Block(file, blksize, k)| < blksize <==> k == LastBlock(file, blksize)
  {
    FullBlocks(|file|, blksize, k);
    FullBlocks(|file|, blksize, k - 1);
    assert k * blksize == (k - 1) * blksize + blksize;
  }

  lemma PrefixStep(file: seq<byte>, blksize: nat, k: nat)
    requires k >= 1
    ensures Prefix(file, blksize, k - 1) + Block(file, blksize, k) == Prefix(file, blksize, k)
    ensures Prefix(file, blksize, k) <= file
  {
    Scale(k - 1, k, blksize);
  }

  lemma PrefixWhole(file: seq<byte>, blksize: nat)
    requires blksize >= 1
    ensures Prefix(file, blksize, LastBlock(file, blksize)) == file
  {
    FullBlocks(|file|, blksize, LastBlock(file, blksize));
  }

  lemma {:induction false} ConcatIsPrefix(file: seq<byte>, blksize: nat, n: nat)
    ensures Concat(file, blksize, n) == Prefix(file, blksize, n)
  {
    if n > 0 {
      ConcatIsPrefix(file, blksize, n - 1);
      PrefixStep(file, blksize, n);
    }
  }

  /** size / blksize + 1 blocks, all full but a strictly short last one, concatenate to the file. */
  lemma BlocksPartitionFile(file: seq<byte>, blksize: nat)
    requires blksize >= 1
    ensures Concat(file, blksize, LastBlock(file, blksize)) == file
    ensures forall k | 1 <= k <= LastBlock(file, blksize) ::
              if k < LastBlock(file, blksize)
              then |Block(file, blksize, k)| == blksize
              else |Block(file, blksize, k)| < blksize
  {
    ConcatIsPrefix(file, blksize, LastBlock(file, blksize));
    PrefixWhole(file, blksize);
    forall k | 1 <= k <= LastBlock(file, blksize)
      ensures |Block(file, blksize, k)| <= blksize
      ensures |Block(file, blksize, k)| < blksize <==> k == LastBlock(file, blksize)
    {
      BlockLength(file, blksize, k);
    }
  }
}
