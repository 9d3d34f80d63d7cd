/**
 * `np.array_split(rows, 4)` as `main` (src/time_eval.py) uses it: numpy
 * cuts a sequence of n items into `SECTIONS` contiguous blocks whose sizes
 * are the running sums of n mod 4 sizes n div 4 + 1 followed by sizes n div 4.
 */
module Splitting {

  /** The number of blocks `main` asks for. */
  const SECTIONS: nat := 4

  /** The size numpy gives block k of n items: one more for the first n mod 4 blocks. */
  function BlockSize(n: nat, k: nat): nat {
    n / SECTIONS + (if k < n % SECTIONS then 1 else 0)
  }

  /** Where block k starts: numpy's `cumsum` of the block sizes before it. */
  function BlockStart(n: nat, k: nat): nat {
    if k == 0 then 0 else BlockStart(n, k - 1) + BlockSize(n, k - 1)
  }

  /**
   * The running sum in closed form: k whole shares plus one item for each
   * earlier block that got an extra one.
   */
  lemma {:induction false} BlockStartClosedForm(n: nat, k: nat)
    ensures BlockStart(n, k) == k * (n / SECTIONS) + (if k < n % SECTIONS then k else n % SECTIONS)
  {
    if k > 0 {
      BlockStartClosedForm(n, k - 1);
    }
  }

  /** Blocks start in order, and together the four reach n. */
  lemma {:induction false} BlockStartMonotone(n: nat, k: nat, k': nat)
    requires k <= k'
    ensures BlockStart(n, k) <= BlockStart(n, k')
    ensures BlockStart(n, SECTIONS) == n
    decreases k' - k
  {
    if k < k' {
      BlockStartMonotone(n, k, k' - 1);
    } else {
      BlockStartClosedForm(n, SECTIONS);
      assert n == SECTIONS * (n / SECTIONS) + n % SECTIONS;
    }
  }

  /** The concatenation of a sequence of blocks. */
  function Concat<T>(blocks: seq<seq<T>>): seq<T> {
    if blocks == [] then [] else Concat(blocks[..|blocks| - 1]) + blocks[|blocks| - 1]
  }

  /** Block k of s: the items from BlockStart(k) up to BlockStart(k + 1). */
  function Block<T>(s: seq<T>, k: nat): (block: seq<T>)
    requires k < SECTIONS
    ensures |block| == BlockSize(|s|, k)
  {
    BlockStartMonotone(|s|, k, k + 1);
    BlockStartMonotone(|s|, k + 1, SECTIONS);
    s[BlockStart(|s|, k)..BlockStart(|s|, k + 1)]
  }

  /** `np.array_split(s, 4)`. */
  function ArraySplit<T>(s: seq<T>): (blocks: seq<seq<T>>)
    ensures |blocks| == SECTIONS
    ensures forall k :: 0 <= k < SECTIONS ==> |blocks[k]| == BlockSize(|s|, k)
  {
    seq(SECTIONS, k requires 0 <= k < SECTIONS => Block(s, k))
  }

  /**
   * The first i blocks, concatenated, are the first BlockStart(i) items: the
   * blocks are contiguous, in order, and together they are the whole input.
   */
  lemma {:induction false} ArraySplitPrefix<T>(s: seq<T>, i: nat)
    requires i <= SECTIONS
    ensures BlockStart(|s|, i) <= |s|
    ensures Concat(ArraySplit(s)[..i]) == s[..BlockStart(|s|, i)]
  {
    var n := |s|;
    BlockStartMonotone(n, i, SECTIONS);
    if i > 0 {
      ArraySplitPrefix(s, i - 1);
      BlockStartMonotone(n, i - 1, i);
      var blocks := ArraySplit(s);
      var a, c := BlockStart(n, i - 1), BlockStart(n, i);
      assert blocks[..i][..i - 1] == blocks[..i - 1];
      assert blocks[i - 1] == s[a..c];
      assert Concat(blocks[..i]) == s[..a] + s[a..c];
      assert s[..a] + s[a..c] == s[..c];
    }
  }

  lemma ArraySplitConcat<T>(s: seq<T>)
    ensures Concat(ArraySplit(s)) == s
  {
    ArraySplitPrefix(s, SECTIONS);
    assert ArraySplit(s)[..SECTIONS] == ArraySplit(s);
  }

  /**
   * Blocks 1 .. 3, the ones `main` tests on, are in order exactly the items
   * after block 0: each of those items is tested once.
   */
  lemma TestBlocksCoverRest<T>(s: seq<T>)
    ensures BlockStart(|s|, 1) <= |s|
    ensures ArraySplit(s)[1] + ArraySplit(s)[2] + ArraySplit(s)[3] == s[BlockStart(|s|, 1)..|s|]
  {
    var n, b := |s|, ArraySplit(s);
    BlockStartMonotone(n, 1, 2);
    BlockStartMonotone(n, 2, 3);
    BlockStartMonotone(n, 3, 4);
    var b1, b2, b3 := BlockStart(n, 1), BlockStart(n, 2), BlockStart(n, 3);
    assert b[1] == s[b1..b2] && b[2] == s[b2..b3] && b[3] == s[b3..n];
    AdjacentSlices(s, b1, b2, b3);
    AdjacentSlices(s, b1, b3, n);
  }

  /** Two adjacent slices make up the slice spanning both. */
  lemma AdjacentSlices<T>(s: seq<T>, i: nat, j: nat, k: nat)
    requires i <= j <= k <= |s|
    ensures s[i..j] + s[j..k] == s[i..k]
  {
  }
}
