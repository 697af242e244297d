/**
 * The rolling Merkle tree (rolling_merkle.go): a binary counter of perfect subtree roots that
 * computes a Merkle root with logarithmic memory, and its agreement with the reference root.
 */
module RollingMerkle {
  import opened Bits
  import opened BlockTree
  import opened Merkle

  // ----- what the roots mean -----

  /** The roots of the maximal perfect subtrees over `row`, tallest first. */
  function PerfectRoots(combine: Combiner, row: seq<Hash>): seq<Hash>
    decreases |row|
  {
    if row == [] then []
    else if |row| % 2 == 1 then PerfectRoots(combine, RowAbove(combine, row[..|row| - 1])) + [Last(row)]
    else PerfectRoots(combine, RowAbove(combine, row))
  }

  /** There is one root for each 1 bit of the number of leaves. */
  lemma {:induction false} OneRootPerBit(combine: Combiner, row: seq<Hash>)
    ensures |PerfectRoots(combine, row)| == PopCount(|row|)
    decreases |row|
  {
    hide RowAbove;
    if row == [] {
    } else if |row| % 2 == 1 {
      var above := RowAbove(combine, row[..|row| - 1]);
      OneRootPerBit(combine, above);
      assert |above| == |row| / 2;
      assert PopCount(|row|) == 1 + PopCount(|above|);
    } else {
      var above := RowAbove(combine, row);
      OneRootPerBit(combine, above);
      assert |above| == |row| / 2;
    }
  }

  lemma {:induction false} AppendToEvenRow(combine: Combiner, row: seq<Hash>, x: Hash)
    requires |row| % 2 == 0
    ensures PerfectRoots(combine, row + [x]) == PerfectRoots(combine, row) + [x]
  {
    assert (row + [x])[..|row|] == row;
  }

  /** The row that an odd row's perfect subtrees leave when its last node is taken off. */
  function Carried(combine: Combiner, row: seq<Hash>): (above: seq<Hash>)
    requires |row| % 2 == 1
    ensures |above| == |row| / 2 && BitLen(|above|) == BitLen(|row|) - 1
  {
    RowAbove(combine, row[..|row| - 1])
  }

  /** Adding to an odd row carries: the last root and the new node are hashed into the row above. */
  lemma {:induction false} AppendToOddRow(combine: Combiner, row: seq<Hash>, x: Hash)
    requires |row| % 2 == 1
    ensures PerfectRoots(combine, row) == PerfectRoots(combine, Carried(combine, row)) + [Last(row)]
    ensures PerfectRoots(combine, row + [x]) ==
            PerfectRoots(combine, Carried(combine, row) + [combine(Last(row), x)])
  {
    var n := |row|;
    assert (row + [x])[..n - 1] == row[..n - 1];
    assert RowAbove(combine, row + [x]) == RowAbove(combine, row[..n - 1]) + [combine(Last(row), x)];
  }

  /** Once a single root is left it is the Merkle root. */
  lemma {:induction false} SingleRootIsMerkleRoot(combine: Combiner, row: seq<Hash>)
    requires row != [] && |PerfectRoots(combine, row)| == 1
    ensures PerfectRoots(combine, row)[0] == MerkleRoot(combine, row)
    decreases |row|
  {
    if |row| % 2 == 0 {
      SingleRootIsMerkleRoot(combine, RowAbove(combine, row));
    } else if |row| > 1 {
      OneRootPerBit(combine, RowAbove(combine, row[..|row| - 1]));
      PopCountPositive(|row| / 2);
      assert false;
    }
  }

  /** `bits.Len64(size-1)`, the capacity reserved for the roots of `size` leaves. */
  function RootCapacity(size: nat): nat {
    if size == 0 then 0 else BitLen(size - 1)
  }

  /** The most leaves the store ever counts for `size` transactions: an odd last one is added twice. */
  function MostLeaves(size: nat): nat {
    if size > 1 then size + size % 2 else size
  }

  /** The roots always fit the reserved capacity, except that none is reserved for the root of a single leaf. */
  lemma {:induction false} RootsFitCapacity(combine: Combiner, size: nat)
    ensures (forall row: seq<Hash> | |row| <= MostLeaves(size) ::
               |PerfectRoots(combine, row)| <= RootCapacity(size)) <==> size != 1
  {
    hide PerfectRoots;
    if size == 1 {
      OneRootPerBit(combine, [ZERO_HASH]);
      PopCountOfOne();
      assert |PerfectRoots(combine, [ZERO_HASH])| == 1;
    } else {
      forall row: seq<Hash> | |row| <= MostLeaves(size)
        ensures |PerfectRoots(combine, row)| <= RootCapacity(size)
      {
        OneRootPerBit(combine, row);
        FewBits(|row|, size);
      }
    }
  }

  lemma {:induction false} FewBits(n: nat, size: nat)
    requires size != 1 && n <= MostLeaves(size)
    ensures PopCount(n) <= RootCapacity(size)
  {
    if 0 < n < size {
      PopCountAtMostBitLen(n);
      BitLenMonotone(n, size - 1);
    } else if n == size && size > 0 {
      BitsOfSuccessor(size - 1);
    } else if n > size {
      assert PopCount(size + 1) == PopCount(size / 2 + 1) && BitLen(size - 1) == 1 + BitLen(size / 2);
      BitsOfSuccessor(size / 2);
    }
  }

  lemma {:induction false} BitsOfSuccessor(n: nat)
    requires n > 0
    ensures PopCount(n + 1) <= BitLen(n)
  {
    if n % 2 == 1 {
      assert (n + 1) / 2 == n / 2 + 1;
      if n > 1 {
        BitsOfSuccessor(n / 2);
      } else {
        assert PopCount(2) == PopCount(1) == 1;
      }
    } else {
      assert (n + 1) / 2 == n / 2;
      PopCountAtMostBitLen(n / 2);
    }
  }

  // ----- the store -----

  class RollingMerkleTreeStore {
    const combine: Combiner
    var roots: seq<Hash>
    var numLeaves: nat

    /** The row of the tree whose perfect subtrees `roots` are. */
    ghost var row: seq<Hash>

    ghost predicate Valid()
      reads this
    {
      numLeaves == |row| < TWO_TO_64 && roots == PerfectRoots(combine, row)
    }

    constructor (combine: Combiner)
      ensures Valid() && row == [] && this.combine == combine
    {
      this.combine := combine;
      roots, numLeaves, row := [], 0, [];
    }

    /** Appends one node to the row. */
    method Add(add: Hash)
      requires Valid() && numLeaves + 1 < TWO_TO_64
      modifies this
      ensures Valid() && row == old(row) + [add]
    {
      hide PerfectRoots, Carried, BitLen;
      ghost var cur := row;
      var newRoot := add;
      var h := 0;
      BitLenOf64(numLeaves);
      while Shr(numLeaves, h) % 2 == 1
        invariant numLeaves == old(numLeaves) && row == old(row)
        invariant |cur| == Shr(numLeaves, h)
        invariant h + BitLen(|cur|) <= 64
        invariant roots == PerfectRoots(combine, cur)
        invariant PerfectRoots(combine, cur + [newRoot]) == PerfectRoots(combine, row + [add])
        decreases |cur|
      {
        AppendToOddRow(combine, cur, newRoot);
        var root := roots[|roots| - 1];
        roots := roots[..|roots| - 1];
        newRoot := combine(root, newRoot);
        cur := Carried(combine, cur);
        h := h + 1;
      }
      AppendToEvenRow(combine, cur, newRoot);
      roots := roots + [newRoot];
      numLeaves := numLeaves + 1;
      row := row + [add];
    }

    /** Moves the store up to the first row with an odd number of nodes. */
    method ShiftToOddRow()
      requires Valid() && numLeaves > 0
      modifies this
      ensures Valid() && numLeaves % 2 == 1 && roots == old(roots)
      ensures old(numLeaves) % 2 == 0 ==> numLeaves <= old(numLeaves) / 2
      ensures MerkleRoot(combine, row) == old(MerkleRoot(combine, row))
    {
      var currentLeaves := numLeaves;
      var h := 0;
      while Shr(currentLeaves, h) % 2 == 0
        invariant Valid() && numLeaves == Shr(currentLeaves, h) > 0
        invariant numLeaves <= currentLeaves && (h > 0 ==> numLeaves <= currentLeaves / 2)
        invariant roots == old(roots)
        invariant MerkleRoot(combine, row) == old(MerkleRoot(combine, row))
        decreases numLeaves
      {
        row := RowAbove(combine, row);
        numLeaves := numLeaves / 2;
        h := h + 1;
      }
    }

    /** The first loop of `calcMerkleRoot`: one leaf for each transaction. */
    method AddLeaves(adds: seq<Tx>, forWitness: bool)
      requires Valid() && row == []
      requires |adds| < SLICE_LIMIT
      modifies this
      ensures Valid() && row == Leaves(adds, forWitness)
    {
      hide PerfectRoots;
      ghost var leaves := Leaves(adds, forWitness);
      for i := 0 to |adds|
        invariant Valid() && row == leaves[..i]
      {
        if forWitness && i == 0 {
          Add(ZERO_HASH);
        } else if forWitness {
          Add(adds[i].witnessHash);
        } else {
          Add(adds[i].hash);
        }
        assert leaves[..i + 1] == leaves[..i] + [leaves[i]];
      }
      assert leaves[..|adds|] == leaves;
    }

    method CalcMerkleRoot(adds: seq<Tx>, forWitness: bool) returns (root: Hash)
      requires Valid() && row == []
      requires 0 < |adds| < SLICE_LIMIT
      modifies this
      ensures root == TxRoot(combine, adds, forWitness)
    {
      hide PerfectRoots, RowAbove, MerkleRoot, PopCount;
      ghost var leaves := Leaves(adds, forWitness);
      AddLeaves(adds, forWitness);
      OneRootPerBit(combine, row);
      PopCountOfOne();
      if numLeaves == 1 {
        SingleRootIsMerkleRoot(combine, row);
        return roots[0];
      }

      if |adds| % 2 != 0 {
        RepeatLastKeepsRoot(combine, row);
        Add(if forWitness then adds[|adds| - 1].witnessHash else adds[|adds| - 1].hash);
      }

      OneRootPerBit(combine, row);
      while |roots| > 1
        invariant Valid() && numLeaves % 2 == 0 && 2 <= numLeaves <= SLICE_LIMIT
        invariant |roots| == PopCount(numLeaves)
        invariant MerkleRoot(combine, row) == MerkleRoot(combine, leaves)
        decreases numLeaves
      {
        ShiftToOddRow();
        OneRootPerBit(combine, row);
        AppendToOddRow(combine, row, Last(row));
        RepeatLastKeepsRoot(combine, row);
        Add(roots[|roots| - 1]);
        OneRootPerBit(combine, row);
      }
      PopCountPositive(numLeaves);
      SingleRootIsMerkleRoot(combine, row);
      root := roots[0];
    }
  }

  /** The rolling algorithm computes the reference root of every non-empty list of transactions. */
  method CalcMerkleRoot(combine: Combiner, txs: seq<Tx>, forWitness: bool) returns (root: Hash)
    requires 0 < |txs| < SLICE_LIMIT
    ensures root == TxRoot(combine, txs, forWitness)
  {
    var s := new RollingMerkleTreeStore(combine);
    root := s.CalcMerkleRoot(txs, forWitness);
  }
}
