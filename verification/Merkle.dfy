/**
 * Merkle trees over a block's transactions: the reference definition of the root and the
 * construction that lays the whole tree out in one array (merkle.go).
 *
 * The double SHA-256 of two concatenated hashes is a parameter, `combine`; nothing is assumed of it.
 */
module Merkle {
  import opened Bits
  import opened BlockTree
  import opened Wrappers

  type Combiner = (Hash, Hash) -> Hash

  datatype Tx = Tx(hash: Hash, witnessHash: Hash)

  /** The leaf that transaction `i` contributes; the coinbase's witness hash is all zeroes. */
  function LeafHash(txs: seq<Tx>, forWitness: bool, i: nat): Hash
    requires i < |txs|
  {
    if forWitness && i == 0 then ZERO_HASH
    else if forWitness then txs[i].witnessHash
    else txs[i].hash
  }

  function Leaves(txs: seq<Tx>, forWitness: bool): (leaves: seq<Hash>)
    ensures |leaves| == |txs|
  {
    seq(|txs|, i requires 0 <= i < |txs| => LeafHash(txs, forWitness, i))
  }

  // ----- the reference definition -----

  function Last<T>(s: seq<T>): T
    requires s != []
  {
    s[|s| - 1]
  }

  /** The row above `row`: neighbours are hashed together, a last node without a neighbour with itself. */
  function RowAbove(combine: Combiner, row: seq<Hash>): (above: seq<Hash>)
    ensures |above| == (|row| + 1) / 2
    decreases |row|
  {
    var n := |row|;
    if n == 0 then []
    else if n % 2 == 1 then RowAbove(combine, row[..n - 1]) + [combine(row[n - 1], row[n - 1])]
    else RowAbove(combine, row[..n - 2]) + [combine(row[n - 2], row[n - 1])]
  }

  lemma {:induction false} RowAboveAt(combine: Combiner, row: seq<Hash>, i: nat)
    requires i < (|row| + 1) / 2
    ensures RowAbove(combine, row)[i] ==
            combine(row[2 * i], if 2 * i + 1 < |row| then row[2 * i + 1] else row[2 * i])
    decreases |row|
  {
    var n := |row|;
    var rest := if n % 2 == 1 then row[..n - 1] else row[..n - 2];
    if i < |rest| / 2 {
      RowAboveAt(combine, rest, i);
    }
  }

  function MerkleRoot(combine: Combiner, row: seq<Hash>): Hash
    requires row != []
    decreases |row|
  {
    if |row| == 1 then row[0] else MerkleRoot(combine, RowAbove(combine, row))
  }

  /** The Merkle root of a block: over the hashes of its transactions, or over their witness hashes. */
  function TxRoot(combine: Combiner, txs: seq<Tx>, forWitness: bool): Hash
    requires txs != []
  {
    MerkleRoot(combine, Leaves(txs, forWitness))
  }

  /** The roots of the smallest blocks, written out. */
  lemma {:induction false} SmallRoots(combine: Combiner, txs: seq<Tx>)
    ensures |txs| == 1 ==> TxRoot(combine, txs, false) == txs[0].hash && TxRoot(combine, txs, true) == ZERO_HASH
    ensures |txs| == 2 ==> TxRoot(combine, txs, false) == combine(txs[0].hash, txs[1].hash)
    ensures |txs| == 2 ==> TxRoot(combine, txs, true) == combine(ZERO_HASH, txs[1].witnessHash)
    ensures |txs| == 3 ==>
      TxRoot(combine, txs, false) == combine(combine(txs[0].hash, txs[1].hash), combine(txs[2].hash, txs[2].hash))
    ensures |txs| == 3 ==>
      TxRoot(combine, txs, true) ==
      combine(combine(ZERO_HASH, txs[1].witnessHash), combine(txs[2].witnessHash, txs[2].witnessHash))
  {
    if 0 < |txs| <= 3 {
      SmallRow(combine, Leaves(txs, false));
      SmallRow(combine, Leaves(txs, true));
    }
  }

  lemma {:induction false} SmallRow(combine: Combiner, row: seq<Hash>)
    requires 0 < |row| <= 3
    ensures MerkleRoot(combine, row) ==
      if |row| == 1 then row[0]
      else if |row| == 2 then combine(row[0], row[1])
      else combine(combine(row[0], row[1]), combine(row[2], row[2]))
    decreases |row|
  {
    hide RowAbove;
    if |row| > 1 {
      var above := RowAbove(combine, row);
      RowAboveAt(combine, row, 0);
      if |row| == 3 {
        RowAboveAt(combine, row, 1);
      }
      SmallRow(combine, above);
    }
  }

  /**
   * The plain root is a function of the transaction hashes alone, and the witness root of the witness
   * hashes after the coinbase alone.
   */
  lemma {:induction false} RootDependsOn(combine: Combiner, txs: seq<Tx>, txs': seq<Tx>)
    requires |txs| == |txs'| > 0
    ensures (forall i | 0 <= i < |txs| :: txs[i].hash == txs'[i].hash) ==>
      TxRoot(combine, txs, false) == TxRoot(combine, txs', false)
    ensures (forall i | 0 < i < |txs| :: txs[i].witnessHash == txs'[i].witnessHash) ==>
      TxRoot(combine, txs, true) == TxRoot(combine, txs', true)
  {
    if forall i | 0 <= i < |txs| :: txs[i].hash == txs'[i].hash {
      assert Leaves(txs, false) == Leaves(txs', false);
    }
    if forall i | 0 < i < |txs| :: txs[i].witnessHash == txs'[i].witnessHash {
      assert Leaves(txs, true) == Leaves(txs', true);
    }
  }

  /** Repeating the last node of an odd row never changes the root. */
  lemma {:induction false} RepeatLastKeepsRoot(combine: Combiner, row: seq<Hash>)
    requires |row| % 2 == 1 && |row| > 1
    ensures MerkleRoot(combine, row + [row[|row| - 1]]) == MerkleRoot(combine, row)
  {
    var n := |row|;
    var row' := row + [row[n - 1]];
    assert row'[..n - 1] == row[..n - 1];
    assert RowAbove(combine, row') == RowAbove(combine, row);
  }

  // ----- the array-backed tree -----

  /** `nextPowerOfTwo`, with the exponent computed exactly. */
  function NextPowerOfTwo(n: nat): nat {
    if n == 0 || And(n, n - 1) == 0 then n else Pow2(BitLen(n))
  }

  lemma {:induction false} NextPowerOfTwoIsLeast(n: nat)
    requires n > 0
    ensures exists k: nat :: NextPowerOfTwo(n) == Pow2(k) && IsDepth(n, k)
    ensures n <= NextPowerOfTwo(n) < 2 * n
  {
    PowerOfTwoTest(n);
    BelowPow2BitLen(n);
    if And(n, n - 1) == 0 {
      assert NextPowerOfTwo(n) == Pow2(BitLen(n) - 1);
    } else if n == Pow2(BitLen(n) - 1) {
      PowerOfTwoHasOneBit(BitLen(n) - 1);
      assert false;
    } else {
      assert NextPowerOfTwo(n) == Pow2(BitLen(n));
    }
  }

  lemma {:induction false} PowerOfTwoHasOneBit(k: nat)
    ensures PopCount(Pow2(k)) == 1
  {
    if k > 0 {
      PowerOfTwoHasOneBit(k - 1);
      assert Pow2(k) / 2 == Pow2(k - 1) && Pow2(k) % 2 == 0;
    }
  }

  /** What one parent slot holds, given its two children; `None` is the nil pointer. */
  function Parent(combine: Combiner, left: Option<Hash>, right: Option<Hash>): Option<Hash> {
    match (left, right)
    case (None, _) => None
    case (Some(l), None) => Some(combine(l, l))
    case (Some(l), Some(r)) => Some(combine(l, r))
  }

  function ParentRow(combine: Combiner, row: seq<Option<Hash>>): (above: seq<Option<Hash>>)
    ensures |above| == |row| / 2
  {
    seq(|row| / 2, i requires 0 <= i < |row| / 2 => Parent(combine, row[2 * i], row[2 * i + 1]))
  }

  /** All rows of the padded tree, one after the other, leaves first. */
  function TreeStore(combine: Combiner, row: seq<Option<Hash>>): (store: seq<Option<Hash>>)
    ensures row != [] ==> store != []
    decreases |row|
  {
    if |row| <= 1 then row else row + TreeStore(combine, ParentRow(combine, row))
  }

  function Padded(row: seq<Hash>, size: nat): (padded: seq<Option<Hash>>)
    requires |row| <= size
    ensures |padded| == size
  {
    seq(size, i requires 0 <= i < size => if i < |row| then Some(row[i]) else None)
  }

  lemma {:induction false} PaddingCommutes(combine: Combiner, row: seq<Hash>, half: nat)
    requires |row| <= 2 * half
    ensures ParentRow(combine, Padded(row, 2 * half)) == Padded(RowAbove(combine, row), half)
  {
    var padded := Padded(row, 2 * half);
    forall i | 0 <= i < half
      ensures ParentRow(combine, padded)[i] == Padded(RowAbove(combine, row), half)[i]
    {
      assert ParentRow(combine, padded)[i] == Parent(combine, padded[2 * i], padded[2 * i + 1]);
      if 2 * i < |row| {
        RowAboveAt(combine, row, i);
      }
    }
  }

  /** `k` is the number of rows above the leaf row of a tree with `n` leaves. */
  predicate IsDepth(n: nat, k: nat) {
    0 < n <= Pow2(k) && (k > 0 ==> Pow2(k - 1) < n)
  }

  lemma {:induction false} DepthAbove(n: nat, k: nat)
    requires IsDepth(n, k) && k > 0
    ensures IsDepth((n + 1) / 2, k - 1)
    ensures n > 1
  {
    if k > 1 {
      assert Pow2(k - 1) == 2 * Pow2(k - 2);
    }
  }

  lemma {:induction false} LastSlotOfRowAbove(combine: Combiner, row: seq<Hash>, half: nat)
    requires 1 < |row| <= 2 * half
    ensures Last(TreeStore(combine, Padded(row, 2 * half))) ==
            Last(TreeStore(combine, Padded(RowAbove(combine, row), half)))
  {
    PaddingCommutes(combine, row, half);
  }

  /** The last slot of the array is the root of the unpadded leaves. */
  lemma {:induction false} TreeStoreEndsInRoot(combine: Combiner, row: seq<Hash>, k: nat)
    requires IsDepth(|row|, k)
    ensures Last(TreeStore(combine, Padded(row, Pow2(k)))) == Some(MerkleRoot(combine, row))
    decreases k
  {
    if k > 0 {
      DepthAbove(|row|, k);
      LastSlotOfRowAbove(combine, row, Pow2(k - 1));
      TreeStoreEndsInRoot(combine, RowAbove(combine, row), k - 1);
    }
  }

  /** Slot `j` above the leaf row of `size` slots is computed from its two children. */
  predicate SlotFilled(combine: Combiner, slots: seq<Option<Hash>>, size: nat, j: nat)
    requires size <= j < |slots| < 2 * size
  {
    slots[j] == Parent(combine, slots[2 * (j - size)], slots[2 * (j - size) + 1])
  }

  predicate FilledUpTo(combine: Combiner, slots: seq<Option<Hash>>, size: nat, offset: nat)
    requires size <= offset <= |slots| < 2 * size
  {
    forall j | size <= j < offset :: SlotFilled(combine, slots, size, j)
  }

  lemma {:induction false} FillNext(combine: Combiner, slots: seq<Option<Hash>>, size: nat, offset: nat)
    requires size <= offset < |slots| < 2 * size
    requires FilledUpTo(combine, slots, size, offset)
    ensures 2 * (offset - size) + 1 < offset
    ensures FilledUpTo(combine,
              slots[offset := Parent(combine, slots[2 * (offset - size)], slots[2 * (offset - size) + 1])],
              size, offset + 1)
  {
    var slots' := slots[offset := Parent(combine, slots[2 * (offset - size)], slots[2 * (offset - size) + 1])];
    forall j | size <= j < offset + 1
      ensures SlotFilled(combine, slots', size, j)
    {
      assert j < offset ==> SlotFilled(combine, slots, size, j);
    }
  }

  /** Filling each slot from its two children, left to right, lays out exactly the rows of the tree. */
  lemma {:induction false} SlotsFormTreeStore(combine: Combiner, slots: seq<Option<Hash>>, k: nat)
    requires |slots| == 2 * Pow2(k) - 1
    requires FilledUpTo(combine, slots, Pow2(k), |slots|)
    ensures slots == TreeStore(combine, slots[..Pow2(k)])
    decreases k
  {
    var p := Pow2(k);
    if k > 0 {
      var half := Pow2(k - 1);
      RestIsFilled(combine, slots, half);
      SlotsFormTreeStore(combine, slots[p..], k - 1);
      assert slots == slots[..p] + slots[p..];
    } else {
      assert slots == slots[..p];
    }
  }

  /** Without its leaf row a filled array is the filled array of the row above. */
  lemma {:induction false} RestIsFilled(combine: Combiner, slots: seq<Option<Hash>>, half: nat)
    requires half >= 1 && |slots| == 4 * half - 1
    requires FilledUpTo(combine, slots, 2 * half, |slots|)
    ensures FilledUpTo(combine, slots[2 * half..], half, 2 * half - 1)
    ensures slots[2 * half..][..half] == ParentRow(combine, slots[..2 * half])
  {
    var rest := slots[2 * half..];
    forall j | half <= j < |rest|
      ensures SlotFilled(combine, rest, half, j)
    {
      assert SlotFilled(combine, slots, 2 * half, 2 * half + j);
    }
    forall i | 0 <= i < half
      ensures rest[i] == ParentRow(combine, slots[..2 * half])[i]
    {
      assert SlotFilled(combine, slots, 2 * half, 2 * half + i);
    }
  }

  lemma {:induction false} FilledArrayIsTree(combine: Combiner, slots: seq<Option<Hash>>, leaves: seq<Hash>, k: nat)
    requires |slots| == 2 * Pow2(k) - 1 && IsDepth(|leaves|, k)
    requires slots[..Pow2(k)] == Padded(leaves, Pow2(k))
    requires FilledUpTo(combine, slots, Pow2(k), |slots|)
    ensures slots == TreeStore(combine, Padded(leaves, Pow2(k)))
    ensures Last(slots) == Some(MerkleRoot(combine, leaves))
  {
    SlotsFormTreeStore(combine, slots, k);
    TreeStoreEndsInRoot(combine, leaves, k);
  }

  method FillLeaves(merkles: array<Option<Hash>>, txs: seq<Tx>, forWitness: bool, ghost size: nat)
    requires |txs| <= size <= merkles.Length
    requires forall j :: 0 <= j < merkles.Length ==> merkles[j] == None
    modifies merkles
    ensures merkles[..size] == Padded(Leaves(txs, forWitness), size)
  {
    for i := 0 to |txs|
      invariant forall j :: 0 <= j < i ==> merkles[j] == Some(Leaves(txs, forWitness)[j])
      invariant forall j :: i <= j < merkles.Length ==> merkles[j] == None
    {
      if forWitness && i == 0 {
        merkles[i] := Some(ZERO_HASH);
      } else if forWitness {
        merkles[i] := Some(txs[i].witnessHash);
      } else {
        merkles[i] := Some(txs[i].hash);
      }
    }
  }

  method FillParents(combine: Combiner, merkles: array<Option<Hash>>, size: nat)
    requires size > 0 && merkles.Length == 2 * size - 1
    modifies merkles
    ensures merkles[..size] == old(merkles[..size])
    ensures FilledUpTo(combine, merkles[..], size, 2 * size - 1)
  {
    var offset := size;
    var i := 0;
    while i < 2 * size - 2
      invariant 0 <= i <= 2 * size - 2 && i == 2 * (offset - size)
      invariant merkles[..size] == old(merkles[..size])
      invariant FilledUpTo(combine, merkles[..], size, offset)
    {
      ghost var before := merkles[..];
      FillNext(combine, before, size, offset);
      if merkles[i] == None {
        merkles[offset] := None;
      } else if merkles[i + 1] == None {
        merkles[offset] := Some(combine(merkles[i].value, merkles[i].value));
      } else {
        merkles[offset] := Some(combine(merkles[i].value, merkles[i + 1].value));
      }
      assert merkles[..] == before[offset := Parent(combine, before[i], before[i + 1])];
      offset := offset + 1;
      i := i + 2;
    }
  }

  /** The array holds every row of the tree, and its last slot the Merkle root. */
  method BuildMerkleTreeStore(combine: Combiner, txs: seq<Tx>, forWitness: bool) returns (merkles: array<Option<Hash>>)
    requires txs != []
    ensures |txs| <= NextPowerOfTwo(|txs|)
    ensures merkles[..] == TreeStore(combine, Padded(Leaves(txs, forWitness), NextPowerOfTwo(|txs|)))
    ensures merkles.Length > 0
    ensures merkles[merkles.Length - 1] == Some(TxRoot(combine, txs, forWitness))
  {
    hide TreeStore, MerkleRoot, Padded, FilledUpTo, Leaves, NextPowerOfTwo, Pow2;
    var nextPoT := NextPowerOfTwo(|txs|);
    NextPowerOfTwoIsLeast(|txs|);
    ghost var k: nat :| nextPoT == Pow2(k) && IsDepth(|txs|, k);
    merkles := new Option<Hash>[nextPoT * 2 - 1](_ => None);
    FillLeaves(merkles, txs, forWitness, nextPoT);
    FillParents(combine, merkles, nextPoT);
    assert merkles[..][..nextPoT] == merkles[..nextPoT];
    FilledArrayIsTree(combine, merkles[..], Leaves(txs, forWitness), k);
  }
}
