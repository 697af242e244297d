/**
 * Rebuilding the block index from its database rows (chainio.go): reading the rows in key order
 * always finds a block's parent already loaded, and reproduces the data-bearing part of the tree.
 */
module LoadIndex {
  import opened BlockIndex
  import opened BlockTree
  import opened Bytes
  import opened Wrappers

  datatype LoadError = NotGenesis | ParentMissing | TipMissing

  // ----- cursor order -----

  /** `blockIndexKey`; `hashBytes` are the 32 bytes of a hash. */
  function KeyBytes(hashBytes: Hash -> seq<Byte>, key: Key): seq<Byte>
    requires key.height < 0x1_0000_0000
  {
    BigEndian32(key.height) + hashBytes(key.hash)
  }

  /** A cursor visits every row once, in bytewise key order. */
  ghost predicate InCursorOrder(hashBytes: Hash -> seq<Byte>, keys: seq<Key>, rows: map<Key, Row>) {
    && (forall k :: k in keys <==> k in rows)
    && (forall k | k in keys :: k.height < 0x1_0000_0000)
    && (forall i, j | 0 <= i < j < |keys| :: LexLess(KeyBytes(hashBytes, keys[i]), KeyBytes(hashBytes, keys[j])))
  }

  /** Key order is height order. */
  lemma {:induction false} CursorByHeight(hashBytes: Hash -> seq<Byte>, keys: seq<Key>, rows: map<Key, Row>, i: nat,
                                          j: nat)
    requires InCursorOrder(hashBytes, keys, rows) && i < j < |keys|
    ensures keys[i].height <= keys[j].height && keys[i] != keys[j]
  {
    var a, b := keys[i], keys[j];
    LexIrreflexive(KeyBytes(hashBytes, a));
    BigEndianOrder(a.height, b.height);
    if a.height != b.height {
      LexHeads(BigEndian32(a.height), BigEndian32(b.height), hashBytes(a.hash), hashBytes(b.hash));
    }
  }

  // ----- what is on disk -----

  /** Block data is only ever stored on top of stored block data. */
  predicate DataClosed(nodes: map<Hash, BlockNode>, status: map<Hash, Status>)
    requires status.Keys == nodes.Keys
  {
    forall h | h in nodes && status[h].data && nodes[h].parent.Some? ::
      nodes[h].parent.value.hash in status && status[nodes[h].parent.value.hash].data
  }

  /** There is one root, genesis. */
  predicate SingleRoot(nodes: map<Hash, BlockNode>, genesisHash: Hash) {
    genesisHash in nodes && forall h | h in nodes :: nodes[h].parent == None <==> h == genesisHash
  }

  /** An index whose rows were flushed. */
  ghost predicate Flushed(nodes: map<Hash, BlockNode>, status: map<Hash, Status>, rows: map<Key, Row>,
                          genesisHash: Hash)
  {
    && IsTree(nodes) && status.Keys == nodes.Keys
    && RowsExact(nodes, status, rows)
    && DataClosed(nodes, status)
    && SingleRoot(nodes, genesisHash) && status[genesisHash].data
  }

  function DataNodes(nodes: map<Hash, BlockNode>, status: map<Hash, Status>): map<Hash, BlockNode>
    requires status.Keys == nodes.Keys
  {
    map h | h in nodes && status[h].data :: nodes[h]
  }

  function DataStatus(status: map<Hash, Status>): map<Hash, Status> {
    map h | h in status && status[h].data :: status[h]
  }

  lemma {:induction false} RowMeans(nodes: map<Hash, BlockNode>, status: map<Hash, Status>, rows: map<Key, Row>,
                                   genesisHash: Hash, k: Key)
    requires Flushed(nodes, status, rows, genesisHash) && k in rows
    ensures k.hash in nodes && k.hash in status && k.height == nodes[k.hash].height
    ensures rows[k] == Row(nodes[k.hash].header, status[k.hash]) && status[k.hash].data
  {
    hide IsTree;
    assert RowCurrent(nodes, status, rows, k.hash);
  }

  /** The parent of a stored row is stored too, one height below. */
  lemma {:induction false} ParentRow(nodes: map<Hash, BlockNode>, status: map<Hash, Status>, rows: map<Key, Row>,
                                    genesisHash: Hash, k: Key)
    requires Flushed(nodes, status, rows, genesisHash) && k in rows && k.hash != genesisHash
    ensures k.hash in nodes && nodes[k.hash].parent.Some?
    ensures var p := nodes[k.hash].parent.value;
      && p.hash == nodes[k.hash].header.prev && InIndex(nodes, p)
      && p.height + 1 == k.height && Key(p.height, p.hash) in rows
      && nodes[k.hash] == MakeNode(nodes[k.hash].header, Some(p))
  {
    RowMeans(nodes, status, rows, genesisHash, k);
    var p := nodes[k.hash].parent.value;
    assert RowCurrent(nodes, status, rows, p.hash);
  }

  lemma {:induction false} GenesisRow(nodes: map<Hash, BlockNode>, status: map<Hash, Status>, rows: map<Key, Row>,
                                     genesisHash: Hash)
    requires Flushed(nodes, status, rows, genesisHash)
    ensures Key(0, genesisHash) in rows && nodes[genesisHash] == MakeNode(nodes[genesisHash].header, None)
  {
    assert RowCurrent(nodes, status, rows, genesisHash);
  }

  /** When the cursor reaches a row, the row of its parent has been passed; the first row is genesis. */
  lemma {:induction false} ParentComesFirst(hashBytes: Hash -> seq<Byte>, keys: seq<Key>, rows: map<Key, Row>,
                                           nodes: map<Hash, BlockNode>, status: map<Hash, Status>,
                                           genesisHash: Hash, i: nat)
    requires Flushed(nodes, status, rows, genesisHash) && InCursorOrder(hashBytes, keys, rows) && i < |keys|
    ensures i == 0 <==> keys[i].hash == genesisHash
    ensures i > 0 ==> keys[i].hash in nodes && nodes[keys[i].hash].parent.Some?
    ensures i > 0 ==> exists j | 0 <= j < i :: keys[j].hash == nodes[keys[i].hash].parent.value.hash
  {
    hide Flushed, InCursorOrder;
    var k := keys[i];
    RowInCursor(hashBytes, keys, rows, i);
    RowMeans(nodes, status, rows, genesisHash, k);
    GenesisRow(nodes, status, rows, genesisHash);
    var g := KeyIndex(hashBytes, keys, rows, Key(0, genesisHash));
    if k.hash != genesisHash {
      ParentRow(nodes, status, rows, genesisHash, k);
      var p := nodes[k.hash].parent.value;
      var j := KeyIndex(hashBytes, keys, rows, Key(p.height, p.hash));
      if i <= j {
        KeysByHeight(hashBytes, keys, rows, i, j);
      }
    } else if i > 0 {
      RowInCursor(hashBytes, keys, rows, 0);
      var k0 := keys[0];
      CursorByHeight(hashBytes, keys, rows, 0, i);
      RowMeans(nodes, status, rows, genesisHash, k0);
      GenesisHeight(nodes, status, rows, genesisHash);
      if k0.hash != genesisHash {
        ParentRow(nodes, status, rows, genesisHash, k0);
      }
    }
  }

  lemma {:induction false} GenesisHeight(nodes: map<Hash, BlockNode>, status: map<Hash, Status>, rows: map<Key, Row>,
                                        genesisHash: Hash)
    requires Flushed(nodes, status, rows, genesisHash)
    ensures genesisHash in nodes && nodes[genesisHash].height == 0
  {
    GenesisRow(nodes, status, rows, genesisHash);
  }

  lemma {:induction false} KeysByHeight(hashBytes: Hash -> seq<Byte>, keys: seq<Key>, rows: map<Key, Row>, i: nat,
                                        j: nat)
    requires InCursorOrder(hashBytes, keys, rows) && i <= j < |keys|
    ensures keys[i].height <= keys[j].height
  {
    hide InCursorOrder;
    if i < j {
      CursorByHeight(hashBytes, keys, rows, i, j);
    }
  }

  lemma {:induction false} RowInCursor(hashBytes: Hash -> seq<Byte>, keys: seq<Key>, rows: map<Key, Row>, i: nat)
    requires InCursorOrder(hashBytes, keys, rows) && i < |keys|
    ensures keys[i] in rows
  {
    assert keys[i] in keys;
  }

  lemma {:induction false} KeyIndex(hashBytes: Hash -> seq<Byte>, keys: seq<Key>, rows: map<Key, Row>, k: Key)
    returns (j: nat)
    requires InCursorOrder(hashBytes, keys, rows) && k in rows
    ensures j < |keys| && keys[j] == k
  {
    j :| 0 <= j < |keys| && keys[j] == k;
  }

  lemma {:induction false} MadeFromRow(nodes: map<Hash, BlockNode>, status: map<Hash, Status>, rows: map<Key, Row>,
                                      genesisHash: Hash, k: Key)
    requires Flushed(nodes, status, rows, genesisHash) && k in rows
    ensures k.hash in nodes && nodes[k.hash].header.hash == k.hash && nodes[k.hash].hash == k.hash
    ensures nodes[k.hash].parent.Some? ==>
      WellFormed(nodes[k.hash].parent.value) && nodes[k.hash].parent.value.hash == nodes[k.hash].header.prev
    ensures forall h | h in nodes :: nodes[h].hash == h
  {
    RowMeans(nodes, status, rows, genesisHash, k);
  }

  /** Every data-bearing node has its row in the cursor, and nothing else has. */
  lemma {:induction false} LoadedAll(hashBytes: Hash -> seq<Byte>, keys: seq<Key>, rows: map<Key, Row>,
                                    nodes: map<Hash, BlockNode>, status: map<Hash, Status>, genesisHash: Hash)
    requires Flushed(nodes, status, rows, genesisHash) && InCursorOrder(hashBytes, keys, rows)
    ensures nodes.Keys == status.Keys
    ensures (set j | 0 <= j < |keys| :: keys[j].hash) == set h | h in nodes && status[h].data
  {
    hide IsTree;
    forall j | 0 <= j < |keys|
      ensures keys[j].hash in nodes && status[keys[j].hash].data
    {
      RowInCursor(hashBytes, keys, rows, j);
      RowMeans(nodes, status, rows, genesisHash, keys[j]);
    }
    forall h | h in nodes && status[h].data
      ensures exists j :: 0 <= j < |keys| && keys[j].hash == h
    {
      assert RowCurrent(nodes, status, rows, h);
      var j := KeyIndex(hashBytes, keys, rows, KeyOf(nodes, h));
    }
  }

  // ----- the load loop -----

  /**
   * The load loop of `initChainState`, on rows that describe a flushed index: no row is rejected, and
   * the loaded nodes, skip pointers and flags are those of the data-bearing part of that index.
   */
  method LoadBlockIndex(rows: map<Key, Row>, keys: seq<Key>, genesisHash: Hash,
                        ghost hashBytes: Hash -> seq<Byte>,
                        ghost nodes: map<Hash, BlockNode>, ghost status: map<Hash, Status>)
    returns (result: Result<(map<Hash, BlockNode>, map<Hash, Status>), LoadError>)
    requires Flushed(nodes, status, rows, genesisHash) && InCursorOrder(hashBytes, keys, rows)
    ensures result == Ok((DataNodes(nodes, status), DataStatus(status)))
  {
    hide Flushed, InCursorOrder, MakeNode, WellFormed;
    var loaded: map<Hash, BlockNode> := map[];
    var flags: map<Hash, Status> := map[];
    var lastNode: Option<BlockNode> := None;
    var i := 0;
    while i < |keys|
      invariant 0 <= i <= |keys|
      invariant lastNode == None <==> i == 0
      invariant lastNode.Some? ==> lastNode.value.hash in loaded && loaded[lastNode.value.hash] == lastNode.value
      invariant loaded.Keys == flags.Keys == set j | 0 <= j < i :: keys[j].hash
      invariant forall h | h in loaded :: h in nodes && h in status && loaded[h] == nodes[h] && flags[h] == status[h]
    {
      RowInCursor(hashBytes, keys, rows, i);
      var row := rows[keys[i]];
      var header := row.header;
      RowMeans(nodes, status, rows, genesisHash, keys[i]);
      ParentComesFirst(hashBytes, keys, rows, nodes, status, genesisHash, i);
      MadeFromRow(nodes, status, rows, genesisHash, keys[i]);
      var parent: Option<BlockNode> := None;
      if lastNode == None {
        if header.hash != genesisHash {
          return Err(NotGenesis);
        }
        GenesisRow(nodes, status, rows, genesisHash);
      } else {
        ParentRow(nodes, status, rows, genesisHash, keys[i]);
        if header.prev == lastNode.value.hash {
          parent := lastNode;
        } else {
          if header.prev !in loaded {
            return Err(ParentMissing);
          }
          parent := Some(loaded[header.prev]);
        }
      }
      var node := NewBlockNode(header, parent);
      loaded := loaded[header.hash := node];
      flags := flags[header.hash := row.status];
      lastNode := Some(node);
      i := i + 1;
    }
    LoadedAll(hashBytes, keys, rows, nodes, status, genesisHash);
    assert loaded == DataNodes(nodes, status);
    assert flags == DataStatus(status);
    result := Ok((loaded, flags));
  }
}
