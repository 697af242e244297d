/** The unspent outputs in the database (chainio.go): their keys, their values, and the search by transaction. */
module UtxoSet {
  import opened Amounts
  import opened Bits
  import opened Bytes
  import opened Scripts
  import opened SpendJournal
  import opened TxOuts
  import opened Vlq
  import opened Wrappers

  const HASH_SIZE: nat := 32

  datatype UtxoEntry = UtxoEntry(out: TxOut, height: int, isCoinBase: bool, isSpent: bool)

  // ----- values -----

  /** `serializeUtxoEntry`; a spent output has no serialisation. */
  function EncodeUtxo(curve: Curve, entry: UtxoEntry): Option<seq<Byte>>
    requires IsInt32(entry.height)
  {
    if entry.isSpent then None
    else Some(Encode(HeaderCode(entry.height, entry.isCoinBase)) + EncodeTxOut(curve, entry.out))
  }

  /** `deserializeUtxoEntry`. */
  function DecodeUtxo(curve: Curve, s: seq<Byte>): Result<UtxoEntry, DecodeError> {
    var (number, offset) := Decode(s);
    if offset >= |s| then Err(UnexpectedEnd)
    else
      var code := number % TWO_TO_64;
      match DecodeTxOut(curve, s[offset..])
      case Err(e) => Err(e)
      case Ok((out, _)) => Ok(UtxoEntry(out, Int32(code / 2), code % 2 == 1, false))
  }

  predicate StorableEntry(curve: Curve, entry: UtxoEntry) {
    IsInt32(entry.height) && OutStorable(curve, entry.out)
  }

  lemma {:induction false} UtxoRoundTrip(curve: Curve, entry: UtxoEntry)
    requires CurveOk(curve) && StorableEntry(curve, entry)
    ensures match EncodeUtxo(curve, entry)
      case None => entry.isSpent
      case Some(s) => DecodeUtxo(curve, s) == Ok(entry)
  {
    hide Encode, Decode, EncodeTxOut, DecodeTxOut, CurveOk, OutStorable, HeaderCode, Int32;
    if !entry.isSpent {
      var code := HeaderCode(entry.height, entry.isCoinBase);
      var a, c := Encode(code), EncodeTxOut(curve, entry.out);
      HeaderCodeReread(entry.height, entry.isCoinBase);
      RoundTrip(code, c);
      assert (a + c)[|a|..] == c && c + [] == c;
      TxOutNotEmpty(curve, entry.out);
      TxOutRoundTrip(curve, entry.out, []);
    }
  }

  /** The unspent outputs that chainio.go lists: of blocks 1, 113931 and 338156. */
  lemma {:induction false} DocumentedUnspent(curve: Curve, x: seq<Byte>, y: seq<Byte>, hash: seq<Byte>)
    requires |x| == |y| == 32 && curve.parses([0x04] + x + y) && y[31] % 2 == 0 && |hash| == 20
    ensures EncodeUtxo(curve, UtxoEntry(TxOut(5000000000, [0x41, 0x04] + x + y + [0xac]), 1, true, false)) ==
      Some([0x03, 0x32, 0x04] + x)
    ensures
      EncodeUtxo(curve, UtxoEntry(TxOut(15000000, [0x76, 0xa9, 0x14] + hash + [0x88, 0xac]), 113931, false, false)) ==
      Some([0x8c, 0xf3, 0x16, 0x80, 0x09, 0x00] + hash)
    ensures EncodeUtxo(curve, UtxoEntry(TxOut(366875659, [0xa9, 0x14] + hash + [0x87]), 338156, false, false)) ==
      Some([0xa8, 0xa2, 0x58, 0x8b, 0xa5, 0xb9, 0xe7, 0x63, 0x01] + hash)
  {
    hide Encode, CompressScript, CompressAmount;
    StandardForms(curve, hash, x, y);
    SmallPowers();
    DocumentedCodes();
    DocumentedLargeCode();
    hide Pow10;
    CodeOf(5000000000, 5, 9);
    CodeOf(15000000, 15, 6);
    CodeOf(366875659, 366875659, 0);
    assert [0x03] + ([0x32] + ([0x04] + x)) == [0x03, 0x32, 0x04] + x;
    assert [0x8c, 0xf3, 0x16] + ([0x80, 0x09] + ([0x00] + hash)) == [0x8c, 0xf3, 0x16, 0x80, 0x09, 0x00] + hash;
    assert [0xa8, 0xa2, 0x58] + ([0x8b, 0xa5, 0xb9, 0xe7, 0x63] + ([0x01] + hash)) ==
      [0xa8, 0xa2, 0x58, 0x8b, 0xa5, 0xb9, 0xe7, 0x63, 0x01] + hash;
  }

  lemma {:induction false} DocumentedCodes()
    ensures Encode(3) == [0x03] && Encode(50) == [0x32]
    ensures Encode(227862) == [0x8c, 0xf3, 0x16] && Encode(137) == [0x80, 0x09]
    ensures Encode(676312) == [0xa8, 0xa2, 0x58]
  {
  }

  lemma {:induction false} DocumentedLargeCode()
    ensures Encode(3301880931) == [0x8b, 0xa5, 0xb9, 0xe7, 0x63]
  {
  }

  /** `serializeUtxoEntry`: the buffer is exactly as large as what is written. */
  method SerializeUtxoEntry(curve: Curve, entry: UtxoEntry) returns (serialized: Option<seq<Byte>>)
    requires IsInt32(entry.height)
    ensures serialized == EncodeUtxo(curve, entry)
  {
    hide Encode, EncodeTxOut, HeaderCode, Placed;
    if entry.isSpent {
      return None;
    }
    var headerCode := HeaderCode(entry.height, entry.isCoinBase);
    var headerSize := SerializeSizeVlq(headerCode);
    var outSize := CompressedTxOutSize(curve, entry.out);
    var buffer := new Byte[headerSize + outSize];
    ghost var was := buffer[..];
    var offset := PutVlq(buffer, 0, headerCode);
    ghost var mid := buffer[..];
    var written := PutCompressedTxOut(buffer, offset, curve, entry.out);
    PlacedTwice(buffer[..], mid, was, 0, Encode(headerCode), EncodeTxOut(curve, entry.out));
    PlacedWhole(buffer[..], was, Encode(headerCode) + EncodeTxOut(curve, entry.out));
    serialized := Some(buffer[..]);
  }

  lemma {:induction false} PlacedWhole(now: seq<Byte>, was: seq<Byte>, part: seq<Byte>)
    requires Placed(now, was, 0, part) && |was| == |part|
    ensures now == part
  {
  }

  // ----- keys -----

  /** `outpointKey`. */
  function OutpointKey(hash: seq<Byte>, index: nat): seq<Byte> {
    hash + Encode(index)
  }

  /** Different outputs have different keys. */
  lemma {:induction false} KeysDistinct(hash: seq<Byte>, index: nat, hash': seq<Byte>, index': nat)
    requires |hash| == |hash'| && OutpointKey(hash, index) == OutpointKey(hash', index')
    ensures hash == hash' && index == index'
  {
    hide Encode;
    var k := OutpointKey(hash, index);
    assert k[..|hash|] == hash && k[..|hash|] == hash';
    assert k[|hash|..] == Encode(index) && k[|hash|..] == Encode(index');
    PrefixFree(index, index');
  }

  /** A key of some output of the transaction `hash`. */
  predicate KeyOfHash(key: seq<Byte>, hash: seq<Byte>) {
    |key| > |hash| && key[..|hash|] == hash
  }

  predicate LexAtLeast(s: seq<Byte>, t: seq<Byte>) {
    s == t || LexLess(t, s)
  }

  predicate Sorted(keys: seq<seq<Byte>>) {
    forall i, j | 0 <= i < j < |keys| :: LexLess(keys[i], keys[j])
  }

  /** `Seek` puts a cursor on the first key that is not less, or past the end. */
  predicate Seeks(keys: seq<seq<Byte>>, key: seq<Byte>, at: nat) {
    && at <= |keys|
    && (forall i | 0 <= i < at :: LexLess(keys[i], key))
    && (at < |keys| ==> LexAtLeast(keys[at], key))
  }

  /** Between two strings with a common beginning everything has that beginning. */
  lemma {:induction false} BetweenSharesPrefix(p: seq<Byte>, a: seq<Byte>, x: seq<Byte>, b: seq<Byte>)
    requires LexAtLeast(x, p + a) && LexAtLeast(p + b, x)
    ensures |x| >= |p| && x[..|p|] == p
  {
    if p != [] {
      assert (p + a)[1..] == p[1..] + a && (p + b)[1..] == p[1..] + b;
      assert (p + a)[0] == p[0] == (p + b)[0];
      BetweenSharesPrefix(p[1..], a, x[1..], b);
      assert x == [x[0]] + x[1..] && x[..|p|] == [x[0]] + x[1..][..|p| - 1];
    }
  }

  /** The key with index zero is the lowest of its transaction. */
  lemma {:induction false} ZeroKeyLowest(hash: seq<Byte>, key: seq<Byte>)
    requires KeyOfHash(key, hash)
    ensures LexAtLeast(key, OutpointKey(hash, 0))
  {
    var rest := key[|hash|..];
    assert key == hash + rest;
    assert Encode(0) == [0];
    if rest[0] > 0 {
      LexPrefix(hash, [0], rest);
    } else if |rest| > 1 {
      assert LexLess([], rest[1..]) && [0][1..] == [];
      LexPrefix(hash, [0], rest);
    } else {
      assert rest == [0];
    }
  }

  lemma {:induction false} NotBelowItself(s: seq<Byte>, t: seq<Byte>)
    requires LexAtLeast(s, t)
    ensures !LexLess(s, t)
  {
    LexIrreflexive(s);
    if LexLess(s, t) && LexLess(t, s) {
      LexTransitive(s, t, s);
    }
  }

  /**
   * Seeking the key with index zero lands on an entry of the transaction exactly when there is one.
   * A bare hash sorts before that key, so an entry found is never one.
   */
  lemma {:induction false} SeekFinds(keys: seq<seq<Byte>>, hash: seq<Byte>, at: nat)
    requires Sorted(keys) && Seeks(keys, OutpointKey(hash, 0), at)
    ensures at < |keys| && |keys[at]| >= |hash| && keys[at][..|hash|] == hash <==>
      exists i :: 0 <= i < |keys| && KeyOfHash(keys[i], hash)
    ensures at < |keys| && |keys[at]| >= |hash| && keys[at][..|hash|] == hash ==> KeyOfHash(keys[at], hash)
  {
    hide LexLess, Encode;
    if at < |keys| && |keys[at]| >= |hash| && keys[at][..|hash|] == hash {
      if |keys[at]| == |hash| {
        BareHashBelow(hash);
        assert keys[at] == hash;
        NotBelowItself(keys[at], OutpointKey(hash, 0));
      }
    }
    if i :| 0 <= i < |keys| && KeyOfHash(keys[i], hash) {
      ZeroKeyLowest(hash, keys[i]);
      if i < at {
        NotBelowItself(keys[i], OutpointKey(hash, 0));
      }
      assert keys[i] == hash + keys[i][|hash|..];
      BetweenSharesPrefix(hash, Encode(0), keys[at], keys[i][|hash|..]);
    }
  }

  lemma {:induction false} BareHashBelow(hash: seq<Byte>)
    ensures LexLess(hash, OutpointKey(hash, 0))
  {
    LexPrefix(hash, [], [0]);
    assert hash + [] == hash && Encode(0) == [0];
  }

  /** `dbFetchUtxoEntryByHash`, on a cursor that `Seek` has put at `at`. */
  method FetchUtxoEntryByHash(curve: Curve, rows: map<seq<Byte>, seq<Byte>>, keys: seq<seq<Byte>>, hash: seq<Byte>,
                              at: nat)
    returns (found: Option<Result<UtxoEntry, DecodeError>>)
    requires |hash| == HASH_SIZE && Sorted(keys) && (forall i | 0 <= i < |keys| :: keys[i] in rows)
    requires Seeks(keys, OutpointKey(hash, 0), at)
    ensures found.Some? <==> exists i :: 0 <= i < |keys| && KeyOfHash(keys[i], hash)
    ensures found.Some? ==>
      exists i :: 0 <= i < |keys| && KeyOfHash(keys[i], hash) && found.value == DecodeUtxo(curve, rows[keys[i]])
  {
    hide DecodeUtxo, OutpointKey, Sorted, Seeks;
    SeekFinds(keys, hash, at);
    SeekInRange(keys, OutpointKey(hash, 0), at);
    if at == |keys| {
      return None;
    }
    var cursorKey := keys[at];
    if |cursorKey| < HASH_SIZE {
      return None;
    }
    if hash != cursorKey[..HASH_SIZE] {
      return None;
    }
    found := Some(DecodeUtxo(curve, rows[cursorKey]));
  }

  lemma {:induction false} SeekInRange(keys: seq<seq<Byte>>, key: seq<Byte>, at: nat)
    requires Seeks(keys, key, at)
    ensures at <= |keys|
  {
  }
}
