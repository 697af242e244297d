/**
 * The spend journal (chainio.go): the outputs a block spends, written last one first, to be read back
 * when the block is disconnected.
 */
module SpendJournal {
  import opened Amounts
  import opened Bits
  import opened Bytes
  import opened Scripts
  import opened TxOuts
  import opened Vlq
  import opened Wrappers

  const TWO_TO_31: int := 0x8000_0000
  const TWO_TO_32: int := 0x1_0000_0000

  /** Heights are 32-bit signed numbers. */
  datatype SpentTxOut = SpentTxOut(out: TxOut, height: int, isCoinBase: bool)

  predicate IsInt32(n: int) {
    -TWO_TO_31 <= n < TWO_TO_31
  }

  /** The conversion of a signed height to `uint64`. */
  function UInt64(height: int): (n: nat)
    requires IsInt32(height)
    ensures n < TWO_TO_64
  {
    if height < 0 then height + TWO_TO_64 else height
  }

  /** The conversion of a number to `int32`. */
  function Int32(n: nat): (height: int)
    ensures IsInt32(height)
  {
    var m := n % TWO_TO_32;
    if m < TWO_TO_31 then m else m - TWO_TO_32
  }

  /** The height shifted by one bit, on 64 bits, and the coinbase flag. */
  function HeaderCode(height: int, isCoinBase: bool): (code: nat)
    requires IsInt32(height)
    ensures code < TWO_TO_64
  {
    UInt64(height) * 2 % TWO_TO_64 + if isCoinBase then 1 else 0
  }

  /** The height and the flag are recovered, for negative heights as well. */
  lemma {:induction false} HeaderCodeReread(height: int, isCoinBase: bool)
    requires IsInt32(height)
    ensures var code := HeaderCode(height, isCoinBase);
      code < TWO_TO_64 && Int32(code / 2) == height && (code % 2 == 1 <==> isCoinBase)
  {
    if height < 0 {
      DivUnique(UInt64(height) * 2, TWO_TO_64, 1, TWO_TO_64 + 2 * height);
      DivUnique(HeaderCode(height, isCoinBase) / 2, TWO_TO_32, TWO_TO_31 - 1, TWO_TO_32 + height);
    }
  }

  /** What a spent output must meet to be stored faithfully. */
  predicate Storable(curve: Curve, stxo: SpentTxOut) {
    IsInt32(stxo.height) && OutStorable(curve, stxo.out)
  }

  /** Above height zero a reserved zero follows the header code. */
  function Reserved(height: int): seq<Byte> {
    if height > 0 then Encode(0) else []
  }

  function EncodeSpent(curve: Curve, stxo: SpentTxOut): seq<Byte>
    requires IsInt32(stxo.height)
  {
    Encode(HeaderCode(stxo.height, stxo.isCoinBase)) + Reserved(stxo.height) + EncodeTxOut(curve, stxo.out)
  }

  /** `decodeSpentTxOut`. */
  function DecodeSpent(curve: Curve, s: seq<Byte>): (r: Result<(SpentTxOut, nat), DecodeError>)
    ensures r.Ok? ==> r.value.1 <= |s|
  {
    if s == [] then Err(UnexpectedEnd)
    else
      var (number, offset) := Decode(s);
      if offset >= |s| then Err(UnexpectedEnd)
      else
        var code := number % TWO_TO_64;
        var height := Int32(code / 2);
        var skipped := if height > 0 then Decode(s[offset..]).1 else 0;
        if offset + skipped >= |s| then Err(UnexpectedEnd)
        else match DecodeTxOut(curve, s[offset + skipped..])
          case Err(e) => Err(e)
          case Ok((out, read)) => Ok((SpentTxOut(out, height, code % 2 == 1), offset + skipped + read))
  }

  lemma {:induction false} TxOutNotEmpty(curve: Curve, out: TxOut)
    ensures EncodeTxOut(curve, out) != []
  {
  }

  /** One spent output, whatever follows it. */
  lemma {:induction false} SpentRoundTrip(curve: Curve, stxo: SpentTxOut, rest: seq<Byte>)
    requires CurveOk(curve) && Storable(curve, stxo)
    ensures DecodeSpent(curve, EncodeSpent(curve, stxo) + rest) == Ok((stxo, |EncodeSpent(curve, stxo)|))
  {
    hide Encode, Decode, EncodeTxOut, DecodeTxOut, CurveOk, OutStorable, HeaderCode, Int32;
    var code := HeaderCode(stxo.height, stxo.isCoinBase);
    var a, b, c := Encode(code), Reserved(stxo.height), EncodeTxOut(curve, stxo.out);
    var s := a + b + c + rest;
    HeaderCodeReread(stxo.height, stxo.isCoinBase);
    assert s == a + (b + c + rest) && s[|a|..] == b + (c + rest) && s[|a| + |b|..] == c + rest;
    RoundTrip(code, b + c + rest);
    RoundTrip(0, c + rest);
    TxOutNotEmpty(curve, stxo.out);
    TxOutRoundTrip(curve, stxo.out, rest);
  }

  /** The spent outputs that chainio.go lists: of block 170, and of block 100025. */
  lemma {:induction false} DocumentedSpent(curve: Curve, x: seq<Byte>, y: seq<Byte>, hash: seq<Byte>)
    requires |x| == |y| == 32 && curve.parses([0x04] + x + y) && y[31] % 2 == 1 && |hash| == 20
    ensures EncodeSpent(curve, SpentTxOut(TxOut(5000000000, [0x41, 0x04] + x + y + [0xac]), 9, true)) ==
      [0x13, 0x00, 0x32, 0x05] + x
    ensures
      EncodeSpent(curve, SpentTxOut(TxOut(34405000000, [0x76, 0xa9, 0x14] + hash + [0x88, 0xac]), 100024, false)) ==
      [0x8b, 0x99, 0x70, 0x00, 0x91, 0xf2, 0x0f, 0x00] + hash
  {
    hide Encode, CompressScript, CompressAmount;
    StandardForms(curve, hash, x, y);
    DocumentedNumbers();
  }

  lemma {:induction false} DocumentedNumbers()
    ensures Encode(0) == [0x00] && Encode(0x13) == [0x13] && Encode(200048) == [0x8b, 0x99, 0x70]
    ensures CompressAmount(5000000000) == 50 && Encode(50) == [0x32]
    ensures CompressAmount(34405000000) == 309647 && Encode(309647) == [0x91, 0xf2, 0x0f]
  {
    SmallPowers();
    hide CompressAmount, Pow10;
    CodeOf(5000000000, 5, 9);
    CodeOf(34405000000, 34405, 6);
  }

  // ----- the journal of a block -----

  predicate AllHeightsFit(stxos: seq<SpentTxOut>) {
    forall i | 0 <= i < |stxos| :: IsInt32(stxos[i].height)
  }

  predicate AllStorable(curve: Curve, stxos: seq<SpentTxOut>) {
    forall i | 0 <= i < |stxos| :: Storable(curve, stxos[i])
  }

  /** The last output comes first. */
  function EncodeJournal(curve: Curve, stxos: seq<SpentTxOut>): seq<Byte>
    requires AllHeightsFit(stxos)
  {
    if stxos == [] then []
    else EncodeSpent(curve, stxos[|stxos| - 1]) + EncodeJournal(curve, stxos[..|stxos| - 1])
  }

  /** Reading `n` outputs, the first one read being the last of the list. */
  function DecodeJournal(curve: Curve, s: seq<Byte>, n: nat): Result<seq<SpentTxOut>, DecodeError>
    decreases n
  {
    if n == 0 then Ok([])
    else match DecodeSpent(curve, s)
      case Err(e) => Err(e)
      case Ok((stxo, read)) =>
        match DecodeJournal(curve, s[read..], n - 1)
        case Err(e) => Err(e)
        case Ok(stxos) => Ok(stxos + [stxo])
  }

  lemma {:induction false} DecodeJournalRoundTrip(curve: Curve, stxos: seq<SpentTxOut>, rest: seq<Byte>)
    requires CurveOk(curve) && AllStorable(curve, stxos)
    ensures DecodeJournal(curve, EncodeJournal(curve, stxos) + rest, |stxos|) == Ok(stxos)
    decreases |stxos|
  {
    hide EncodeSpent, DecodeSpent, CurveOk, OutStorable;
    if stxos != [] {
      var last, others := stxos[|stxos| - 1], stxos[..|stxos| - 1];
      var a, b := EncodeSpent(curve, last), EncodeJournal(curve, others);
      assert EncodeJournal(curve, stxos) + rest == a + (b + rest);
      SpentRoundTrip(curve, last, b + rest);
      assert (a + (b + rest))[|a|..] == b + rest;
      DecodeJournalRoundTrip(curve, others, rest);
      assert others + [last] == stxos;
    }
  }

  function Sum(counts: seq<nat>): nat {
    if counts == [] then 0 else Sum(counts[..|counts| - 1]) + counts[|counts| - 1]
  }

  /** `deserializeSpendJournalEntry` for transactions with the given numbers of inputs. */
  function JournalEntry(curve: Curve, s: seq<Byte>, inputs: seq<nat>): Result<seq<SpentTxOut>, DecodeError> {
    if s == [] then if Sum(inputs) != 0 then Err(SizeMismatch) else Ok([])
    else DecodeJournal(curve, s, Sum(inputs))
  }

  lemma {:induction false} SpentNotEmpty(curve: Curve, stxo: SpentTxOut)
    requires IsInt32(stxo.height)
    ensures EncodeSpent(curve, stxo) != []
  {
  }

  /** The journal of a block gives back the outputs it spends, in order. */
  lemma {:induction false} JournalRoundTrip(curve: Curve, stxos: seq<SpentTxOut>, inputs: seq<nat>)
    requires CurveOk(curve) && AllStorable(curve, stxos) && |stxos| == Sum(inputs)
    ensures JournalEntry(curve, EncodeJournal(curve, stxos), inputs) == Ok(stxos)
  {
    hide CurveOk, OutStorable, EncodeSpent, DecodeJournal;
    DecodeJournalRoundTrip(curve, stxos, []);
    assert EncodeJournal(curve, stxos) + [] == EncodeJournal(curve, stxos);
    if stxos != [] {
      SpentNotEmpty(curve, stxos[|stxos| - 1]);
    }
  }

  // ----- the code -----

  /** `spentTxOutSerializeSize`. */
  method SpentTxOutSerializeSize(curve: Curve, stxo: SpentTxOut) returns (size: nat)
    requires IsInt32(stxo.height)
    ensures size == |EncodeSpent(curve, stxo)|
  {
    hide Encode, EncodeTxOut, HeaderCode;
    size := SerializeSizeVlq(HeaderCode(stxo.height, stxo.isCoinBase));
    if stxo.height > 0 {
      var reserved := SerializeSizeVlq(0);
      size := size + reserved;
    }
    var outSize := CompressedTxOutSize(curve, stxo.out);
    size := size + outSize;
  }

  /** `putSpentTxOut` into the slice of `target` from `start` on. */
  method PutSpentTxOut(target: array<Byte>, start: nat, curve: Curve, stxo: SpentTxOut) returns (size: nat)
    requires IsInt32(stxo.height)
    requires start + |EncodeSpent(curve, stxo)| <= target.Length
    modifies target
    ensures size == |EncodeSpent(curve, stxo)|
    ensures Placed(target[..], old(target[..]), start, EncodeSpent(curve, stxo))
  {
    hide Encode, EncodeTxOut, HeaderCode, Placed;
    ghost var was := target[..];
    ghost var header := Encode(HeaderCode(stxo.height, stxo.isCoinBase));
    var offset := PutVlq(target, start, HeaderCode(stxo.height, stxo.isCoinBase));
    ghost var mid := target[..];
    if stxo.height > 0 {
      var reserved := PutVlq(target, start + offset, 0);
      PlacedTwice(target[..], mid, was, start, header, Encode(0));
      offset := offset + reserved;
    } else {
      assert header + [] == header;
    }
    mid := target[..];
    var outSize := PutCompressedTxOut(target, start + offset, curve, stxo.out);
    PlacedTwice(target[..], mid, was, start, header + Reserved(stxo.height), EncodeTxOut(curve, stxo.out));
    size := offset + outSize;
  }

  lemma {:induction false} JournalTake(curve: Curve, stxos: seq<SpentTxOut>, i: nat)
    requires AllHeightsFit(stxos) && i < |stxos|
    ensures EncodeJournal(curve, stxos[..i + 1]) == EncodeSpent(curve, stxos[i]) + EncodeJournal(curve, stxos[..i])
  {
    assert stxos[..i + 1][..i] == stxos[..i];
  }

  /** `serializeSpendJournalEntry`: the buffer is exactly as large as what is written. */
  method SerializeSpendJournalEntry(curve: Curve, stxos: seq<SpentTxOut>) returns (serialized: seq<Byte>)
    requires AllHeightsFit(stxos)
    ensures serialized == EncodeJournal(curve, stxos)
  {
    hide EncodeSpent, EncodeJournal;
    NoJournal(curve, stxos);
    if |stxos| == 0 {
      return [];
    }
    var size := 0;
    NoJournal(curve, stxos[..0]);
    for i := 0 to |stxos|
      invariant size == |EncodeJournal(curve, stxos[..i])|
    {
      JournalTake(curve, stxos, i);
      var n := SpentTxOutSerializeSize(curve, stxos[i]);
      size := size + n;
    }
    assert stxos[..|stxos|] == stxos;
    var buffer := new Byte[size];
    var offset := 0;
    for i := |stxos| downto 0
      invariant 0 <= offset && offset + |EncodeJournal(curve, stxos[..i])| == buffer.Length
      invariant EncodeJournal(curve, stxos) == buffer[..offset] + EncodeJournal(curve, stxos[..i])
    {
      JournalTake(curve, stxos, i);
      ghost var was := buffer[..];
      ghost var part := EncodeSpent(curve, stxos[i]);
      var n := PutSpentTxOut(buffer, offset, curve, stxos[i]);
      assert buffer[..offset + n] == was[..offset] + part;
      offset := offset + n;
    }
    assert buffer[..offset] == buffer[..];
    serialized := buffer[..];
  }

  lemma {:induction false} NoJournal(curve: Curve, stxos: seq<SpentTxOut>)
    requires AllHeightsFit(stxos)
    ensures stxos == [] ==> EncodeJournal(curve, stxos) == []
  {
  }

  /** One output read in front of what is left to read. */
  lemma {:induction false} DecodeOne(curve: Curve, s: seq<Byte>, n: nat)
    requires n > 0
    ensures DecodeJournal(curve, s, n) ==
      match DecodeSpent(curve, s)
      case Err(e) => Err(e)
      case Ok((stxo, read)) => AndThen(DecodeJournal(curve, s[read..], n - 1), [stxo])
  {
  }

  function AndThen(r: Result<seq<SpentTxOut>, DecodeError>, tail: seq<SpentTxOut>)
    : Result<seq<SpentTxOut>, DecodeError>
  {
    match r
    case Err(e) => Err(e)
    case Ok(stxos) => Ok(stxos + tail)
  }

  lemma {:induction false} AndThenTwice(r: Result<seq<SpentTxOut>, DecodeError>, a: seq<SpentTxOut>, b: seq<SpentTxOut>)
    ensures AndThen(AndThen(r, a), b) == AndThen(r, a + b)
  {
    if r.Ok? {
      assert r.value + a + b == r.value + (a + b);
    }
  }

  lemma {:induction false} AndThenNothing(r: Result<seq<SpentTxOut>, DecodeError>, none: seq<SpentTxOut>)
    requires none == []
    ensures AndThen(r, none) == r
  {
    if r.Ok? {
      assert r.value + none == r.value;
    }
  }

  lemma {:induction false} SumTake(counts: seq<nat>, i: nat)
    requires i < |counts|
    ensures Sum(counts[..i + 1]) == Sum(counts[..i]) + counts[i]
  {
    assert counts[..i + 1][..i] == counts[..i];
  }

  /** `deserializeSpendJournalEntry`: backwards through the inputs, filling the list from its end. */
  method DeserializeSpendJournalEntry(curve: Curve, serialized: seq<Byte>, inputs: seq<nat>)
    returns (result: Result<seq<SpentTxOut>, DecodeError>)
    ensures result == JournalEntry(curve, serialized, inputs)
  {
    hide DecodeSpent, DecodeJournal, Sum, AndThen;
    var numStxos := 0;
    NoInputs(inputs[..0]);
    for i := 0 to |inputs|
      invariant numStxos == Sum(inputs[..i])
    {
      SumTake(inputs, i);
      numStxos := numStxos + inputs[i];
    }
    assert inputs[..|inputs|] == inputs;
    if |serialized| == 0 {
      return if numStxos != 0 then Err(SizeMismatch) else Ok([]);
    }
    var nothing := SpentTxOut(TxOut(0, []), 0, false);
    var stxos := new SpentTxOut[numStxos](_ => nothing);
    var stxoIdx := numStxos - 1;
    var offset := 0;
    ghost var whole := DecodeJournal(curve, serialized, numStxos);
    assert serialized[0..] == serialized;
    AndThenNothing(whole, stxos[numStxos..]);
    for txIdx := |inputs| downto 0
      invariant -1 <= stxoIdx < numStxos == stxos.Length && offset <= |serialized|
      invariant stxoIdx + 1 == Sum(inputs[..txIdx])
      invariant whole == AndThen(DecodeJournal(curve, serialized[offset..], stxoIdx + 1), stxos[stxoIdx + 1..])
    {
      SumTake(inputs, txIdx);
      for txInIdx := inputs[txIdx] downto 0
        invariant -1 <= stxoIdx < numStxos == stxos.Length && offset <= |serialized|
        invariant stxoIdx + 1 == Sum(inputs[..txIdx]) + txInIdx
        invariant whole == AndThen(DecodeJournal(curve, serialized[offset..], stxoIdx + 1), stxos[stxoIdx + 1..])
      {
        var idx := stxoIdx;
        stxoIdx := stxoIdx - 1;
        DecodeOne(curve, serialized[offset..], idx + 1);
        var one := DecodeSpent(curve, serialized[offset..]);
        if one.Err? {
          AndThenError(one.error, stxos[idx + 1..]);
          return Err(one.error);
        }
        var (stxo, n) := one.value;
        ghost var tail := stxos[idx + 1..];
        stxos[idx] := stxo;
        assert stxos[idx..] == [stxo] + tail;
        assert serialized[offset..][n..] == serialized[offset + n..];
        AndThenTwice(DecodeJournal(curve, serialized[offset + n..], idx), [stxo], tail);
        offset := offset + n;
      }
    }
    NoInputs(inputs[..0]);
    NothingLeft(curve, serialized[offset..], stxos[..]);
    assert stxos[0..] == stxos[..];
    result := Ok(stxos[..]);
  }

  lemma {:induction false} NoInputs(counts: seq<nat>)
    ensures counts == [] ==> Sum(counts) == 0
  {
  }

  lemma {:induction false} AndThenError(e: DecodeError, tail: seq<SpentTxOut>)
    ensures AndThen(Err(e), tail) == Err(e)
  {
  }

  lemma {:induction false} NothingLeft(curve: Curve, s: seq<Byte>, stxos: seq<SpentTxOut>)
    ensures AndThen(DecodeJournal(curve, s, 0), stxos) == Ok(stxos)
  {
    assert [] + stxos == stxos;
  }
}
