/** Compressed transaction outputs (compress.go): an amount and a script, and what becomes of a truncated one. */
module TxOuts {
  import opened Amounts
  import opened Bits
  import opened Bytes
  import opened Scripts
  import opened Vlq
  import opened Wrappers

  datatype TxOut = TxOut(amount: nat, script: seq<Byte>)

  /** `OutOfRange`: the code slices with a negative size, or beyond the end of the script it has cut out. */
  datatype DecodeError = UnexpectedEnd | SizeMismatch | OutOfRange

  /** What the formats can store: amounts whose compressed form fits 64 bits, scripts that fit a slice. */
  predicate OutStorable(curve: Curve, out: TxOut) {
    && out.amount < TWO_TO_64 && CompressAmount(out.amount) < TWO_TO_64
    && |CompressScript(curve, out.script)| < SLICE_LIMIT
  }

  /** The compressed amount as it goes to the wire, a 64-bit number. */
  function WireAmount(amount: nat): (c: nat)
    ensures c < TWO_TO_64
  {
    CompressAmount(amount) % TWO_TO_64
  }

  function EncodeTxOut(curve: Curve, out: TxOut): seq<Byte> {
    Encode(WireAmount(out.amount)) + CompressScript(curve, out.script)
  }

  /** `decodeCompressedTxOut`: the output and the number of bytes it took. */
  function DecodeTxOut(curve: Curve, s: seq<Byte>): (r: Result<(TxOut, nat), DecodeError>)
    ensures r.Ok? ==> r.value.1 <= |s|
  {
    var (compressedAmount, bytesRead) := Decode(s);
    if bytesRead >= |s| then Err(UnexpectedEnd)
    else
      var rest := s[bytesRead..];
      var scriptSize := DecodeScriptSize(rest);
      if |rest| < scriptSize then Err(UnexpectedEnd)
      else if scriptSize < 0 then Err(OutOfRange)
      else
        var amount := DecompressAmount(compressedAmount % TWO_TO_64) % TWO_TO_64;
        match DecompressScript(curve, rest[..scriptSize])
        case None => Err(OutOfRange)
        case Some(script) => Ok((TxOut(amount, script), bytesRead + scriptSize))
  }

  // ----- cutting off what follows -----

  lemma {:induction false} DecodePrefix(acc: nat, s: seq<Byte>, k: nat)
    requires k <= |s| && DecodeFrom(acc, s).1 <= k
    ensures DecodeFrom(acc, s[..k]) == DecodeFrom(acc, s)
    decreases |s|
  {
    if s != [] && s[0] >= 128 {
      assert s[..k][1..] == s[1..][..k - 1];
      DecodePrefix(acc * 128 + s[0] % 128 + 1, s[1..], k - 1);
    }
  }

  /** A script whose length fits a slice is cut out in full, and never sliced beyond its end. */
  lemma {:induction false} CutOutInFull(curve: Curve, s: seq<Byte>)
    requires s != [] && DecodeScriptSize(s) <= |s|
    requires var (number, read) := Decode(s); number - NUM_SPECIAL_SCRIPTS + read < SLICE_LIMIT
    ensures DecodeScriptSize(s) >= 0 && DecompressScript(curve, s[..DecodeScriptSize(s)]).Some?
  {
    hide DecodeFrom, DecodeScriptSize;
    SmallIsOneByte(s);
    SizeOf(s);
    var (number, read) := Decode(s);
    NotWrapped(number);
    var size := DecodeScriptSize(s);
    DecodePrefix(0, s, size);
  }

  lemma {:induction false} NegativeSize(s: seq<Byte>)
    requires var (number, read) := Decode(s);
      read > 0 && number < TWO_TO_64 && SLICE_LIMIT <= number - NUM_SPECIAL_SCRIPTS + read < TWO_TO_64
    ensures DecodeScriptSize(s) < 0
  {
    hide DecodeFrom;
    var (number, read) := Decode(s);
    NotWrapped(number);
    NotWrapped(number - NUM_SPECIAL_SCRIPTS + read);
    SmallIsOneByte(s);
  }

  /**
   * As long as the script size read, with the bytes of that size itself, stays below 2^64, the code leaves
   * the range of its slices exactly from 2^63 on; below that it decodes or reports the end of the data.
   */
  lemma {:induction false} OutOfRangeExactly(curve: Curve, s: seq<Byte>)
    requires var (number, read) := Decode(s[Decode(s).1..]);
      number < TWO_TO_64 && number - NUM_SPECIAL_SCRIPTS + read < TWO_TO_64
    ensures var amountRead := Decode(s).1;
      var (number, read) := Decode(s[amountRead..]);
      DecodeTxOut(curve, s) == Err(OutOfRange) <==>
        amountRead < |s| && number - NUM_SPECIAL_SCRIPTS + read >= SLICE_LIMIT
  {
    hide DecodeFrom, DecodeScriptSize, DecompressScript, DecompressAmount;
    var amountRead := Decode(s).1;
    if amountRead < |s| {
      var rest := s[amountRead..];
      var (number, read) := Decode(rest);
      if number - NUM_SPECIAL_SCRIPTS + read >= SLICE_LIMIT {
        NegativeSize(rest);
      } else if DecodeScriptSize(rest) <= |rest| {
        CutOutInFull(curve, rest);
      }
    }
  }

  // ----- round trip -----

  lemma {:induction false} AmountReread(amount: nat)
    requires amount < TWO_TO_64 && CompressAmount(amount) < TWO_TO_64
    ensures DecompressAmount(WireAmount(amount) % TWO_TO_64) % TWO_TO_64 == amount
  {
    hide CompressAmount, DecompressAmount;
    DecompressCompressed(amount);
  }

  lemma {:induction false} NonEmptyScript(curve: Curve, script: seq<Byte>)
    ensures CompressScript(curve, script) != []
  {
  }

  lemma {:induction false} ScriptReread(curve: Curve, script: seq<Byte>, rest: seq<Byte>)
    requires CurveOk(curve) && |CompressScript(curve, script)| < SLICE_LIMIT
    ensures var c := CompressScript(curve, script);
      && DecodeScriptSize(c + rest) == |c| == DecodeScriptSize(c)
      && DecompressScript(curve, c) == Some(script)
  {
    hide CompressScript, DecodeScriptSize, DecompressScript, CurveOk;
    SizeReread(curve, script, rest);
    SizeReread(curve, script, []);
    ScriptRoundTrip(curve, script);
    var c := CompressScript(curve, script);
    assert c + [] == c;
  }

  /** Decoding an encoded output, whatever follows it, gives the amount, the script and the exact length. */
  lemma {:induction false} TxOutRoundTrip(curve: Curve, out: TxOut, rest: seq<Byte>)
    requires CurveOk(curve) && OutStorable(curve, out)
    ensures DecodeTxOut(curve, EncodeTxOut(curve, out) + rest) == Ok((out, |EncodeTxOut(curve, out)|))
  {
    hide Encode, Decode, CompressScript, DecodeScriptSize, DecompressScript, CurveOk;
    hide CompressAmount, DecompressAmount, WireAmount;
    var a, c := Encode(WireAmount(out.amount)), CompressScript(curve, out.script);
    var s := a + c + rest;
    assert s == a + (c + rest);
    RoundTrip(WireAmount(out.amount), c + rest);
    NonEmptyScript(curve, out.script);
    ScriptReread(curve, out.script, rest);
    AmountReread(out.amount);
    assert s[|a|..] == c + rest && (c + rest)[..|c|] == c;
  }

  // ----- truncation -----

  predicate AllHigh(s: seq<Byte>) {
    forall i | 0 <= i < |s| :: s[i] >= 128
  }

  lemma {:induction false} HighIsHigh(n: nat)
    ensures AllHigh(High(n))
  {
    if n >= 128 {
      HighIsHigh(n / 128 - 1);
    }
  }

  /** A number cut short is read to the end of the data. */
  lemma {:induction false} HighReadsAll(acc: nat, s: seq<Byte>)
    requires AllHigh(s)
    ensures DecodeFrom(acc, s).1 == |s|
    decreases |s|
  {
    if s != [] {
      HighReadsAll(acc * 128 + s[0] % 128 + 1, s[1..]);
    }
  }

  lemma {:induction false} CutEncoding(n: nat, k: nat)
    requires k < |Encode(n)|
    ensures AllHigh(Encode(n)[..k])
  {
    if n >= 128 {
      HighIsHigh(n / 128 - 1);
      assert Encode(n)[..k] == High(n / 128 - 1)[..k];
    }
  }

  /** A single byte of a longer number. */
  lemma {:induction false} OneHighByte(b: Byte)
    requires b >= 128
    ensures Decode([b]) == (b - 127, 1)
  {
    assert [b][1..] == [];
    assert DecodeFrom((b - 127) as nat, []) == ((b - 127) as nat, 0);
  }

  /** The first byte of a length whose truncation to that byte reads as the empty script. */
  const EMPTY_SCRIPT_MARK: Byte := 0x85

  /** What is left of a longer number when its last bytes are cut off is a smaller number's high groups. */
  lemma {:induction false} CutIsHigh(n: nat, k: nat) returns (m: nat)
    requires 0 < k < |Encode(n)|
    ensures Encode(n)[..k] == High(m) && m + 1 <= n
  {
    m := n / 128 - 1;
    assert Encode(n) == High(m) + [n % 128] && Encode(n)[..k] == High(m)[..k];
    if k < |High(m)| {
      m := HighCut(m, k);
    }
  }

  lemma {:induction false} HighCut(n: nat, k: nat) returns (m: nat)
    requires 0 < k < |High(n)|
    ensures High(n)[..k] == High(m) && m <= n
  {
    m := n / 128 - 1;
    assert High(n)[..k] == High(m)[..k];
    if k < |High(m)| {
      m := HighCut(m, k);
    }
  }

  lemma {:induction false} DecodeNothing(acc: nat)
    ensures DecodeFrom(acc, []) == (acc, 0)
  {
  }

  lemma {:induction false} CutNumberSize(m: nat)
    requires m + 1 - NUM_SPECIAL_SCRIPTS + |High(m)| < SLICE_LIMIT
    ensures DecodeScriptSize(High(m)) <= |High(m)| <==> High(m) == [EMPTY_SCRIPT_MARK]
  {
    hide DecodeFrom, DecodeScriptSize;
    DecodeHigh(m, []);
    DecodeNothing(m + 1);
    assert High(m) + [] == High(m);
    SizeOf(High(m));
    if |High(m)| == 1 {
      assert m < 128;
    }
  }

  /** A length and its bytes cut short. */
  lemma {:induction false} CutPlainSize(script: seq<Byte>, k: nat)
    requires 0 < k < |Encode(|script| + NUM_SPECIAL_SCRIPTS)| + |script| < SLICE_LIMIT
    ensures var s := (Encode(|script| + NUM_SPECIAL_SCRIPTS) + script)[..k];
      DecodeScriptSize(s) <= k <==> s == [EMPTY_SCRIPT_MARK]
  {
    hide Encode, Decode, DecodeScriptSize;
    var n := |script| + NUM_SPECIAL_SCRIPTS;
    var s := (Encode(n) + script)[..k];
    if k < |Encode(n)| {
      assert s == Encode(n)[..k];
      var m := CutIsHigh(n, k);
      CutNumberSize(m);
    } else {
      var tail := script[..k - |Encode(n)|];
      assert s == Encode(n) + tail;
      RoundTrip(n, tail);
      SizeOf(s);
      EncodingNotMark(n);
    }
  }

  /** A compressed script cut short states a size beyond its end, unless just the mark is left. */
  lemma {:induction false} CutScriptSize(curve: Curve, script: seq<Byte>, k: nat)
    requires 0 < k < |CompressScript(curve, script)| < SLICE_LIMIT
    ensures var s := CompressScript(curve, script)[..k];
      DecodeScriptSize(s) <= k <==> s == [EMPTY_SCRIPT_MARK]
  {
    hide Encode, Decode, DecodeScriptSize;
    var c := CompressScript(curve, script);
    var s := c[..k];
    if IsSpecial(curve, script) {
      assert s == [c[0]] + s[1..];
      OneByte(c[0], s[1..]);
      SizeOf(s);
    } else {
      CutPlainSize(script, k);
    }
  }

  lemma {:induction false} EncodingNotMark(n: nat)
    ensures forall rest: seq<Byte> :: Encode(n) + rest != [EMPTY_SCRIPT_MARK]
  {
    forall rest: seq<Byte>
      ensures Encode(n) + rest != [EMPTY_SCRIPT_MARK]
    {
      EncodingEnds(n, rest);
      assert !Ends([EMPTY_SCRIPT_MARK]) by {
        assert [EMPTY_SCRIPT_MARK][1..] == [];
      }
    }
  }

  /** Where a truncation goes unnoticed: one byte into the script, when that byte is the mark. */
  predicate CutAtMark(curve: Curve, out: TxOut, k: nat) {
    var a, c := Encode(WireAmount(out.amount)), CompressScript(curve, out.script);
    k == |a| + 1 && k < |a| + |c| && c[0] == EMPTY_SCRIPT_MARK
  }

  lemma {:induction false} CutInAmount(curve: Curve, out: TxOut, k: nat)
    requires k <= |Encode(WireAmount(out.amount))|
    ensures DecodeTxOut(curve, EncodeTxOut(curve, out)[..k]) == Err(UnexpectedEnd)
  {
    hide Encode, DecodeFrom, CompressScript, DecodeScriptSize, WireAmount;
    var a := Encode(WireAmount(out.amount));
    var s := EncodeTxOut(curve, out)[..k];
    assert s == a[..k];
    if k < |a| {
      CutEncoding(WireAmount(out.amount), k);
      HighReadsAll(0, s);
    } else {
      RoundTrip(WireAmount(out.amount), []);
      assert s == a + [];
    }
  }

  /**
   * A truncated output is rejected, except exactly when it is cut one byte into a script length that
   * starts with 0x85; then it reads as the same amount with an empty script.
   */
  lemma {:induction false} TruncationNoticed(curve: Curve, out: TxOut, k: nat)
    requires k < |EncodeTxOut(curve, out)| && |CompressScript(curve, out.script)| < SLICE_LIMIT
    ensures DecodeTxOut(curve, EncodeTxOut(curve, out)[..k]).Err? <==> !CutAtMark(curve, out, k)
    ensures CutAtMark(curve, out, k) && out.amount < TWO_TO_64 && CompressAmount(out.amount) < TWO_TO_64 ==>
      DecodeTxOut(curve, EncodeTxOut(curve, out)[..k]) == Ok((TxOut(out.amount, []), k))
  {
    hide Encode, Decode, CompressScript, DecodeScriptSize, WireAmount, CompressAmount, DecompressAmount;
    var a, c := Encode(WireAmount(out.amount)), CompressScript(curve, out.script);
    if k <= |a| {
      CutInAmount(curve, out, k);
    } else {
      var j := k - |a|;
      var s := EncodeTxOut(curve, out)[..k];
      assert s == a + c[..j] && s[|a|..] == c[..j];
      RoundTrip(WireAmount(out.amount), c[..j]);
      CutScriptSize(curve, out.script, j);
      if c[..j] == [EMPTY_SCRIPT_MARK] {
        assert c[..j][0] == c[0];
        MarkIsEmpty(curve, c[..j]);
        if out.amount < TWO_TO_64 && CompressAmount(out.amount) < TWO_TO_64 {
          AmountReread(out.amount);
        }
      } else if j == 1 {
        assert c[..j] == [c[0]];
      }
    }
  }

  lemma {:induction false} MarkIsEmpty(curve: Curve, s: seq<Byte>)
    requires s == [EMPTY_SCRIPT_MARK]
    ensures DecodeScriptSize(s) == 1 && DecompressScript(curve, s[..1]) == Some([])
  {
    hide DecodeFrom;
    OneHighByte(EMPTY_SCRIPT_MARK);
    assert s[..1] == s && s[1..1] == [];
  }

  /** Such a truncation exists: a script of 800 bytes, whose length is written as 0x85 0x26, and no amount. */
  lemma {:induction false} UnnoticedTruncation(curve: Curve)
    ensures var out := TxOut(0, seq(800, _ => 0));
      && CutAtMark(curve, out, 2)
      && DecodeTxOut(curve, EncodeTxOut(curve, out)[..2]) == Ok((TxOut(0, []), 2))
  {
    hide CutAtMark, DecodeTxOut;
    var out := TxOut(0, seq(800, _ => 0));
    assert Encode(806) == [0x85, 0x26];
    assert WireAmount(0) == 0 && Encode(0) == [0];
    assert CompressScript(curve, out.script) == [0x85, 0x26] + out.script;
    assert CutAtMark(curve, out, 2) by {
      MarkedCut(curve, out);
    }
    TruncationNoticed(curve, out, 2);
  }

  lemma {:induction false} MarkedCut(curve: Curve, out: TxOut)
    requires |CompressScript(curve, out.script)| > 1 && CompressScript(curve, out.script)[0] == EMPTY_SCRIPT_MARK
    ensures CutAtMark(curve, out, |Encode(WireAmount(out.amount))| + 1)
  {
    hide Encode, CompressScript, WireAmount;
  }

  /** So does data on which the code leaves its slices: no amount and a script size of 2^63. */
  lemma {:induction false} SizeOutOfRange(curve: Curve)
    ensures DecodeTxOut(curve, Encode(0) + Encode(SLICE_LIMIT)) == Err(OutOfRange)
  {
    hide Encode, Decode, DecodeTxOut;
    var a, b := Encode(0), Encode(SLICE_LIMIT);
    RoundTrip(0, b);
    assert (a + b)[|a|..] == b && b + [] == b;
    RoundTrip(SLICE_LIMIT, []);
    EncodedLimit();
    OutOfRangeExactly(curve, a + b);
  }

  lemma {:induction false} EncodedLimit()
    ensures |Encode(SLICE_LIMIT)| == 9
  {
  }

  // ----- the code -----

  /** `compressedTxOutSize`. */
  method CompressedTxOutSize(curve: Curve, out: TxOut) returns (size: nat)
    ensures size == |EncodeTxOut(curve, out)|
  {
    hide Encode, CompressScript;
    var amount := CompressTxOutAmount(out.amount);
    var amountSize := SerializeSizeVlq(amount);
    var scriptSize := CompressedScriptSize(curve, out.script);
    size := amountSize + scriptSize;
  }

  /** `putCompressedTxOut` into the slice of `target` from `start` on. */
  method PutCompressedTxOut(target: array<Byte>, start: nat, curve: Curve, out: TxOut) returns (size: nat)
    requires start + |EncodeTxOut(curve, out)| <= target.Length
    modifies target
    ensures size == |EncodeTxOut(curve, out)|
    ensures Placed(target[..], old(target[..]), start, EncodeTxOut(curve, out))
  {
    hide Encode, CompressScript, Placed;
    var amount := CompressTxOutAmount(out.amount);
    var offset := PutVlq(target, start, amount);
    ghost var mid := target[..];
    var scriptSize := PutCompressedScript(target, start + offset, curve, out.script);
    PlacedTwice(target[..], mid, old(target[..]), start, Encode(amount), CompressScript(curve, out.script));
    size := offset + scriptSize;
  }

  /** `decodeCompressedTxOut`. */
  method DecodeCompressedTxOut(curve: Curve, serialized: seq<Byte>) returns (result: Result<(TxOut, nat), DecodeError>)
    ensures result == DecodeTxOut(curve, serialized)
  {
    hide DecodeFrom, DecompressScript, DecompressAmount;
    var compressedAmount, bytesRead := DeserializeVlq(serialized);
    if bytesRead >= |serialized| {
      return Err(UnexpectedEnd);
    }
    var rest := serialized[bytesRead..];
    var encodedSize, sizeRead := DeserializeVlq(rest);
    var scriptSize :=
      if sizeRead == 0 then 0
      else if encodedSize == CST_PAY_TO_PUB_KEY_HASH || encodedSize == CST_PAY_TO_SCRIPT_HASH then 21
      else if encodedSize < NUM_SPECIAL_SCRIPTS then 33
      else Signed64((encodedSize - NUM_SPECIAL_SCRIPTS + sizeRead) % TWO_TO_64);
    if |rest| < scriptSize {
      return Err(UnexpectedEnd);
    }
    var amount := DecompressTxOutAmount(compressedAmount);
    if scriptSize < 0 {
      return Err(OutOfRange);
    }
    var script := DecompressScript(curve, rest[..scriptSize]);
    if script == None {
      return Err(OutOfRange);
    }
    result := Ok((TxOut(amount, script.value), bytesRead + scriptSize));
  }
}
