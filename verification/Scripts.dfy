/**
 * The compression of public key scripts (compress.go). The standard forms shrink to a type byte and a
 * hash or an x coordinate; every other script keeps its bytes behind its shifted length.
 */
module Scripts {
  import opened Bits
  import opened Bytes
  import opened Vlq
  import opened Wrappers

  const OP_DUP: Byte := 0x76
  const OP_HASH160: Byte := 0xa9
  const OP_DATA_20: Byte := 0x14
  const OP_EQUALVERIFY: Byte := 0x88
  const OP_CHECKSIG: Byte := 0xac
  const OP_EQUAL: Byte := 0x87
  const OP_DATA_33: Byte := 0x21
  const OP_DATA_65: Byte := 0x41

  const CST_PAY_TO_PUB_KEY_HASH: Byte := 0
  const CST_PAY_TO_SCRIPT_HASH: Byte := 1
  const CST_PAY_TO_PUB_KEY_COMP2: Byte := 2
  const CST_PAY_TO_PUB_KEY_COMP3: Byte := 3
  const CST_PAY_TO_PUB_KEY_UNCOMP4: Byte := 4
  const CST_PAY_TO_PUB_KEY_UNCOMP5: Byte := 5
  const NUM_SPECIAL_SCRIPTS: nat := 6

  /** Public key parsing: which serialised keys are points of the curve, and their uncompressed form. */
  datatype Curve = Curve(parses: seq<Byte> -> bool, uncompressed: seq<Byte> -> seq<Byte>)

  /** The compressed form of an uncompressed key: the oddness of y, then x. */
  function CompressedKey(key: seq<Byte>): seq<Byte>
    requires |key| == 65
  {
    [0x02 + key[64] % 2] + key[1..33]
  }

  /** What the curve arithmetic guarantees: y is recovered from x and its oddness. */
  ghost predicate CurveOk(curve: Curve) {
    forall key: seq<Byte> | |key| == 65 && key[0] == 0x04 && curve.parses(key) ::
      curve.parses(CompressedKey(key)) && curve.uncompressed(CompressedKey(key)) == key
  }

  // ----- the standard forms -----

  predicate IsPubKeyHash(script: seq<Byte>) {
    && |script| == 25 && script[0] == OP_DUP && script[1] == OP_HASH160 && script[2] == OP_DATA_20
    && script[23] == OP_EQUALVERIFY && script[24] == OP_CHECKSIG
  }

  predicate IsScriptHash(script: seq<Byte>) {
    |script| == 23 && script[0] == OP_HASH160 && script[1] == OP_DATA_20 && script[22] == OP_EQUAL
  }

  predicate IsCompressedPubKey(curve: Curve, script: seq<Byte>) {
    && |script| == 35 && script[0] == OP_DATA_33 && script[34] == OP_CHECKSIG
    && (script[1] == 0x02 || script[1] == 0x03) && curve.parses(script[1..34])
  }

  predicate IsUncompressedPubKey(curve: Curve, script: seq<Byte>) {
    && |script| == 67 && script[0] == OP_DATA_65 && script[66] == OP_CHECKSIG
    && script[1] == 0x04 && curve.parses(script[1..66])
  }

  // ----- compressing and decompressing -----

  function CompressScript(curve: Curve, script: seq<Byte>): seq<Byte> {
    if IsPubKeyHash(script) then [CST_PAY_TO_PUB_KEY_HASH] + script[3..23]
    else if IsScriptHash(script) then [CST_PAY_TO_SCRIPT_HASH] + script[2..22]
    else if IsCompressedPubKey(curve, script) then [script[1]] + script[2..34]
    else if IsUncompressedPubKey(curve, script) then [0x04 + script[65] % 2] + script[2..34]
    else Encode(|script| + NUM_SPECIAL_SCRIPTS) + script
  }

  /** `decodeCompressedScriptSize`, negative when the size read does not fit `int`. */
  function DecodeScriptSize(s: seq<Byte>): int {
    var (number, bytesRead) := Decode(s);
    var scriptSize := number % TWO_TO_64;
    if bytesRead == 0 then 0
    else if scriptSize == CST_PAY_TO_PUB_KEY_HASH || scriptSize == CST_PAY_TO_SCRIPT_HASH then 21
    else if scriptSize < NUM_SPECIAL_SCRIPTS then 33
    else Signed64((scriptSize - NUM_SPECIAL_SCRIPTS + bytesRead) % TWO_TO_64)
  }

  /** The 32 bytes that Go's `copy` leaves in a zeroed buffer. */
  function Copied32(s: seq<Byte>): (copied: seq<Byte>)
    ensures |copied| == 32
  {
    if |s| >= 32 then s[..32] else s + seq(32 - |s|, _ => 0)
  }

  /** `decompressScript`; nil is the empty script, and nothing comes out when it slices beyond its argument. */
  function DecompressScript(curve: Curve, s: seq<Byte>): Option<seq<Byte>> {
    if s == [] then Some([])
    else
      var (number, read) := Decode(s);
      var size := number % TWO_TO_64;
      if size == CST_PAY_TO_PUB_KEY_HASH then
        if read + 20 > |s| then None
        else Some([OP_DUP, OP_HASH160, OP_DATA_20] + s[read..read + 20] + [OP_EQUALVERIFY, OP_CHECKSIG])
      else if size == CST_PAY_TO_SCRIPT_HASH then
        if read + 20 > |s| then None
        else Some([OP_HASH160, OP_DATA_20] + s[read..read + 20] + [OP_EQUAL])
      else if size == CST_PAY_TO_PUB_KEY_COMP2 || size == CST_PAY_TO_PUB_KEY_COMP3 then
        if read + 32 > |s| then None
        else Some([OP_DATA_33, size] + s[read..read + 32] + [OP_CHECKSIG])
      else if size < NUM_SPECIAL_SCRIPTS then
        var key := [(size - 2) as Byte] + Copied32(s[1..]);
        if curve.parses(key) then Some([OP_DATA_65] + curve.uncompressed(key) + [OP_CHECKSIG]) else Some([])
      else
        var scriptSize := Signed64(size - NUM_SPECIAL_SCRIPTS);
        if scriptSize < 0 || read + scriptSize > |s| then None
        else Some(s[read..read + scriptSize])
  }

  lemma {:induction false} DecodeAtLeast(acc: nat, s: seq<Byte>)
    ensures DecodeFrom(acc, s).0 >= acc
    ensures DecodeFrom(acc, s).1 >= 2 ==> DecodeFrom(acc, s).0 >= 128
    decreases |s|
  {
    if s != [] && s[0] >= 128 {
      var v := acc * 128 + s[0] % 128;
      DecodeAtLeast(v + 1, s[1..]);
      if s[1..] != [] {
        DecodeTimes(v + 1, s[1..]);
      }
    }
  }

  lemma {:induction false} DecodeTimes(acc: nat, s: seq<Byte>)
    requires s != []
    ensures DecodeFrom(acc, s).0 >= acc * 128 + s[0] % 128
    decreases |s|
  {
    if s[0] >= 128 && s[1..] != [] {
      DecodeTimes(acc * 128 + s[0] % 128 + 1, s[1..]);
    }
  }

  /** A number below 128 is read from one byte. */
  lemma {:induction false} SmallIsOneByte(s: seq<Byte>)
    requires s != []
    ensures Decode(s).0 < 128 ==> Decode(s).1 == 1
  {
    DecodeAtLeast(0, s);
  }

  // ----- round trip -----

  lemma {:induction false} OneByte(b: Byte, rest: seq<Byte>)
    requires b < 128
    ensures Decode([b] + rest) == (b as nat, 1)
  {
    assert ([b] + rest)[0] == b;
  }

  /** The size read back is the size of the compressed script, whatever follows it. */
  lemma {:induction false} SizeReread(curve: Curve, script: seq<Byte>, rest: seq<Byte>)
    requires |CompressScript(curve, script)| < SLICE_LIMIT
    ensures DecodeScriptSize(CompressScript(curve, script) + rest) == |CompressScript(curve, script)|
  {
    hide DecodeFrom, Encode, Decode, DecodeScriptSize;
    var c := CompressScript(curve, script);
    if IsSpecial(curve, script) {
      assert c + rest == [c[0]] + (c[1..] + rest);
      OneByte(c[0], c[1..] + rest);
      SizeOf(c + rest);
    } else {
      var n := |script| + NUM_SPECIAL_SCRIPTS;
      assert c + rest == Encode(n) + (script + rest);
      RoundTrip(n, script + rest);
      SizeOf(c + rest);
    }
  }

  /** The size of a script whose length fits a slice. */
  lemma {:induction false} SizeOf(s: seq<Byte>)
    ensures var (number, read) := Decode(s);
      && (number < NUM_SPECIAL_SCRIPTS && read > 0 ==> DecodeScriptSize(s) == if number < 2 then 21 else 33)
      && (NUM_SPECIAL_SCRIPTS <= number && read > 0 && number - NUM_SPECIAL_SCRIPTS + read < SLICE_LIMIT ==>
            DecodeScriptSize(s) == number - NUM_SPECIAL_SCRIPTS + read)
  {
    hide Decode;
    var (number, read) := Decode(s);
    if NUM_SPECIAL_SCRIPTS <= number && read > 0 && number - NUM_SPECIAL_SCRIPTS + read < SLICE_LIMIT {
      NotWrapped(number);
      NotWrapped(number - NUM_SPECIAL_SCRIPTS + read);
    } else if number < NUM_SPECIAL_SCRIPTS {
      NotWrapped(number);
    }
  }

  predicate IsSpecial(curve: Curve, script: seq<Byte>) {
    || IsPubKeyHash(script) || IsScriptHash(script)
    || IsCompressedPubKey(curve, script) || IsUncompressedPubKey(curve, script)
  }

  /** A number that fits 64 bits is not changed by wrapping. */
  lemma {:induction false} NotWrapped(n: nat)
    requires n < TWO_TO_64
    ensures n % TWO_TO_64 == n
  {
  }

  lemma {:induction false} HashesRestored(curve: Curve, script: seq<Byte>)
    requires IsPubKeyHash(script) || IsScriptHash(script)
    ensures var c := CompressScript(curve, script);
      DecodeScriptSize(c) == |c| && DecompressScript(curve, c) == Some(script)
  {
    hide DecodeFrom;
    var c := CompressScript(curve, script);
    OneByte(c[0], c[1..]);
    NotWrapped(c[0] as nat);
    assert c == [c[0]] + c[1..];
    assert Decode(c) == (c[0] as nat, 1);
    if IsPubKeyHash(script) {
      assert c[1..21] == script[3..23];
      assert script == [OP_DUP, OP_HASH160, OP_DATA_20] + script[3..23] + [OP_EQUALVERIFY, OP_CHECKSIG];
    } else {
      assert c[1..21] == script[2..22];
      assert script == [OP_HASH160, OP_DATA_20] + script[2..22] + [OP_EQUAL];
    }
  }

  lemma {:induction false} CompressedKeyRestored(curve: Curve, script: seq<Byte>)
    requires IsCompressedPubKey(curve, script)
    ensures var c := CompressScript(curve, script);
      DecodeScriptSize(c) == |c| && DecompressScript(curve, c) == Some(script)
  {
    hide DecodeFrom;
    var c := CompressScript(curve, script);
    OneByte(c[0], c[1..]);
    NotWrapped(c[0] as nat);
    assert c == [c[0]] + c[1..];
    assert Decode(c) == (c[0] as nat, 1);
    assert c[1..33] == script[2..34];
    assert script == [OP_DATA_33, script[1]] + script[2..34] + [OP_CHECKSIG];
  }

  lemma {:induction false} UncompressedKeyRestored(curve: Curve, script: seq<Byte>)
    requires CurveOk(curve) && IsUncompressedPubKey(curve, script)
    ensures var c := CompressScript(curve, script);
      DecodeScriptSize(c) == |c| && DecompressScript(curve, c) == Some(script)
  {
    hide DecodeFrom;
    var c := CompressScript(curve, script);
    OneByte(c[0], c[1..]);
    NotWrapped(c[0] as nat);
    assert c == [c[0]] + c[1..];
    assert Decode(c) == (c[0] as nat, 1);
    var key := script[1..66];
    assert key[64] == script[65] && key[1..33] == script[2..34] == c[1..33];
    assert c[0] == 4 + script[65] % 2;
    assert Copied32(c[1..]) == c[1..33];
    assert CompressedKey(key) == [(c[0] - 2) as Byte] + c[1..33];
    assert script == [OP_DATA_65] + key + [OP_CHECKSIG];
  }

  lemma {:induction false} OtherRestored(curve: Curve, script: seq<Byte>)
    requires !IsSpecial(curve, script) && |CompressScript(curve, script)| < SLICE_LIMIT
    ensures var c := CompressScript(curve, script);
      DecodeScriptSize(c) == |c| && DecompressScript(curve, c) == Some(script)
  {
    hide DecodeFrom, Encode, Decode;
    var c, n := CompressScript(curve, script), |script| + NUM_SPECIAL_SCRIPTS;
    RoundTrip(n, script);
    NotWrapped(n);
    NotWrapped(|c|);
    assert c[|Encode(n)|..|Encode(n)| + |script|] == script;
  }

  /** Every script that fits a slice when compressed is restored. */
  lemma {:induction false} ScriptRoundTrip(curve: Curve, script: seq<Byte>)
    requires CurveOk(curve) && |CompressScript(curve, script)| < SLICE_LIMIT
    ensures var c := CompressScript(curve, script);
      DecodeScriptSize(c) == |c| && DecompressScript(curve, c) == Some(script)
  {
    hide CompressScript, DecodeScriptSize, DecompressScript, CurveOk;
    hide IsPubKeyHash, IsScriptHash, IsCompressedPubKey, IsUncompressedPubKey;
    if IsPubKeyHash(script) || IsScriptHash(script) {
      HashesRestored(curve, script);
    } else if IsCompressedPubKey(curve, script) {
      CompressedKeyRestored(curve, script);
    } else if IsUncompressedPubKey(curve, script) {
      UncompressedKeyRestored(curve, script);
    } else {
      OtherRestored(curve, script);
    }
  }

  // ----- the forms, byte by byte -----

  /** What each standard form shrinks to. */
  lemma {:induction false} StandardForms(curve: Curve, hash: seq<Byte>, x: seq<Byte>, y: seq<Byte>)
    requires |hash| == 20 && |x| == |y| == 32
    ensures CompressScript(curve, [0x76, 0xa9, 0x14] + hash + [0x88, 0xac]) == [0x00] + hash
    ensures CompressScript(curve, [0xa9, 0x14] + hash + [0x87]) == [0x01] + hash
    ensures curve.parses([0x02] + x) ==> CompressScript(curve, [0x21, 0x02] + x + [0xac]) == [0x02] + x
    ensures curve.parses([0x03] + x) ==> CompressScript(curve, [0x21, 0x03] + x + [0xac]) == [0x03] + x
    ensures curve.parses([0x04] + x + y) ==>
      CompressScript(curve, [0x41, 0x04] + x + y + [0xac]) == [if y[31] % 2 == 1 then 0x05 else 0x04] + x
  {
    KeyHashForm(curve, hash);
    ScriptHashForm(curve, hash);
    if curve.parses([0x02] + x) {
      CompressedKeyForm(curve, 0x02, x);
    }
    if curve.parses([0x03] + x) {
      CompressedKeyForm(curve, 0x03, x);
    }
    if curve.parses([0x04] + x + y) {
      UncompressedKeyForm(curve, x, y);
    }
  }

  lemma {:induction false} KeyHashForm(curve: Curve, hash: seq<Byte>)
    requires |hash| == 20
    ensures CompressScript(curve, [0x76, 0xa9, 0x14] + hash + [0x88, 0xac]) == [0x00] + hash
  {
    var script: seq<Byte> := [0x76, 0xa9, 0x14] + hash + [0x88, 0xac];
    assert script[3..23] == hash;
  }

  lemma {:induction false} ScriptHashForm(curve: Curve, hash: seq<Byte>)
    requires |hash| == 20
    ensures CompressScript(curve, [0xa9, 0x14] + hash + [0x87]) == [0x01] + hash
  {
    var script: seq<Byte> := [0xa9, 0x14] + hash + [0x87];
    assert script[2..22] == hash;
  }

  lemma {:induction false} CompressedKeyForm(curve: Curve, sign: Byte, x: seq<Byte>)
    requires |x| == 32 && sign in {0x02, 0x03} && curve.parses([sign] + x)
    ensures CompressScript(curve, [0x21, sign] + x + [0xac]) == [sign] + x
  {
    var script: seq<Byte> := [0x21, sign] + x + [0xac];
    assert script[2..34] == x && script[1..34] == [sign] + x;
  }

  lemma {:induction false} UncompressedKeyForm(curve: Curve, x: seq<Byte>, y: seq<Byte>)
    requires |x| == |y| == 32 && curve.parses([0x04] + x + y)
    ensures CompressScript(curve, [0x41, 0x04] + x + y + [0xac]) == [if y[31] % 2 == 1 then 0x05 else 0x04] + x
  {
    var script: seq<Byte> := [0x41, 0x04] + x + y + [0xac];
    assert script[2..34] == x && script[1..66] == [0x04] + x + y && script[65] == y[31];
  }

  /** Any other beginning keeps the script, behind its length plus six. */
  lemma {:induction false} OtherForm(curve: Curve, script: seq<Byte>)
    requires script == [] || script[0] !in {0x76, 0xa9, 0x21, 0x41}
    ensures CompressScript(curve, script) == Encode(|script| + 6) + script
  {
    hide Encode;
  }

  // ----- the code -----

  /** `compressedScriptSize`. */
  method CompressedScriptSize(curve: Curve, script: seq<Byte>) returns (size: nat)
    ensures size == |CompressScript(curve, script)|
  {
    if IsPubKeyHash(script) {
      return 21;
    }
    if IsScriptHash(script) {
      return 21;
    }
    if IsCompressedPubKey(curve, script) || IsUncompressedPubKey(curve, script) {
      return 33;
    }
    var sizeLen := SerializeSizeVlq(|script| + NUM_SPECIAL_SCRIPTS);
    size := sizeLen + |script|;
  }

  /** Go's `copy` into the slice of `target` from `start` on. */
  method Copy(target: array<Byte>, start: nat, source: seq<Byte>)
    requires start + |source| <= target.Length
    modifies target
    ensures Placed(target[..], old(target[..]), start, source)
  {
    forall k | 0 <= k < |source| {
      target[start + k] := source[k];
    }
    PlacedAt(target[..], old(target[..]), start, source);
  }

  /** Writes a type byte and a payload. */
  method PutTyped(target: array<Byte>, start: nat, kind: Byte, payload: seq<Byte>)
    requires start + 1 + |payload| <= target.Length
    modifies target
    ensures Placed(target[..], old(target[..]), start, [kind] + payload)
  {
    hide Placed;
    target[start] := kind;
    PlacedAt(target[..], old(target[..]), start, [kind]);
    ghost var mid := target[..];
    Copy(target, start + 1, payload);
    PlacedTwice(target[..], mid, old(target[..]), start, [kind], payload);
  }

  /** The script itself behind its shifted length. */
  method PutPlain(target: array<Byte>, start: nat, script: seq<Byte>) returns (size: nat)
    requires start + |Encode(|script| + NUM_SPECIAL_SCRIPTS)| + |script| <= target.Length
    modifies target
    ensures size == |Encode(|script| + NUM_SPECIAL_SCRIPTS)| + |script|
    ensures Placed(target[..], old(target[..]), start, Encode(|script| + NUM_SPECIAL_SCRIPTS) + script)
  {
    hide Encode, Placed;
    var encodedSize := |script| + NUM_SPECIAL_SCRIPTS;
    var vlqSizeLen := PutVlq(target, start, encodedSize);
    ghost var mid := target[..];
    Copy(target, start + vlqSizeLen, script);
    PlacedTwice(target[..], mid, old(target[..]), start, Encode(encodedSize), script);
    size := vlqSizeLen + |script|;
  }

  /** `putCompressedScript` into the slice of `target` from `start` on. */
  method PutCompressedScript(target: array<Byte>, start: nat, curve: Curve, script: seq<Byte>) returns (size: nat)
    requires start + |CompressScript(curve, script)| <= target.Length
    modifies target
    ensures size == |CompressScript(curve, script)|
    ensures Placed(target[..], old(target[..]), start, CompressScript(curve, script))
  {
    hide Placed, Encode;
    if IsPubKeyHash(script) {
      PutTyped(target, start, CST_PAY_TO_PUB_KEY_HASH, script[3..23]);
      size := 21;
    } else if IsScriptHash(script) {
      PutTyped(target, start, CST_PAY_TO_SCRIPT_HASH, script[2..22]);
      size := 21;
    } else if IsCompressedPubKey(curve, script) {
      PutTyped(target, start, script[1], script[2..34]);
      size := 33;
    } else if IsUncompressedPubKey(curve, script) {
      PutTyped(target, start, 0x04 + script[65] % 2, script[2..34]);
      size := 33;
    } else {
      size := PutPlain(target, start, script);
    }
  }
}
