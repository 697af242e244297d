/**
 * Variable-length quantities (compress.go): base-128 numbers, most significant group first, every
 * group but the last carrying the high bit and an offset of one, so that no number has two encodings.
 */
module Vlq {
  import opened Bits
  import opened Bytes

  /** The groups of a number that more groups follow. */
  function High(n: nat): (s: seq<Byte>)
    ensures s != []
  {
    if n < 128 then [128 + n] else High(n / 128 - 1) + [128 + n % 128]
  }

  function Encode(n: nat): (s: seq<Byte>)
    ensures s != []
  {
    if n < 128 then [n] else High(n / 128 - 1) + [n % 128]
  }

  /** Reading one group after another onto `acc`, and how many bytes that takes; also when no last group comes. */
  function DecodeFrom(acc: nat, s: seq<Byte>): (r: (nat, nat))
    ensures r.1 <= |s| && (s != [] ==> r.1 > 0)
    decreases |s|
  {
    if s == [] then (acc, 0)
    else
      var v := acc * 128 + s[0] % 128;
      if s[0] < 128 then (v, 1)
      else var (w, size) := DecodeFrom(v + 1, s[1..]); (w, size + 1)
  }

  function Decode(s: seq<Byte>): (nat, nat) {
    DecodeFrom(0, s)
  }

  /** A last group is reached. */
  predicate Ends(s: seq<Byte>) {
    s != [] && (s[0] < 128 || Ends(s[1..]))
  }

  // ----- round trips -----

  lemma {:induction false} DecodeHigh(n: nat, rest: seq<Byte>)
    ensures var (v, size) := DecodeFrom(n + 1, rest); Decode(High(n) + rest) == (v, |High(n)| + size)
  {
    hide DecodeFrom;
    var last: Byte := 128 + n % 128;
    FirstGroup(if n < 128 then 0 else n / 128, [last] + rest);
    assert ([last] + rest)[1..] == rest;
    if n >= 128 {
      assert High(n) + rest == High(n / 128 - 1) + ([last] + rest);
      DecodeHigh(n / 128 - 1, [last] + rest);
    }
  }

  /** Decoding an encoding, whatever follows it. */
  lemma {:induction false} RoundTrip(n: nat, rest: seq<Byte>)
    ensures Decode(Encode(n) + rest) == (n, |Encode(n)|)
  {
    if n < 128 {
      assert (Encode(n) + rest)[0] == n;
    } else {
      var last: Byte := n % 128;
      FirstGroup(n / 128, [last] + rest);
      assert Encode(n) + rest == High(n / 128 - 1) + ([last] + rest);
      DecodeHigh(n / 128 - 1, [last] + rest);
    }
  }

  lemma {:induction false} EncodeDecodeFrom(p: seq<Byte>, acc: nat, s: seq<Byte>)
    requires Ends(s) && p == if acc == 0 then [] else High(acc - 1)
    ensures var (v, size) := DecodeFrom(acc, s); Encode(v) == p + s[..size]
    decreases |s|
  {
    hide Encode, High, DecodeFrom;
    var v := acc * 128 + s[0] % 128;
    FirstGroup(acc, s);
    GroupAppends(p, acc, s[0]);
    if s[0] < 128 {
      assert s[..1] == [s[0]];
    } else {
      EncodeDecodeFrom(p + [s[0]], v + 1, s[1..]);
      var size := DecodeFrom(v + 1, s[1..]).1;
      assert s[..size + 1] == [s[0]] + s[1..][..size];
    }
  }

  lemma {:induction false} GroupAppends(p: seq<Byte>, acc: nat, b: Byte)
    requires p == if acc == 0 then [] else High(acc - 1)
    ensures var v := acc * 128 + b % 128; (if b < 128 then Encode(v) else High(v)) == p + [b]
  {
    LastGroup(acc * 128 + b % 128);
  }

  /** No redundant encodings: the bytes read are the encoding of the number read. */
  lemma {:induction false} Canonical(s: seq<Byte>)
    requires Ends(s)
    ensures var (v, size) := Decode(s); Encode(v) == s[..size]
  {
    EncodeDecodeFrom([], 0, s);
  }

  lemma {:induction false} EncodingEnds(n: nat, rest: seq<Byte>)
    ensures Ends(Encode(n) + rest)
  {
    if n < 128 {
      assert (Encode(n) + rest)[0] == n;
    } else {
      assert Encode(n) + rest == High(n / 128 - 1) + ([n % 128] + rest);
      HighThenEnds(n / 128 - 1, [n % 128] + rest);
    }
  }

  lemma {:induction false} HighThenEnds(n: nat, rest: seq<Byte>)
    requires Ends(rest)
    ensures Ends(High(n) + rest)
  {
    if n < 128 {
      assert (High(n) + rest)[1..] == rest;
    } else {
      var last := [(128 + n % 128) as Byte];
      assert (last + rest)[1..] == rest;
      assert High(n) + rest == High(n / 128 - 1) + (last + rest);
      HighThenEnds(n / 128 - 1, last + rest);
    }
  }

  /** No encoding is the beginning of another one. */
  lemma {:induction false} PrefixFree(m: nat, n: nat)
    requires Encode(m) <= Encode(n)
    ensures m == n
  {
    var rest := Encode(n)[|Encode(m)|..];
    assert Encode(n) == Encode(m) + rest && Encode(n) + [] == Encode(n);
    RoundTrip(m, rest);
    RoundTrip(n, []);
  }

  // ----- order -----

  lemma {:induction false} HighOrder(m: nat, n: nat)
    requires |High(m)| == |High(n)| && m < n
    ensures LexLess(High(m), High(n))
  {
    if m >= 128 && n >= 128 {
      var m', n' := m / 128 - 1, n / 128 - 1;
      if m' == n' {
        LexPrefix(High(m'), [128 + m % 128], [128 + n % 128]);
      } else {
        HighOrder(m', n');
        LexIrreflexive(High(m'));
        LexHeads(High(m'), High(n'), [128 + m % 128], [128 + n % 128]);
      }
    }
  }

  lemma {:induction false} EncodeLength(n: nat)
    ensures |Encode(n)| == |High(n)|
  {
  }

  lemma {:induction false} EncodeOrderOneWay(m: nat, n: nat)
    requires |Encode(m)| == |Encode(n)| && m < n
    ensures LexLess(Encode(m), Encode(n))
  {
    if m >= 128 && n >= 128 {
      var m', n' := m / 128 - 1, n / 128 - 1;
      if m' == n' {
        LexPrefix(High(m'), [m % 128], [n % 128]);
      } else {
        HighOrder(m', n');
        LexIrreflexive(High(m'));
        LexHeads(High(m'), High(n'), [m % 128], [n % 128]);
      }
    }
  }

  /** Encodings of the same length compare bytewise like their numbers. */
  lemma {:induction false} EncodeOrder(m: nat, n: nat)
    requires |Encode(m)| == |Encode(n)|
    ensures m < n <==> LexLess(Encode(m), Encode(n))
  {
    if m < n {
      EncodeOrderOneWay(m, n);
    } else if LexLess(Encode(m), Encode(n)) {
      if n < m {
        EncodeOrderOneWay(n, m);
        LexTransitive(Encode(m), Encode(n), Encode(m));
      }
      LexIrreflexive(Encode(m));
    }
  }

  /** Zero encodes lowest. */
  lemma {:induction false} ZeroLowest(n: nat)
    ensures n > 0 ==> LexLess(Encode(0), Encode(n))
  {
    if n >= 128 {
      HighStarts(n / 128 - 1);
    }
  }

  lemma {:induction false} HighStarts(n: nat)
    ensures High(n)[0] >= 128
  {
    if n >= 128 {
      HighStarts(n / 128 - 1);
    }
  }

  /** Below this number all encodings have at most two bytes. */
  const FIRST_THREE_BYTE: nat := 16512

  lemma {:induction false} ShortEncodings(n: nat)
    requires n < FIRST_THREE_BYTE
    ensures Encode(n) == if n < 128 then [n] else [128 + (n / 128 - 1), n % 128]
  {
  }

  /**
   * Iterating keys bytewise visits the numbers below a bound in order exactly when the bound admits
   * one- and two-byte encodings only; across lengths order is lost from 16511 and 16512 on.
   */
  lemma {:induction false} OrderedBelow(bound: nat)
    ensures (forall m, n | 0 <= m < n < bound :: LexLess(Encode(m), Encode(n))) <==> bound <= FIRST_THREE_BYTE
  {
    hide Encode;
    if bound <= FIRST_THREE_BYTE {
      forall m, n | 0 <= m < n < bound
        ensures LexLess(Encode(m), Encode(n))
      {
        ShortOrder(m, n);
      }
    } else {
      OutOfOrder();
    }
  }

  lemma {:induction false} ShortOrder(m: nat, n: nat)
    requires m < n < FIRST_THREE_BYTE
    ensures LexLess(Encode(m), Encode(n))
  {
    ShortEncodings(m);
    ShortEncodings(n);
  }

  lemma {:induction false} OutOfOrder()
    ensures LexLess(Encode(16512), Encode(16511)) && !LexLess(Encode(16511), Encode(16512))
  {
    assert Encode(16511) == [255, 127];
    assert High(128) == [128, 128];
    assert Encode(16512) == [128, 128, 0];
  }

  // ----- the code -----

  /** `serializeSizeVLQ`. */
  method SerializeSizeVlq(number: nat) returns (size: nat)
    ensures size == |Encode(number)|
  {
    EncodeLength(number);
    var n := number;
    size := 1;
    while n > 0x7f
      invariant size >= 1 && size - 1 + |High(n)| == |High(number)|
    {
      n := n / 128 - 1;
      size := size + 1;
    }
  }

  function Backwards(s: seq<Byte>): (r: seq<Byte>)
    ensures |r| == |s|
  {
    seq(|s|, i requires 0 <= i < |s| => s[|s| - 1 - i])
  }

  lemma {:induction false} BackwardsMore(s: seq<Byte>, b: Byte)
    ensures Backwards(s + [b]) == [b] + Backwards(s)
  {
  }

  /** `putVLQ` into the slice of `target` from `start` on; nothing else of `target` changes. */
  method PutVlq(target: array<Byte>, start: nat, number: nat) returns (size: nat)
    requires start + |Encode(number)| <= target.Length
    modifies target
    ensures size == |Encode(number)|
    ensures Placed(target[..], old(target[..]), start, Encode(number))
  {
    hide Encode, High, Backwards;
    var offset := PutGroups(target, start, number);
    ReverseRange(target, start, start + offset);
    size := offset + 1;
    PlacedAt(target[..], old(target[..]), start, Encode(number));
  }

  /** The first loop of `putVLQ`: the groups, last one first. */
  method PutGroups(target: array<Byte>, start: nat, number: nat) returns (offset: nat)
    requires start + |Encode(number)| <= target.Length
    modifies target
    ensures offset + 1 == |Encode(number)|
    ensures Encode(number) == Backwards(target[start..start + offset + 1])
    ensures forall k | 0 <= k < start || start + offset < k < target.Length :: target[k] == old(target[k])
  {
    hide Encode, High, Backwards;
    var n := number;
    offset := 0;
    NothingWritten(number, target[start..start]);
    while true
      invariant offset < |Encode(number)|
      invariant Encode(number) ==
        (if offset == 0 then Encode(n) else High(n)) + Backwards(target[start..start + offset])
      invariant forall k | 0 <= k < start || start + offset <= k < target.Length :: target[k] == old(target[k])
      decreases n
    {
      ghost var written := target[start..start + offset];
      var b: Byte := n % 128 + if offset == 0 then 0x00 else 0x80;
      target[start + offset] := b;
      assert target[start..start + offset + 1] == written + [b];
      OneMoreGroup(n, offset == 0, b, written);
      if n <= 0x7f {
        break;
      }
      n := n / 128 - 1;
      offset := offset + 1;
    }
  }

  lemma {:induction false} NothingWritten(n: nat, s: seq<Byte>)
    requires s == []
    ensures Encode(n) == Encode(n) + Backwards(s)
  {
  }

  lemma {:induction false} OneMoreGroup(n: nat, isLast: bool, b: Byte, written: seq<Byte>)
    requires b == n % 128 + if isLast then 0x00 else 0x80
    ensures var rest := if isLast then Encode(n) else High(n);
      rest + Backwards(written) == (if n < 128 then [] else High(n / 128 - 1)) + Backwards(written + [b])
  {
    hide Backwards;
    BackwardsMore(written, b);
    LastGroup(n);
  }

  lemma {:induction false} LastGroup(n: nat)
    ensures n < 128 ==> Encode(n) == [n] && High(n) == [n + 128]
    ensures n >= 128 ==> Encode(n) == High(n / 128 - 1) + [n % 128] && High(n) == High(n / 128 - 1) + [n % 128 + 128]
  {
  }

  /** The second loop of `putVLQ`: reverses the bytes from `first` to `last`. */
  method ReverseRange(target: array<Byte>, first: nat, last: nat)
    requires first <= last < target.Length
    modifies target
    ensures target[first..last + 1] == Backwards(old(target[first..last + 1]))
    ensures forall k | 0 <= k < first || last < k < target.Length :: target[k] == old(target[k])
  {
    var i, j := first, last;
    while i < j
      invariant first <= i <= last + 1 && j == first + last - i && i <= j + 1
      invariant forall k | first <= k < i || j < k <= last :: target[k] == old(target[first + last - k])
      invariant forall k | 0 <= k < first || i <= k <= j || last < k < target.Length :: target[k] == old(target[k])
    {
      target[i], target[j] := target[j], target[i];
      i, j := i + 1, j - 1;
    }
  }

  /** A left shift by seven and an or, on 64 bits. */
  lemma {:induction false} ShiftWraps(acc: nat, v: nat)
    requires v < 128
    ensures (acc % TWO_TO_64) * 128 % TWO_TO_64 + v == (acc * 128 + v) % TWO_TO_64
  {
    var q, r := acc / TWO_TO_64, acc % TWO_TO_64;
    var q', r' := r / (TWO_TO_64 / 128), r % (TWO_TO_64 / 128);
    assert r * 128 == TWO_TO_64 * q' + 128 * r';
    assert acc * 128 + v == TWO_TO_64 * (128 * q + q') + (128 * r' + v);
    DivUnique(acc * 128 + v, TWO_TO_64, 128 * q + q', 128 * r' + v);
    DivUnique(r * 128, TWO_TO_64, q', 128 * r');
  }

  lemma {:induction false} AddWraps(x: nat)
    ensures (x % TWO_TO_64 + 1) % TWO_TO_64 == (x + 1) % TWO_TO_64
  {
  }

  /** `deserializeVLQ`: the number wraps around at 64 bits. */
  method DeserializeVlq(serialized: seq<Byte>) returns (number: nat, size: nat)
    ensures (number, size) == (Decode(serialized).0 % TWO_TO_64, Decode(serialized).1)
  {
    hide DecodeFrom;
    number, size := 0, 0;
    ghost var acc: nat := 0;
    while size < |serialized|
      invariant size <= |serialized| && number == acc % TWO_TO_64
      invariant var (v, more) := DecodeFrom(acc, serialized[size..]); Decode(serialized) == (v, size + more)
    {
      var val := serialized[size];
      FirstGroup(acc, serialized[size..]);
      ShiftWraps(acc, val % 128);
      AddWraps(acc * 128 + val % 128);
      assert serialized[size..][1..] == serialized[size + 1..];
      size := size + 1;
      number := number * 128 % TWO_TO_64 + val % 128;
      acc := acc * 128 + val % 128;
      if val < 128 {
        return;
      }
      number := (number + 1) % TWO_TO_64;
      acc := acc + 1;
    }
    NoGroup(acc);
  }

  lemma {:induction false} FirstGroup(acc: nat, s: seq<Byte>)
    requires s != []
    ensures var v := acc * 128 + s[0] % 128;
      DecodeFrom(acc, s) ==
        if s[0] < 128 then (v, 1) else (DecodeFrom(v + 1, s[1..]).0, DecodeFrom(v + 1, s[1..]).1 + 1)
  {
  }

  lemma {:induction false} NoGroup(acc: nat)
    ensures DecodeFrom(acc, []) == (acc, 0)
  {
  }

  /** Encoding what the code read gives the bytes back exactly when the number fits 64 bits. */
  lemma {:induction false} RereadExactly(s: seq<Byte>)
    requires Ends(s)
    ensures Encode(Decode(s).0 % TWO_TO_64) == s[..Decode(s).1] <==> Decode(s).0 < TWO_TO_64
  {
    hide DecodeFrom, Encode;
    var v := Decode(s).0;
    Canonical(s);
    if Encode(v % TWO_TO_64) == Encode(v) {
      PrefixFree(v % TWO_TO_64, v);
    }
  }
}
