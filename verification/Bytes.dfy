/** Byte strings as database keys: bytewise comparison and big-endian numbers. */
module Bytes {

  type Byte = n: nat | n < 256 witness 0

  /** `bytes.Compare(s, t) < 0`. */
  predicate LexLess(s: seq<Byte>, t: seq<Byte>) {
    t != [] && (s == [] || s[0] < t[0] || (s[0] == t[0] && LexLess(s[1..], t[1..])))
  }

  lemma {:induction false} LexIrreflexive(s: seq<Byte>)
    ensures !LexLess(s, s)
  {
    if s != [] {
      LexIrreflexive(s[1..]);
    }
  }

  lemma {:induction false} LexTransitive(s: seq<Byte>, t: seq<Byte>, u: seq<Byte>)
    requires LexLess(s, t) && LexLess(t, u)
    ensures LexLess(s, u)
  {
    if s != [] && s[0] == t[0] == u[0] {
      LexTransitive(s[1..], t[1..], u[1..]);
    }
  }

  /** A common prefix does not matter. */
  lemma {:induction false} LexPrefix(p: seq<Byte>, s: seq<Byte>, t: seq<Byte>)
    ensures LexLess(p + s, p + t) <==> LexLess(s, t)
  {
    if p == [] {
      assert p + s == s && p + t == t;
    } else {
      assert (p + s)[1..] == p[1..] + s && (p + t)[1..] == p[1..] + t;
      LexPrefix(p[1..], s, t);
    }
  }

  /** Strings that first differ within equally long heads are ordered by the heads. */
  lemma {:induction false} LexHeads(s: seq<Byte>, t: seq<Byte>, u: seq<Byte>, v: seq<Byte>)
    requires |s| == |t| && s != t
    ensures LexLess(s + u, t + v) <==> LexLess(s, t)
  {
    assert s == [s[0]] + s[1..] && t == [t[0]] + t[1..];
    assert (s + u)[1..] == s[1..] + u && (t + v)[1..] == t[1..] + v;
    if s[0] == t[0] {
      LexHeads(s[1..], t[1..], u, v);
    }
  }

  /** `binary.BigEndian.PutUint32`. */
  function BigEndian32(n: nat): (bytes: seq<Byte>)
    requires n < 0x1_0000_0000
    ensures |bytes| == 4
  {
    [n / 0x100_0000, n / 0x1_0000 % 0x100, n / 0x100 % 0x100, n % 0x100]
  }

  /** Big-endian numbers compare like the numbers. */
  lemma {:induction false} BigEndianOrder(a: nat, b: nat)
    requires a < 0x1_0000_0000 && b < 0x1_0000_0000
    ensures LexLess(BigEndian32(a), BigEndian32(b)) <==> a < b
    ensures BigEndian32(a) == BigEndian32(b) <==> a == b
  {
    var s, t := BigEndian32(a), BigEndian32(b);
    FourDigits(a);
    FourDigits(b);
    LexFour(s[0], s[1], s[2], s[3], t[0], t[1], t[2], t[3]);
  }

  lemma {:induction false} FourDigits(n: nat)
    requires n < 0x1_0000_0000
    ensures var d := BigEndian32(n);
      n == 0x100_0000 * (d[0] as int) + 0x1_0000 * (d[1] as int) + 0x100 * (d[2] as int) + (d[3] as int)
  {
    assert n / 0x100 / 0x100 == n / 0x1_0000;
    assert n / 0x1_0000 / 0x100 == n / 0x100_0000;
  }

  lemma {:induction false} LexFour(a: Byte, b: Byte, c: Byte, d: Byte, e: Byte, f: Byte, g: Byte, h: Byte)
    ensures LexLess([a, b, c, d], [e, f, g, h]) <==>
      a < e || (a == e && (b < f || (b == f && (c < g || (c == g && d < h)))))
  {
    assert [a, b, c, d][1..] == [b, c, d] && [e, f, g, h][1..] == [f, g, h];
    assert [b, c, d][1..] == [c, d] && [f, g, h][1..] == [g, h];
    assert [c, d][1..] == [d] && [g, h][1..] == [h];
    assert !LexLess([], []);
    assert [d][1..] == [] && [h][1..] == [];
    assert LexLess([d], [h]) <==> d < h;
    assert LexLess([c, d], [g, h]) <==> c < g || (c == g && d < h);
    assert LexLess([b, c, d], [f, g, h]) <==> b < f || (b == f && LexLess([c, d], [g, h]));
  }

  // ----- writing into a buffer -----

  /** The buffer `was` with `part` written at `start`, and nothing else changed. */
  predicate Placed(now: seq<Byte>, was: seq<Byte>, start: nat, part: seq<Byte>) {
    start + |part| <= |was| && now == was[..start] + part + was[start + |part|..]
  }

  lemma {:induction false} PlacedAt(now: seq<Byte>, was: seq<Byte>, start: nat, part: seq<Byte>)
    requires |now| == |was| && start + |part| <= |was| && now[start..start + |part|] == part
    requires forall k | 0 <= k < start || start + |part| <= k < |was| :: now[k] == was[k]
    ensures Placed(now, was, start, part)
  {
    var end := start + |part|;
    assert now == now[..start] + now[start..end] + now[end..];
    assert now[..start] == was[..start] && now[end..] == was[end..];
  }

  /** Writing one part right after another is writing both. */
  lemma {:induction false} PlacedTwice(now: seq<Byte>, mid: seq<Byte>, was: seq<Byte>, start: nat, a: seq<Byte>,
                                       b: seq<Byte>)
    requires Placed(mid, was, start, a) && Placed(now, mid, start + |a|, b)
    ensures Placed(now, was, start, a + b)
  {
    assert mid[..start + |a|] == was[..start] + a;
    assert mid[start + |a| + |b|..] == was[start + |a| + |b|..];
  }
}
