/** The circular 160-bit identifier space: node ids as 20 big-endian bytes, the integers
    they denote, and the half-open interval test every other part of the node relies on. */
module Ids {

  /** 2^160, the number of ids. */
  const RING: nat := 0x1_0000000000_0000000000_0000000000_0000000000

  /** The number of bits of an id, and so of finger-table entries. */
  const BITS: nat := 160

  type Id = x: int | 0 <= x < RING

  type Byte = x: int | 0 <= x < 256

  type NodeId = bs: seq<Byte> | |bs| == 20 witness seq(20, _ => 0)

  // ---------- clockwise distance ----------

  /** Steps clockwise from a to b, 0 when they coincide. */
  function Dist(a: Id, b: Id): nat {
    if a <= b then b - a else RING - a + b
  }

  /** Like Dist, but the arc from a node to itself is the whole circle. */
  function Span(a: Id, b: Id): nat {
    if a == b then RING else Dist(a, b)
  }

  /** The point i steps clockwise from a. */
  function Plus(a: Id, i: nat): Id {
    (a + i) % RING
  }

  /** Membership in (start, end]; the interval is empty when the two ends coincide. */
  predicate IsBetween(id: Id, start: Id, end: Id) {
    if start == end then false
    else if start < end then start < id && id <= end
    else start < id || id <= end
  }

  lemma DistPlus(a: Id, i: nat)
    requires i < RING
    ensures Dist(a, Plus(a, i)) == i
  {
  }

  // ---------- powers ----------

  function Pow2(i: nat): (p: nat)
    ensures p >= 1
  {
    if i == 0 then 1 else 2 * Pow2(i - 1)
  }

  lemma {:induction false} Pow2Sum(i: nat, j: nat)
    ensures Pow2(i + j) == Pow2(i) * Pow2(j)
  {
    if j > 0 {
      Pow2Sum(i, j - 1);
      assert Pow2(i + j) == 2 * (Pow2(i) * Pow2(j - 1));
      assert Pow2(i) * (2 * Pow2(j - 1)) == 2 * (Pow2(i) * Pow2(j - 1));
    }
  }

  lemma {:induction false} Pow2Monotone(i: nat, j: nat)
    requires i <= j
    ensures Pow2(i) <= Pow2(j)
  {
    if i < j {
      Pow2Monotone(i, j - 1);
    }
  }

  lemma RingIsPow2()
    ensures Pow2(BITS) == RING
  {
    assert Pow2(5) == 32;
    Pow2Sum(5, 5);
    Pow2Sum(10, 10);
    assert Pow2(20) == 0x100000;
    Pow2Sum(20, 20);
    assert Pow2(40) == 0x100_0000_0000;
    Pow2Sum(40, 40);
    Pow2Sum(80, 80);
  }

  // ---------- bytes and integers ----------

  /** Big-endian value of a byte string of any length. */
  function Decode(bs: seq<Byte>): nat {
    if bs == [] then 0 else 256 * Decode(bs[..|bs| - 1]) + bs[|bs| - 1]
  }

  /** The big-endian bytes of n without leading zeros; zero is one zero byte. */
  function ToBytes(n: nat): (bs: seq<Byte>)
    ensures |bs| >= 1
  {
    if n < 256 then [n] else ToBytes(n / 256) + [n % 256]
  }

  /** The low w bytes of n, big-endian. */
  function Encode(n: nat, w: nat): (bs: seq<Byte>)
    ensures |bs| == w
  {
    if w == 0 then [] else Encode(n / 256, w - 1) + [n % 256]
  }

  function Pow256(w: nat): (p: nat)
    ensures p >= 1
  {
    if w == 0 then 1 else 256 * Pow256(w - 1)
  }

  lemma {:induction false} Pow256IsPow2(w: nat)
    ensures Pow256(w) == Pow2(8 * w)
  {
    if w > 0 {
      Pow256IsPow2(w - 1);
      Pow2Sum(8 * (w - 1), 8);
      assert Pow2(8) == 256;
    }
  }

  lemma LargerQuotient(d: nat, q: nat, r: nat, q': nat, r': nat)
    requires q < q' && r < d
    ensures d * q + r < d * q' + r'
  {
    var k: nat := q' - q - 1;
    assert d * q' == d * q + d + d * k by {
      assert q' == q + 1 + k;
    }
    assert d * k >= 0;
  }

  lemma RemainderIsUnique(n: nat, d: nat, q: nat, r: nat)
    requires r < d && n == d * q + r
    ensures n % d == r
  {
    if q < n / d {
      LargerQuotient(d, q, r, n / d, n % d);
    } else if n / d < q {
      LargerQuotient(d, n / d, n % d, q, r);
    }
  }

  /** Splitting off the low byte before reducing modulo p, or reducing modulo 256p at once. */
  lemma LowByteSplit(n: nat, p: nat)
    requires p >= 1
    ensures 256 * ((n / 256) % p) + n % 256 == n % (256 * p)
  {
    var h := n / 256;
    var q, r := h / p, h % p;
    assert h == p * q + r;
    assert n == (256 * p) * q + (256 * r + n % 256) by {
      assert 256 * (p * q) == (256 * p) * q;
    }
    RemainderIsUnique(n, 256 * p, q, 256 * r + n % 256);
  }

  /** Writing n on w bytes and reading it back keeps n modulo 256^w. */
  lemma {:induction false} EncodeThenDecode(n: nat, w: nat)
    ensures Decode(Encode(n, w)) == n % Pow256(w)
  {
    if w > 0 {
      EncodeThenDecode(n / 256, w - 1);
      assert Encode(n, w)[..w - 1] == Encode(n / 256, w - 1);
      LowByteSplit(n, Pow256(w - 1));
    }
  }

  /** Reading a byte string and writing it back on its own width is the identity. */
  lemma {:induction false} DecodeThenEncode(bs: seq<Byte>)
    ensures Encode(Decode(bs), |bs|) == bs
  {
    if bs != [] {
      var front, last := bs[..|bs| - 1], bs[|bs| - 1];
      DecodeThenEncode(front);
      assert Decode(bs) / 256 == Decode(front) && Decode(bs) % 256 == last;
      assert bs == front + [last];
    }
  }

  lemma {:induction false} DecodeBound(bs: seq<Byte>)
    ensures Decode(bs) < Pow256(|bs|)
  {
    if bs != [] {
      DecodeBound(bs[..|bs| - 1]);
    }
  }

  lemma Pow256Of20()
    ensures Pow256(20) == RING
  {
    Pow256IsPow2(20);
    RingIsPow2();
  }

  /** node_id_to_biguint as a point of the circle. */
  function Value(id: NodeId): Id {
    DecodeBound(id);
    Pow256Of20();
    Decode(id)
  }

  /** A 20-byte id and the integer it denotes determine each other, and any natural number
      comes back modulo 2^160. */
  lemma NodeIdRoundTrip(id: NodeId, n: nat)
    ensures Encode(Decode(id), 20) == id
    ensures Decode(Encode(n, 20)) == n % RING
    ensures Decode(id) < RING
  {
    DecodeThenEncode(id);
    EncodeThenDecode(n, 20);
    Pow256Of20();
    DecodeBound(id);
  }

  lemma {:induction false} LongEncodingIsToBytes(n: nat, w: nat)
    ensures var bs := ToBytes(n);
            Encode(n, w) == if |bs| <= w then seq(w - |bs|, _ => 0) + bs else bs[|bs| - w..]
  {
    var bs := ToBytes(n);
    if w == 0 {
      assert bs[|bs|..] == [];
    } else if n < 256 {
      EncodeZero(w - 1);
      assert n / 256 == 0 && n % 256 == n;
    } else {
      var hs := ToBytes(n / 256);
      LongEncodingIsToBytes(n / 256, w - 1);
      assert bs == hs + [n % 256];
      if |bs| <= w {
        assert seq(w - |bs|, _ => 0) + bs == (seq(w - 1 - |hs|, _ => 0) + hs) + [n % 256];
      } else {
        assert bs[|bs| - w..] == hs[|hs| - (w - 1)..] + [n % 256];
      }
    }
  }

  lemma {:induction false} EncodeZero(w: nat)
    ensures Encode(0, w) == seq(w, _ => 0)
  {
    if w > 0 {
      EncodeZero(w - 1);
      assert seq(w, _ => 0) == seq(w - 1, _ => 0) + [0];
    }
  }

  /** biguint_to_node_id: copies the minimal bytes into a zeroed 20-byte buffer, right-aligned,
      or keeps the last 20 bytes of a longer number. */
  method BiguintToNodeId(n: nat) returns (id: NodeId)
    ensures Decode(id) == n % RING
  {
    var bytes := ToBytes(n);
    var buffer := new Byte[20](_ => 0);
    if |bytes| <= 20 {
      var start := 20 - |bytes|;
      forall i | 0 <= i < |bytes| {
        buffer[start + i] := bytes[i];
      }
      assert buffer[..] == seq(start, _ => 0) + bytes;
    } else {
      var start := |bytes| - 20;
      forall i | 0 <= i < 20 {
        buffer[i] := bytes[start + i];
      }
      assert buffer[..] == bytes[start..];
    }
    id := buffer[..];
    LongEncodingIsToBytes(n, 20);
    NodeIdRoundTrip(id, n);
  }

  /** (id + 2^i) mod 2^160, for every shift i. */
  method AddIdPowerOf2(id: NodeId, i: nat) returns (r: NodeId)
    ensures Value(r) == Plus(Value(id), Pow2(i))
  {
    var sum := Plus(Value(id), Pow2(i));
    r := BiguintToNodeId(sum);
    assert sum % RING == sum;
  }

  /** The wrap-around comparison on decoded bytes is exactly the distance test, and equal bytes
      are the only way to get equal points. */
  lemma BetweenIsDistance(id: NodeId, start: NodeId, end: NodeId)
    ensures start == end ==> !IsBetween(Value(id), Value(start), Value(end))
    ensures start != end ==>
      (IsBetween(Value(id), Value(start), Value(end)) <==>
       0 < (Value(id) - Value(start)) % RING <= (Value(end) - Value(start)) % RING)
  {
    NodeIdRoundTrip(start, 0);
    NodeIdRoundTrip(end, 0);
    ModuloDist(Value(start), Value(id));
    ModuloDist(Value(start), Value(end));
  }

  lemma ModuloDist(a: Id, b: Id)
    ensures (b - a) % RING == Dist(a, b)
  {
  }
}
