/** Base-128 varints and zigzag integers (core/extract.go, and `binary.AppendVarint` as core/router.go uses it).
    Or-ing a group into bits not yet set is written as addition. */
module Varints {
  import opened Common

  const TWO_64: nat := 0x1_0000_0000_0000_0000
  const TWO_63: nat := 0x8000_0000_0000_0000

  type Uint64 = u: nat | u < 0x1_0000_0000_0000_0000

  /** 128 to the power of `g`: the weight of the `g`-th group. */
  function Weight(g: nat): (w: nat)
    ensures w >= 1
  {
    if g == 0 then 1 else 128 * Weight(g - 1)
  }

  datatype Read = Value(v: nat, next: nat) | Truncated | Overflow

  /** The varint at `i`, of which `g` groups worth `x` have been read. */
  function ReadFrom(b: seq<Byte>, i: nat, g: nat, x: nat): Read
    decreases |b| - i
  {
    if i >= |b| then Truncated
    else if b[i] < 128 then (if g >= 9 && (g > 9 || b[i] > 1) then Overflow else Value(x + b[i] * Weight(g), i + 1))
    else if g >= 9 then Overflow
    else ReadFrom(b, i + 1, g + 1, x + (b[i] - 128) * Weight(g))
  }

  function ReadVarint(b: seq<Byte>, i: nat): Read {
    ReadFrom(b, i, 0, 0)
  }

  lemma {:induction false} ReadBounds(b: seq<Byte>, i: nat, g: nat, x: nat)
    requires x < Weight(g) && g <= 9
    ensures ReadFrom(b, i, g, x).Value? ==>
      i < ReadFrom(b, i, g, x).next <= |b| && ReadFrom(b, i, g, x).v < 2 * Weight(9)
    decreases |b| - i
  {
    hide Weight;
    if i < |b| {
      GroupFits(x, b[i] % 128, g);
      if b[i] < 128 {
        if g < 9 {
          WeightGrows(g + 1, 9);
        }
      } else if g < 9 {
        ReadBounds(b, i + 1, g + 1, x + (b[i] - 128) * Weight(g));
      }
    }
  }

  lemma GroupFits(x: nat, c: nat, g: nat)
    requires x < Weight(g) && c < 128
    ensures x + c * Weight(g) < Weight(g + 1)
  {
    assert Weight(g + 1) == 128 * Weight(g);
    assert c * Weight(g) <= 127 * Weight(g);
  }

  lemma {:induction false} WeightGrows(a: nat, b: nat)
    requires a <= b
    ensures Weight(a) <= Weight(b)
  {
    if a < b {
      WeightGrows(a, b - 1);
    }
  }

  lemma TopWeight()
    ensures 2 * Weight(9) == TWO_64
  {
    assert Weight(0) == 1 && Weight(1) == 128 && Weight(2) == 16384 && Weight(3) == 2097152;
    assert Weight(4) == 268435456 && Weight(5) == 34359738368 && Weight(6) == 4398046511104;
    assert Weight(7) == 562949953421312 && Weight(8) == 72057594037927936 && Weight(9) == 9223372036854775808;
  }

  /** Whatever is read fits 64 bits and lies within the buffer. */
  lemma ReadFits(b: seq<Byte>, i: nat)
    ensures ReadVarint(b, i).Value? ==> i < ReadVarint(b, i).next <= |b| && ReadVarint(b, i).v < TWO_64
  {
    ReadBounds(b, i, 0, 0);
    TopWeight();
  }

  method ReadUvarint(b: seq<Byte>, i: nat) returns (r: Read)
    requires i <= |b|
    ensures r == ReadVarint(b, i)
  {
    var x: nat, g: nat, j: nat, weight: nat := 0, 0, i, 1;
    while j < |b|
      invariant i <= j <= |b| && g <= 9 && weight == Weight(g)
      invariant x < weight
      invariant ReadFrom(b, j, g, x) == ReadVarint(b, i)
    {
      var c: nat := b[j];
      j := j + 1;
      if c < 128 {
        if g == 9 && c > 1 {
          return Overflow;
        }
        return Value(x + c * weight, j);
      }
      GroupFits(x, c - 128, g);
      x := x + (c - 128) * weight;
      g, weight := g + 1, 128 * weight;
      if g >= 10 {
        return Overflow;
      }
    }
    r := Truncated;
  }

  // ---- Writing ----

  function Encode(u: nat): seq<Byte> {
    if u < 128 then [u] else [u % 128 + 128] + Encode(u / 128)
  }

  lemma SplitWeight(u: nat, g: nat)
    ensures u * Weight(g) == (u / 128) * Weight(g + 1) + (u % 128) * Weight(g)
  {
    var (q, r, w) := (u / 128, u % 128, Weight(g));
    assert u == 128 * q + r;
    Distributes(128 * q, r, w);
    assert q * (128 * w) == (128 * q) * w;
  }

  lemma Distributes(a: nat, b: nat, k: nat)
    ensures (a + b) * k == a * k + b * k
  {}

  /** In the last group only the lowest bit is left. */
  lemma LastGroup(u: nat)
    requires u * Weight(9) < 2 * Weight(9)
    ensures u <= 1
  {}

  lemma {:induction false} EncodedReads(b: seq<Byte>, i: nat, g: nat, x: nat, u: nat)
    requires g <= 9 && u * Weight(g) < 2 * Weight(9)
    requires i + |Encode(u)| <= |b| && b[i..i + |Encode(u)|] == Encode(u)
    ensures ReadFrom(b, i, g, x) == Value(x + u * Weight(g), i + |Encode(u)|)
    decreases u
  {
    hide Weight;
    assert b[i] == Encode(u)[0];
    if g == 9 {
      LastGroup(u);
    }
    if u >= 128 {
      SplitWeight(u, g);
      assert b[i + 1..i + 1 + |Encode(u / 128)|] == b[i..i + |Encode(u)|][1..];
      EncodedReads(b, i + 1, g + 1, x + (u % 128) * Weight(g), u / 128);
    }
  }

  /** Writing and reading back, anywhere in a buffer. */
  lemma RoundTrip(before: seq<Byte>, u: nat, after: seq<Byte>)
    requires u < TWO_64
    ensures ReadVarint(before + Encode(u) + after, |before|) == Value(u, |before| + |Encode(u)|)
  {
    TopWeight();
    var b := before + Encode(u) + after;
    assert b[|before|..|before| + |Encode(u)|] == Encode(u);
    EncodedReads(b, |before|, 0, 0, u);
  }

  /** What bytes stand for: groups of seven bits, the lowest first. */
  function GroupSum(b: seq<Byte>): nat {
    if b == [] then 0 else b[0] % 128 + 128 * GroupSum(b[1..])
  }

  /** A number is written in groups of seven bits, the lowest first; all but the last byte have their top bit set. */
  lemma {:induction false} EncodedGroups(u: nat)
    ensures Encode(u) != [] && GroupSum(Encode(u)) == u
    ensures forall i :: 0 <= i < |Encode(u)| ==> (Encode(u)[i] >= 128 <==> i < |Encode(u)| - 1)
    decreases u
  {
    if u >= 128 {
      EncodedGroups(u / 128);
      assert Encode(u)[1..] == Encode(u / 128);
    } else {
      assert Encode(u)[1..] == [];
    }
  }

  method AppendUvarint(buffer: seq<Byte>, u: nat) returns (b: seq<Byte>)
    ensures b == buffer + Encode(u)
  {
    b := buffer;
    var rest := u;
    while rest >= 128
      invariant b + Encode(rest) == buffer + Encode(u)
      decreases rest
    {
      var low: Byte := rest % 128 + 128;
      assert b + Encode(rest) == (b + [low]) + Encode(rest / 128);
      b, rest := b + [low], rest / 128;
    }
    b := b + [rest];
  }

  // ---- Signed integers ----

  predicate IsInt64(x: int) {
    -0x8000_0000_0000_0000 <= x < 0x8000_0000_0000_0000
  }

  /** What 64-bit arithmetic keeps of a number. */
  function Wrap(x: int): (w: int)
    ensures IsInt64(w)
  {
    (x + TWO_63) % TWO_64 - TWO_63
  }

  function ZigzagDecode(u: nat): int {
    if u % 2 == 0 then u / 2 else -(u / 2) - 1
  }

  function ZigzagEncode(x: int): nat {
    if x >= 0 then 2 * x else -2 * x - 1
  }

  /** Zigzag is a bijection between the signed and the unsigned 64-bit numbers. */
  lemma ZigzagRoundTrip(x: int, u: nat)
    ensures ZigzagDecode(ZigzagEncode(x)) == x && ZigzagEncode(ZigzagDecode(u)) == u
    ensures IsInt64(x) <==> ZigzagEncode(x) < TWO_64
  {}

  /** Zigzag order: 0, -1, 1, -2, 2 and so on. */
  lemma ZigzagMeans(n: int)
    requires n >= 0
    ensures ZigzagDecode(2 * n) == n && ZigzagDecode(2 * n + 1) == -n - 1
  {}

  /** What is kept differs from the number by a multiple of 2^64, and by nothing if the number fits. */
  lemma WrapMeans(x: int)
    ensures (x - Wrap(x)) % TWO_64 == 0 && (IsInt64(x) ==> Wrap(x) == x)
  {}

  /** A wrapped difference added with wrap-around leads from one number to the other. */
  lemma DeltaRestores(previous: int, x: int)
    requires IsInt64(previous) && IsInt64(x)
    ensures Wrap(previous + Wrap(x - previous)) == x
  {}
}
