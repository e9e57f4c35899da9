/** The three checksums of `core/crc.py`: CRC-24Q for RTCM 3, the Fletcher sum for UBX and the XOR for NMEA. */
module Crc {
  import opened Bytes

  // ------------------------------------------------------------------ CRC-24Q: division over GF(2)

  // A polynomial over GF(2) is the number whose bit i is the coefficient of x^i; adding is `Xor`.
  // x^24 + x^23 + x^18 + x^17 + x^14 + x^11 + x^10 + x^7 + x^6 + x^5 + x^4 + x^3 + x + 1
  const GENERATOR: nat := 0x1864CFB
  const DEGREE: nat := 0x1000000 // x^24

  function Subtract(s: nat): nat {
    if s < DEGREE then s else Xor(s, GENERATOR)
  }

  /** One step of long division: bring the next coefficient down to the remainder `r` and subtract
      the generator when the result has its degree. */
  function BringDown(r: nat, bit: nat): nat {
    Subtract(2 * r + bit)
  }

  /** The remainder of the polynomial `n` divided by the generator, one coefficient at a time. */
  ghost function Remainder(n: nat): nat {
    if n < DEGREE then n else BringDown(Remainder(n / 2), n % 2)
  }

  /** The CRC by its definition: the remainder of the message times x^24. */
  ghost function Crc24qSpec(data: seq<byte>): nat {
    Remainder(Shl(Value(data), 24))
  }

  lemma DegreeIsShift()
    ensures Shl(1, 24) == DEGREE
  {
    ShlByte(1);
    ShlByte(256);
    ShlByte(65536);
    ShlAdd(1, 8, 8);
    ShlAdd(1, 16, 8);
  }

  lemma DegreeOfXor(s: nat, t: nat)
    requires s < 2 * DEGREE && t < 2 * DEGREE
    ensures Xor(s, t) < 2 * DEGREE
    ensures Xor(s, t) < DEGREE <==> (s < DEGREE <==> t < DEGREE)
  {
    DegreeIsShift();
    XorTop(s, t, 24);
  }

  lemma {:induction false} RemainderReduced(n: nat)
    ensures Remainder(n) < DEGREE
  {
    if n >= DEGREE {
      RemainderReduced(n / 2);
      var s := 2 * Remainder(n / 2) + n % 2;
      if s >= DEGREE {
        DegreeOfXor(s, GENERATOR);
      }
    }
  }

  lemma RemainderBit(n: nat, bit: nat)
    requires bit < 2
    ensures Remainder(2 * n + bit) == BringDown(Remainder(n), bit)
  {
    assert (2 * n + bit) / 2 == n && (2 * n + bit) % 2 == bit;
  }

  lemma XorSwapped(a: nat, b: nat, g: nat)
    ensures Xor(Xor(a, g), Xor(b, g)) == Xor(a, b)
    ensures Xor(Xor(a, g), b) == Xor(Xor(a, b), g)
    ensures Xor(a, Xor(b, g)) == Xor(Xor(a, b), g)
  {
    XorAssociates(a, b, g);
    XorAssociates(a, g, b);
    XorCommutes(g, b);
    XorAssociates(a, g, Xor(b, g));
    XorAssociates(g, g, b);
    XorCommutes(b, g);
    XorVanishes(g, g);
    XorZero(b);
  }

  lemma SubtractLinear(t: nat, u: nat)
    requires t < 2 * DEGREE && u < 2 * DEGREE
    ensures Subtract(Xor(t, u)) == Xor(Subtract(t), Subtract(u))
  {
    DegreeOfXor(t, u);
    if t < DEGREE {
      if u >= DEGREE {
        XorSwapped(t, u, GENERATOR);
      }
    } else {
      XorSwapped(t, u, GENERATOR);
    }
  }

  lemma BringDownLinear(r: nat, s: nat, a: nat, b: nat)
    requires r < DEGREE && s < DEGREE && a < 2 && b < 2
    ensures BringDown(Xor(r, s), if a == b then 0 else 1) == Xor(BringDown(r, a), BringDown(s, b))
  {
    hide Xor;
    var t, u, d := 2 * r + a, 2 * s + b, if a == b then 0 else 1;
    assert 2 * Xor(r, s) + d == Xor(t, u) by {
      XorBit(r, s, a, b);
    }
    assert BringDown(Xor(r, s), d) == Subtract(Xor(t, u));
    SubtractLinear(t, u);
  }

  lemma OneMoreBit(a: nat, b: nat, x: nat, y: nat)
    requires Remainder(Xor(a, b)) == Xor(Remainder(a), Remainder(b)) && x < 2 && y < 2
    ensures Remainder(Xor(2 * a + x, 2 * b + y)) == Xor(Remainder(2 * a + x), Remainder(2 * b + y))
  {
    hide Remainder, Xor, BringDown;
    XorBit(a, b, x, y);
    RemainderReduced(a);
    RemainderReduced(b);
    RemainderBit(a, x);
    RemainderBit(b, y);
    RemainderBit(Xor(a, b), if x == y then 0 else 1);
    BringDownLinear(Remainder(a), Remainder(b), x, y);
  }

  /** Division is linear: the remainder of a sum is the sum of the remainders. */
  lemma {:induction false} RemainderLinear(m: nat, n: nat)
    ensures Remainder(Xor(m, n)) == Xor(Remainder(m), Remainder(n))
    decreases m + n
  {
    if m + n == 0 {
      XorZero(0);
    } else {
      hide Remainder, Xor;
      RemainderLinear(m / 2, n / 2);
      OneMoreBit(m / 2, n / 2, m % 2, n % 2);
      assert m == 2 * (m / 2) + m % 2 && n == 2 * (n / 2) + n % 2;
    }
  }

  /** Dividing what a prefix left behind is as good as dividing the prefix. */
  lemma {:induction false} RemainderShift(n: nat, k: nat)
    ensures Remainder(Shl(Remainder(n), k)) == Remainder(Shl(n, k))
  {
    if k == 0 {
      RemainderReduced(n);
    } else {
      RemainderShift(n, k - 1);
      RemainderBit(Shl(Remainder(n), k - 1), 0);
      RemainderBit(Shl(n, k - 1), 0);
    }
  }

  // ------------------------------------------------------------------ CRC-24Q: the table and the byte-wise loop

  /** Entry i holds the remainder of i times x^24. */
  ghost predicate IsTable(table: seq<nat>) {
    |table| == 256 && forall i: byte :: table[i] == Remainder(Shl(i, 24))
  }

  lemma RemainderOfSmall(n: nat)
    requires n < DEGREE
    ensures Remainder(n) == n
  {
  }

  lemma ShlNext(a: nat, k: nat)
    ensures Shl(a, k + 1) == 2 * Shl(a, k)
  {
  }

  method BuildTable() returns (table: seq<nat>)
    ensures IsTable(table)
  {
    hide Remainder, Shl, Xor;
    table := [];
    for i := 0 to 256
      invariant |table| == i
      invariant forall k: byte :: k < i ==> table[k] == Remainder(Shl(k, 24))
    {
      var crc := i * 0x10000;
      ShlByte(i);
      ShlByte(256 * i);
      ShlAdd(i, 8, 8);
      RemainderOfSmall(crc);
      for j := 0 to 8
        invariant crc < DEGREE && crc == Remainder(Shl(i, 16 + j))
      {
        RemainderBit(Shl(i, 16 + j), 0);
        ShlNext(i, 16 + j);
        RemainderReduced(Shl(i, 17 + j));
        crc := crc * 2;
        if (crc / 0x1000000) % 2 == 1 {
          crc := Xor(crc, GENERATOR);
        }
      }
      table := table + [crc % 0x1000000];
    }
  }

  lemma ByteFits(b: nat)
    requires b < 256
    ensures b < Shl(1, 8) == 2 * Shl(1, 7)
  {
    ShlByte(1);
  }

  lemma MessageStep(v: nat, b: byte)
    ensures Remainder(Shl(256 * v + b, 24)) == Xor(Remainder(Shl(Remainder(Shl(v, 24)), 8)), Remainder(Shl(b, 24)))
  {
    hide Xor, Remainder;
    ByteFits(b);
    ShlByte(v);
    XorDisjoint(v, b, 8);
    XorShift(Shl(v, 8), b, 24);
    ShlAdd(v, 8, 24);
    ShlAdd(v, 24, 8);
    RemainderLinear(Shl(Shl(v, 24), 8), Shl(b, 24));
    RemainderShift(Shl(v, 24), 8);
  }

  lemma XorOfBytes(a: nat, b: nat)
    requires a < 256 && b < 256
    ensures Xor(a, b) < 256
  {
    ByteFits(a);
    XorTop(a, b, 7);
  }

  lemma SplitRegister(c: nat)
    requires c < DEGREE
    ensures Remainder(Shl(c, 8)) == Xor(Remainder(Shl(c / 0x10000, 24)), 256 * (c % 0x10000))
  {
    hide Xor;
    var h, l := c / 0x10000, c % 0x10000;
    ShlByte(1);
    ShlByte(256);
    ShlAdd(1, 8, 8);
    ShlByte(h);
    ShlByte(256 * h);
    ShlAdd(h, 8, 8);
    XorDisjoint(h, l, 16);
    XorShift(Shl(h, 16), l, 8);
    ShlAdd(h, 16, 8);
    ShlByte(l);
    RemainderLinear(Shl(h, 24), Shl(l, 8));
    assert c == Shl(h, 16) + l;
    assert Remainder(256 * l) == 256 * l;
  }

  lemma CrcAppend(data: seq<byte>, b: byte)
    ensures Crc24qSpec(data) < DEGREE
    ensures var c := Crc24qSpec(data);
      Crc24qSpec(data + [b]) == Xor((c * 256) % DEGREE, Remainder(Shl(Xor(c / 0x10000, b), 24)))
      && Xor(c / 0x10000, b) < 256
  {
    hide Xor, Shl, Remainder;
    var v, c := Value(data), Crc24qSpec(data);
    RemainderReduced(Shl(v, 24));
    var h, l := c / 0x10000, c % 0x10000;
    assert (data + [b])[..|data|] == data;
    MessageStep(v, b);
    SplitRegister(c);
    XorShift(h, b, 24);
    RemainderLinear(Shl(h, 24), Shl(b, 24));
    var rh, rb := Remainder(Shl(h, 24)), Remainder(Shl(b, 24));
    XorCommutes(rh, 256 * l);
    XorAssociates(256 * l, rh, rb);
    XorOfBytes(h, b);
    assert (c * 256) % DEGREE == 256 * l;
  }

  lemma CrcOfNothing()
    ensures Crc24qSpec([]) == 0
  {
    XorShift(0, 0, 24);
    XorVanishes(Shl(0, 24), Shl(0, 24));
  }

  /** The byte-wise table loop computes the remainder of the message times x^24. */
  method Crc24q(table: seq<nat>, data: seq<byte>) returns (crc: nat)
    requires IsTable(table)
    ensures crc == Crc24qSpec(data) < DEGREE
  {
    hide Xor, Remainder, Shl;
    crc := 0;
    CrcOfNothing();
    for i := 0 to |data|
      invariant crc == Crc24qSpec(data[..i]) < DEGREE
    {
      CrcAppend(data[..i], data[i]);
      assert data[..i] + [data[i]] == data[..i + 1];
      RemainderReduced(Shl(Value(data[..i + 1]), 24));
      crc := Xor((crc * 0x100) % 0x1000000, table[Xor(crc / 0x10000, data[i]) % 256]);
    }
    assert data[..|data|] == data;
  }

  /** The polynomial is 0x864CFB with its leading bit implied, and the register starts at zero: the message
      of a single one leaves it. */
  lemma PolynomialIs864CFB()
    ensures Crc24qSpec([1]) == 0x864CFB
  {
    assert [1][..0] == [] && Value([1]) == 1;
    DegreeIsShift();
    var low := 0x864CFB;
    XorDisjoint(1, low, 24);
    XorVanishes(DEGREE, DEGREE);
    XorAssociates(DEGREE, DEGREE, low);
    XorZero(low);
    assert GENERATOR == DEGREE + low;
    hide Xor, Shl;
    assert Remainder(DEGREE) == BringDown(Remainder(DEGREE / 2), 0);
  }

  // ------------------------------------------------------------------ CRC-24Q: what it detects

  lemma {:induction false} ValueConcat(a: seq<byte>, b: seq<byte>)
    ensures Value(a + b) == Shl(Value(a), 8 * |b|) + Value(b)
    ensures Value(b) < Shl(1, 8 * |b|)
    decreases b
  {
    if b == [] {
      assert a + b == a;
    } else {
      var c, x := b[..|b| - 1], b[|b| - 1];
      assert (a + b)[..|a + b| - 1] == a + c;
      ValueConcat(a, c);
      ShlAdd(Value(a), 8 * |c|, 8);
      ShlAdd(1, 8 * |c|, 8);
      ShlByte(Shl(Value(a), 8 * |c|));
      ShlByte(Shl(1, 8 * |c|));
    }
  }

  lemma TailIsReduced(tail: nat)
    ensures tail < DEGREE ==> Remainder(tail) == tail
  {
  }

  /** A message followed by any three bytes leaves the difference between them and its CRC: zero
      exactly when they are its CRC. */
  lemma CodewordRemainder(data: seq<byte>, tail: seq<byte>)
    requires |tail| == 3
    ensures Remainder(Value(data + tail)) == Xor(Crc24qSpec(data), Value(tail))
    ensures Remainder(Value(data + tail)) == 0 <==> Value(tail) == Crc24qSpec(data)
  {
    hide Remainder, Xor, Shl;
    ValueConcat(data, tail);
    DegreeIsShift();
    XorDisjoint(Value(data), Value(tail), 24);
    RemainderLinear(Shl(Value(data), 24), Value(tail));
    XorVanishes(Crc24qSpec(data), Value(tail));
    TailIsReduced(Value(tail));
  }

  /** No multiple of the generator is a single burst of 24 bits or fewer. */
  lemma {:induction false} BurstRemainder(burst: nat, k: nat)
    requires 0 < burst < DEGREE
    ensures Remainder(Shl(burst, k)) != 0
  {
    if k > 0 {
      BurstRemainder(burst, k - 1);
      RemainderBit(Shl(burst, k - 1), 0);
      XorHalves(2 * Remainder(Shl(burst, k - 1)), GENERATOR);
    }
  }

  /** Division tells apart any two strings that differ by one burst of at most 24 bits. */
  lemma BurstDetected(sent: seq<byte>, got: seq<byte>, burst: nat, k: nat)
    requires 0 < burst < DEGREE
    requires Value(got) == Xor(Value(sent), Shl(burst, k))
    ensures Remainder(Value(got)) != Remainder(Value(sent))
  {
    RemainderLinear(Value(sent), Shl(burst, k));
    BurstRemainder(burst, k);
    var r, e := Remainder(Value(sent)), Remainder(Shl(burst, k));
    if Xor(r, e) == r {
      XorAssociates(r, r, e);
      XorVanishes(r, r);
      XorZero(e);
      assert false;
    }
  }

  // ------------------------------------------------------------------ the UBX Fletcher checksum

  function Sum(s: seq<byte>): nat {
    if s == [] then 0 else s[0] + Sum(s[1..])
  }

  /** Every byte times the number of bytes from it to the end. */
  function WeightedSum(s: seq<byte>): nat {
    if s == [] then 0 else |s| * s[0] + WeightedSum(s[1..])
  }

  /** The checksum in closed form. */
  function FletcherSpec(data: seq<byte>): (ck: seq<byte>)
    ensures |ck| == 2
  {
    [Sum(data) % 256, WeightedSum(data) % 256]
  }

  lemma {:induction false} SumAppend(s: seq<byte>, x: byte)
    ensures Sum(s + [x]) == Sum(s) + x
    ensures WeightedSum(s + [x]) == WeightedSum(s) + Sum(s) + x
  {
    if s == [] {
      assert s + [x] == [x];
    } else {
      assert (s + [x])[1..] == s[1..] + [x];
      SumAppend(s[1..], x);
      assert |s + [x]| * s[0] == |s| * s[0] + s[0];
    }
  }

  lemma SumOfNothing()
    ensures Sum([]) == 0 && WeightedSum([]) == 0
  {
  }

  method UbxChecksum(data: seq<byte>) returns (ck: seq<byte>)
    ensures ck == FletcherSpec(data)
  {
    hide Sum, WeightedSum;
    SumOfNothing();
    var ckA: nat, ckB: nat := 0, 0;
    for i := 0 to |data|
      invariant ckA == Sum(data[..i]) % 256
      invariant ckB == WeightedSum(data[..i]) % 256
    {
      SumAppend(data[..i], data[i]);
      assert data[..i] + [data[i]] == data[..i + 1];
      ckA := (ckA + data[i]) % 256;
      ckB := (ckB + ckA) % 256;
    }
    assert data[..|data|] == data;
    ck := [ckA, ckB];
  }

  lemma {:induction false} SumUpdate(s: seq<byte>, i: nat, x: byte)
    requires i < |s|
    ensures Sum(s[i := x]) == Sum(s) - s[i] + x
  {
    var t := s[i := x];
    if i == 0 {
      assert t[1..] == s[1..];
    } else {
      assert t[1..] == s[1..][i - 1 := x];
      SumUpdate(s[1..], i - 1, x);
    }
  }

  function SwapAdjacent(s: seq<byte>, i: nat): (t: seq<byte>)
    requires i + 1 < |s|
    ensures |t| == |s|
  {
    s[i := s[i + 1]][i + 1 := s[i]]
  }

  lemma {:induction false} WeightedSumSwap(s: seq<byte>, i: nat)
    requires i + 1 < |s|
    ensures WeightedSum(SwapAdjacent(s, i)) == WeightedSum(s) - s[i] + s[i + 1]
  {
    var t := SwapAdjacent(s, i);
    if i == 0 {
      assert t[1..][1..] == s[1..][1..];
      calc {
        WeightedSum(t);
        |s| * s[1] + ((|s| - 1) * s[0] + WeightedSum(s[1..][1..]));
        |s| * s[0] + ((|s| - 1) * s[1] + WeightedSum(s[1..][1..])) - s[0] + s[1];
      }
    } else {
      assert t[1..] == SwapAdjacent(s[1..], i - 1);
      WeightedSumSwap(s[1..], i - 1);
    }
  }

  lemma NotCongruent(n: int, a: byte, b: byte)
    requires a != b
    ensures (n - a + b) % 256 != n % 256
  {
  }

  /** One changed byte changes the checksum. */
  lemma FletcherDetectsChange(s: seq<byte>, i: nat, x: byte)
    requires i < |s| && x != s[i]
    ensures FletcherSpec(s[i := x]) != FletcherSpec(s)
  {
    SumUpdate(s, i, x);
    NotCongruent(Sum(s), s[i], x);
  }

  /** Two unequal neighbours swapped change the checksum. */
  lemma FletcherDetectsSwap(s: seq<byte>, i: nat)
    requires i + 1 < |s| && s[i] != s[i + 1]
    ensures FletcherSpec(SwapAdjacent(s, i)) != FletcherSpec(s)
  {
    WeightedSumSwap(s, i);
    NotCongruent(WeightedSum(s), s[i], s[i + 1]);
  }

  // ------------------------------------------------------------------ the NMEA checksum

  function XorAll(s: seq<byte>): nat {
    if s == [] then 0 else Xor(s[0], XorAll(s[1..]))
  }

  lemma {:induction false} XorAllConcat(a: seq<byte>, b: seq<byte>)
    ensures XorAll(a + b) == Xor(XorAll(a), XorAll(b))
  {
    if a == [] {
      assert a + b == b;
      XorZero(XorAll(b));
    } else {
      assert (a + b)[1..] == a[1..] + b;
      XorAllConcat(a[1..], b);
      XorAssociates(a[0], XorAll(a[1..]), XorAll(b));
    }
  }

  lemma XorAllAppend(s: seq<byte>, x: byte)
    ensures XorAll(s + [x]) == Xor(XorAll(s), x)
  {
    XorAllConcat(s, [x]);
    XorZero(x);
  }

  method NmeaChecksum(body: seq<byte>) returns (result: nat)
    ensures result == XorAll(body)
  {
    result := 0;
    for i := 0 to |body|
      invariant result == XorAll(body[..i])
    {
      XorAllAppend(body[..i], body[i]);
      assert body[..i] + [body[i]] == body[..i + 1];
      result := Xor(result, body[i]);
    }
    assert body[..|body|] == body;
  }
}
