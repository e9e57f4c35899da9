/** Byte strings, and bit-wise exclusive or on the natural numbers the code shifts and masks. */
module Bytes {
  type byte = x: int | 0 <= x < 256

  // ------------------------------------------------------------------ streams in pieces

  /** The pieces of a stream, joined. */
  function Flatten(chunks: seq<seq<byte>>): seq<byte> {
    if chunks == [] then [] else chunks[0] + Flatten(chunks[1..])
  }

  lemma {:induction false} FlattenAppend(a: seq<seq<byte>>, b: seq<seq<byte>>)
    ensures Flatten(a + b) == Flatten(a) + Flatten(b)
  {
    if a == [] {
      assert a + b == b;
    } else {
      assert (a + b)[1..] == a[1..] + b;
      FlattenAppend(a[1..], b);
    }
  }

  lemma Associate<T>(a: seq<T>, b: seq<T>, c: seq<T>)
    ensures (a + b) + c == a + (b + c)
  {
  }

  /** What the first `m` bytes hold of the first piece, and of the others. */
  lemma FlattenTake(chunks: seq<seq<byte>>, m: nat)
    requires chunks != [] && m <= |Flatten(chunks)|
    ensures Flatten(chunks) == chunks[0] + Flatten(chunks[1..])
    ensures m <= |chunks[0]| ==> Flatten(chunks)[..m] == chunks[0][..m]
    ensures m >= |chunks[0]| ==> Flatten(chunks)[..m] == chunks[0] + Flatten(chunks[1..])[..m - |chunks[0]|]
  {
  }

  lemma FlattenSingle(a: seq<byte>)
    ensures Flatten([a]) == a
  {
    assert [a][1..] == [];
  }

  // ------------------------------------------------------------------ numbers as bit strings

  /** `a << k`. */
  function Shl(a: nat, k: nat): (r: nat)
    ensures a > 0 ==> r > 0
  {
    if k == 0 then a else 2 * Shl(a, k - 1)
  }

  function Xor(a: nat, b: nat): nat
    decreases a + b
  {
    if a == 0 && b == 0 then 0
    else 2 * Xor(a / 2, b / 2) + (if a % 2 == b % 2 then 0 else 1)
  }

  /** The number a byte string spells, most significant byte first. */
  function Value(data: seq<byte>): nat {
    if data == [] then 0 else 256 * Value(data[..|data| - 1]) + data[|data| - 1]
  }

  lemma XorBit(a: nat, b: nat, x: nat, y: nat)
    requires x < 2 && y < 2
    ensures Xor(2 * a + x, 2 * b + y) == 2 * Xor(a, b) + (if x == y then 0 else 1)
  {
    assert (2 * a + x) / 2 == a && (2 * b + y) / 2 == b;
  }

  lemma {:induction false} XorZero(a: nat)
    ensures Xor(a, 0) == a && Xor(0, a) == a
  {
    if a > 0 {
      XorZero(a / 2);
    }
  }

  lemma {:induction false} XorCommutes(a: nat, b: nat)
    ensures Xor(a, b) == Xor(b, a)
    decreases a + b
  {
    if a + b > 0 {
      XorCommutes(a / 2, b / 2);
    }
  }

  lemma XorHalves(a: nat, b: nat)
    ensures Xor(a, b) / 2 == Xor(a / 2, b / 2)
    ensures Xor(a, b) % 2 == 0 <==> a % 2 == b % 2
  {
  }

  lemma {:induction false} XorAssociates(a: nat, b: nat, c: nat)
    ensures Xor(Xor(a, b), c) == Xor(a, Xor(b, c))
    decreases a + b + c
  {
    if a + b + c > 0 {
      XorHalves(a, b);
      XorHalves(b, c);
      var left, right := Xor(Xor(a, b), c), Xor(a, Xor(b, c));
      XorHalves(Xor(a, b), c);
      XorHalves(a, Xor(b, c));
      XorAssociates(a / 2, b / 2, c / 2);
      assert left / 2 == right / 2 && left % 2 == right % 2;
    }
  }

  /** Nothing but equality makes an exclusive or vanish. */
  lemma {:induction false} XorVanishes(a: nat, b: nat)
    ensures Xor(a, b) == 0 <==> a == b
    decreases a + b
  {
    if a + b > 0 {
      XorVanishes(a / 2, b / 2);
    }
  }

  /** The top bit of an exclusive or. */
  lemma {:induction false} XorTop(a: nat, b: nat, k: nat)
    requires a < 2 * Shl(1, k) && b < 2 * Shl(1, k)
    ensures Xor(a, b) < 2 * Shl(1, k)
    ensures Xor(a, b) < Shl(1, k) <==> (a < Shl(1, k) <==> b < Shl(1, k))
    decreases k
  {
    XorHalves(a, b);
    if k == 0 {
      XorVanishes(a, b);
      XorZero(a);
      XorZero(b);
    } else {
      XorTop(a / 2, b / 2, k - 1);
    }
  }

  lemma {:induction false} XorShift(a: nat, b: nat, k: nat)
    ensures Xor(Shl(a, k), Shl(b, k)) == Shl(Xor(a, b), k)
  {
    if k > 0 {
      XorBit(Shl(a, k - 1), Shl(b, k - 1), 0, 0);
      XorShift(a, b, k - 1);
    }
  }

  /** Bits that do not overlap add up. */
  lemma {:induction false} XorDisjoint(a: nat, b: nat, k: nat)
    requires b < Shl(1, k)
    ensures Xor(Shl(a, k), b) == Shl(a, k) + b
    decreases k
  {
    if k == 0 {
      XorZero(a);
    } else {
      XorDisjoint(a, b / 2, k - 1);
      XorBit(Shl(a, k - 1), b / 2, 0, b % 2);
    }
  }

  lemma ShlTwo(a: nat)
    ensures Shl(a, 2) == 4 * a
  {
    assert Shl(a, 1) == 2 * Shl(a, 0);
  }

  lemma {:induction false} ShlAdd(a: nat, j: nat, k: nat)
    ensures Shl(Shl(a, j), k) == Shl(a, j + k)
  {
    if k > 0 {
      ShlAdd(a, j, k - 1);
    }
  }

  lemma ShlByte(a: nat)
    ensures Shl(a, 8) == 256 * a
  {
    ShlTwo(a);
    ShlTwo(4 * a);
    ShlTwo(16 * a);
    ShlTwo(64 * a);
    ShlAdd(a, 2, 2);
    ShlAdd(a, 4, 2);
    ShlAdd(a, 6, 2);
  }
}
