/** Byte strings, integers in them, and exclusive or. */
module Bytes {

  type byte = x: int | 0 <= x < 256

  type Bytes = seq<byte>

  function Zeros(n: nat): (zeros: Bytes)
    ensures |zeros| == n
  {
    seq(n, i => 0)
  }

  function Pow256(n: nat): nat {
    if n == 0 then 1 else 256 * Pow256(n - 1)
  }

  /** The last `count` base-256 digits of a number, least significant first. */
  function Little(n: nat, count: nat): (bytes: Bytes)
    ensures |bytes| == count
    decreases count
  {
    if count == 0 then [] else [n % 256] + Little(n / 256, count - 1)
  }

  function FromLittle(bytes: Bytes): nat {
    if bytes == [] then 0 else (bytes[0] as int) + 256 * FromLittle(bytes[1..])
  }

  /** The same, most significant first. */
  function Big(n: nat, count: nat): (bytes: Bytes)
    ensures |bytes| == count
    decreases count
  {
    if count == 0 then [] else Big(n / 256, count - 1) + [n % 256]
  }

  function FromBig(bytes: Bytes): nat {
    if bytes == [] then 0 else 256 * FromBig(bytes[..|bytes| - 1]) + (bytes[|bytes| - 1] as int)
  }

  lemma {:induction false} LittleRoundTrip(n: nat, count: nat)
    requires n < Pow256(count)
    ensures FromLittle(Little(n, count)) == n
    decreases count
  {
    if count > 0 {
      LittleRoundTrip(n / 256, count - 1);
      assert Little(n, count)[1..] == Little(n / 256, count - 1);
    }
  }

  lemma {:induction false} BigRoundTrip(n: nat, count: nat)
    requires n < Pow256(count)
    ensures FromBig(Big(n, count)) == n
    decreases count
  {
    if count > 0 {
      BigRoundTrip(n / 256, count - 1);
      assert Big(n, count)[..count - 1] == Big(n / 256, count - 1);
    }
  }

  lemma Pow256Facts()
    ensures Pow256(2) == 0x1_0000 && Pow256(4) == 0x1_0000_0000
  {
    assert Pow256(4) == 0x1_0000 * Pow256(2);
  }

  // ---- Exclusive or ----------------------------------------------------------

  function Pow2(bits: nat): nat {
    if bits == 0 then 1 else 2 * Pow2(bits - 1)
  }

  function XorBits(bits: nat, a: nat, b: nat): (c: nat)
    requires a < Pow2(bits) && b < Pow2(bits)
    ensures c < Pow2(bits)
  {
    if bits == 0 then 0
    else (if a % 2 == b % 2 then 0 else 1) + 2 * XorBits(bits - 1, a / 2, b / 2)
  }

  lemma {:induction false} XorBitsTwice(bits: nat, a: nat, b: nat)
    requires a < Pow2(bits) && b < Pow2(bits)
    ensures XorBits(bits, XorBits(bits, a, b), b) == a
  {
    if bits > 0 {
      XorBitsTwice(bits - 1, a / 2, b / 2);
      var c := XorBits(bits, a, b);
      assert c / 2 == XorBits(bits - 1, a / 2, b / 2);
      assert c % 2 == (if a % 2 == b % 2 then 0 else 1);
    }
  }

  lemma ByteBound()
    ensures Pow2(8) == 256
  {
    assert Pow2(4) == 16;
    assert Pow2(6) == 4 * Pow2(4);
    assert Pow2(8) == 4 * Pow2(6);
  }

  function Xor(a: byte, b: byte): byte {
    ByteBound();
    XorBits(8, a, b)
  }

  lemma XorTwice(a: byte, b: byte)
    ensures Xor(Xor(a, b), b) == a
  {
    ByteBound();
    XorBitsTwice(8, a, b);
  }

  lemma {:induction false} XorBitsSelf(bits: nat, a: nat, b: nat)
    requires a < Pow2(bits) && b < Pow2(bits)
    ensures XorBits(bits, a, a) == 0
    ensures XorBits(bits, XorBits(bits, a, b), a) == b
  {
    if bits > 0 {
      XorBitsSelf(bits - 1, a / 2, b / 2);
    }
  }

  lemma XorSelf(a: byte, b: byte)
    ensures Xor(a, a) == 0
    ensures Xor(Xor(a, b), a) == b
  {
    ByteBound();
    XorBitsSelf(8, a, b);
  }

  function XorAll(a: Bytes, b: Bytes): (c: Bytes)
    requires |a| == |b|
    ensures |c| == |a|
  {
    seq(|a|, i requires 0 <= i < |a| => Xor(a[i], b[i]))
  }

  /** The bit of a number at a position. */
  predicate Bit(n: nat, k: nat) {
    if k == 0 then n % 2 == 1 else Bit(n / 2, k - 1)
  }

  lemma {:induction false} XorBitsAt(bits: nat, a: nat, b: nat, k: nat)
    requires a < Pow2(bits) && b < Pow2(bits) && k < bits
    ensures Bit(XorBits(bits, a, b), k) <==> Bit(a, k) != Bit(b, k)
    decreases k
  {
    var rest := XorBits(bits - 1, a / 2, b / 2);
    var c := XorBits(bits, a, b);
    assert c / 2 == rest && c % 2 == (if a % 2 == b % 2 then 0 else 1);
    if k > 0 {
      XorBitsAt(bits - 1, a / 2, b / 2, k - 1);
    }
  }

  /** Each bit of an exclusive or is set exactly when it is set in one of the two. */
  lemma XorAt(a: byte, b: byte, k: nat)
    requires k < 8
    ensures Bit(Xor(a, b), k) <==> Bit(a, k) != Bit(b, k)
  {
    ByteBound();
    XorBitsAt(8, a, b, k);
  }

  /** The bytes of two-byte and four-byte lengths. */
  lemma BigOfTwo(n: nat)
    requires n < 0x1_0000
    ensures Big(n, 2) == [n / 256, n % 256]
  {
    assert Big(n / 256, 1) == [] + [n / 256 % 256];
  }

  lemma LittleOfFour(n: nat)
    requires n < 0x1_0000_0000
    ensures Little(n, 4) == [n % 256, n / 0x100 % 256, n / 0x1_0000 % 256, n / 0x100_0000]
  {
    assert n / 256 / 256 == n / 0x1_0000 && n / 256 / 256 / 256 == n / 0x100_0000;
    assert Little(n / 256 / 256 / 256, 1) == [n / 0x100_0000 % 256] + [];
    assert Little(n / 256 / 256, 2) == [n / 0x1_0000 % 256] + Little(n / 256 / 256 / 256, 1);
    assert Little(n / 256, 3) == [n / 256 % 256] + Little(n / 256 / 256, 2);
  }

  // ---- Joining ---------------------------------------------------------------

  function Concat(parts: seq<Bytes>): Bytes {
    if parts == [] then [] else parts[0] + Concat(parts[1..])
  }

  lemma ConcatFirst(parts: seq<Bytes>)
    requires parts != []
    ensures Concat(parts) == parts[0] + Concat(parts[1..])
  {
  }

  lemma Regroup(a: Bytes, b: Bytes, c: Bytes)
    ensures a + (b + c) == (a + b) + c
  {
  }

  lemma ShiftAppend<T>(a: seq<T>, b: seq<T>)
    ensures a == [] ==> a + b == b
    ensures a != [] ==> (a + b)[0] == a[0] && (a + b)[1..] == a[1..] + b
  {
  }

  lemma {:induction false} ConcatAppend(a: seq<Bytes>, b: seq<Bytes>)
    ensures Concat(a + b) == Concat(a) + Concat(b)
  {
    ShiftAppend(a, b);
    if a != [] {
      hide Concat;
      ConcatAppend(a[1..], b);
      ConcatFirst(a + b);
      ConcatFirst(a);
      Regroup(a[0], Concat(a[1..]), Concat(b));
    }
  }
}
