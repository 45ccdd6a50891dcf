/**
 Bit strings, bytes and the two bit orders that DEFLATE mixes: data elements are packed starting with
 their least-significant bit, Huffman codes starting with their most-significant bit
 (section 3.1.1 of RFC 1951).
 */
module BitStrings {
  type Byte = x: int | 0 <= x < 256

  function Pow2(n: nat): (p: nat)
    ensures 1 <= p
  {
    if n == 0 then 1 else 2 * Pow2(n - 1)
  }

  /** The n low bits of v, least-significant bit first. */
  function Lsb(v: nat, n: nat): (bits: seq<bool>)
    ensures |bits| == n
    decreases n, v
  {
    if n == 0 then [] else [v % 2 == 1] + Lsb(v / 2, n - 1)
  }

  /** The n low bits of v, most-significant bit first. */
  function Msb(v: nat, n: nat): (bits: seq<bool>)
    ensures |bits| == n
    decreases n, v
  {
    if n == 0 then [] else Msb(v / 2, n - 1) + [v % 2 == 1]
  }

  function FromLsb(bits: seq<bool>): nat
  {
    if bits == [] then 0 else (if bits[0] then 1 else 0) + 2 * FromLsb(bits[1..])
  }

  function FromMsb(bits: seq<bool>): nat
  {
    if bits == [] then 0 else 2 * FromMsb(bits[..|bits| - 1]) + (if bits[|bits| - 1] then 1 else 0)
  }

  /** The bit stream of a byte buffer: bytes in order, each least-significant bit first. */
  function BytesToBits(bytes: seq<Byte>): (bits: seq<bool>)
    ensures |bits| == 8 * |bytes|
  {
    if bytes == [] then [] else Lsb(bytes[0], 8) + BytesToBits(bytes[1..])
  }

  /** C's (unsigned char)((x) & 0xff). Dafny's % is never negative, so this is also right for negative x. */
  function Uchar(x: int): Byte {
    x % 256
  }

  lemma {:induction false} FromLsbLsb(v: nat, n: nat)
    requires v < Pow2(n)
    ensures FromLsb(Lsb(v, n)) == v
    decreases n
  {
    if n == 0 {
    } else {
      FromLsbLsb(v / 2, n - 1);
      assert Lsb(v, n)[1..] == Lsb(v / 2, n - 1);
    }
  }

  lemma {:induction false} FromMsbMsb(v: nat, n: nat)
    requires v < Pow2(n)
    ensures FromMsb(Msb(v, n)) == v
    decreases n
  {
    if n == 0 {
    } else {
      FromMsbMsb(v / 2, n - 1);
      assert Msb(v, n)[..n - 1] == Msb(v / 2, n - 1);
    }
  }

  lemma ConcatAssociates<T>(a: seq<T>, b: seq<T>, c: seq<T>)
    ensures a + b + c == a + (b + c)
  {
  }

  /** Placing code above the low c bits concatenates the bit strings. */
  lemma {:induction false} LsbConcat(buf: nat, c: nat, code: nat, n: nat)
    requires buf < Pow2(c)
    ensures Lsb(buf + code * Pow2(c), c + n) == Lsb(buf, c) + Lsb(code, n)
    decreases c
  {
    if c == 0 {
    } else {
      LsbConcat(buf / 2, c - 1, code, n);
      var v := buf + code * Pow2(c);
      assert code * Pow2(c) == 2 * (code * Pow2(c - 1));
      assert v / 2 == buf / 2 + code * Pow2(c - 1) && v % 2 == buf % 2;
      assert Lsb(v, c + n) == [v % 2 == 1] + Lsb(v / 2, c + n - 1);
      assert Lsb(v, c + n) == [buf % 2 == 1] + (Lsb(buf / 2, c - 1) + Lsb(code, n));
    }
  }

  /** Shifting a byte out of a bit string. */
  lemma LsbByte(v: nat, n: nat)
    ensures Lsb(v, 8 + n) == Lsb(v % 256, 8) + Lsb(v / 256, n)
  {
    assert Pow2(8) == 256;
    LsbConcat(v % 256, 8, v / 256, n);
  }

  lemma {:induction false} BytesToBitsAppend(a: seq<Byte>, b: seq<Byte>)
    ensures BytesToBits(a + b) == BytesToBits(a) + BytesToBits(b)
  {
    if a == [] {
      assert a + b == b;
    } else {
      BytesToBitsAppend(a[1..], b);
      assert (a + b)[1..] == a[1..] + b;
      ConcatAssociates(Lsb(a[0], 8), BytesToBits(a[1..]), BytesToBits(b));
    }
  }

  lemma BytesToBitsSnoc(a: seq<Byte>, b: Byte)
    ensures BytesToBits(a + [b]) == BytesToBits(a) + Lsb(b, 8)
  {
    BytesToBitsAppend(a, [b]);
    assert [b][1..] == [];
    assert BytesToBits([b]) == Lsb(b, 8);
  }

  /** The last digit in base 256 and what is in front of it. */
  lemma LastDigit(q: nat, r: Byte, q': nat, r': Byte)
    requires 256 * q + r as int == 256 * q' + r' as int
    ensures q == q' && r == r'
  {
  }

  lemma {:induction false} LsbInjective(a: nat, b: nat, n: nat)
    requires a < Pow2(n) && b < Pow2(n) && Lsb(a, n) == Lsb(b, n)
    ensures a == b
  {
    FromLsbLsb(a, n);
    FromLsbLsb(b, n);
  }

  /** A byte buffer whose bits start with the bits of some bytes starts with those bytes. */
  lemma {:induction false} BytesToBitsPrefix(bytes: seq<Byte>, first: seq<Byte>, more: seq<bool>)
    requires BytesToBits(bytes) == BytesToBits(first) + more
    ensures |first| <= |bytes| && bytes[..|first|] == first && BytesToBits(bytes[|first|..]) == more
  {
    if first == [] {
      assert bytes[0..] == bytes;
    } else {
      var tail := BytesToBits(first[1..]) + more;
      ConcatAssociates(Lsb(first[0], 8), BytesToBits(first[1..]), more);
      assert Lsb(bytes[0], 8) == BytesToBits(bytes)[..8] == Lsb(first[0], 8);
      assert Pow2(8) == 256;
      LsbInjective(bytes[0], first[0], 8);
      assert BytesToBits(bytes[1..]) == BytesToBits(bytes)[8..] == tail;
      BytesToBitsPrefix(bytes[1..], first[1..], more);
      assert bytes[..|first|] == [bytes[0]] + bytes[1..][..|first| - 1];
      assert bytes[|first|..] == bytes[1..][|first| - 1..];
    }
  }

  lemma Pow2Byte(n: nat)
    requires n >= 8
    ensures Pow2(n) == 256 * Pow2(n - 8)
  {
    assert Pow2(8) == 256;
    Pow2Add(8, n - 8);
  }

  lemma {:induction false} Pow2Add(a: nat, b: nat)
    ensures Pow2(a + b) == Pow2(a) * Pow2(b)
    decreases a
  {
    if a == 0 {
    } else {
      Pow2Add(a - 1, b);
    }
  }

  lemma {:induction false} Pow2Monotone(a: nat, b: nat)
    requires a <= b
    ensures Pow2(a) <= Pow2(b)
    decreases b
  {
    if a == b {
    } else {
      Pow2Monotone(a, b - 1);
    }
  }

  /** Bitwise or on unbounded naturals. */
  function Or(a: nat, b: nat): nat
    decreases a
  {
    if a == 0 then b
    else (if a % 2 == 1 || b % 2 == 1 then 1 else 0) + 2 * Or(a / 2, b / 2)
  }

  /** Or-ing into bits that are still clear is addition. */
  lemma {:induction false} OrDisjoint(a: nat, code: nat, k: nat)
    requires a < Pow2(k)
    ensures Or(a, code * Pow2(k)) == a + code * Pow2(k)
    decreases k
  {
    if a == 0 {
    } else {
      var c := code * Pow2(k - 1);
      assert code * Pow2(k) == 2 * c;
      OrDisjoint(a / 2, code, k - 1);
      assert Or(a, 2 * c) == (if a % 2 == 1 then 1 else 0) + 2 * Or(a / 2, c);
    }
  }
}
