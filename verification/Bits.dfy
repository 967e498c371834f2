/**
 Unsigned integers as bit strings, most significant bit first, and bytes as
 groups of eight bits.
 */
module Bits {
  type byte = b: int | 0 <= b < 256

  const BYTE_SIZE := 8

  function Pow2(n: nat): (p: nat)
    ensures p >= 1
  {
    if n == 0 then 1 else 2 * Pow2(n - 1)
  }

  lemma {:induction false} Pow2Monotone(i: nat, j: nat)
    requires i <= j
    ensures Pow2(i) <= Pow2(j)
  {
    if i < j {
      Pow2Monotone(i, j - 1);
    }
  }

  /** The low `size` bits of `n`, most significant first. */
  function ToBits(n: nat, size: nat): (bits: seq<bool>)
    ensures |bits| == size
  {
    if size == 0 then [] else ToBits(n / 2, size - 1) + [n % 2 == 1]
  }

  function FromBits(bits: seq<bool>): nat {
    if bits == [] then 0
    else 2 * FromBits(bits[..|bits| - 1]) + (if bits[|bits| - 1] then 1 else 0)
  }

  function Zeros(n: nat): (bits: seq<bool>)
    ensures |bits| == n
    ensures forall i :: 0 <= i < n ==> !bits[i]
  {
    seq(n, _ => false)
  }

  function Unpack(bytes: seq<byte>): (bits: seq<bool>)
    ensures |bits| == BYTE_SIZE * |bytes|
  {
    if bytes == [] then [] else ToBits(bytes[0], BYTE_SIZE) + Unpack(bytes[1..])
  }

  /** The number of bits a field bounded by `n` occupies: at least one. */
  function Sizeof(n: nat): (size: nat)
    ensures size >= 1
  {
    if n < 2 then 1 else 1 + Sizeof(n / 2)
  }

  /** `Sizeof` is wide enough, and no narrower width is. */
  lemma {:induction false} SizeofIsTight(n: nat)
    ensures n < Pow2(Sizeof(n))
    ensures n > 0 ==> Pow2(Sizeof(n) - 1) <= n
  {
    if n >= 2 {
      SizeofIsTight(n / 2);
      assert Pow2(Sizeof(n)) == 2 * Pow2(Sizeof(n / 2));
    }
  }

  lemma {:induction false} SizeofMonotone(n: nat, m: nat)
    requires n <= m
    ensures Sizeof(n) <= Sizeof(m)
  {
    if n >= 2 {
      SizeofMonotone(n / 2, m / 2);
    }
  }

  lemma {:induction false} FromToBits(n: nat, size: nat)
    requires n < Pow2(size)
    ensures FromBits(ToBits(n, size)) == n
  {
    if size > 0 {
      FromToBits(n / 2, size - 1);
      assert ToBits(n, size)[..size - 1] == ToBits(n / 2, size - 1);
    }
  }

  lemma {:induction false} ToFromBits(bits: seq<bool>)
    ensures FromBits(bits) < Pow2(|bits|)
    ensures ToBits(FromBits(bits), |bits|) == bits
  {
    if bits != [] {
      ToFromBits(bits[..|bits| - 1]);
      assert bits == bits[..|bits| - 1] + [bits[|bits| - 1]];
    }
  }

  lemma {:induction false} DivDiv(n: nat, p: nat)
    requires p >= 1
    ensures n / (2 * p) == n / 2 / p
  {
    var q, r := n / 2 / p, n / 2 % p;
    assert n / 2 == q * p + r;
    assert n == q * (2 * p) + (2 * r + n % 2) by {
      assert 2 * (q * p) == q * (2 * p);
    }
    DivUnique(n, 2 * p, q, 2 * r + n % 2);
  }

  lemma DivUnique(n: nat, d: nat, q: nat, r: nat)
    requires 0 <= r < d && n == q * d + r
    ensures n / d == q && n % d == r
  {
    var k := n / d - q;
    assert n == (n / d) * d + n % d;
    assert k * d == r - n % d by {
      assert (n / d - q) * d == (n / d) * d - q * d;
    }
  }

  /** Reading one bit with a mask agrees with the bit string. */
  lemma {:induction false} BitAt(n: nat, size: nat, i: nat)
    requires i < size
    ensures ToBits(n, size)[i] == (n / Pow2(size - 1 - i) % 2 == 1)
  {
    if i < size - 1 {
      BitAt(n / 2, size - 1, i);
      DivDiv(n, Pow2(size - 2 - i));
      assert Pow2(size - 1 - i) == 2 * Pow2(size - 2 - i);
    }
  }

  lemma {:induction false} FromBitsAppend(bits: seq<bool>, b: bool)
    ensures FromBits(bits + [b]) == 2 * FromBits(bits) + (if b then 1 else 0)
  {
    assert (bits + [b])[..|bits|] == bits;
  }

  /** Shifting a number left appends zero bits. */
  lemma {:induction false} ToBitsShift(n: nat, size: nat, shift: nat)
    ensures ToBits(n * Pow2(shift), size + shift) == ToBits(n, size) + Zeros(shift)
  {
    if shift == 0 {
      assert n * Pow2(0) == n;
    } else {
      var m := n * Pow2(shift - 1);
      assert n * Pow2(shift) == 2 * m;
      ToBitsShift(n, size, shift - 1);
      assert Zeros(shift) == Zeros(shift - 1) + [false];
    }
  }

  lemma {:induction false} UnpackAppend(bytes: seq<byte>, more: seq<byte>)
    ensures Unpack(bytes + more) == Unpack(bytes) + Unpack(more)
  {
    if bytes == [] {
      assert bytes + more == more;
    } else {
      hide ToBits;
      UnpackAppend(bytes[1..], more);
      assert (bytes + more)[1..] == bytes[1..] + more;
      Assoc(ToBits(bytes[0], BYTE_SIZE), Unpack(bytes[1..]), Unpack(more));
    }
  }

  lemma {:induction false} UnpackByte(b: byte)
    ensures Unpack([b]) == ToBits(b, BYTE_SIZE)
  {
    assert [b][1..] == [];
  }

  /** Bit `i` of a byte string lies in byte `i / 8`, at bit offset `i % 8`. */
  lemma {:induction false} UnpackAt(bytes: seq<byte>, i: nat)
    requires i < BYTE_SIZE * |bytes|
    ensures Unpack(bytes)[i] == ToBits(bytes[i / BYTE_SIZE], BYTE_SIZE)[i % BYTE_SIZE]
  {
    hide ToBits;
    if i >= BYTE_SIZE {
      UnpackAt(bytes[1..], i - BYTE_SIZE);
    }
  }

  /** A byte-aligned group of eight bits is one byte. */
  lemma {:induction false} UnpackSlice(bytes: seq<byte>, k: nat)
    requires k < |bytes|
    ensures Unpack(bytes)[BYTE_SIZE * k..BYTE_SIZE * k + BYTE_SIZE] == ToBits(bytes[k], BYTE_SIZE)
  {
    hide ToBits, Unpack;
    forall j | 0 <= j < BYTE_SIZE
      ensures Unpack(bytes)[BYTE_SIZE * k + j] == ToBits(bytes[k], BYTE_SIZE)[j]
    {
      UnpackAt(bytes, BYTE_SIZE * k + j);
    }
  }

  lemma Assoc<T>(a: seq<T>, b: seq<T>, c: seq<T>)
    ensures a + b + c == a + (b + c)
  {
  }
}
