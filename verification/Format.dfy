/** On-disk constants and encoding helpers shared by every part of femtoFS:
    the 32-bit name hash, the streaming FNV-1 fold and the little-endian words.
    (include/femtofs/format.h; ko/image.c:29-51) */
module Format {
  import opened Arith

  type byte = x: int | 0 <= x < 0x100
  type u16 = x: int | 0 <= x < 0x1_0000
  type u32 = x: int | 0 <= x < 0x1_0000_0000

  const U32: int := 0x1_0000_0000
  const PAGE: nat := 4096
  const MAX_CELLS: nat := 65535
  const MAX32: nat := 0xffff_ffff
  /** Bytes of the header and of one metadata cell. */
  const HEADER: nat := 128
  const CELL: nat := 16
  const MAX_TABLE: nat := 65521
  const MAX_ENTRIES: nat := 32768
  const FNV_PRIME: u32 := 0x01000193
  const FNV_INIT: u32 := 0x811c9dc5

  datatype Option<+T> = None | Some(value: T)
  datatype Result<+T> = Ok(value: T) | Err(message: string)

  /** A mention of the key opens predicates that are closed with `forall k {:trigger Key(k)} :: Key(k) ==> ...`;
      without it a proof carries them along unread.  Some take a key with a number of their own. */
  predicate Key(k: nat) {
    true
  }

  /** A slice of a slice. */
  lemma SubSlice(b: seq<byte>, i: nat, n: nat, j: nat, m: nat)
    requires i + n <= |b| && j + m <= n
    ensures b[i..i + n][j..j + m] == b[i + j..i + j + m]
  {
    var l, r := b[i..i + n][j..j + m], b[i + j..i + j + m];
    assert forall k: nat :: k < m ==> l[k] == r[k];
  }

  function Zeros(n: nat): (z: seq<byte>)
    ensures |z| == n && forall i: nat :: i < n ==> z[i] == 0
  {
    seq(n, _ => 0)
  }

  // ---------------------------------------------------------------- name hash

  /** The value of a name read as a number in the given base, with no wrap-around at all. */
  function Polynomial(name: seq<byte>, base: nat): nat {
    if name == [] then 0 else Polynomial(name[..|name| - 1], base) * base + name[|name| - 1]
  }

  /** What a name hashes to: the polynomial, wrapped once to 32 bits, modulo the table. */
  function Hash(name: seq<byte>, base: u32, size: nat): (h: nat)
    requires size > 0
    ensures h < size
  {
    Polynomial(name, base) % U32 % size
  }

  lemma Distribute(x: int, p: int, q: int, base: int)
    ensures (x * p + q) * base == x * (p * base) + q * base
  {
    assert (x * p) * base == x * (p * base);
  }

  /** The first byte has the highest power. */
  lemma {:induction false} PolynomialFront(x: byte, rest: seq<byte>, base: nat)
    ensures Polynomial([x] + rest, base) == x * Pow(base, |rest|) + Polynomial(rest, base)
  {
    if rest == [] {
      assert Polynomial([x], base) == Polynomial([], base) * base + x by {
        assert [x][..0] == [];
      }
      assert [x] + rest == [x];
    } else {
      var last := |rest| - 1;
      var name := [x] + rest;
      PolynomialFront(x, rest[..last], base);
      assert name[..|name| - 1] == [x] + rest[..last] && name[|name| - 1] == rest[last];
      Distribute(x, Pow(base, last), Polynomial(rest[..last], base), base);
    }
  }

  lemma WrapEachStep(a: nat, base: nat, b: nat)
    ensures ((a % U32) * base + b) % U32 == (a * base + b) % U32
  {
    var q := a / U32;
    assert a == q * U32 + a % U32;
    assert a * base + b == ((a % U32) * base + b) + (q * base) * U32 by {
      assert (q * U32) * base == (q * base) * U32;
      assert a * base == (q * U32 + a % U32) * base == (q * U32) * base + (a % U32) * base;
    }
    AddMultiple((a % U32) * base + b, q * base, U32);
  }

  /** The builder's hash loop: wraps at every byte, answers 0 for tables of one cell or none. */
  method HashName(name: seq<byte>, base: u32, size: nat) returns (h: nat)
    ensures size > 0 ==> h == Hash(name, base, size) == Polynomial(name, base) % 0x1_0000_0000 % size
    ensures size == 0 ==> h == 0
  {
    if size <= 1 {
      return 0;
    }
    var acc: u32 := 0;
    for i := 0 to |name|
      invariant acc == Polynomial(name[..i], base) % U32
    {
      assert name[..i + 1][..i] == name[..i];
      WrapEachStep(Polynomial(name[..i], base), base, name[i]);
      acc := (acc * base + name[i]) % U32;
    }
    assert name[..|name|] == name;
    h := acc % size;
  }

  /** The kernel's hash loop: the same fold without the shortcut for a one-cell table. */
  method KernelHash(name: seq<byte>, base: u32, size: nat) returns (h: nat)
    requires size > 0
    ensures h == Hash(name, base, size) == Polynomial(name, base) % 0x1_0000_0000 % size
  {
    var acc: u32 := 0;
    for i := 0 to |name|
      invariant acc == Polynomial(name[..i], base) % U32
    {
      assert name[..i + 1][..i] == name[..i];
      WrapEachStep(Polynomial(name[..i], base), base, name[i]);
      acc := (acc * base + name[i]) % U32;
    }
    assert name[..|name|] == name;
    h := acc % size;
  }

  // ---------------------------------------------------------------- FNV-1 and little-endian words

  /** Exclusive or of the low n bits. */
  function Xor(a: nat, b: nat, n: nat): (r: nat)
    ensures r < TwoTo(n)
  {
    if n == 0 then 0 else (a + b) % 2 + 2 * Xor(a / 2, b / 2, n - 1)
  }

  lemma TwoToEight()
    ensures TwoTo(8) == 256
  {
    assert TwoTo(4) == 16;
  }

  /** Multiply, wrapping, then mix one byte into the low bits. */
  function FnvStep(h: u32, b: byte): u32 {
    var product := (h * FNV_PRIME) % U32;
    TwoToEight();
    var high := product / 256;
    assert high <= 0xff_ffff;
    high * 256 + Xor(product % 256, b, 8)
  }

  function Bit(x: nat, j: nat): nat {
    if j == 0 then x % 2 else Bit(x / 2, j - 1)
  }

  /** Each bit is set that is set in one operand and not in the other. */
  lemma {:induction false} XorBit(a: nat, b: nat, n: nat, j: nat)
    requires j < n
    ensures Bit(Xor(a, b, n), j) == 1 <==> Bit(a, j) != Bit(b, j)
    ensures Bit(a, j) <= 1 && Bit(b, j) <= 1 && Bit(Xor(a, b, n), j) <= 1
  {
    var x := Xor(a, b, n);
    XorParts(a, b, n);
    if j == 0 {
      assert Bit(a, 0) == a % 2 && Bit(b, 0) == b % 2 && Bit(x, 0) == x % 2;
    } else {
      var a', b', x' := a / 2, b / 2, x / 2;
      XorBit(a', b', n - 1, j - 1);
      assert Bit(a, j) == Bit(a', j - 1) && Bit(b, j) == Bit(b', j - 1) && Bit(x, j) == Bit(x', j - 1);
    }
  }

  lemma XorParts(a: nat, b: nat, n: nat)
    requires n > 0
    ensures Xor(a, b, n) % 2 == (if a % 2 == b % 2 then 0 else 1) && Xor(a, b, n) / 2 == Xor(a / 2, b / 2, n - 1)
  {
    var rest := Xor(a / 2, b / 2, n - 1);
    assert Xor(a, b, n) == (a + b) % 2 + 2 * rest;
  }

  /** FNV-1: multiply by 16777619 in 32 bits, then mix the byte into the lowest eight. */
  lemma FnvStepBits(h: u32, b: byte, j: nat)
    requires j < 8
    ensures FnvStep(h, b) / 256 == h * 16777619 % 0x1_0000_0000 / 256
    ensures Bit(FnvStep(h, b) % 256, j) == 1 <==> Bit(h * 16777619 % 0x1_0000_0000 % 256, j) != Bit(b, j)
  {
    TwoToEight();
    var product := h * FNV_PRIME % U32;
    XorBit(product % 256, b, 8, j);
    assert FnvStep(h, b) == product / 256 * 256 + Xor(product % 256, b, 8);
  }

  /** The FNV-1 state after some bytes. */
  function Fnv(bytes: seq<byte>, state: u32): u32 {
    if bytes == [] then state else FnvStep(Fnv(bytes[..|bytes| - 1], state), bytes[|bytes| - 1])
  }

  /** Hashing in pieces is hashing the whole. */
  lemma {:induction false} FnvAppend(a: seq<byte>, b: seq<byte>, state: u32)
    ensures Fnv(a + b, state) == Fnv(b, Fnv(a, state))
  {
    if b == [] {
      assert a + b == a;
    } else {
      var last := |b| - 1;
      FnvAppend(a, b[..last], state);
      assert (a + b)[..|a + b| - 1] == a + b[..last];
    }
  }

  method Fnv1(bytes: seq<byte>, stateIn: u32) returns (state: u32)
    ensures state == Fnv(bytes, stateIn)
  {
    state := stateIn;
    for i := 0 to |bytes|
      invariant state == Fnv(bytes[..i], stateIn)
    {
      assert bytes[..i + 1][..i] == bytes[..i];
      state := FnvStep(state, bytes[i]);
    }
    assert bytes[..|bytes|] == bytes;
  }

  function Le32(x: u32): seq<byte> {
    [x % 256, x / 256 % 256, x / 256 / 256 % 256, x / 256 / 256 / 256]
  }

  function Load32(b: seq<byte>): u32
    requires |b| == 4
  {
    b[0] as int + 256 * (b[1] as int + 256 * (b[2] as int + 256 * b[3] as int))
  }

  lemma LoadStored(x: u32)
    ensures Load32(Le32(x)) == x
  {
  }
}
