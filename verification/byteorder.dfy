// Machine-independent integers of the bundled MySQL headers: the korr functions read an integer, low byte first, and
// the store functions write one. Casts and shifts are written out, so truncation would show.

module ByteOrder {
  type Byte = x: int | 0 <= x < 0x100

  // ---------- little-endian numbers ----------

  function Pow256(n: nat): (p: nat)
    ensures p > 0
  {
    if n == 0 then 1 else 0x100 * Pow256(n - 1)
  }

  /** The number that the bytes stand for, low byte first. */
  function Value(b: seq<Byte>): nat { if b == [] then 0 else b[0] + 0x100 * Value(b[1..]) }

  /** The n low bytes of v, low byte first. */
  function Bytes(v: nat, n: nat): (b: seq<Byte>)
    ensures |b| == n
  {
    if n == 0 then [] else [v % 0x100] + Bytes(v / 0x100, n - 1)
  }

  lemma {:induction false} NextMultiple(q: int, q': int, d: nat)
    requires q < q'
    ensures q * d + d <= q' * d
    decreases q' - q
  {
    assert q' * d == (q' - 1) * d + d;
    if q < q' - 1 {
      NextMultiple(q, q' - 1, d);
    }
  }

  lemma RemainderIs(v: nat, d: nat, q: int, r: nat)
    requires d > 0 && r < d && v == q * d + r
    ensures v % d == r
  {
    var q' := v / d;
    assert v == q' * d + v % d;
    if q < q' {
      NextMultiple(q, q', d);
    } else if q > q' {
      NextMultiple(q', q, d);
    }
  }

  lemma ModStep(v: nat, p: nat)
    requires p > 0
    ensures v % 0x100 + 0x100 * ((v / 0x100) % p) == v % (0x100 * p)
  {
    var q, low := v / 0x100, v % 0x100;
    var hi, lo := q / p, q % p;
    assert q == hi * p + lo;
    assert 0x100 * (hi * p) == hi * (0x100 * p);
    RemainderIs(v, 0x100 * p, hi, 0x100 * lo + low);
  }

  /** Storing and reading: n bytes keep the value modulo 256^n. */
  lemma {:induction false} ValueOfBytes(v: nat, n: nat)
    ensures Value(Bytes(v, n)) == v % Pow256(n)
  {
    if n > 0 {
      ValueOfBytes(v / 0x100, n - 1);
      assert Bytes(v, n)[1..] == Bytes(v / 0x100, n - 1);
      ModStep(v, Pow256(n - 1));
    }
  }

  /** Reading and storing: the bytes come back, so different bytes are different numbers. */
  lemma {:induction false} BytesOfValue(b: seq<Byte>)
    ensures Bytes(Value(b), |b|) == b
  {
    if b != [] {
      BytesOfValue(b[1..]);
      assert Value(b) % 0x100 == b[0] && Value(b) / 0x100 == Value(b[1..]);
    }
  }

  // ---------- C arithmetic ----------

  function U8(x: int): (r: Byte)
    ensures 0 <= x < 0x100 ==> r == x
  {
    x % 0x100
  }

  function U16(x: int): (r: nat)
    ensures 0 <= x < 0x1_0000 ==> r == x
  {
    x % 0x1_0000
  }

  function U32(x: int): (r: nat)
    ensures 0 <= x < 0x1_0000_0000 ==> r == x
  {
    x % 0x1_0000_0000
  }

  function U64(x: int): (r: nat)
    ensures 0 <= x < 0x1_0000_0000_0000_0000 ==> r == x
  {
    x % 0x1_0000_0000_0000_0000
  }

  /** Two's complement: an n-bit pattern read as a signed number, `half` being 2^(n-1). */
  function Signed(x: nat, half: nat): int { if x < half then x else x - 2 * half }

  // ---------- reading ----------

  /** The n bytes at offset `at`. */
  function Field(a: seq<Byte>, at: nat, n: nat): (b: seq<Byte>)
    requires at + n <= |a|
    ensures |b| == n
  {
    a[at..at + n]
  }

  lemma Value1(b: seq<Byte>)
    requires |b| == 1
    ensures Value(b) == b[0]
  {
    assert b[1..] == [];
  }

  lemma Value2(b: seq<Byte>)
    requires |b| == 2
    ensures Value(b) == b[0] as int + 0x100 * b[1] as int
  {
    Value1(b[1..]);
  }

  lemma Value4(b: seq<Byte>)
    requires |b| == 4
    ensures Value(b) == b[0] as int + 0x100 * b[1] as int + 0x1_0000 * b[2] as int + 0x100_0000 * b[3] as int
  {
    Value2(b[2..]);
    assert b[1..][1..] == b[2..];
  }

  lemma ValueSplit4(b: seq<Byte>)
    requires |b| >= 4
    ensures Value(b) == Value(b[..4]) + 0x1_0000_0000 * Value(b[4..])
  {
    Value4(b[..4]);
    assert b[1..][1..] == b[2..] && b[2..][1..] == b[3..] && b[3..][1..] == b[4..];
  }

  function Uint2Korr(a: seq<Byte>, at: nat): (r: nat)
    requires at + 2 <= |a|
    ensures r == Value(Field(a, at, 2))
  {
    Value2(Field(a, at, 2));
    U16(U16(a[at]) + U16(a[at + 1] as int * 0x100))
  }

  function Sint2Korr(a: seq<Byte>, at: nat): (r: int)
    requires at + 2 <= |a|
    ensures -0x8000 <= r < 0x8000 && r == Signed(Value(Field(a, at, 2)), 0x8000)
  {
    Signed(Uint2Korr(a, at), 0x8000)
  }

  function Uint3Korr(a: seq<Byte>, at: nat): (r: nat)
    requires at + 3 <= |a|
    ensures r == Value(Field(a, at, 3))
  {
    Value2(Field(a, at, 3)[1..]);
    U32(U32(U32(a[at]) + U32(a[at + 1] as int * 0x100)) + U32(a[at + 2] as int * 0x1_0000))
  }

  /** The bits 24 to 31 are filled with ones when bit 23 is set; the shifted bytes have no bit in common, so the bitwise
      or of the original is a sum. */
  function Sint3Korr(a: seq<Byte>, at: nat): (r: int)
    requires at + 3 <= |a|
    ensures -0x80_0000 <= r < 0x80_0000 && r == Signed(Value(Field(a, at, 3)), 0x80_0000)
  {
    Value2(Field(a, at, 3)[1..]);
    var low := a[at] as int + a[at + 1] as int * 0x100 + a[at + 2] as int * 0x1_0000;
    Signed(if a[at + 2] >= 128 then U32(255 * 0x100_0000) + low else low, 0x8000_0000)
  }

  function Uint4Korr(a: seq<Byte>, at: nat): (r: nat)
    requires at + 4 <= |a|
    ensures r == Value(Field(a, at, 4))
  {
    Value4(Field(a, at, 4));
    U32(U32(U32(U32(a[at]) + U32(a[at + 1] as int * 0x100)) + U32(a[at + 2] as int * 0x1_0000)) + U32(a[at + 3] as int * 0x100_0000))
  }

  function Sint4Korr(a: seq<Byte>, at: nat): (r: int)
    requires at + 4 <= |a|
    ensures -0x8000_0000 <= r < 0x8000_0000 && r == Signed(Value(Field(a, at, 4)), 0x8000_0000)
  {
    Signed(Uint4Korr(a, at), 0x8000_0000)
  }

  function Uint5Korr(a: seq<Byte>, at: nat): (r: nat)
    requires at + 5 <= |a|
    ensures r == Value(Field(a, at, 5))
  {
    ValueSplit4(Field(a, at, 5));
    Value1(Field(a, at, 5)[4..]);
    assert Field(a, at, 5)[..4] == Field(a, at, 4);
    U64(Uint4Korr(a, at) + U64(a[at + 4] as int * 0x1_0000_0000))
  }

  function Uint6Korr(a: seq<Byte>, at: nat): (r: nat)
    requires at + 6 <= |a|
    ensures r == Value(Field(a, at, 6))
  {
    ValueSplit4(Field(a, at, 6));
    Value2(Field(a, at, 6)[4..]);
    assert Field(a, at, 6)[..4] == Field(a, at, 4);
    U64(U64(Uint4Korr(a, at) + U64(a[at + 4] as int * 0x1_0000_0000)) + U64(a[at + 5] as int * 0x100_0000_0000))
  }

  function Uint8Korr(a: seq<Byte>, at: nat): (r: nat)
    requires at + 8 <= |a|
    ensures r == Value(Field(a, at, 8))
  {
    ValueSplit4(Field(a, at, 8));
    assert Field(a, at, 8)[..4] == Field(a, at, 4) && Field(a, at, 8)[4..] == Field(a, at + 4, 4);
    Value4(Field(a, at, 4));
    Value4(Field(a, at + 4, 4));
    U64(Uint4Korr(a, at) + U64(Uint4Korr(a, at + 4) * 0x1_0000_0000))
  }

  function Sint8Korr(a: seq<Byte>, at: nat): (r: int)
    requires at + 8 <= |a|
    ensures -0x8000_0000_0000_0000 <= r < 0x8000_0000_0000_0000
    ensures r == Signed(Value(Field(a, at, 8)), 0x8000_0000_0000_0000)
  {
    Signed(Uint8Korr(a, at), 0x8000_0000_0000_0000)
  }

  // ---------- storing ----------

  /** A buffer in which the bytes from `at` on have been replaced by `b`, and nothing else. */
  function Patched(a: seq<Byte>, at: nat, b: seq<Byte>): (r: seq<Byte>)
    requires at + |b| <= |a|
    ensures |r| == |a| && Field(r, at, |b|) == b
  {
    a[..at] + b + a[at + |b|..]
  }

  /** `a >> 8k`. */
  function Shr8(a: nat, k: nat): nat { if k == 0 then a else Shr8(a / 0x100, k - 1) }

  lemma {:induction false} BytesSnoc(v: nat, n: nat)
    ensures Bytes(v, n + 1) == Bytes(v, n) + [U8(Shr8(v, n))]
  {
    if n > 0 {
      BytesSnoc(v / 0x100, n - 1);
    } else {
      assert Bytes(v, 1) == [v % 0x100] + Bytes(v / 0x100, 0);
    }
  }

  lemma {:induction false} BytesAt(v: nat, n: nat, i: nat)
    requires i < n
    ensures Bytes(v, n)[i] == U8(Shr8(v, i))
  {
    if i > 0 {
      BytesAt(v / 0x100, n - 1, i - 1);
    }
  }

  lemma {:induction false} BytesConcat(v: nat, n: nat, m: nat)
    ensures Bytes(v, n + m) == Bytes(v, n) + Bytes(Shr8(v, n), m)
  {
    if n > 0 {
      BytesConcat(v / 0x100, n - 1, m);
    }
  }

  /** Bytes beyond the n low ones do not matter. */
  lemma {:induction false} BytesOfMod(v: nat, n: nat)
    ensures Bytes(v % Pow256(n), n) == Bytes(v, n)
  {
    ValueOfBytes(v, n);
    BytesOfValue(Bytes(v, n));
  }

  method Int2Store(t: array<Byte>, at: nat, a: nat)
    requires at + 2 <= t.Length && a < 0x1_0000
    modifies t
    ensures t[..] == Patched(old(t[..]), at, Bytes(a, 2))
  {
    t[at] := U8(a);
    t[at + 1] := U8(Shr8(a, 1));
    forall i | 0 <= i < 2 ensures t[at + i] == Bytes(a, 2)[i] {
      BytesAt(a, 2, i);
    }
  }

  method Int3Store(t: array<Byte>, at: nat, a: nat)
    requires at + 3 <= t.Length && a < 0x1_0000_0000
    modifies t
    ensures t[..] == Patched(old(t[..]), at, Bytes(a, 3))
  {
    t[at] := U8(a);
    t[at + 1] := U8(Shr8(a, 1));
    t[at + 2] := U8(Shr8(a, 2));
    forall i | 0 <= i < 3 ensures t[at + i] == Bytes(a, 3)[i] {
      BytesAt(a, 3, i);
    }
  }

  method Int4Store(t: array<Byte>, at: nat, a: nat)
    requires at + 4 <= t.Length && a < 0x1_0000_0000
    modifies t
    ensures t[..] == Patched(old(t[..]), at, Bytes(a, 4))
  {
    t[at] := U8(a);
    t[at + 1] := U8(Shr8(a, 1));
    t[at + 2] := U8(Shr8(a, 2));
    t[at + 3] := U8(Shr8(a, 3));
    forall i | 0 <= i < 4 ensures t[at + i] == Bytes(a, 4)[i] {
      BytesAt(a, 4, i);
    }
  }

  method Int5Store(t: array<Byte>, at: nat, a: nat)
    requires at + 5 <= t.Length && a < 0x1_0000_0000_0000_0000
    modifies t
    ensures t[..] == Patched(old(t[..]), at, Bytes(a, 5))
  {
    t[at] := U8(a);
    t[at + 1] := U8(Shr8(a, 1));
    t[at + 2] := U8(Shr8(a, 2));
    t[at + 3] := U8(Shr8(a, 3));
    t[at + 4] := U8(Shr8(a, 4));
    forall i | 0 <= i < 5 ensures t[at + i] == Bytes(a, 5)[i] {
      BytesAt(a, 5, i);
    }
  }

  method Int6Store(t: array<Byte>, at: nat, a: nat)
    requires at + 6 <= t.Length && a < 0x1_0000_0000_0000_0000
    modifies t
    ensures t[..] == Patched(old(t[..]), at, Bytes(a, 6))
  {
    t[at] := U8(a);
    t[at + 1] := U8(Shr8(a, 1));
    t[at + 2] := U8(Shr8(a, 2));
    t[at + 3] := U8(Shr8(a, 3));
    t[at + 4] := U8(Shr8(a, 4));
    t[at + 5] := U8(Shr8(a, 5));
    forall i | 0 <= i < 6 ensures t[at + i] == Bytes(a, 6)[i] {
      BytesAt(a, 6, i);
    }
  }

  lemma Pow256Is()
    ensures Pow256(2) == 0x1_0000 && Pow256(3) == 0x100_0000 && Pow256(4) == 0x1_0000_0000
    ensures Pow256(8) == 0x1_0000_0000_0000_0000
  {
    assert Pow256(1) == 0x100;
    assert Pow256(2) == 0x1_0000;
    assert Pow256(6) == 0x1_0000_0000_0000;
  }

  method Int8Store(t: array<Byte>, at: nat, a: nat)
    requires at + 8 <= t.Length && a < 0x1_0000_0000_0000_0000
    modifies t
    ensures t[..] == Patched(old(t[..]), at, Bytes(a, 8))
  {
    var low, high := U32(a), U32(Shr8(a, 4));
    Int4Store(t, at, low);
    Int4Store(t, at + 4, high);
    Pow256Is();
    BytesOfMod(a, 4);
    BytesOfMod(Shr8(a, 4), 4);
    BytesConcat(a, 4, 4);
  }

  // ---------- round trips ----------

  /** Reading what has been stored, anywhere in a buffer: the value modulo 256^n, for every width. */
  lemma StoreThenRead(a: seq<Byte>, at: nat, v: nat)
    ensures at + 2 <= |a| ==> Uint2Korr(Patched(a, at, Bytes(v, 2)), at) == v % Pow256(2)
    ensures at + 3 <= |a| ==> Uint3Korr(Patched(a, at, Bytes(v, 3)), at) == v % Pow256(3)
    ensures at + 4 <= |a| ==> Uint4Korr(Patched(a, at, Bytes(v, 4)), at) == v % Pow256(4)
    ensures at + 5 <= |a| ==> Uint5Korr(Patched(a, at, Bytes(v, 5)), at) == v % Pow256(5)
    ensures at + 6 <= |a| ==> Uint6Korr(Patched(a, at, Bytes(v, 6)), at) == v % Pow256(6)
    ensures at + 8 <= |a| ==> Uint8Korr(Patched(a, at, Bytes(v, 8)), at) == v % Pow256(8)
  {
    ValueOfBytes(v, 2);
    ValueOfBytes(v, 3);
    ValueOfBytes(v, 4);
    ValueOfBytes(v, 5);
    ValueOfBytes(v, 6);
    ValueOfBytes(v, 8);
  }

  /** Storing what has been read leaves the buffer as it was. */
  lemma ReadThenStore(a: seq<Byte>, at: nat, n: nat)
    requires at + n <= |a|
    ensures Patched(a, at, Bytes(Value(Field(a, at, n)), n)) == a
  {
    BytesOfValue(Field(a, at, n));
  }

  /** What n stored bytes stand for when they are read at the same place. */
  lemma PatternBack(a: seq<Byte>, at: nat, p: nat, n: nat)
    requires at + n <= |a|
    ensures Value(Field(Patched(a, at, Bytes(p, n)), at, n)) == p % Pow256(n)
  {
    ValueOfBytes(p, n);
  }

  /** The signed readers undo the stores, anywhere in a buffer, on every number of their width; a number is passed to
      the store as the unsigned pattern it converts to. */
  lemma SignedRoundTrip2(a: seq<Byte>, at: nat, v: int)
    requires at + 2 <= |a| && -0x8000 <= v < 0x8000
    ensures Sint2Korr(Patched(a, at, Bytes(U16(v), 2)), at) == v
  {
    var p := U16(v);
    Pow256Is();
    PatternBack(a, at, p, 2);
    RemainderIs(p, Pow256(2), 0, p);
    assert p == if v < 0 then v + Pow256(2) else v;
  }

  lemma SignedRoundTrip3(a: seq<Byte>, at: nat, v: int)
    requires at + 3 <= |a| && -0x80_0000 <= v < 0x80_0000
    ensures Sint3Korr(Patched(a, at, Bytes(U32(v), 3)), at) == v
  {
    var p := U32(v);
    Pow256Is();
    PatternBack(a, at, p, 3);
    if v < 0 {
      RemainderIs(p, Pow256(3), 255, v + 0x100_0000);
    } else {
      RemainderIs(p, Pow256(3), 0, v);
    }
  }

  lemma SignedRoundTrip4(a: seq<Byte>, at: nat, v: int)
    requires at + 4 <= |a| && -0x8000_0000 <= v < 0x8000_0000
    ensures Sint4Korr(Patched(a, at, Bytes(U32(v), 4)), at) == v
  {
    var p := U32(v);
    Pow256Is();
    PatternBack(a, at, p, 4);
    RemainderIs(p, Pow256(4), 0, p);
    assert p == if v < 0 then v + Pow256(4) else v;
  }

  lemma SignedRoundTrip8(a: seq<Byte>, at: nat, v: int)
    requires at + 8 <= |a| && -0x8000_0000_0000_0000 <= v < 0x8000_0000_0000_0000
    ensures Sint8Korr(Patched(a, at, Bytes(U64(v), 8)), at) == v
  {
    var p := U64(v);
    Pow256Is();
    PatternBack(a, at, p, 8);
    RemainderIs(p, Pow256(8), 0, p);
    assert p == if v < 0 then v + Pow256(8) else v;
  }
}
