/**
 The bit reader and its Exp-Golomb decoder. The reader takes up to a byte's
 worth of bits at a time with shifts and masks; the specification numbers the
 bits of the data, most significant first, and speaks of runs of them.
 */
module BitReader {
  import opened Bytes

  type Bit = b: int | 0 <= b <= 1

  const U64 := 0x1_0000_0000_0000_0000

  // ---------------------------------------------------------------- numbers and runs of bits

  function Pow2(n: nat): (r: int)
    ensures r >= 1
  {
    if n == 0 then 1 else 2 * Pow2(n - 1)
  }

  /** `x` shifted left by `n` bits. */
  function Shifted(x: int, n: nat): int {
    if n == 0 then x else 2 * Shifted(x, n - 1)
  }

  /** The number that bits `k .. k + n` spell, most significant bit first. */
  function ValueAt(b: seq<Bit>, k: nat, n: nat): (v: int)
    requires k + n <= |b|
    ensures 0 <= v < Pow2(n)
  {
    if n == 0 then 0 else 2 * ValueAt(b, k, n - 1) + b[k+n-1]
  }

  /** Consecutive reads compose: the first value, shifted by the second's length, plus the second. */
  lemma {:induction false} ReadsCompose(b: seq<Bit>, k: nat, m: nat, n: nat)
    requires k + m + n <= |b|
    ensures ValueAt(b, k, m + n) == Shifted(ValueAt(b, k, m), n) + ValueAt(b, k + m, n)
  {
    if n > 0 { ReadsCompose(b, k, m, n - 1); }
  }

  // ---------------------------------------------------------------- bits of bytes

  /** `x >> n`. */
  function Shr(x: int, n: nat): int {
    if n == 0 then x else Shr(x, n - 1) / 2
  }

  /** The low `d` bits of `x`: `x & (0xff >> (8 - d))`. */
  function Low(x: int, d: nat): int
    decreases d
  {
    if d == 0 then 0 else 2 * Low(x / 2, d - 1) + x % 2
  }

  /** Bit `i` of a byte string, counted from the most significant bit of its first byte. */
  function BitAt(data: seq<Byte>, i: nat): Bit
    requires i < 8 * |data|
  {
    Shr(data[i / 8], 7 - i % 8) % 2
  }

  /** `bits` are the bits of `data`. */
  ghost predicate BitsOf(data: seq<Byte>, bits: seq<Bit>) {
    |bits| == 8 * |data| && forall i {:trigger BitAt(data, i)} :: 0 <= i < |bits| ==> bits[i] == BitAt(data, i)
  }

  function Bits(data: seq<Byte>): (bits: seq<Bit>)
    ensures BitsOf(data, bits)
  {
    seq(8 * |data|, i requires 0 <= i < 8 * |data| => BitAt(data, i))
  }

  /** The high `d` bits of a byte are its quotient by the rest. */
  lemma {:induction false} HighBits(data: seq<Byte>, b: seq<Bit>, i: nat, d: nat)
    requires BitsOf(data, b) && i < |data| && d <= 8
    ensures ValueAt(b, 8 * i, d) == Shr(data[i], 8 - d)
    decreases d
  {
    if d > 0 {
      HighBits(data, b, i, d - 1);
      assert b[8*i+d-1] == BitAt(data, 8 * i + d - 1);
    } else {
      NoHighBits(data[i]);
    }
  }

  lemma NoHighBits(x: Byte)
    ensures Shr(x, 8) == 0
  {
    assert Shr(x, 1) == x / 2;
    assert Shr(x, 2) == x / 4;
    assert Shr(x, 3) == x / 8;
    assert Shr(x, 4) == x / 16;
    assert Shr(x, 5) == x / 32;
    assert Shr(x, 6) == x / 64;
    assert Shr(x, 7) == x / 128;
  }

  /** The eight bits of a byte spell it. */
  lemma ByteValue(data: seq<Byte>, i: nat)
    requires i < |data|
    ensures ValueAt(Bits(data), 8 * i, 8) == data[i]
  {
    HighBits(data, Bits(data), i, 8);
  }

  /** The number that bytes spell, the most significant first. */
  function BigEndian(s: seq<Byte>): int {
    if s == [] then 0 else 0x100 * BigEndian(s[..|s|-1]) + s[|s|-1] as int
  }

  /** So the bits of several bytes spell their number. */
  lemma {:induction false} BytesValue(data: seq<Byte>, i: nat, k: nat)
    requires i + k <= |data|
    ensures ValueAt(Bits(data), 8 * i, 8 * k) == BigEndian(data[i..i+k])
    decreases k
  {
    hide ValueAt, Bits, Shifted;
    if k == 0 {
      NoBits(Bits(data), 8 * i);
    } else {
      BytesValue(data, i, k - 1);
      ReadsCompose(Bits(data), 8 * i, 8 * (k - 1), 8);
      ByteValue(data, i + k - 1);
      ShiftedByte(BigEndian(data[i..i+k-1]));
      assert data[i..i+k][..k-1] == data[i..i+k-1];
    }
  }

  lemma ShiftedByte(x: int)
    ensures Shifted(x, 8) == 0x100 * x
  {
    assert Shifted(x, 1) == 2 * x;
    assert Shifted(x, 2) == 4 * x;
    assert Shifted(x, 3) == 8 * x;
    assert Shifted(x, 4) == 16 * x;
    assert Shifted(x, 5) == 32 * x;
    assert Shifted(x, 6) == 64 * x;
    assert Shifted(x, 7) == 128 * x;
  }

  /** Shift and mask pick out a run of bits of one byte. */
  lemma {:induction false} ShiftAndMask(data: seq<Byte>, b: seq<Bit>, pos: nat, offs: nat, d: nat)
    requires BitsOf(data, b) && pos < |data| && offs + d <= 8
    ensures Low(Shr(data[pos], 8 - offs - d), d) == ValueAt(b, 8 * pos + offs, d)
    decreases d
  {
    if d > 0 {
      ShiftAndMask(data, b, pos, offs, d - 1);
      assert Shr(data[pos], 8 - offs - d) / 2 == Shr(data[pos], 8 - offs - (d - 1));
      var i := 8 * pos + offs + d - 1;
      assert b[i] == BitAt(data, i);
    }
  }

  // ---------------------------------------------------------------- 64-bit arithmetic

  /** Shifting a 64-bit accumulator left. */
  function Shl(v: int, d: nat): int {
    if d == 0 then v else 2 * Shl(v, d - 1) % U64
  }

  lemma {:induction false} Accumulates(b: seq<Bit>, k: nat, m: nat, d: nat)
    requires k + m + d <= |b|
    ensures (Shl(ValueAt(b, k, m) % U64, d) + ValueAt(b, k + m, d)) % U64 == ValueAt(b, k, m + d) % U64
  {
    if d > 0 {
      Accumulates(b, k, m, d - 1);
      DoubleMod(Shl(ValueAt(b, k, m) % U64, d - 1), ValueAt(b, k + m, d - 1), ValueAt(b, k, m + d - 1), b[k+m+d-1]);
    }
  }

  lemma NoBits(b: seq<Bit>, k: nat)
    requires k <= |b|
    ensures ValueAt(b, k, 0) == 0
  {
  }

  lemma DoubleMod(s: int, y: int, z: int, x: int)
    requires (s + y) % U64 == z % U64
    ensures (2 * s % U64 + (2 * y + x)) % U64 == (2 * z + x) % U64
  {
  }

  // ---------------------------------------------------------------- the reader

  class Reader {
    const data: seq<Byte>
    ghost const bits: seq<Bit>   // the bits of `data`
    var pos: int
    var offs: int
    var err: bool

    ghost predicate Valid()
      reads this
    {
      0 <= pos <= |data| && 0 <= offs < 8 && (pos == |data| ==> offs == 0) && BitsOf(data, bits)
    }

    /** How many bits have been read. */
    function BitPos(): int
      reads this
    {
      8 * pos + offs
    }

    constructor (bytes: seq<Byte>)
      ensures Valid() && data == bytes && bits == Bits(data) && BitPos() == 0 && !err
    {
      data := bytes;
      bits := Bits(bytes);
      pos, offs, err := 0, 0, false;
    }

    lemma WholeBytes(i: nat, k: nat)
      requires Valid() && i + k <= |data|
      ensures |bits| == 8 * |data| && ValueAt(bits, 8 * i, 8 * k) == BigEndian(data[i..i+k])
    {
      assert bits == Bits(data);
      BytesValue(data, i, k);
    }

    lemma InRange()
      requires Valid()
      ensures |bits| == 8 * |data| && 0 <= BitPos() <= |bits|
    {
    }

    /**
     Read `n` bits. With enough bits left the result is their value (modulo the
     width of the accumulator) and the reader stands right behind them; otherwise
     the error flag is set, the result is 0 and everything has been read.
     */
    method Read(n: nat) returns (v: int)
      requires Valid() && n + 8 <= U64
      modifies this`pos, this`offs, this`err
      ensures Valid()
      ensures old(BitPos()) + n <= |bits| ==>
                v == ValueAt(bits, old(BitPos()), n) % U64 && BitPos() == old(BitPos()) + n && err == old(err)
      ensures old(BitPos()) + n > |bits| ==> v == 0 && err && BitPos() == |bits|
      ensures old(offs) == 0 && n % 8 == 0 && old(pos) + n / 8 <= |data| ==>
                v == BigEndian(data[old(pos)..old(pos)+n/8]) % U64
    {
      hide ValueAt, Shl, Low, Shr, BitsOf, BigEndian;
      v := 0;
      var m := n;
      ghost var start := BitPos();
      InRange();
      NoBits(bits, start);
      if offs == 0 && n % 8 == 0 && pos + n / 8 <= |data| { WholeBytes(pos, n / 8); }
      while m > 0
        invariant Valid() && 0 <= m <= n && err == old(err)
        invariant BitPos() == start + (n - m)
        invariant v == ValueAt(bits, start, n - m) % U64
        decreases m
      {
        if pos >= |data| {
          err, v := true, 0;
          return;
        }
        var d := if offs + m > 8 then 8 - offs else m;
        ShiftAndMask(data, bits, pos, offs, d);
        Accumulates(bits, start, n - m, d);
        v := (Shl(v, d) + Low(Shr(data[pos], 8 - offs - d), d)) % U64;
        offs := offs + d;
        m := m - d;
        if offs == 8 {
          pos := pos + 1;
          offs := 0;
        }
      }
    }

    /** The loop that counts zeros up to the first one bit. */
    method CountZeros() returns (n: nat)
      requires Valid() && !err
      modifies this`pos, this`offs, this`err
      ensures Valid() && n == Zeros(bits, old(BitPos()))
      ensures err == (old(BitPos()) + n == |bits|)
      ensures BitPos() == old(BitPos()) + n + if err then 0 else 1
    {
      ghost var b, start := bits, BitPos();
      n := 0;
      var bit := ReadBit();
      while bit == 0 && !err
        invariant Valid() && start + n <= |b| && Zeros(b, start) == n + Zeros(b, start + n)
        invariant !err ==> start + n < |b| && bit == b[start+n] && BitPos() == start + n + 1
        invariant err ==> start + n == |b| == BitPos()
        decreases |b| - n, if err then 0 else 1
      {
        n := n + 1;
        bit := ReadBit();
      }
    }

    method ReadBit() returns (bit: int)
      requires Valid()
      modifies this`pos, this`offs, this`err
      ensures Valid()
      ensures old(BitPos()) < |bits| ==>
                bit == bits[old(BitPos())] && BitPos() == old(BitPos()) + 1 && err == old(err)
      ensures old(BitPos()) == |bits| ==> bit == 0 && err && BitPos() == old(BitPos())
    {
      bit := Read(1);
    }

    /** As many bits again as there were zeros, on top of 2^n - 1. */
    method ReadTail(n: nat) returns (v: int)
      requires Valid() && n + 8 <= U64
      modifies this`pos, this`offs, this`err
      ensures Valid()
      ensures old(BitPos()) + n <= |bits| ==> BitPos() == old(BitPos()) + n && err == old(err)
      ensures old(BitPos()) + n <= |bits| && n < 64 ==> v == Pow2(n) + ValueAt(bits, old(BitPos()), n) - 1
      ensures old(BitPos()) + n > |bits| ==> err
    {
      var low := Read(n);
      v := if n < 64 then (Pow2(n) + low + U64 - 1) % U64 else low;
      if n < 64 && old(BitPos()) + n <= |bits| {
        Pow2Mono(n, 63);
        Pow2Of64();
        SumFits(Pow2(n), ValueAt(bits, old(BitPos()), n));
      }
    }

    /**
     Exp-Golomb: count zeros up to the first one bit, then read as many more bits.
     A prefix of 64 zeros or more would shift past the accumulator: nothing is said of it.
     */
    method ReadGolomb() returns (v: int)
      requires Valid() && !err && |bits| + 8 <= U64
      modifies this`pos, this`offs, this`err
      ensures Valid()
      ensures var k := old(BitPos()); var z := Zeros(bits, k);
        && (k + 2 * z + 1 <= |bits| && z < 64 ==>
              !err && v == ValueAt(bits, k, 2 * z + 1) - 1 && BitPos() == k + 2 * z + 1)
        && (k + 2 * z + 1 > |bits| ==> err)
    {
      ghost var k := BitPos();
      var n := CountZeros();
      v := ReadTail(n);
      if k + 2 * n + 1 <= |bits| {
        GolombValue(bits, k, n);
      }
    }
  }

  lemma SumFits(p: int, low: int)
    requires 0 <= low < p && 2 * p <= U64
    ensures (p + low % U64 + U64 - 1) % U64 == p + low - 1
  {
  }

  lemma {:induction false} Pow2Mono(a: nat, b: nat)
    requires a <= b
    ensures Pow2(a) <= Pow2(b)
    decreases b
  {
    if a < b { Pow2Mono(a, b - 1); }
  }

  lemma Pow2Plus8(n: nat, p: int)
    requires Pow2(n) == p
    ensures Pow2(n + 8) == 0x100 * p
  {
    assert Pow2(n + 4) == 16 * p by { assert Pow2(n + 2) == 4 * p; }
    assert Pow2(n + 6) == 64 * p;
  }

  lemma Pow2Of64()
    ensures Pow2(63) == 0x8000_0000_0000_0000 && Pow2(64) == U64
  {
    Pow2Plus8(0, 1);
    Pow2Plus8(8, 0x100);
    Pow2Plus8(16, 0x1_0000);
    Pow2Plus8(24, 0x100_0000);
    Pow2Plus8(32, 0x1_0000_0000);
    Pow2Plus8(40, 0x100_0000_0000);
    Pow2Plus8(48, 0x1_0000_0000_0000);
    Pow2Plus8(56, 0x100_0000_0000_0000);
    assert Pow2(64) == 2 * Pow2(63);
  }

  // ---------------------------------------------------------------- Exp-Golomb codes

  /** How many zeros stand from bit `k` on. */
  function Zeros(b: seq<Bit>, k: nat): (z: nat)
    requires k <= |b|
    ensures k + z <= |b|
    decreases |b| - k
  {
    if k == |b| || b[k] == 1 then 0 else 1 + Zeros(b, k + 1)
  }

  /** Zeros spell 0, and the one behind them is the top bit. */
  lemma {:induction false} ZerosValue(b: seq<Bit>, k: nat, n: nat)
    requires k + n <= |b| && n <= Zeros(b, k)
    ensures ValueAt(b, k, n) == 0 && (n < Zeros(b, k) ==> b[k+n] == 0)
    ensures k + n < |b| && n == Zeros(b, k) ==> b[k+n] == 1
  {
    if n > 0 {
      ZerosValue(b, k, n - 1);
      ZerosAt(b, k, n);
    }
  }

  lemma {:induction false} ZerosAt(b: seq<Bit>, k: nat, n: nat)
    requires k + n <= |b| && n <= Zeros(b, k)
    ensures Zeros(b, k + n) == Zeros(b, k) - n
    decreases n
  {
    if n > 0 { ZerosAt(b, k + 1, n - 1); }
  }

  lemma {:induction false} TopBitValue(b: seq<Bit>, k: nat, n: nat)
    requires k + n + 1 <= |b| && b[k] == 1
    ensures ValueAt(b, k, n + 1) == Pow2(n) + ValueAt(b, k + 1, n)
  {
    if n > 0 { TopBitValue(b, k, n - 1); }
  }

  lemma {:induction false} ZeroPrefix(b: seq<Bit>, k: nat, z: nat, n: nat)
    requires k + z + n <= |b| && ValueAt(b, k, z) == 0
    ensures ValueAt(b, k, z + n) == ValueAt(b, k + z, n)
  {
    if n > 0 { ZeroPrefix(b, k, z, n - 1); }
  }

  /** `n` zeros, a one, and `n` bits spell 2^n plus what the last `n` bits spell. */
  lemma GolombValue(b: seq<Bit>, k: nat, n: nat)
    requires k + 2 * n + 1 <= |b| && n == Zeros(b, k)
    ensures ValueAt(b, k, 2 * n + 1) == Pow2(n) + ValueAt(b, k + n + 1, n)
  {
    ZerosValue(b, k, n);
    ZeroPrefix(b, k, n, n + 1);
    TopBitValue(b, k + n, n);
  }

  /** The largest z with 2^z <= x. */
  function Log2(x: int): (z: nat)
    requires x >= 1
    ensures Pow2(z) <= x < Pow2(z + 1)
  {
    if x == 1 then 0 else 1 + Log2(x / 2)
  }

  lemma LogUnique(x: int, a: nat, b: nat)
    requires Pow2(a) <= x < Pow2(a + 1) && Pow2(b) <= x < Pow2(b + 1)
    ensures a == b
  {
    if a < b { Pow2Mono(a + 1, b); }
    if b < a { Pow2Mono(b + 1, a); }
  }

  /** `n` bits that spell `v`. */
  function Binary(v: int, n: nat): (c: seq<Bit>)
    requires 0 <= v < Pow2(n)
    ensures |c| == n
  {
    if n == 0 then [] else Binary(v / 2, n - 1) + [v % 2]
  }

  /** The Exp-Golomb code of `v`: v + 1, written with as many zeros in front as it has bits after its first. */
  function Code(v: int): (c: seq<Bit>)
    requires v >= 0
    ensures |c| == 2 * Log2(v + 1) + 1
  {
    Pow2Mono(Log2(v + 1) + 1, 2 * Log2(v + 1) + 1);
    Binary(v + 1, 2 * Log2(v + 1) + 1)
  }

  lemma StandsSnoc(b: seq<Bit>, k: nat, c: seq<Bit>, x: Bit)
    requires k + |c| < |b|
    ensures Stands(b, k, c + [x]) <==> Stands(b, k, c) && b[k+|c|] == x
  {
    var d := c + [x];
    if Stands(b, k, d) {
      assert b[k+|c|] == d[|c|];
      forall j | k <= j < k + |c| ensures b[j] == c[j-k] { assert b[j] == d[j-k]; }
    }
  }

  lemma {:induction false} BinaryStands(b: seq<Bit>, k: nat, v: int, n: nat)
    requires 0 <= v < Pow2(n) && k + n <= |b|
    ensures Stands(b, k, Binary(v, n)) <==> ValueAt(b, k, n) == v
  {
    if n > 0 {
      BinaryStands(b, k, v / 2, n - 1);
      StandsSnoc(b, k, Binary(v / 2, n - 1), v % 2);
    }
  }

  lemma {:induction false} ZeroRun(b: seq<Bit>, k: nat, n: nat)
    requires k + n <= |b| && ValueAt(b, k, n) == 0
    ensures n <= Zeros(b, k)
  {
    if n > 0 {
      ZeroRun(b, k, n - 1);
      ZerosAt(b, k, n - 1);
    }
  }

  lemma {:induction false} ShiftedSize(x: int, n: nat)
    ensures Shifted(0, n) == 0 && (x >= 1 ==> Shifted(x, n) >= Pow2(n))
  {
    if n > 0 { ShiftedSize(x, n - 1); }
  }

  /** What the decoder makes of the bits at `k`: the value `v`, from a complete code. */
  ghost predicate DecodesTo(b: seq<Bit>, k: nat, v: int) {
    k <= |b| && var z := Zeros(b, k); k + 2 * z + 1 <= |b| && ValueAt(b, k, 2 * z + 1) == v + 1
  }

  /** The code of `v` stands where the decoder looks exactly when the decoder makes `v` of it. */
  lemma CodeStands(b: seq<Bit>, k: nat, v: int)
    requires v >= 0 && k <= |b|
    ensures Stands(b, k, Code(v)) <==> DecodesTo(b, k, v)
    ensures Stands(b, k, Code(v)) ==> Zeros(b, k) == Log2(v + 1)
  {
    var y := Log2(v + 1);
    if k + 2 * y + 1 <= |b| {
      Pow2Mono(y + 1, 2 * y + 1);
      BinaryStands(b, k, v + 1, 2 * y + 1);
      if ValueAt(b, k, 2 * y + 1) == v + 1 { ValueHasZeros(b, k, v + 1, y); }
    }
    if DecodesTo(b, k, v) { DecodedLength(b, k, v, y); }
  }

  lemma DecodedLength(b: seq<Bit>, k: nat, v: int, y: nat)
    requires v >= 0 && Pow2(y) <= v + 1 < Pow2(y + 1) && DecodesTo(b, k, v)
    ensures Zeros(b, k) == y
  {
    GolombValue(b, k, Zeros(b, k));
    LogUnique(v + 1, y, Zeros(b, k));
  }

  lemma ValueHasZeros(b: seq<Bit>, k: nat, x: int, y: nat)
    requires k + 2 * y + 1 <= |b| && ValueAt(b, k, 2 * y + 1) == x && Pow2(y) <= x < Pow2(y + 1)
    ensures Zeros(b, k) == y
  {
    ReadsCompose(b, k, y, y + 1);
    ShiftedSize(ValueAt(b, k, y), y + 1);
    ZeroRun(b, k, y);
    ZerosAt(b, k, y);
    if b[k+y] == 0 {
      ZeroPrefix(b, k, y, y + 1);
      ZeroPrefix(b, k + y, 1, y);
      assert false;
    }
  }

  lemma CodeFits(v: nat)
    requires v + 1 < U64
    ensures Log2(v + 1) < 64
  {
    if Log2(v + 1) >= 64 {
      Pow2Mono(64, Log2(v + 1));
      Pow2Of64();
      assert false;
    }
  }

  /** The decoder inverts the code, for every value whose code fits, and takes exactly its bits. */
  method GolombRoundTrip(r: Reader, v: nat) returns (got: int)
    requires r.Valid() && !r.err && |r.bits| + 8 <= U64
    requires v + 1 < U64 && Stands(r.bits, r.BitPos(), Code(v))
    modifies r`pos, r`offs, r`err
    ensures got == v && !r.err && r.Valid()
    ensures r.BitPos() == old(r.BitPos()) + 2 * Log2(v + 1) + 1
  {
    hide Stands, Code, Log2;
    CodeStands(r.bits, r.BitPos(), v);
    CodeFits(v);
    got := r.ReadGolomb();
  }
}
