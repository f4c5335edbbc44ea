/** The generated Protocol Buffers code for base-128 varints: written backwards into a sized
    buffer and read by a shift loop. Integer widths are those of Go on a 64-bit machine. */
module Wire {
  import opened ByteStrings

  datatype Error =
    | IntOverflow | UnexpectedEOF | InvalidLength
    | EndGroup | IllegalTag | WrongWireType | UnexpectedEndOfGroup | IllegalWireType

  datatype Result<+T> = Ok(value: T) | Err(error: Error)

  // ---------------------------------------------------------------------------
  // Varints
  // ---------------------------------------------------------------------------

  /** The base-128 encoding: seven bits a byte, least significant first, the high bit set
      on every byte but the last. */
  function Varint(v: nat): (b: Bytes)
    ensures |b| >= 1
    decreases v
  {
    if v < 128 then [v] else [v % 128 + 128] + Varint(v / 128)
  }

  /** The number that base-128 digits spell, least significant first. */
  function Spelled(b: Bytes): nat {
    if b == [] then 0 else b[0] % 128 + 128 * Spelled(b[1..])
  }

  /** The encoding spells its number, every byte but the last has the high bit, and no
      shorter one does: the last digit is zero for the number zero only. */
  lemma {:induction false} VarintSpells(v: nat)
    ensures Spelled(Varint(v)) == v
    ensures forall i :: 0 <= i < |Varint(v)| - 1 ==> Varint(v)[i] >= 128
    ensures Varint(v)[|Varint(v)| - 1] < 128 && (Varint(v)[|Varint(v)| - 1] == 0 ==> v == 0)
    decreases v
  {
    if v >= 128 {
      VarintSpells(v / 128);
      assert Varint(v)[1..] == Varint(v / 128);
    }
  }

  /** `bits.Len64`. */
  function BitLen(v: nat): nat {
    if v == 0 then 0 else 1 + BitLen(v / 2)
  }

  /** Bitwise or, bit by bit from the lowest. */
  function Or(x: nat, y: nat): nat
    decreases x + y
  {
    if x == 0 then y
    else if y == 0 then x
    else (if x % 2 == 1 || y % 2 == 1 then 1 else 0) + 2 * Or(x / 2, y / 2)
  }

  function Pow2(n: nat): (p: nat)
    ensures p >= 1
  {
    if n == 0 then 1 else 2 * Pow2(n - 1)
  }

  /** `x << s` on 64 bits: what is shifted out is lost. */
  function Shl(x: U64, s: nat): U64 {
    x * Pow2(s) % TWO_64
  }

  /** Or-ing bits that lie above all of `x` is adding them. */
  lemma {:induction false} OrAbove(x: nat, y: nat, s: nat)
    requires x < Pow2(s)
    ensures Or(x, y * Pow2(s)) == x + y * Pow2(s)
    decreases s
  {
    if x != 0 && y != 0 {
      var z := y * Pow2(s - 1);
      assert y * Pow2(s) == 2 * z;
      OrAbove(x / 2, y, s - 1);
      assert (2 * z) / 2 == z && (2 * z) % 2 == 0;
    }
  }

  /** `sovCapability`. */
  function Sov(v: U64): nat {
    (BitLen(Or(v, 1)) + 6) / 7
  }

  lemma BitLenShift7(v: nat)
    requires v >= 128
    ensures BitLen(v) == 7 + BitLen(v / 128)
  {
    assert v / 2 / 2 == v / 4;
    assert v / 4 / 2 == v / 8;
    assert v / 8 / 2 == v / 16;
    assert v / 16 / 2 == v / 32;
    assert v / 32 / 2 == v / 64;
    assert v / 64 / 2 == v / 128;
    assert BitLen(v) == 1 + BitLen(v / 2);
    assert BitLen(v / 2) == 1 + BitLen(v / 4);
    assert BitLen(v / 4) == 1 + BitLen(v / 8);
    assert BitLen(v / 8) == 1 + BitLen(v / 16);
    assert BitLen(v / 16) == 1 + BitLen(v / 32);
    assert BitLen(v / 32) == 1 + BitLen(v / 64);
    assert BitLen(v / 64) == 1 + BitLen(v / 128);
  }

  lemma BitLenBelow128(v: nat)
    requires 1 <= v < 128
    ensures 1 <= BitLen(v) <= 7
  {
    assert BitLen(v) == 1 + BitLen(v / 2);
    if v >= 2 { assert BitLen(v / 2) == 1 + BitLen(v / 2 / 2); }
    if v >= 4 { assert BitLen(v / 2 / 2) == 1 + BitLen(v / 2 / 2 / 2); }
    if v >= 8 { assert BitLen(v / 2 / 2 / 2) == 1 + BitLen(v / 2 / 2 / 2 / 2); }
    if v >= 16 { assert BitLen(v / 2 / 2 / 2 / 2) == 1 + BitLen(v / 2 / 2 / 2 / 2 / 2); }
    if v >= 32 { assert BitLen(v / 2 / 2 / 2 / 2 / 2) == 1 + BitLen(v / 2 / 2 / 2 / 2 / 2 / 2); }
    if v >= 64 { assert BitLen(v / 2 / 2 / 2 / 2 / 2 / 2) == 1 + BitLen(v / 2 / 2 / 2 / 2 / 2 / 2 / 2); }
  }

  lemma OrOne(v: nat)
    ensures Or(v, 1) == 1 + 2 * (v / 2)
  {
    assert Or(v / 2, 0) == v / 2;
  }

  lemma BitLenOr1(v: nat)
    requires v >= 1
    ensures BitLen(Or(v, 1)) == BitLen(v)
  {
    var w := Or(v, 1);
    OrOne(v);
    assert w / 2 == v / 2;
    assert BitLen(w) == 1 + BitLen(w / 2) && BitLen(v) == 1 + BitLen(v / 2);
  }

  /** The precomputed size is the number of bytes of the encoding. */
  lemma {:induction false} SovIsLength(v: U64)
    ensures Sov(v) == |Varint(v)|
    decreases v
  {
    if v < 128 {
      OrOne(v);
      BitLenBelow128(Or(v, 1));
    } else {
      SovIsLength(v / 128);
      BitLenOr1(v);
      BitLenShift7(v);
      BitLenOr1(v / 128);
    }
  }

  /** A 64-bit number takes at most ten bytes. */
  lemma {:induction false} VarintLength(v: nat, k: nat)
    requires k >= 1 && v < Pow128(k)
    ensures |Varint(v)| <= k
    decreases k
  {
    assert Pow128(1) == 128 * Pow128(0);
    if v >= 128 {
      assert Pow128(k) == 128 * Pow128(k - 1);
      VarintLength(v / 128, k - 1);
    }
  }

  function Pow128(k: nat): (p: nat)
    ensures p >= 1
  {
    if k == 0 then 1 else 128 * Pow128(k - 1)
  }

  lemma Varint64Length(v: U64)
    ensures |Varint(v)| <= 10
  {
    assert Pow128(10) == 0x40_0000_0000_0000_0000 by {
      assert Pow128(10) == 128 * Pow128(9) && Pow128(9) == 128 * Pow128(8) && Pow128(8) == 128 * Pow128(7);
      assert Pow128(7) == 128 * Pow128(6) && Pow128(6) == 128 * Pow128(5) && Pow128(5) == 128 * Pow128(4);
      assert Pow128(4) == 128 * Pow128(3) && Pow128(3) == 128 * Pow128(2) && Pow128(2) == 128 * Pow128(1);
      assert Pow128(1) == 128 * Pow128(0);
    }
    VarintLength(v, 10);
  }

  /** `s` with the bytes from `at` replaced by `bytes`. */
  function Overwrite(s: Bytes, at: nat, bytes: Bytes): (r: Bytes)
    requires at + |bytes| <= |s|
    ensures |r| == |s|
  {
    s[..at] + bytes + s[at + |bytes|..]
  }

  /** Filling backwards: a piece put directly before another makes one longer piece. */
  lemma OverwriteBefore(s: Bytes, at: nat, x: Bytes, y: Bytes)
    requires at + |x| + |y| <= |s|
    ensures Overwrite(Overwrite(s, at + |x|, y), at, x) == Overwrite(s, at, x + y)
  {
  }

  lemma HighBit(x: nat)
    requires x < 128
    ensures Or(x, 128) == x + 128
  {
    Pow2Of7();
    OrAbove(x, 1, 7);
  }

  lemma Pow2Of7()
    ensures Pow2(7) == 128
  {
  }

  /** `encodeVarintCapability`: fills exactly the `Sov(v)` bytes before `offset`. The masked
      byte `v&0x7f` is `v % 128`, and `v >>= 7` is division by 128. */
  method EncodeVarint(a: array<Byte>, offset: nat, v: U64) returns (base: nat)
    requires Sov(v) <= offset <= a.Length
    modifies a
    ensures base + |Varint(v)| == offset
    ensures a[..] == Overwrite(old(a[..]), base, Varint(v))
  {
    hide Or, BitLen, Pow2;
    SovIsLength(v);
    base := offset - Sov(v);
    ghost var bytes := Varint(v);
    var at, rest := base, v;
    while rest >= 128
      invariant base <= at < offset && 0 <= rest < TWO_64
      invariant bytes[at - base..] == Varint(rest)
      invariant forall j :: base <= j < at ==> a[j] == bytes[j - base]
      invariant forall j :: 0 <= j < base || at <= j < a.Length ==> a[j] == old(a[j])
      decreases rest
    {
      assert bytes[at - base] == Varint(rest)[0];
      assert bytes[at + 1 - base..] == Varint(rest)[1..];
      HighBit(rest % 128);
      a[at] := Or(rest % 128, 128);
      rest := rest / 128;
      at := at + 1;
    }
    assert bytes[at - base] == Varint(rest)[0] && |bytes[at - base..]| == 1;
    a[at] := rest;
  }

  // ---------------------------------------------------------------------------
  // Reading varints
  // ---------------------------------------------------------------------------

  /** The number spelled by the bytes from `i`, and the index after them: at most `k` bytes. */
  function ReadDigits(data: Bytes, i: nat, k: nat): (r: Result<(nat, nat)>)
    requires i <= |data|
    ensures r.Ok? ==> i < r.value.1 <= |data|
    decreases k
  {
    if k == 0 then Err(IntOverflow)
    else if i >= |data| then Err(UnexpectedEOF)
    else if data[i] < 128 then Ok((data[i], i + 1))
    else
      match ReadDigits(data, i + 1, k - 1)
      case Err(e) => Err(e)
      case Ok((v, j)) => Ok((data[i] - 128 + 128 * v, j))
  }

  /** What the shift loop returns: the number modulo 2^64 (the tenth byte shifts bits out). */
  function ReadVarint(data: Bytes, i: nat): (r: Result<(U64, nat)>)
    requires i <= |data|
    ensures r.Ok? ==> i < r.value.1 <= |data|
  {
    match ReadDigits(data, i, 10)
    case Err(e) => Err(e)
    case Ok((v, j)) => Ok((v % TWO_64, j))
  }

  /** A piece that stands at `i` is its front at `i` and its back right after. */
  lemma OccursSplit(data: Bytes, x: Bytes, y: Bytes, i: nat)
    requires OccursAt(data, x + y, i)
    ensures OccursAt(data, x, i) && OccursAt(data, y, i + |x|)
  {
    var whole := data[i..i + |x + y|];
    assert data[i..i + |x|] == whole[..|x|];
    assert data[i + |x|..i + |x| + |y|] == whole[|x|..];
  }

  /** Reading undoes writing, wherever the encoding stands. */
  lemma {:induction false} ReadDigitsOfVarint(data: Bytes, i: nat, v: nat, k: nat)
    requires |Varint(v)| <= k && OccursAt(data, Varint(v), i)
    ensures ReadDigits(data, i, k) == Ok((v, i + |Varint(v)|))
    decreases v
  {
    assert data[i] == data[i..i + |Varint(v)|][0];
    if v >= 128 {
      OccursSplit(data, [v % 128 + 128], Varint(v / 128), i);
      ReadDigitsOfVarint(data, i + 1, v / 128, k - 1);
    }
  }

  lemma ReadVarintOfVarint(data: Bytes, i: nat, v: U64)
    requires OccursAt(data, Varint(v), i)
    ensures i < |data| && ReadVarint(data, i) == Ok((v, i + |Varint(v)|))
  {
    Varint64Length(v);
    ReadDigitsOfVarint(data, i, v, 10);
  }

  lemma ModAdd(x: int, y: int)
    ensures (x % TWO_64 + y) % TWO_64 == (x + y) % TWO_64
  {
    var q := x / TWO_64;
    assert x + y == q * TWO_64 + (x % TWO_64 + y);
  }

  /** The digits still to read, scaled and added to those already read. */
  ghost function Resume(r: Result<(nat, nat)>, total: nat, scale: nat): Result<(nat, nat)> {
    match r
    case Err(e) => Err(e)
    case Ok((v, j)) => Ok((total + scale * v, j))
  }

  lemma ResumeStart(r: Result<(nat, nat)>)
    ensures Resume(r, 0, 1) == r
  {
  }

  lemma ResumeStops(data: Bytes, i: nat, k: nat, total: nat, scale: nat)
    requires i <= |data|
    ensures k == 0 ==> Resume(ReadDigits(data, i, k), total, scale) == Err(IntOverflow)
    ensures k > 0 && i == |data| ==> Resume(ReadDigits(data, i, k), total, scale) == Err(UnexpectedEOF)
  {
  }

  lemma ResumeStep(data: Bytes, i: nat, k: nat, total: nat, scale: nat)
    requires i < |data| && k > 0 && data[i] >= 128
    ensures Resume(ReadDigits(data, i, k), total, scale)
         == Resume(ReadDigits(data, i + 1, k - 1), total + Placed(data[i], scale), 128 * scale)
  {
    match ReadDigits(data, i + 1, k - 1)
    case Err(_) =>
    case Ok((v, j)) =>
      var low := data[i] - 128;
      assert scale * (low + 128 * v) == scale * low + (128 * scale) * v;
  }

  lemma ResumeLast(data: Bytes, i: nat, k: nat, total: nat, scale: nat)
    requires i < |data| && k > 0 && data[i] < 128
    ensures Resume(ReadDigits(data, i, k), total, scale) == Ok((total + Placed(data[i], scale), i + 1))
  {
    assert data[i] % 128 == data[i];
  }

  lemma {:induction false} Pow2Add(m: nat, n: nat)
    ensures Pow2(m + n) == Pow2(m) * Pow2(n)
  {
    if m > 0 {
      Pow2Add(m - 1, n);
      assert Pow2(m) * Pow2(n) == 2 * (Pow2(m - 1) * Pow2(n));
    }
  }

  lemma {:induction false} Pow2OfBytes(n: nat)
    ensures Pow2(8 * n) == Pow256(n)
  {
    if n > 0 {
      Pow2OfBytes(n - 1);
      Pow2Of7();
      Pow2Add(8, 8 * (n - 1));
    }
  }

  lemma Pow2Of64()
    ensures Pow2(64) == TWO_64
  {
    Pow2OfBytes(8);
    Pow256Of8();
  }

  lemma ScaleMonotone(m: nat, x: nat, y: nat)
    requires x <= y
    ensures m * x <= m * y
  {
    assert m * y == m * x + m * (y - x);
  }

  /** Cutting a multiple of `p` to `q * p` keeps a multiple of `p`. */
  lemma CutMultiple(x: nat, p: nat, q: nat)
    requires p >= 1 && q >= 1
    ensures q * p >= 1 && x * p % (q * p) == x % q * p && x % q * p + p <= q * p
  {
    var d, r := x / q, x % q;
    ScaleMonotone(p, r + 1, q);
    assert q * p == p * q >= p && r * p == p * r;
    assert x * p == (q * d + r) * p == d * (q * p) + r * p;
    QuotientIs(x * p, q * p, d, r * p);
  }

  lemma QuotientIs(x: nat, n: nat, d: nat, r: nat)
    requires n >= 1 && x == d * n + r && r < n
    ensures x % n == r
  {
    var e := x / n;
    assert x == n * e + x % n;
    if e < d {
      ScaleMonotone(n, e + 1, d);
    } else if e > d {
      ScaleMonotone(n, d + 1, e);
    }
  }

  /** The value of the digit `b&0x7F` at its place, before it is cut to 64 bits. */
  ghost function Placed(b: Byte, scale: nat): nat {
    scale * (b % 128)
  }

  lemma CutDigit(total: nat, b: Byte, p: nat, q: nat)
    requires p >= 1 && q >= 1 && q * p == TWO_64 && total < p
    ensures total < TWO_64
    ensures b % 128 * p % TWO_64 == b % 128 % q * p
    ensures total + b % 128 % q * p == (total + Placed(b, p)) % TWO_64
  {
    var d := b % 128;
    CutMultiple(d, p, q);
    ModAdd(d * p, total);
    assert (d * p + total) % TWO_64 == d % q * p + total;
    assert d * p == p * d;
  }

  /** One `|= uint64(b&0x7F) << shift` of the loop: the bits read so far lie below the
      shifted ones, so the new digit is added, and what lies above 64 bits is lost. */
  lemma OrDigit(total: nat, b: Byte, shift: nat)
    requires shift < 64 && total < Pow2(shift)
    ensures total < TWO_64
    ensures Or(total, Shl(b % 128, shift)) == (total + Placed(b, Pow2(shift))) % TWO_64
  {
    hide Or, Pow2, Placed;
    var p, q := Pow2(shift), Pow2(64 - shift);
    Pow2Of64();
    Pow2Add(64 - shift, shift);
    CutDigit(total, b, p, q);
    OrAbove(total, b % 128 % q, shift);
  }

  lemma DigitStaysBelow(total: nat, b: Byte, shift: nat)
    requires total < Pow2(shift)
    ensures total + Placed(b, Pow2(shift)) < Pow2(shift + 7) == 128 * Pow2(shift)
  {
    Pow2Of7();
    Pow2Add(shift, 7);
    ScaleMonotone(Pow2(shift), b % 128, 127);
  }

  /** The shift loop of every `Unmarshal`. */
  method DecodeVarint(data: Bytes, start: nat) returns (r: Result<(U64, nat)>)
    requires start <= |data|
    ensures r == ReadVarint(data, start)
  {
    hide Or, Shl, Pow2, Placed, Resume, ReadDigits;
    var i: nat, shift: nat, acc: U64 := start, 0, 0;
    ghost var total: nat, k: nat := 0, 10;
    Pow2Zero();
    ResumeStart(ReadDigits(data, start, 10));
    while true
      invariant start <= i <= |data| && shift == 7 * (10 - k) && k <= 10
      invariant acc == total % TWO_64 && total < Pow2(shift)
      invariant ReadDigits(data, start, 10) == Resume(ReadDigits(data, i, k), total, Pow2(shift))
      decreases k
    {
      ResumeStops(data, i, k, total, Pow2(shift));
      if shift >= 64 {
        return Err(IntOverflow);
      }
      if i >= |data| {
        return Err(UnexpectedEOF);
      }
      var b := data[i];
      ghost var scale := Pow2(shift);
      OrDigit(total, b, shift);
      DigitStaysBelow(total, b, shift);
      acc := Or(acc, Shl(b % 128, shift));
      if b < 128 {
        ResumeLast(data, i, k, total, scale);
        return Ok((acc, i + 1));
      }
      ResumeStep(data, i, k, total, scale);
      total, k := total + Placed(b, scale), k - 1;
      i, shift := i + 1, shift + 7;
    }
  }

  lemma Pow2Zero()
    ensures Pow2(0) == 1
  {
  }
}
