/** Byte strings: the Go `[]byte`/`string` values that every store key, path and
    wire message of the repository is made of. */
module ByteStrings {

  type Byte = b: int | 0 <= b < 256
  type Bytes = seq<Byte>

  const TWO_64 := 0x1_0000_0000_0000_0000
  const TWO_63 := 0x8000_0000_0000_0000
  type U64 = n: int | 0 <= n < 0x1_0000_0000_0000_0000

  datatype Option<+T> = None | Some(value: T)

  /** The bytes of an ASCII literal. */
  function Ascii(s: string): (b: Bytes)
    ensures |b| == |s|
  {
    seq(|s|, i requires 0 <= i < |s| => (s[i] as int) % 256)
  }

  const SLASH: Byte := 47
  const DASH: Byte := 45

  /** `strings.HasPrefix`. */
  predicate HasPrefix(s: Bytes, prefix: Bytes) {
    prefix <= s
  }

  /** `strings.TrimSpace(s) == ""`, for the ASCII white space characters. */
  predicate Blank(s: Bytes) {
    forall b :: b in s ==> 9 <= b <= 13 || b == 32
  }

  /** The ASCII white space of `unicode.IsSpace`: tab, newline, vertical tab, form feed,
      carriage return, space. */
  predicate IsSpace(b: Byte) {
    b in {9, 10, 11, 12, 13, 32}
  }

  /** `strings.TrimSpace`: white space goes from both ends. */
  function TrimSpace(s: Bytes): Bytes
    decreases |s|
  {
    if s == [] then []
    else if IsSpace(s[0]) then TrimSpace(s[1..])
    else if IsSpace(s[|s| - 1]) then TrimSpace(s[..|s| - 1])
    else s
  }

  lemma {:induction false} BlankIff(s: Bytes)
    ensures Blank(s) <==> TrimSpace(s) == []
    decreases |s|
  {
    if s != [] {
      assert s[0] in s;
      assert s == [s[0]] + s[1..];
      assert forall b :: b in s <==> b == s[0] || b in s[1..];
      if IsSpace(s[0]) {
        BlankIff(s[1..]);
      } else if IsSpace(s[|s| - 1]) {
        TrimKeepsFirst(s[..|s| - 1]);
      }
    }
  }

  lemma {:induction false} TrimKeepsFirst(s: Bytes)
    requires s != [] && !IsSpace(s[0])
    ensures TrimSpace(s) != []
    decreases |s|
  {
    if |s| > 1 {
      TrimKeepsFirst(s[..|s| - 1]);
    }
  }

  // ---------------------------------------------------------------------------
  // Lexicographic order
  // ---------------------------------------------------------------------------

  /** `bytes.Compare(a, b) < 0`: the order in which store iterators visit keys. */
  predicate Less(a: Bytes, b: Bytes) {
    if b == [] then false
    else if a == [] then true
    else a[0] < b[0] || (a[0] == b[0] && Less(a[1..], b[1..]))
  }

  lemma {:induction false} LessIrreflexive(a: Bytes)
    ensures !Less(a, a)
  {
    if a != [] {
      LessIrreflexive(a[1..]);
    }
  }

  lemma {:induction false} LessTransitive(a: Bytes, b: Bytes, c: Bytes)
    requires Less(a, b) && Less(b, c)
    ensures Less(a, c)
  {
    if a != [] && a[0] == b[0] == c[0] {
      LessTransitive(a[1..], b[1..], c[1..]);
    }
  }

  lemma {:induction false} LessTotal(a: Bytes, b: Bytes)
    ensures Less(a, b) || a == b || Less(b, a)
  {
    if a != [] && b != [] {
      LessTotal(a[1..], b[1..]);
      assert a == [a[0]] + a[1..] && b == [b[0]] + b[1..];
    }
  }

  lemma LessAsymmetric(a: Bytes, b: Bytes)
    ensures !(Less(a, b) && Less(b, a))
  {
    if Less(a, b) && Less(b, a) {
      LessTransitive(a, b, a);
      LessIrreflexive(a);
    }
  }

  /** A common prefix does not change the order. */
  lemma {:induction false} LessAfterPrefix(p: Bytes, a: Bytes, b: Bytes)
    ensures Less(p + a, p + b) == Less(a, b)
  {
    if p == [] {
      assert p + a == a && p + b == b;
    } else {
      LessAfterPrefix(p[1..], a, b);
      assert (p + a)[1..] == p[1..] + a && (p + b)[1..] == p[1..] + b;
    }
  }

  /** Between strings of equal length the order is decided by the front first. */
  lemma {:induction false} LessByFront(a: Bytes, x: Bytes, b: Bytes, y: Bytes)
    requires |a| == |b|
    ensures Less(a + x, b + y) == (Less(a, b) || (a == b && Less(x, y)))
  {
    if a == [] {
      assert a + x == x && b + y == y;
    } else {
      LessByFront(a[1..], x, b[1..], y);
      assert (a + x)[1..] == a[1..] + x && (b + y)[1..] == b[1..] + y;
      assert a == [a[0]] + a[1..] && b == [b[0]] + b[1..];
    }
  }

  // ---------------------------------------------------------------------------
  // Big-endian integers
  // ---------------------------------------------------------------------------

  function Pow256(n: nat): (p: nat)
    ensures p >= 1
  {
    if n == 0 then 1 else 256 * Pow256(n - 1)
  }

  lemma Pow256Of8()
    ensures Pow256(8) == TWO_64
  {
    assert Pow256(8) == 256 * Pow256(7);
    assert Pow256(7) == 256 * Pow256(6);
    assert Pow256(6) == 256 * Pow256(5);
    assert Pow256(5) == 256 * Pow256(4);
    assert Pow256(4) == 256 * Pow256(3);
    assert Pow256(3) == 256 * Pow256(2);
    assert Pow256(2) == 256 * Pow256(1);
    assert Pow256(1) == 256;
  }

  /** The `n` low-order bytes of `v`, most significant first. */
  function BigEndian(v: nat, n: nat): (b: Bytes)
    ensures |b| == n
  {
    if n == 0 then [] else BigEndian(v / 256, n - 1) + [v % 256]
  }

  function FromBigEndian(b: Bytes): nat {
    if b == [] then 0 else FromBigEndian(b[..|b| - 1]) * 256 + b[|b| - 1]
  }

  lemma {:induction false} BigEndianRoundTrip(v: nat, n: nat)
    requires v < Pow256(n)
    ensures FromBigEndian(BigEndian(v, n)) == v
  {
    if n > 0 {
      BigEndianRoundTrip(v / 256, n - 1);
      var b := BigEndian(v, n);
      assert b[..|b| - 1] == BigEndian(v / 256, n - 1);
    }
  }

  /** Byte order of equally long big-endian strings is numeric order. */
  lemma {:induction false} BigEndianOrder(v: nat, w: nat, n: nat)
    requires v < Pow256(n) && w < Pow256(n)
    ensures Less(BigEndian(v, n), BigEndian(w, n)) == (v < w)
    ensures BigEndian(v, n) == BigEndian(w, n) ==> v == w
  {
    BigEndianRoundTrip(v, n);
    BigEndianRoundTrip(w, n);
    if n > 0 {
      BigEndianOrder(v / 256, w / 256, n - 1);
      var x: Bytes, y: Bytes := [v % 256], [w % 256];
      LessByFront(BigEndian(v / 256, n - 1), x, BigEndian(w / 256, n - 1), y);
      assert x[1..] == y[1..] == [];
    }
  }

  /** `sdk.Uint64ToBigEndian`. */
  function Uint64ToBigEndian(v: U64): (b: Bytes)
    ensures |b| == 8
  {
    BigEndian(v, 8)
  }

  /** `sdk.BigEndianToUint64`: zero for an empty slice, otherwise the first eight bytes;
      a shorter non-empty slice is a run-time panic in Go. */
  function BigEndianToUint64(b: Bytes): (v: U64)
    requires |b| == 0 || |b| >= 8
  {
    if b == [] then 0 else FromBigEndianBound(b[..8]); FromBigEndian(b[..8])
  }

  lemma {:induction false} FromBigEndianBelow(b: Bytes)
    ensures FromBigEndian(b) < Pow256(|b|)
  {
    if b != [] {
      FromBigEndianBelow(b[..|b| - 1]);
    }
  }

  lemma FromBigEndianBound(b: Bytes)
    requires |b| == 8
    ensures FromBigEndian(b) < TWO_64
  {
    FromBigEndianBelow(b);
    Pow256Of8();
  }

  lemma Uint64RoundTrip(v: U64)
    ensures BigEndianToUint64(Uint64ToBigEndian(v)) == v
  {
    Pow256Of8();
    BigEndianRoundTrip(v, 8);
    var b := Uint64ToBigEndian(v);
    assert b[..8] == b;
  }

  // ---------------------------------------------------------------------------
  // Decimal numbers
  // ---------------------------------------------------------------------------

  predicate IsDigit(b: Byte) {
    48 <= b <= 57
  }

  predicate AllDigits(s: Bytes) {
    forall b :: b in s ==> IsDigit(b)
  }

  /** `fmt.Sprintf("%d", n)`. */
  function Decimal(n: nat): (s: Bytes)
    ensures s != [] && AllDigits(s)
  {
    if n < 10 then [48 + n] else Decimal(n / 10) + [48 + n % 10]
  }

  function DecimalValue(s: Bytes): nat
    requires AllDigits(s)
  {
    if s == [] then 0
    else DecimalValue(s[..|s| - 1]) * 10 + (DigitAt(s, |s| - 1) - 48)
  }

  function DigitAt(s: Bytes, i: nat): (b: Byte)
    requires i < |s| && AllDigits(s)
    ensures IsDigit(b) && b == s[i]
  {
    assert s[i] in s;
    s[i]
  }

  /** `strconv.ParseUint(s, 10, 64)`: `None` is any of its errors. */
  function ParseUint(s: Bytes): Option<U64> {
    if s == [] || !AllDigits(s) then None
    else if DecimalValue(s) >= TWO_64 then None
    else Some(DecimalValue(s))
  }

  lemma {:induction false} DecimalValueRoundTrip(n: nat)
    ensures DecimalValue(Decimal(n)) == n
  {
    var s := Decimal(n);
    if n < 10 {
      assert s[..|s| - 1] == [];
    } else {
      DecimalValueRoundTrip(n / 10);
      assert s[..|s| - 1] == Decimal(n / 10);
    }
  }

  lemma ParseUintDecimal(n: U64)
    ensures ParseUint(Decimal(n)) == Some(n)
  {
    DecimalValueRoundTrip(n);
  }

  lemma DecimalInjective(n: nat, m: nat)
    requires Decimal(n) == Decimal(m)
    ensures n == m
  {
    DecimalValueRoundTrip(n);
    DecimalValueRoundTrip(m);
  }

  /** `n` without its last `d` decimal digits. */
  function Leading(n: nat, d: nat): nat {
    if d == 0 then n else Leading(n / 10, d - 1)
  }

  lemma {:induction false} DecimalLength(n: nat, m: nat)
    requires n <= m
    ensures |Decimal(n)| <= |Decimal(m)|
  {
    if n >= 10 {
      DecimalLength(n / 10, m / 10);
    }
  }

  lemma {:induction false} DecimalFront(n: nat, d: nat)
    requires d < |Decimal(n)|
    ensures Decimal(n)[..|Decimal(n)| - d] == Decimal(Leading(n, d))
    decreases d
  {
    if d == 0 {
      assert Decimal(n)[..|Decimal(n)|] == Decimal(n);
    } else {
      DecimalFront(n / 10, d - 1);
      assert Decimal(n)[..|Decimal(n)| - d] == Decimal(n / 10)[..|Decimal(n / 10)| - (d - 1)];
    }
  }

  /** Texts of equal length are ordered as their numbers. */
  lemma {:induction false} DecimalOrderSameLength(n: nat, m: nat)
    requires |Decimal(n)| == |Decimal(m)|
    ensures Less(Decimal(n), Decimal(m)) == (n < m)
  {
    if n >= 10 {
      DecimalOrderSameLength(n / 10, m / 10);
      LessByFront(Decimal(n / 10), [48 + n % 10], Decimal(m / 10), [48 + m % 10]);
      if Decimal(n / 10) == Decimal(m / 10) {
        DecimalInjective(n / 10, m / 10);
      }
    }
  }

  /** Followed by anything that starts below a digit, the decimal text of the smaller number
      comes first exactly when that number is at most the equally long front of the greater. */
  lemma DecimalOrder(n: nat, x: Bytes, m: nat, y: Bytes)
    requires n < m && (x == [] || (x[0] < 48 && y != []))
    ensures |Decimal(n)| <= |Decimal(m)|
    ensures Less(Decimal(n) + x, Decimal(m) + y) <==> n <= Leading(m, |Decimal(m)| - |Decimal(n)|)
  {
    DecimalLength(n, m);
    var s, t := Decimal(n), Decimal(m);
    var d := |t| - |s|;
    DecimalFront(m, d);
    var front, rest := t[..|s|], t[|s|..];
    assert t + y == front + (rest + y);
    LessByFront(s, x, front, rest + y);
    DecimalOrderSameLength(n, Leading(m, d));
    if d > 0 {
      assert rest[0] == DigitAt(t, |s|);
    }
    if s == front {
      DecimalInjective(n, Leading(m, d));
    }
  }

  // ---------------------------------------------------------------------------
  // Splitting and joining
  // ---------------------------------------------------------------------------

  /** `sep` starts at position `i` of `s`. */
  predicate OccursAt(s: Bytes, sep: Bytes, i: nat) {
    i + |sep| <= |s| && s[i..i + |sep|] == sep
  }

  predicate Contains(s: Bytes, sep: Bytes) {
    exists i: nat :: i <= |s| && OccursAt(s, sep, i)
  }

  lemma SliceOfTail(s: Bytes, i: nat, j: nat)
    requires 1 <= i <= j <= |s|
    ensures s[i..j] == s[1..][i - 1..j - 1]
  {
    var a, b := s[i..j], s[1..][i - 1..j - 1];
    forall k | 0 <= k < |a| ensures a[k] == b[k] {
      assert a[k] == s[i + k];
    }
  }

  lemma OccursShift(s: Bytes, sep: Bytes)
    requires s != []
    ensures forall i: nat {:trigger OccursAt(s, sep, i)} ::
              i >= 1 ==> OccursAt(s, sep, i) == OccursAt(s[1..], sep, i - 1)
  {
    forall i: nat | i >= 1
      ensures OccursAt(s, sep, i) == OccursAt(s[1..], sep, i - 1)
    {
      if i + |sep| <= |s| {
        SliceOfTail(s, i, i + |sep|);
      }
    }
  }

  /** `strings.Index`: the first occurrence of `sep`, or `None`. */
  function Find(s: Bytes, sep: Bytes): (r: Option<nat>)
    requires sep != []
    ensures r.Some? ==> OccursAt(s, sep, r.value)
    ensures r.Some? ==> forall i: nat :: i < r.value ==> !OccursAt(s, sep, i)
    ensures r.None? ==> forall i: nat :: !OccursAt(s, sep, i)
  {
    if |s| < |sep| then None
    else if s[..|sep|] == sep then Some(0)
    else
      var r := Find(s[1..], sep);
      OccursShift(s, sep);
      if r.None? then None else Some(r.value + 1)
  }

  /** `strings.Split` for a non-empty separator. */
  function Split(s: Bytes, sep: Bytes): (parts: seq<Bytes>)
    requires sep != []
    ensures |parts| >= 1
    decreases |s|
  {
    match Find(s, sep)
    case None => [s]
    case Some(i) => [s[..i]] + Split(s[i + |sep|..], sep)
  }

  function Join(parts: seq<Bytes>, sep: Byte): Bytes
    requires parts != []
  {
    if |parts| == 1 then parts[0] else parts[0] + [sep] + Join(parts[1..], sep)
  }

  lemma OccursSingle(s: Bytes, c: Byte, i: nat)
    ensures OccursAt(s, [c], i) == (i < |s| && s[i] == c)
  {
    if i < |s| {
      assert s[i..i + 1] == [s[i]];
    }
  }

  lemma SplitWithout(s: Bytes, c: Byte)
    requires c !in s
    ensures Split(s, [c]) == [s]
  {
    var r := Find(s, [c]);
    if r.Some? {
      OccursSingle(s, c, r.value);
      assert false;
    }
  }

  lemma SplitFirst(a: Bytes, c: Byte, rest: Bytes)
    requires c !in a
    ensures Split(a + [c] + rest, [c]) == [a] + Split(rest, [c])
  {
    var s := a + [c] + rest;
    OccursSingle(s, c, |a|);
    var r := Find(s, [c]);
    assert r.Some? && r.value <= |a|;
    OccursSingle(s, c, r.value);
    assert r.value == |a|;
    assert s[..|a|] == a && s[|a| + 1..] == rest;
  }

  /** Splitting undoes joining separator-free parts. */
  lemma {:induction false} SplitJoin(parts: seq<Bytes>, c: Byte)
    requires parts != []
    requires forall p :: p in parts ==> c !in p
    ensures Split(Join(parts, c), [c]) == parts
  {
    if |parts| == 1 {
      SplitWithout(parts[0], c);
    } else {
      SplitJoin(parts[1..], c);
      SplitFirst(parts[0], c, Join(parts[1..], c));
    }
  }

  /** Joining undoes splitting, and the parts are separator-free. */
  lemma {:induction false} JoinSplit(s: Bytes, c: Byte)
    ensures Join(Split(s, [c]), c) == s
    ensures forall p :: p in Split(s, [c]) ==> c !in p
    decreases |s|
  {
    match Find(s, [c])
    case None =>
      forall i | 0 <= i < |s| ensures s[i] != c {
        OccursSingle(s, c, i);
      }
    case Some(i) =>
      OccursSingle(s, c, i);
      var rest := s[i + 1..];
      JoinSplit(rest, c);
      forall j | 0 <= j < i ensures s[j] != c {
        OccursSingle(s, c, j);
      }
      assert s == s[..i] + [c] + rest;
      assert Split(s, [c])[1..] == Split(rest, [c]);
  }
}
