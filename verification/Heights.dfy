/** IBC heights: (revision number, revision height) pairs of 64-bit numbers. */
module Heights {
  import opened ByteStrings

  datatype Height = Height(revision: U64, number: U64)

  /** `Height.LT`: revision numbers decide first. */
  predicate Lt(a: Height, b: Height) {
    if a.revision != b.revision then a.revision < b.revision else a.number < b.number
  }

  predicate Lte(a: Height, b: Height) {
    a == b || Lt(a, b)
  }

  predicate IsZero(h: Height) {
    h.revision == 0 && h.number == 0
  }

  /** `Height.String`. */
  function Text(h: Height): Bytes {
    Decimal(h.revision) + [DASH] + Decimal(h.number)
  }

  /** `ParseHeight`: `None` is any of its errors. */
  function ParseHeight(s: Bytes): Option<Height> {
    var parts := Split(s, [DASH]);
    if |parts| != 2 then None
    else
      match (ParseUint(parts[0]), ParseUint(parts[1]))
      case (Some(r), Some(n)) => Some(Height(r, n))
      case _ => None
  }

  /** Parsing undoes printing. */
  lemma ParseText(h: Height)
    ensures ParseHeight(Text(h)) == Some(h)
  {
    var r, n := Decimal(h.revision), Decimal(h.number);
    SplitFirst(r, DASH, n);
    SplitWithout(n, DASH);
    assert Split(Text(h), [DASH]) == [r, n];
    ParseUintDecimal(h.revision);
    ParseUintDecimal(h.number);
  }

  lemma TextInjective(a: Height, b: Height)
    requires Text(a) == Text(b)
    ensures a == b
  {
    ParseText(a);
    ParseText(b);
  }

  lemma TextHasNoSlash(h: Height)
    ensures SLASH !in Text(h)
  {
    assert forall i :: 0 <= i < |Decimal(h.revision)| ==> IsDigit(Decimal(h.revision)[i]);
    assert forall i :: 0 <= i < |Decimal(h.number)| ==> IsDigit(Decimal(h.number)[i]);
  }

  /** `n` is at most the equally long front of the decimal text of `m`. */
  predicate LeadsUp(n: nat, m: nat) {
    |Decimal(n)| <= |Decimal(m)| && n <= Leading(m, |Decimal(m)| - |Decimal(n)|)
  }

  /** The byte order of printed heights agrees with height order exactly when the smaller of
      the first differing numbers leads up to the greater. */
  lemma TextOrder(a: Height, b: Height)
    requires Lt(a, b)
    ensures Less(Text(a), Text(b)) <==>
              if a.revision != b.revision then LeadsUp(a.revision, b.revision) else LeadsUp(a.number, b.number)
  {
    var r, n, q, m := Decimal(a.revision), Decimal(a.number), Decimal(b.revision), Decimal(b.number);
    if a.revision != b.revision {
      assert Text(a) == r + ([DASH] + n) && Text(b) == q + ([DASH] + m);
      DecimalOrder(a.revision, [DASH] + n, b.revision, [DASH] + m);
    } else {
      LessAfterPrefix(r + [DASH], n, m);
      DecimalOrder(a.number, [], b.number, []);
      assert n + [] == n && m + [] == m;
    }
  }

  /** `bigEndianHeightBytes`: sixteen bytes, revision first. */
  function BigEndianHeight(h: Height): (b: Bytes)
    ensures |b| == 16
  {
    Uint64ToBigEndian(h.revision) + Uint64ToBigEndian(h.number)
  }

  /** The order of the sixteen bytes is the order of heights, and they determine the height. */
  lemma BigEndianHeightOrder(a: Height, b: Height)
    ensures Less(BigEndianHeight(a), BigEndianHeight(b)) == Lt(a, b)
    ensures BigEndianHeight(a) == BigEndianHeight(b) ==> a == b
  {
    Pow256Of8();
    BigEndianOrder(a.revision, b.revision, 8);
    BigEndianOrder(a.number, b.number, 8);
    var ar, an := Uint64ToBigEndian(a.revision), Uint64ToBigEndian(a.number);
    var br, bn := Uint64ToBigEndian(b.revision), Uint64ToBigEndian(b.number);
    LessByFront(ar, an, br, bn);
    if BigEndianHeight(a) == BigEndianHeight(b) {
      assert (ar + an)[..8] == ar && (br + bn)[..8] == br;
      assert (ar + an)[8..] == an && (br + bn)[8..] == bn;
    }
  }

  /** The body of `GetHeightFromIterationKey` once the prefix is cut off; a slice
      shorter than sixteen bytes is a run-time panic in Go. */
  function HeightFromBytes(b: Bytes): Height
    requires |b| >= 16
  {
    Height(BigEndianToUint64(b[0..8]), BigEndianToUint64(b[8..]))
  }

  lemma HeightBytesRoundTrip(h: Height)
    ensures HeightFromBytes(BigEndianHeight(h)) == h
  {
    Uint64RoundTrip(h.revision);
    Uint64RoundTrip(h.number);
    var b := BigEndianHeight(h);
    assert b[0..8] == Uint64ToBigEndian(h.revision);
    assert b[8..] == Uint64ToBigEndian(h.number);
  }

  /** Every finite non-empty set of heights has a least element. */
  lemma {:induction false} LowestExists(s: set<Height>)
    requires s != {}
    ensures exists h :: h in s && forall x :: x in s ==> Lte(h, x)
    decreases |s|
  {
    var e :| e in s;
    if s == {e} {
      assert forall x :: x in s ==> Lte(e, x);
    } else {
      LowestExists(s - {e});
      var h :| h in s - {e} && forall x :: x in s - {e} ==> Lte(h, x);
      var low := if Lt(e, h) then e else h;
      assert forall x :: x in s ==> x == e || x in s - {e};
      assert low in s && forall x :: x in s ==> Lte(low, x);
    }
  }

  ghost function Lowest(s: set<Height>): (h: Height)
    requires s != {}
    ensures h in s && forall x :: x in s ==> Lte(h, x)
  {
    LowestExists(s);
    var h :| h in s && forall x :: x in s ==> Lte(h, x);
    h
  }
}
