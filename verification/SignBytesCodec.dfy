/** The message a solo machine signs, and its generated codec. */
module SignBytesCodec {
  import opened ByteStrings
  import opened Wire
  import opened Messages

  datatype SignBytes = SignBytes(sequence: U64, timestamp: U64, diversifier: Bytes, path: Bytes, data: Bytes)

  const SCHEMA: Schema := map[1 := VarintKind, 2 := VarintKind, 3 := BytesKind, 4 := BytesKind, 5 := BytesKind]

  function FieldsFromPath(m: SignBytes): seq<Field> {
    BytesOpt(4, m.path) + (BytesOpt(5, m.data) + [])
  }

  function FieldsFromTime(m: SignBytes): seq<Field> {
    VarintOpt(2, m.timestamp) + (BytesOpt(3, m.diversifier) + FieldsFromPath(m))
  }

  function Fields(m: SignBytes): seq<Field> {
    VarintOpt(1, m.sequence) + FieldsFromTime(m)
  }

  function EncodeSignBytes(m: SignBytes): Bytes {
    Encode(Fields(m))
  }

  /** Lengths are Go `int`s. */
  predicate Fits(m: SignBytes) {
    |m.diversifier| < TWO_63 && |m.path| < TWO_63 && |m.data| < TWO_63 && |EncodeSignBytes(m)| < TWO_63
  }

  /** `SignBytes.Size`. */
  function Size(m: SignBytes): nat
    requires |m.diversifier| < TWO_63 && |m.path| < TWO_63 && |m.data| < TWO_63
  {
    VarintOptSize(m.sequence) + VarintOptSize(m.timestamp)
    + BytesOptSize(m.diversifier) + BytesOptSize(m.path) + BytesOptSize(m.data)
  }

  lemma SizeIsLength(m: SignBytes)
    requires |m.diversifier| < TWO_63 && |m.path| < TWO_63 && |m.data| < TWO_63
    ensures Size(m) == |EncodeSignBytes(m)|
    ensures |Encode(FieldsFromTime(m))| <= |EncodeSignBytes(m)|
    ensures |Encode(BytesOpt(3, m.diversifier) + FieldsFromPath(m))| <= |EncodeSignBytes(m)|
    ensures |Encode(FieldsFromPath(m))| <= |EncodeSignBytes(m)|
    ensures |Encode(BytesOpt(5, m.data) + [])| <= |EncodeSignBytes(m)|
  {
    hide EncodeField;
    BytesOptLength(5, m.data, []);
    BytesOptLength(4, m.path, BytesOpt(5, m.data) + []);
    BytesOptLength(3, m.diversifier, FieldsFromPath(m));
    VarintOptLength(2, m.timestamp, BytesOpt(3, m.diversifier) + FieldsFromPath(m));
    VarintOptLength(1, m.sequence, FieldsFromTime(m));
  }

  /** The signed bytes, with their tags. */
  lemma Layout(m: SignBytes)
    ensures EncodeSignBytes(m)
         == Num(0x08, m.sequence) + Num(0x10, m.timestamp)
            + Str(0x1a, m.diversifier) + Str(0x22, m.path) + Str(0x2a, m.data)
  {
    hide Encode, Num, Str;
    EncodeNothing();
    StrLayout(5, m.data, []);
    StrLayout(4, m.path, BytesOpt(5, m.data) + []);
    StrLayout(3, m.diversifier, FieldsFromPath(m));
    NumLayout(2, m.timestamp, BytesOpt(3, m.diversifier) + FieldsFromPath(m));
    NumLayout(1, m.sequence, FieldsFromTime(m));
  }

  lemma EncodeNothing()
    ensures Encode([]) == []
  {
  }

  /** `SignBytes.MarshalToSizedBuffer`: the five fields, last first, fill exactly `Size()` bytes
      before `end` and nothing else. */
  method MarshalToSizedBuffer(m: SignBytes, a: array<Byte>, end: nat) returns (n: nat)
    requires Fits(m) && Size(m) <= end <= a.Length
    modifies a
    ensures n == Size(m) == |EncodeSignBytes(m)|
    ensures a[..] == Overwrite(old(a[..]), end - n, EncodeSignBytes(m))
  {
    hide Encode, Overwrite, VarintOpt, BytesOpt, Messages.Holds, Size, Fits;
    FitsLengths(m);
    SizeIsLength(m);
    ghost var s := a[..];
    NothingWritten(s, end);
    var i := PutBytesOpt(a, end, 5, m.data, s, end, []);
    i := PutBytesOpt(a, i, 4, m.path, s, end, BytesOpt(5, m.data) + []);
    i := PutBytesOpt(a, i, 3, m.diversifier, s, end, FieldsFromPath(m));
    i := PutVarintOpt(a, i, 2, m.timestamp, s, end, BytesOpt(3, m.diversifier) + FieldsFromPath(m));
    i := PutVarintOpt(a, i, 1, m.sequence, s, end, FieldsFromTime(m));
    AllWritten(a[..], s, i, end, Fields(m));
    n := end - i;
  }

  lemma NothingWritten(s: Bytes, end: nat)
    requires end <= |s|
    ensures Messages.Holds(s, s, end, end, [])
  {
  }

  lemma FitsLengths(m: SignBytes)
    requires Fits(m)
    ensures |m.diversifier| < TWO_63 && |m.path| < TWO_63 && |m.data| < TWO_63
  {
  }

  lemma AllWritten(now: Bytes, s: Bytes, i: nat, end: nat, fs: seq<Field>)
    requires Messages.Holds(now, s, i, end, fs)
    ensures i + |Encode(fs)| == end <= |s| && now == Overwrite(s, i, Encode(fs))
  {
  }

  /** `SignBytes.Marshal`. */
  method Marshal(m: SignBytes) returns (data: Bytes)
    requires Fits(m)
    ensures data == EncodeSignBytes(m) && |data| < TWO_63
    ensures DecodeSignBytes(data) == Ok(m)
  {
    hide EncodeSignBytes, DecodeSignBytes;
    SizeIsLength(m);
    var size := Size(m);
    var a := new Byte[size];
    var n := MarshalToSizedBuffer(m, a, size);
    data := a[..n];
    assert a[..n] == a[..];
    RoundTrip(m);
  }

  // ---------------------------------------------------------------------------
  // Unmarshal
  // ---------------------------------------------------------------------------

  /** The assignments of the `switch`. */
  function SetField(m: SignBytes, f: Field): SignBytes {
    match f
    case VarintField(num, v) =>
      if num == 1 then m.(sequence := v) else if num == 2 then m.(timestamp := v) else m
    case BytesField(num, content) =>
      if num == 3 then m.(diversifier := content)
      else if num == 4 then m.(path := content)
      else if num == 5 then m.(data := content)
      else m
  }

  function SetFields(m: SignBytes, fs: seq<Field>): SignBytes
    decreases |fs|
  {
    if fs == [] then m else SetFields(SetField(m, fs[0]), fs[1..])
  }

  const EMPTY := SignBytes(0, 0, [], [], [])

  function DecodeSignBytes(data: Bytes): Result<SignBytes>
    requires |data| < TWO_63
  {
    var s := ScanFrom(SCHEMA, data, 0);
    if s.error.Some? then Err(s.error.value) else Ok(SetFields(EMPTY, s.fields))
  }

  /** `SignBytes.Unmarshal` into an empty value. */
  method Unmarshal(data: Bytes) returns (r: Result<SignBytes>)
    requires |data| < TWO_63
    ensures r == DecodeSignBytes(data)
  {
    hide ReadField;
    var m := EMPTY;
    var i: nat := 0;
    while i < |data|
      invariant i <= |data|
      invariant var all, rest := ScanFrom(SCHEMA, data, 0), ScanFrom(SCHEMA, data, i);
                all.error == rest.error && SetFields(EMPTY, all.fields) == SetFields(m, rest.fields)
    {
      var step := NextField(SCHEMA, data, i);
      if step.Err? {
        return Err(step.error);
      }
      var f := step.value.0;
      if f.Some? {
        ghost var rest := ScanFrom(SCHEMA, data, step.value.1);
        assert ([f.value] + rest.fields)[1..] == rest.fields;
        match f.value
        case VarintField(num, v) =>
          if num == 1 {
            m := m.(sequence := v);
          } else if num == 2 {
            m := m.(timestamp := v);
          }
        case BytesField(num, content) =>
          if num == 3 {
            m := m.(diversifier := content);
          } else if num == 4 {
            m := m.(path := content);
          } else if num == 5 {
            m := m.(data := content);
          }
      }
      i := step.value.1;
    }
    return Ok(m);
  }

  // ---------------------------------------------------------------------------
  // Round trip
  // ---------------------------------------------------------------------------

  lemma SetFieldsOpt(m: SignBytes, opt: seq<Field>, rest: seq<Field>)
    requires |opt| <= 1
    ensures SetFields(m, opt + rest) == SetFields(if opt == [] then m else SetField(m, opt[0]), rest)
  {
    if opt == [] {
      assert opt + rest == rest;
    } else {
      assert (opt + rest)[1..] == rest;
    }
  }

  lemma SetAllFields(m: SignBytes)
    ensures SetFields(EMPTY, Fields(m)) == m
  {
    var m1 := EMPTY.(sequence := m.sequence);
    SetFieldsOpt(EMPTY, VarintOpt(1, m.sequence), FieldsFromTime(m));
    var m2 := m1.(timestamp := m.timestamp);
    SetFieldsOpt(m1, VarintOpt(2, m.timestamp), BytesOpt(3, m.diversifier) + FieldsFromPath(m));
    var m3 := m2.(diversifier := m.diversifier);
    SetFieldsOpt(m2, BytesOpt(3, m.diversifier), FieldsFromPath(m));
    var m4 := m3.(path := m.path);
    SetFieldsOpt(m3, BytesOpt(4, m.path), BytesOpt(5, m.data) + []);
    SetFieldsOpt(m4, BytesOpt(5, m.data), []);
  }

  lemma FieldsKnown(m: SignBytes)
    ensures AllKnown(SCHEMA, Fields(m))
  {
  }

  /** Decoding undoes encoding, for every message. */
  lemma RoundTrip(m: SignBytes)
    requires Fits(m)
    ensures DecodeSignBytes(EncodeSignBytes(m)) == Ok(m)
  {
    hide Encode, ScanFrom, SetFields, AllKnown, Fields;
    FieldsKnown(m);
    ScanWhole(SCHEMA, Fields(m));
    SetAllFields(m);
  }

  /** Different messages are signed as different bytes. */
  lemma Injective(m: SignBytes, l: SignBytes)
    requires Fits(m) && Fits(l) && EncodeSignBytes(m) == EncodeSignBytes(l)
    ensures m == l
  {
    hide EncodeSignBytes, DecodeSignBytes;
    RoundTrip(m);
    RoundTrip(l);
  }

  // ---------------------------------------------------------------------------
  // The data a header signs
  // ---------------------------------------------------------------------------

  const HEADER_SCHEMA: Schema := map[1 := BytesKind, 2 := BytesKind]

  /** `HeaderData`: the new public key, unless it is nil, and the new diversifier. */
  function HeaderFields(key: Option<Bytes>, diversifier: Bytes): seq<Field> {
    (if key.Some? then [BytesField(1, key.value)] else []) + (BytesOpt(2, diversifier) + [])
  }

  function EncodeHeaderData(key: Option<Bytes>, diversifier: Bytes): Bytes {
    Encode(HeaderFields(key, diversifier))
  }

  lemma HeaderLayout(key: Option<Bytes>, diversifier: Bytes)
    ensures EncodeHeaderData(key, diversifier)
         == (if key.Some? then [0x0a] + Varint(|key.value|) + key.value else []) + Str(0x12, diversifier)
  {
    EncodeNothing();
    var rest := BytesOpt(2, diversifier) + [];
    StrLayout(2, diversifier, []);
    if key.Some? {
      var f := BytesField(1, key.value);
      assert ([f] + rest)[1..] == rest;
      assert EncodeField(f) == [0x0a] + Varint(|key.value|) + key.value;
    } else {
      assert [] + rest == rest;
    }
  }

  /** The header data determine key and diversifier. */
  lemma HeaderDataInjective(key: Option<Bytes>, diversifier: Bytes, key': Option<Bytes>, diversifier': Bytes)
    requires EncodeHeaderData(key, diversifier) == EncodeHeaderData(key', diversifier')
    requires |EncodeHeaderData(key, diversifier)| < TWO_63
    ensures key == key' && diversifier == diversifier'
  {
    hide Encode, HeaderFields, AllKnown;
    HeaderFieldsKnown(key, diversifier);
    HeaderFieldsKnown(key', diversifier');
    EncodeInjective(HEADER_SCHEMA, HeaderFields(key, diversifier), HeaderFields(key', diversifier'));
    HeaderFieldsAt(key, diversifier);
    HeaderFieldsAt(key', diversifier');
  }

  lemma HeaderFieldsKnown(key: Option<Bytes>, diversifier: Bytes)
    ensures AllKnown(HEADER_SCHEMA, HeaderFields(key, diversifier))
  {
  }

  lemma HeaderFieldsAt(key: Option<Bytes>, diversifier: Bytes)
    ensures var fs := HeaderFields(key, diversifier);
            && (key.Some? <==> |fs| > 0 && fs[0].num == 1) && (key.Some? ==> fs[0] == BytesField(1, key.value))
            && (diversifier != [] <==> |fs| > 0 && fs[|fs| - 1].num == 2)
            && (diversifier != [] ==> fs[|fs| - 1] == BytesField(2, diversifier))
  {
  }

  /** `HeaderData.Marshal`. */
  method MarshalHeaderData(key: Option<Bytes>, diversifier: Bytes) returns (data: Bytes)
    requires |EncodeHeaderData(key, diversifier)| < TWO_63
    ensures data == EncodeHeaderData(key, diversifier)
  {
    hide Encode, Overwrite, BytesOpt, Messages.Holds, Varint;
    HeaderSize(key, diversifier);
    var size := (if key.Some? then 1 + |key.value| + Sov(|key.value|) else 0) + BytesOptSize(diversifier);
    var a := new Byte[size];
    ghost var s, rest := a[..], BytesOpt(2, diversifier) + [];
    NothingWritten(s, size);
    var i := PutBytesOpt(a, size, 2, diversifier, s, size, []);
    AllWritten(a[..], s, i, size, rest);
    if key.Some? {
      ghost var f := BytesField(1, key.value);
      i := PutBytesField(a, i, 1, key.value);
      FieldBefore(s, i, f, rest);
    } else {
      assert [] + rest == rest;
    }
    assert i == 0;
    data := a[..];
    OverwriteAll(s, EncodeHeaderData(key, diversifier));
  }

  lemma OverwriteAll(s: Bytes, x: Bytes)
    requires |x| == |s|
    ensures Overwrite(s, 0, x) == x
  {
  }

  lemma HeaderSize(key: Option<Bytes>, diversifier: Bytes)
    requires |EncodeHeaderData(key, diversifier)| < TWO_63
    ensures |diversifier| < TWO_63 && (key.Some? ==> |key.value| < TWO_63)
    ensures |EncodeHeaderData(key, diversifier)|
         == (if key.Some? then |EncodeField(BytesField(1, key.value))| else 0) + |Encode(BytesOpt(2, diversifier) + [])|
    ensures |EncodeHeaderData(key, diversifier)|
         == (if key.Some? then 1 + |key.value| + Sov(|key.value|) else 0) + BytesOptSize(diversifier)
  {
    HeaderLayout(key, diversifier);
    BytesOptLength(2, diversifier, []);
    EncodeNothing();
    if key.Some? {
      SovIsLength(|key.value|);
      assert ([BytesField(1, key.value)] + (BytesOpt(2, diversifier) + []))[1..] == BytesOpt(2, diversifier) + [];
    }
  }
}
