/** Messages as the generated code reads and writes them: a list of numbered fields.
    One model serves every message, parametrised by its table of known fields. */
module Messages {
  import opened ByteStrings
  import opened Wire

  datatype Kind = VarintKind | BytesKind

  /** The known field numbers of a message and the wire kind each must have. */
  type Schema = map<nat, Kind>

  datatype Field = VarintField(num: nat, value: U64) | BytesField(num: nat, content: Bytes)

  /** The fields read, in order, and the error that stopped the reading, if any. */
  datatype Scan = Scan(fields: seq<Field>, error: Option<Error>)

  /** `int32(x)` and `int(x)` for an unsigned 64-bit `x`. */
  function ToInt32(x: nat): int {
    var low := x % 0x1_0000_0000;
    if low < 0x8000_0000 then low else low - 0x1_0000_0000
  }

  function ToInt64(x: U64): int {
    if x < TWO_63 then x else x - TWO_64
  }

  /** The index after a length-delimited payload that starts at `i`; sums are 64-bit signed. */
  function PayloadEnd(data: Bytes, i: nat, length: U64): (r: Result<nat>)
    requires i <= |data| < TWO_63
    ensures r.Ok? ==> i <= r.value <= |data| && r.value == i + length
  {
    if ToInt64(length) < 0 then Err(InvalidLength)
    else if i + length >= TWO_63 then Err(InvalidLength)
    else if i + length > |data| then Err(UnexpectedEOF)
    else Ok(i + length)
  }

  // ---------------------------------------------------------------------------
  // Skipping unknown fields
  // ---------------------------------------------------------------------------

  /** One field of any wire type: the index after it and the group depth there. An index
      beyond 2^63 is negative in Go, which the loop reports. */
  function SkipOne(data: Bytes, i: nat, depth: nat): (r: Result<(nat, nat)>)
    requires i <= |data| < TWO_63
    ensures r.Ok? ==> r.value.0 > i
  {
    match ReadVarint(data, i)
    case Err(e) => Err(e)
    case Ok((wire, j)) =>
      match wire % 8
      case 0 =>
        (match ReadDigits(data, j, 10)
         case Err(e) => Err(e)
         case Ok((_, n)) => Ok((n, depth)))
      case 1 => if j + 8 >= TWO_63 then Err(InvalidLength) else Ok((j + 8, depth))
      case 2 =>
        (match ReadVarint(data, j)
         case Err(e) => Err(e)
         case Ok((length, n)) =>
           if ToInt64(length) < 0 then Err(InvalidLength)
           else if n + length >= TWO_63 then Err(InvalidLength)
           else Ok((n + length, depth)))
      case 3 => Ok((j, depth + 1))
      case 4 => if depth == 0 then Err(UnexpectedEndOfGroup) else Ok((j, depth - 1))
      case 5 => if j + 4 >= TWO_63 then Err(InvalidLength) else Ok((j + 4, depth))
      case _ => Err(IllegalWireType)
  }

  /** `skipCapability` from index `i` inside `depth` open groups. */
  function SkipFrom(data: Bytes, i: nat, depth: nat): (r: Result<nat>)
    requires |data| < TWO_63
    ensures r.Ok? ==> r.value > i
    decreases if i < |data| then |data| - i else 0
  {
    if i >= |data| then Err(UnexpectedEOF)
    else
      match SkipOne(data, i, depth)
      case Err(e) => Err(e)
      case Ok((n, d)) => if d == 0 then Ok(n) else SkipFrom(data, n, d)
  }

  /** The body of the loop of `skipCapability`. */
  method SkipStep(data: Bytes, i: nat, depth: nat) returns (r: Result<(nat, nat)>)
    requires i < |data| < TWO_63
    ensures r == SkipOne(data, i, depth)
  {
    var wire := DecodeVarint(data, i);
    if wire.Err? {
      return Err(wire.error);
    }
    var j := wire.value.1;
    match wire.value.0 % 8 {
      case 0 =>
        var n := SkipVarint(data, j);
        if n.Err? {
          return Err(n.error);
        }
        return Ok((n.value, depth));
      case 1 =>
        if j + 8 >= TWO_63 {
          return Err(InvalidLength);
        }
        return Ok((j + 8, depth));
      case 2 =>
        var length := DecodeVarint(data, j);
        if length.Err? {
          return Err(length.error);
        }
        if ToInt64(length.value.0) < 0 {
          return Err(InvalidLength);
        }
        var n := length.value.1 + length.value.0;
        if n >= TWO_63 {
          return Err(InvalidLength);
        }
        return Ok((n, depth));
      case 3 =>
        return Ok((j, depth + 1));
      case 4 =>
        if depth == 0 {
          return Err(UnexpectedEndOfGroup);
        }
        return Ok((j, depth - 1));
      case 5 =>
        if j + 4 >= TWO_63 {
          return Err(InvalidLength);
        }
        return Ok((j + 4, depth));
      case _ =>
        return Err(IllegalWireType);
    }
  }

  /** `skipCapability`; the result may lie beyond the data, which the caller checks. */
  method Skip(data: Bytes) returns (r: Result<nat>)
    requires |data| < TWO_63
    ensures r == SkipFrom(data, 0, 0)
    ensures forall x :: Encodable(x) && OccursAt(data, EncodeItem(x), 0) ==> r == Ok(|EncodeItem(x)|)
  {
    hide Encodable, EncodeItem;
    forall x | Encodable(x) && OccursAt(data, EncodeItem(x), 0)
      ensures SkipFrom(data, 0, 0) == Ok(|EncodeItem(x)|)
    {
      SkipItem(data, 0, 0, x);
    }
    var i: nat, depth: nat := 0, 0;
    while i < |data|
      invariant SkipFrom(data, 0, 0) == SkipFrom(data, i, depth)
      decreases if i < |data| then |data| - i else 0
    {
      var step := SkipStep(data, i, depth);
      if step.Err? {
        return Err(step.error);
      }
      i, depth := step.value.0, step.value.1;
      if depth == 0 {
        return Ok(i);
      }
    }
    return Err(UnexpectedEOF);
  }

  /** The varint case of `skipCapability`, which looks only at the high bits. */
  method SkipVarint(data: Bytes, start: nat) returns (r: Result<nat>)
    requires start <= |data|
    ensures r == match ReadDigits(data, start, 10) case Err(e) => Err(e) case Ok((_, n)) => Ok(n)
  {
    var i: nat, shift: nat := start, 0;
    ghost var k: nat := 10;
    while true
      invariant start <= i <= |data| && shift == 7 * (10 - k) && k <= 10
      invariant (match ReadDigits(data, start, 10) case Err(e) => Err(e) case Ok((_, n)) => Ok(n))
             == (match ReadDigits(data, i, k) case Err(e) => Err(e) case Ok((_, n)) => Ok(n))
      decreases k
    {
      if shift >= 64 {
        return Err(IntOverflow);
      }
      if i >= |data| {
        return Err(UnexpectedEOF);
      }
      i := i + 1;
      if data[i - 1] < 128 {
        return Ok(i);
      }
      shift, k := shift + 7, k - 1;
    }
  }

  // ---------------------------------------------------------------------------
  // Reading fields
  // ---------------------------------------------------------------------------

  /** One turn of an `Unmarshal` loop: a known field, or a skipped one (`None`), and the
      index after it. */
  function ReadField(schema: Schema, data: Bytes, i: nat): (r: Result<(Option<Field>, nat)>)
    requires i < |data| < TWO_63
    ensures r.Ok? ==> i < r.value.1 <= |data|
  {
    match ReadVarint(data, i)
    case Err(e) => Err(e)
    case Ok((wire, j)) =>
      var num, wireType := ToInt32(wire / 8), wire % 8;
      if wireType == 4 then Err(EndGroup)
      else if num <= 0 then Err(IllegalTag)
      else if num in schema then
        match schema[num]
        case VarintKind =>
          if wireType != 0 then Err(WrongWireType)
          else
            (match ReadVarint(data, j)
             case Err(e) => Err(e)
             case Ok((v, n)) => Ok((Some(VarintField(num, v)), n)))
        case BytesKind =>
          if wireType != 2 then Err(WrongWireType)
          else
            (match ReadVarint(data, j)
             case Err(e) => Err(e)
             case Ok((length, n)) =>
               match PayloadEnd(data, n, length)
               case Err(e) => Err(e)
               case Ok(end) => Ok((Some(BytesField(num, data[n..end])), end)))
      else
        match SkipFrom(data[i..], 0, 0)
        case Err(e) => Err(e)
        case Ok(skippy) =>
          if i + skippy >= TWO_63 then Err(InvalidLength)
          else if i + skippy > |data| then Err(UnexpectedEOF)
          else Ok((None, i + skippy))
  }

  function Prepend(f: Option<Field>, s: Scan): Scan {
    match f
    case None => s
    case Some(x) => Scan([x] + s.fields, s.error)
  }

  /** What is refused: an end of group outside a group, a field number that is not positive,
      a known field of the wrong wire type. */
  lemma ReadRefuses(schema: Schema, data: Bytes, i: nat, wire: U64)
    requires |data| < TWO_63 && OccursAt(data, Varint(wire), i)
    ensures i < |data|
    ensures wire % 8 == 4 ==> ReadField(schema, data, i) == Err(EndGroup)
    ensures wire % 8 != 4 && ToInt32(wire / 8) <= 0 ==> ReadField(schema, data, i) == Err(IllegalTag)
    ensures wire % 8 != 4 && ToInt32(wire / 8) > 0 && ToInt32(wire / 8) in schema
            && wire % 8 != (if schema[ToInt32(wire / 8)] == VarintKind then 0 else 2)
            ==> ReadField(schema, data, i) == Err(WrongWireType)
  {
    hide ReadVarint, Varint;
    ReadVarintOfVarint(data, i, wire);
  }

  /** The fields read from index `i` to the end of the data. */
  function ScanFrom(schema: Schema, data: Bytes, i: nat): Scan
    requires i <= |data| < TWO_63
    decreases |data| - i
  {
    if i >= |data| then Scan([], None)
    else
      match ReadField(schema, data, i)
      case Err(e) => Scan([], Some(e))
      case Ok((f, n)) => Prepend(f, ScanFrom(schema, data, n))
  }

  /** The body of an `Unmarshal` loop, shared by all messages. */
  method NextField(schema: Schema, data: Bytes, i: nat) returns (r: Result<(Option<Field>, nat)>)
    requires i < |data| < TWO_63
    ensures r == ReadField(schema, data, i)
    ensures forall x :: Readable(schema, x) && OccursAt(data, EncodeItem(x), i)
              ==> r == Ok((Reading(schema, x), i + |EncodeItem(x)|))
  {
    hide Readable, EncodeItem, Reading, OccursAt, ReadVarint, ReadDigits, SkipFrom;
    ReadsWhatWasWritten(schema, data, i);
    var wire := DecodeVarint(data, i);
    if wire.Err? {
      return Err(wire.error);
    }
    var num, wireType, j := ToInt32(wire.value.0 / 8), wire.value.0 % 8, wire.value.1;
    if wireType == 4 {
      return Err(EndGroup);
    }
    if num <= 0 {
      return Err(IllegalTag);
    }
    if num in schema {
      if wireType != (if schema[num] == VarintKind then 0 else 2) {
        return Err(WrongWireType);
      }
      var v := DecodeVarint(data, j);
      if v.Err? {
        return Err(v.error);
      }
      if schema[num] == VarintKind {
        return Ok((Some(VarintField(num, v.value.0)), v.value.1));
      }
      var end := PayloadEnd(data, v.value.1, v.value.0);
      if end.Err? {
        return Err(end.error);
      }
      return Ok((Some(BytesField(num, data[v.value.1..end.value])), end.value));
    }
    var skippy := Skip(data[i..]);
    if skippy.Err? {
      return Err(skippy.error);
    }
    if i + skippy.value >= TWO_63 {
      return Err(InvalidLength);
    }
    if i + skippy.value > |data| {
      return Err(UnexpectedEOF);
    }
    return Ok((None, i + skippy.value));
  }

  // ---------------------------------------------------------------------------
  // Writing fields
  // ---------------------------------------------------------------------------

  function Tag(f: Field): nat
  {
    match f
    case VarintField(num, _) => 8 * num
    case BytesField(num, _) => 8 * num + 2
  }

  /** The part of a field after its tag. */
  function Body(f: Field): Bytes {
    match f
    case VarintField(_, v) => Varint(v)
    case BytesField(_, content) => Varint(|content|) + content
  }

  function EncodeField(f: Field): Bytes {
    Varint(Tag(f)) + Body(f)
  }

  function Encode(fs: seq<Field>): Bytes {
    if fs == [] then [] else EncodeField(fs[0]) + Encode(fs[1..])
  }

  /** A field number that the `int32` of the generated code holds. */
  predicate Numbered(num: nat) {
    1 <= num < 0x8000_0000
  }

  /** A field the message knows, with its own kind. */
  predicate Known(schema: Schema, f: Field) {
    && Numbered(f.num)
    && f.num in schema
    && schema[f.num] == (if f.VarintField? then VarintKind else BytesKind)
  }

  predicate AllKnown(schema: Schema, fs: seq<Field>) {
    forall i :: 0 <= i < |fs| ==> Known(schema, fs[i])
  }

  /** What may stand in a message, of every wire type: fields with a varint or a
      length-delimited content, fixed-width ones, and groups. */
  datatype Item =
    | Plain(field: Field)
    | Fixed64(num64: nat, content64: Bytes)
    | Fixed32(num32: nat, content32: Bytes)
    | Group(start: nat, items: seq<Item>, end: nat)

  function Number(x: Item): nat {
    match x
    case Plain(f) => f.num
    case Fixed64(num, _) => num
    case Fixed32(num, _) => num
    case Group(num, _, _) => num
  }

  /** Tag and the bytes after it. The numbers that open and close a group need not agree. */
  function ItemTag(x: Item): nat {
    match x
    case Plain(f) => Tag(f)
    case Fixed64(num, _) => 8 * num + 1
    case Fixed32(num, _) => 8 * num + 5
    case Group(num, _, _) => 8 * num + 3
  }

  function ItemBody(x: Item): Bytes
    decreases x, 0
  {
    match x
    case Plain(f) => Body(f)
    case Fixed64(_, content) => content
    case Fixed32(_, content) => content
    case Group(_, xs, end) => EncodeItems(xs) + Varint(8 * end + 4)
  }

  function EncodeItem(x: Item): Bytes
    decreases x, 1
  {
    Varint(ItemTag(x)) + ItemBody(x)
  }

  function EncodeItems(xs: seq<Item>): Bytes {
    if xs == [] then [] else EncodeItem(xs[0]) + EncodeItems(xs[1..])
  }

  /** Contents have their widths and tags fit 64 bits. */
  predicate Encodable(x: Item) {
    && ItemTag(x) < TWO_64
    && (x.Fixed64? ==> |x.content64| == 8)
    && (x.Fixed32? ==> |x.content32| == 4)
    && (x.Group? ==> 8 * x.end + 4 < TWO_64 && forall i :: 0 <= i < |x.items| ==> Encodable(x.items[i]))
  }

  /** An item that this version of the message does not know. */
  predicate Unknown(schema: Schema, x: Item) {
    Encodable(x) && Numbered(Number(x)) && Number(x) !in schema
  }

  predicate Readable(schema: Schema, x: Item) {
    (x.Plain? && Known(schema, x.field)) || Unknown(schema, x)
  }

  /** What reading an item gives. */
  function Reading(schema: Schema, x: Item): Option<Field> {
    if x.Plain? && Number(x) in schema then Some(x.field) else None
  }

  function KnownOnly(schema: Schema, xs: seq<Item>): seq<Field> {
    if xs == [] then []
    else
      match Reading(schema, xs[0])
      case None => KnownOnly(schema, xs[1..])
      case Some(f) => [f] + KnownOnly(schema, xs[1..])
  }

  // ---------------------------------------------------------------------------
  // Round trip
  // ---------------------------------------------------------------------------

  lemma TagParts(f: Field)
    requires Numbered(f.num)
    ensures ToInt32(Tag(f) / 8) == f.num && Tag(f) % 8 == if f.VarintField? then 0 else 2
    ensures Tag(f) < TWO_64
  {
  }

  /** Reading a field gives back the field that was written there. */
  lemma ReadVarintFieldAt(schema: Schema, data: Bytes, i: nat, f: Field, j: nat)
    requires f.VarintField? && Known(schema, f) && i < |data| < TWO_63 && j <= |data|
    requires ReadVarint(data, i) == Ok((Tag(f), j))
    requires OccursAt(data, Varint(f.value), j)
    ensures ReadField(schema, data, i) == Ok((Some(f), j + |Varint(f.value)|))
  {
    TagParts(f);
    ReadVarintOfVarint(data, j, f.value);
  }

  lemma ReadBytesFieldAt(schema: Schema, data: Bytes, i: nat, f: Field, j: nat)
    requires f.BytesField? && Known(schema, f) && i < |data| < TWO_63 && j <= |data|
    requires ReadVarint(data, i) == Ok((Tag(f), j))
    requires OccursAt(data, Varint(|f.content|) + f.content, j)
    ensures ReadField(schema, data, i) == Ok((Some(f), j + |Varint(|f.content|) + f.content|))
  {
    hide Varint, ReadVarint;
    TagParts(f);
    OccursSplit(data, Varint(|f.content|), f.content, j);
    ReadVarintOfVarint(data, j, |f.content|);
  }

  lemma ReadFieldOfEncoded(schema: Schema, data: Bytes, i: nat, f: Field)
    requires Known(schema, f)
    requires |data| < TWO_63 && OccursAt(data, EncodeField(f), i)
    ensures i < |data|
    ensures ReadField(schema, data, i) == Ok((Some(f), i + |EncodeField(f)|))
  {
    hide Varint, ReadField, ReadVarint;
    TagParts(f);
    var tag := Varint(Tag(f));
    OccursSplit(data, tag, Body(f), i);
    ReadVarintOfVarint(data, i, Tag(f));
    if f.VarintField? {
      ReadVarintFieldAt(schema, data, i, f, i + |tag|);
    } else {
      ReadBytesFieldAt(schema, data, i, f, i + |tag|);
    }
  }

  /** One turn of the skipping loop. */
  lemma SkipTurn(data: Bytes, i: nat, depth: nat, n: nat, d: nat)
    requires i < |data| < TWO_63 && SkipOne(data, i, depth) == Ok((n, d))
    ensures SkipFrom(data, i, depth) == if d == 0 then Ok(n) else SkipFrom(data, n, d)
  {
    hide SkipOne;
  }

  lemma SkipPlain(data: Bytes, i: nat, depth: nat, f: Field, j: nat)
    requires i <= |data| < TWO_63 && j <= |data| && ReadVarint(data, i) == Ok((Tag(f), j))
    requires OccursAt(data, Body(f), j)
    ensures SkipOne(data, i, depth) == Ok((j + |Body(f)|, depth))
  {
    hide Varint, ReadDigits, ReadVarint;
    match f
    case VarintField(num, v) =>
      assert 8 * num % 8 == 0;
      Varint64Length(v);
      ReadDigitsOfVarint(data, j, v, 10);
    case BytesField(num, content) =>
      assert (8 * num + 2) % 8 == 2;
      OccursSplit(data, Varint(|content|), content, j);
      ReadVarintOfVarint(data, j, |content|);
  }

  lemma SkipFixed(data: Bytes, i: nat, depth: nat, wire: U64, j: nat)
    requires i <= |data| < TWO_63 && ReadVarint(data, i) == Ok((wire, j))
    ensures wire % 8 == 1 && j + 8 <= |data| ==> SkipOne(data, i, depth) == Ok((j + 8, depth))
    ensures wire % 8 == 5 && j + 4 <= |data| ==> SkipOne(data, i, depth) == Ok((j + 4, depth))
    ensures wire % 8 == 3 ==> SkipOne(data, i, depth) == Ok((j, depth + 1))
    ensures wire % 8 == 4 && depth > 0 ==> SkipOne(data, i, depth) == Ok((j, depth - 1))
  {
    hide ReadVarint, ReadDigits;
  }

  /** Skipping passes over one item of any wire type and comes out at the same depth. */
  lemma {:induction false} SkipItem(data: Bytes, i: nat, depth: nat, x: Item)
    requires Encodable(x) && |data| < TWO_63 && OccursAt(data, EncodeItem(x), i)
    ensures SkipFrom(data, i, depth)
         == var n := i + |EncodeItem(x)|; if depth == 0 then Ok(n) else SkipFrom(data, n, depth)
    decreases x, 1
  {
    hide Varint, ReadVarint, SkipFrom, SkipOne, Body, EncodeItems;
    var tag := Varint(ItemTag(x));
    var j := i + |tag|;
    OccursSplit(data, tag, ItemBody(x), i);
    ReadVarintOfVarint(data, i, ItemTag(x));
    SkipFixed(data, i, depth, ItemTag(x), j);
    match x
    case Plain(f) =>
      SkipPlain(data, i, depth, f, j);
      SkipTurn(data, i, depth, j + |Body(f)|, depth);
    case Fixed64(num, _) =>
      assert (8 * num + 1) % 8 == 1;
      SkipTurn(data, i, depth, j + 8, depth);
    case Fixed32(num, _) =>
      assert (8 * num + 5) % 8 == 5;
      SkipTurn(data, i, depth, j + 4, depth);
    case Group(num, _, _) =>
      assert (8 * num + 3) % 8 == 3;
      SkipTurn(data, i, depth, j, depth + 1);
      SkipGroup(data, j, depth, x);
  }

  /** The rest of a group after its opening tag. */
  lemma {:induction false} SkipGroup(data: Bytes, j: nat, depth: nat, x: Item)
    requires Encodable(x) && x.Group? && |data| < TWO_63 && OccursAt(data, ItemBody(x), j)
    ensures SkipFrom(data, j, depth + 1)
         == var n := j + |ItemBody(x)|; if depth == 0 then Ok(n) else SkipFrom(data, n, depth)
    decreases x, 0
  {
    hide Varint, SkipFrom, EncodeItems;
    OccursSplit(data, EncodeItems(x.items), Varint(8 * x.end + 4), j);
    SkipItems(data, j, depth + 1, x.items);
    SkipEnd(data, j + |EncodeItems(x.items)|, depth + 1, x.end);
  }

  lemma {:induction false} SkipItems(data: Bytes, i: nat, depth: nat, xs: seq<Item>)
    requires forall k :: 0 <= k < |xs| ==> Encodable(xs[k])
    requires |data| < TWO_63 && OccursAt(data, EncodeItems(xs), i) && depth > 0
    ensures SkipFrom(data, i, depth) == SkipFrom(data, i + |EncodeItems(xs)|, depth)
    decreases xs, 0
  {
    hide EncodeItem, SkipFrom;
    if xs != [] {
      OccursSplit(data, EncodeItem(xs[0]), EncodeItems(xs[1..]), i);
      SkipItem(data, i, depth, xs[0]);
      SkipItems(data, i + |EncodeItem(xs[0])|, depth, xs[1..]);
    }
  }

  lemma SkipEnd(data: Bytes, i: nat, depth: nat, end: nat)
    requires |data| < TWO_63 && 8 * end + 4 < TWO_64 && depth > 0
    requires OccursAt(data, Varint(8 * end + 4), i)
    ensures SkipFrom(data, i, depth)
         == var n := i + |Varint(8 * end + 4)|; if depth == 1 then Ok(n) else SkipFrom(data, n, depth - 1)
  {
    hide Varint, ReadVarint, SkipFrom, SkipOne;
    assert (8 * end + 4) % 8 == 4;
    ReadVarintOfVarint(data, i, 8 * end + 4);
    var n := i + |Varint(8 * end + 4)|;
    SkipFixed(data, i, depth, 8 * end + 4, n);
    SkipTurn(data, i, depth, n, depth - 1);
  }

  lemma ItemTagParts(x: Item)
    requires Numbered(Number(x))
    ensures ToInt32(ItemTag(x) / 8) == Number(x) && ItemTag(x) % 8 != 4
  {
  }

  lemma SkipFieldAt(schema: Schema, data: Bytes, i: nat, x: Item, j: nat, skippy: nat)
    requires Unknown(schema, x) && i < |data| < TWO_63
    requires ReadVarint(data, i) == Ok((ItemTag(x), j))
    requires SkipFrom(data[i..], 0, 0) == Ok(skippy) && i + skippy <= |data|
    ensures ReadField(schema, data, i) == Ok((None, i + skippy))
  {
    hide ItemTag, Number, SkipFrom, ReadVarint;
    ItemTagParts(x);
  }

  lemma SkipFieldOfEncoded(schema: Schema, data: Bytes, i: nat, x: Item)
    requires Unknown(schema, x)
    requires |data| < TWO_63 && OccursAt(data, EncodeItem(x), i)
    ensures i < |data|
    ensures ReadField(schema, data, i) == Ok((None, i + |EncodeItem(x)|))
  {
    hide Varint, SkipFrom, ReadField, ReadVarint, ItemTag, ItemBody;
    OccursInTail(data, EncodeItem(x), i);
    SkipItem(data[i..], 0, 0, x);
    OccursSplit(data, Varint(ItemTag(x)), ItemBody(x), i);
    ReadVarintOfVarint(data, i, ItemTag(x));
    SkipFieldAt(schema, data, i, x, i + |Varint(ItemTag(x))|, |EncodeItem(x)|);
  }

  lemma OccursInTail(data: Bytes, piece: Bytes, i: nat)
    requires OccursAt(data, piece, i)
    ensures OccursAt(data[i..], piece, 0)
  {
    assert data[i..][0..0 + |piece|] == data[i..i + |piece|];
  }

  /** Reading a written item gives back a known field and passes over everything else. */
  lemma ReadEncoded(schema: Schema, data: Bytes, i: nat, x: Item)
    requires Readable(schema, x)
    requires |data| < TWO_63 && OccursAt(data, EncodeItem(x), i)
    ensures i < |data|
    ensures ReadField(schema, data, i) == Ok((Reading(schema, x), i + |EncodeItem(x)|))
  {
    hide ReadField;
    if Unknown(schema, x) {
      SkipFieldOfEncoded(schema, data, i, x);
    } else {
      assert EncodeItem(x) == EncodeField(x.field);
      ReadFieldOfEncoded(schema, data, i, x.field);
    }
  }

  lemma ReadsWhatWasWritten(schema: Schema, data: Bytes, i: nat)
    requires i < |data| < TWO_63
    ensures forall x :: Readable(schema, x) && OccursAt(data, EncodeItem(x), i)
              ==> ReadField(schema, data, i) == Ok((Reading(schema, x), i + |EncodeItem(x)|))
  {
    hide Readable, EncodeItem, Reading, ReadField;
    forall x | Readable(schema, x) && OccursAt(data, EncodeItem(x), i)
      ensures ReadField(schema, data, i) == Ok((Reading(schema, x), i + |EncodeItem(x)|))
    {
      ReadEncoded(schema, data, i, x);
    }
  }

  lemma ScanStep(schema: Schema, data: Bytes, i: nat, f: Option<Field>, n: nat)
    requires i < |data| < TWO_63 && i < n <= |data|
    requires ReadField(schema, data, i) == Ok((f, n))
    ensures ScanFrom(schema, data, i) == Prepend(f, ScanFrom(schema, data, n))
  {
  }

  /** Reading an encoded list of items gives back the known fields, in order and with no
      error; items of later versions of the message, of any wire type, are passed over. */
  lemma {:induction false} ScanOfEncoded(schema: Schema, data: Bytes, i: nat, xs: seq<Item>)
    requires forall k :: 0 <= k < |xs| ==> Readable(schema, xs[k])
    requires |data| < TWO_63 && OccursAt(data, EncodeItems(xs), i) && i + |EncodeItems(xs)| == |data|
    ensures ScanFrom(schema, data, i) == Scan(KnownOnly(schema, xs), None)
    decreases |xs|
  {
    hide EncodeItem, ReadField, Readable, Reading;
    if xs != [] {
      var x, rest := xs[0], xs[1..];
      OccursSplit(data, EncodeItem(x), EncodeItems(rest), i);
      var n := i + |EncodeItem(x)|;
      ReadEncoded(schema, data, i, x);
      ScanStep(schema, data, i, Reading(schema, x), n);
      ScanOfEncoded(schema, data, n, rest);
    }
  }

  /** A list of fields as items. */
  function Items(fs: seq<Field>): (xs: seq<Item>)
    ensures |xs| == |fs|
    ensures forall i :: 0 <= i < |fs| ==> xs[i] == Plain(fs[i])
  {
    if fs == [] then [] else [Plain(fs[0])] + Items(fs[1..])
  }

  lemma {:induction false} ItemsOfKnown(schema: Schema, fs: seq<Field>)
    requires AllKnown(schema, fs)
    ensures EncodeItems(Items(fs)) == Encode(fs)
    ensures KnownOnly(schema, Items(fs)) == fs
  {
    if fs != [] {
      ItemsOfKnown(schema, fs[1..]);
      var xs := Items(fs);
      assert xs[0] == Plain(fs[0]) && xs[1..] == Items(fs[1..]);
      assert EncodeItem(xs[0]) == EncodeField(fs[0]);
    }
  }

  lemma ScanWhole(schema: Schema, fs: seq<Field>)
    requires AllKnown(schema, fs) && |Encode(fs)| < TWO_63
    ensures ScanFrom(schema, Encode(fs), 0) == Scan(fs, None)
  {
    var data := Encode(fs);
    ItemsOfKnown(schema, fs);
    assert data[0..0 + |data|] == data;
    ScanOfEncoded(schema, data, 0, Items(fs));
  }

  /** Two lists of known fields have the same encoding only when they are the same list. */
  lemma EncodeInjective(schema: Schema, fs: seq<Field>, gs: seq<Field>)
    requires AllKnown(schema, fs) && AllKnown(schema, gs)
    requires Encode(fs) == Encode(gs) && |Encode(fs)| < TWO_63
    ensures fs == gs
  {
    ScanWhole(schema, fs);
    ScanWhole(schema, gs);
  }

  // ---------------------------------------------------------------------------
  // Optional fields: proto3 leaves out zero values
  // ---------------------------------------------------------------------------

  function VarintOpt(num: nat, v: U64): seq<Field> {
    if v != 0 then [VarintField(num, v)] else []
  }

  function BytesOpt(num: nat, content: Bytes): seq<Field> {
    if content != [] then [BytesField(num, content)] else []
  }

  /** The bytes `Size` counts for an optional field. */
  function VarintOptSize(v: U64): nat {
    if v != 0 then 1 + Sov(v) else 0
  }

  function BytesOptSize(content: Bytes): nat
    requires |content| < TWO_63
  {
    if |content| > 0 then 1 + |content| + Sov(|content|) else 0
  }

  lemma VarintOptLength(num: nat, v: U64, rest: seq<Field>)
    requires 1 <= num < 16
    ensures |Encode(VarintOpt(num, v) + rest)| == VarintOptSize(v) + |Encode(rest)|
  {
    if v == 0 {
      assert VarintOpt(num, v) + rest == rest;
    } else {
      SovIsLength(v);
      assert (VarintOpt(num, v) + rest)[1..] == rest;
    }
  }

  lemma BytesOptLength(num: nat, content: Bytes, rest: seq<Field>)
    requires 1 <= num < 16 && |content| < TWO_63
    ensures |Encode(BytesOpt(num, content) + rest)| == BytesOptSize(content) + |Encode(rest)|
  {
    if content == [] {
      assert BytesOpt(num, content) + rest == rest;
    } else {
      SovIsLength(|content|);
      assert (BytesOpt(num, content) + rest)[1..] == rest;
    }
  }

  // ---------------------------------------------------------------------------
  // Layout: what stands on the wire, with the tag bytes of the generated code
  // ---------------------------------------------------------------------------

  /** A number under its one-byte tag, or nothing for zero. */
  function Num(tag: Byte, v: U64): Bytes {
    if v == 0 then [] else [tag] + Varint(v)
  }

  /** A length-delimited content under its one-byte tag, or nothing when it is empty. */
  function Str(tag: Byte, content: Bytes): Bytes {
    if content == [] then [] else [tag] + Varint(|content|) + content
  }

  lemma NumLayout(num: nat, v: U64, rest: seq<Field>)
    requires 1 <= num < 16
    ensures Encode(VarintOpt(num, v) + rest) == Num(8 * num, v) + Encode(rest)
  {
    if v == 0 {
      assert VarintOpt(num, v) + rest == rest;
    } else {
      assert (VarintOpt(num, v) + rest)[1..] == rest;
    }
  }

  lemma StrLayout(num: nat, content: Bytes, rest: seq<Field>)
    requires 1 <= num < 16
    ensures Encode(BytesOpt(num, content) + rest) == Str(8 * num + 2, content) + Encode(rest)
  {
    if content == [] {
      assert BytesOpt(num, content) + rest == rest;
    } else {
      assert (BytesOpt(num, content) + rest)[1..] == rest;
    }
  }

  /** The tags that `skip` meets: field 1 as fixed64, fixed32, start and end of a group. */
  lemma ItemLayout(b: Bytes, xs: seq<Item>)
    ensures EncodeItem(Fixed64(1, b)) == [0x09] + b
    ensures EncodeItem(Fixed32(1, b)) == [0x0d] + b
    ensures EncodeItem(Group(1, xs, 1)) == [0x0b] + EncodeItems(xs) + [0x0c]
  {
  }

  // ---------------------------------------------------------------------------
  // Writing backwards into a buffer
  // ---------------------------------------------------------------------------

  /** `copy(dAtA[i:], content)`. */
  method CopyInto(a: array<Byte>, i: nat, content: Bytes)
    requires i + |content| <= a.Length
    modifies a
    ensures a[..] == Overwrite(old(a[..]), i, content)
  {
    forall k | 0 <= k < |content| {
      a[i + k] := content[k];
    }
  }

  /** A one-byte tag, as the generated code writes it. */
  method PutTag(a: array<Byte>, i: nat, tag: Byte) returns (at: nat)
    requires 1 <= i <= a.Length && tag < 128
    modifies a
    ensures at + |Varint(tag)| == i && a[..] == Overwrite(old(a[..]), at, Varint(tag))
  {
    at := i - 1;
    a[at] := tag;
  }

  /** A varint field written just before `end`. */
  method PutVarintField(a: array<Byte>, end: nat, num: nat, v: U64) returns (i: nat)
    requires 1 <= num < 16
    requires |EncodeField(VarintField(num, v))| <= end <= a.Length
    modifies a
    ensures i + |EncodeField(VarintField(num, v))| == end
    ensures a[..] == Overwrite(old(a[..]), i, EncodeField(VarintField(num, v)))
  {
    SovIsLength(v);
    i := EncodeVarint(a, end, v);
    i := PutTag(a, i, 8 * num);
    OverwriteBefore(old(a[..]), i, Varint(8 * num), Varint(v));
  }

  /** Length and tag put before a content of the given length that ends at `end`. */
  method PutLengthAndTag(a: array<Byte>, start: nat, length: nat, num: nat) returns (i: nat)
    requires 1 <= num < 16 && length < TWO_63
    requires |Varint(8 * num + 2) + Varint(length)| <= start <= a.Length
    modifies a
    ensures i + |Varint(8 * num + 2) + Varint(length)| == start
    ensures a[..] == Overwrite(old(a[..]), i, Varint(8 * num + 2) + Varint(length))
  {
    SovIsLength(length);
    i := EncodeVarint(a, start, length);
    i := PutTag(a, i, 8 * num + 2);
    OverwriteBefore(old(a[..]), i, Varint(8 * num + 2), Varint(length));
  }

  lemma HeadBeforeContent(s: Bytes, at: nat, tag: Bytes, length: Bytes, content: Bytes)
    requires at + |tag| + |length| + |content| <= |s|
    ensures Overwrite(Overwrite(s, at + |tag| + |length|, content), at, tag + length)
         == Overwrite(s, at, tag + (length + content))
  {
    OverwriteBefore(s, at, tag + length, content);
    assert (tag + length) + content == tag + (length + content);
  }

  /** A length-delimited field written just before `end`. */
  method PutBytesField(a: array<Byte>, end: nat, num: nat, content: Bytes) returns (i: nat)
    requires 1 <= num < 16 && |content| < TWO_63
    requires |EncodeField(BytesField(num, content))| <= end <= a.Length
    modifies a
    ensures i + |EncodeField(BytesField(num, content))| == end
    ensures a[..] == Overwrite(old(a[..]), i, EncodeField(BytesField(num, content)))
  {
    hide Varint, Overwrite;
    CopyInto(a, end - |content|, content);
    i := PutLengthAndTag(a, end - |content|, |content|, num);
    HeadBeforeContent(old(a[..]), i, Varint(8 * num + 2), Varint(|content|), content);
  }

  lemma FieldBefore(s: Bytes, at: nat, f: Field, rest: seq<Field>)
    requires at + |EncodeField(f)| + |Encode(rest)| <= |s|
    ensures |Encode([f] + rest)| == |EncodeField(f)| + |Encode(rest)|
    ensures Overwrite(Overwrite(s, at + |EncodeField(f)|, Encode(rest)), at, EncodeField(f))
         == Overwrite(s, at, Encode([f] + rest))
  {
    hide EncodeField;
    assert ([f] + rest)[1..] == rest;
    OverwriteBefore(s, at, EncodeField(f), Encode(rest));
  }

  /** The buffer is as it was in `s` except that `Encode(fs)` ends at `end`. */
  ghost predicate Holds(now: Bytes, s: Bytes, i: nat, end: nat, fs: seq<Field>) {
    i + |Encode(fs)| == end <= |s| && now == Overwrite(s, i, Encode(fs))
  }

  /** The `if m.X != 0 { ... }` block of a `MarshalToSizedBuffer`. */
  method PutVarintOpt(a: array<Byte>, i: nat, num: nat, v: U64, ghost s: Bytes, ghost end: nat, ghost rest: seq<Field>)
    returns (at: nat)
    requires 1 <= num < 16 && Holds(a[..], s, i, end, rest)
    requires |Encode(VarintOpt(num, v) + rest)| <= end
    modifies a
    ensures Holds(a[..], s, at, end, VarintOpt(num, v) + rest)
  {
    hide EncodeField;
    if v != 0 {
      ghost var f := VarintField(num, v);
      assert |Encode([f] + rest)| == |EncodeField(f)| + |Encode(rest)| by {
        assert ([f] + rest)[1..] == rest;
      }
      at := PutVarintField(a, i, num, v);
      FieldBefore(s, at, f, rest);
    } else {
      assert VarintOpt(num, v) + rest == rest;
      at := i;
    }
  }

  /** The `if len(m.X) > 0 { ... }` block of a `MarshalToSizedBuffer`. */
  method PutBytesOpt(a: array<Byte>, i: nat, num: nat, content: Bytes, ghost s: Bytes, ghost end: nat, ghost rest: seq<Field>)
    returns (at: nat)
    requires 1 <= num < 16 && |content| < TWO_63 && Holds(a[..], s, i, end, rest)
    requires |Encode(BytesOpt(num, content) + rest)| <= end
    modifies a
    ensures Holds(a[..], s, at, end, BytesOpt(num, content) + rest)
  {
    hide EncodeField;
    if |content| > 0 {
      ghost var f := BytesField(num, content);
      assert |Encode([f] + rest)| == |EncodeField(f)| + |Encode(rest)| by {
        assert ([f] + rest)[1..] == rest;
      }
      at := PutBytesField(a, i, num, content);
      FieldBefore(s, at, f, rest);
    } else {
      assert BytesOpt(num, content) + rest == rest;
      at := i;
    }
  }
}
