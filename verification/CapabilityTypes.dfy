/** The messages of the capability module and their generated codec. */
module CapabilityTypes {
  import opened ByteStrings
  import opened Wire
  import opened Messages

  datatype Owner = Owner(moduleName: Bytes, name: Bytes)

  /** The message `Capability`; the object it stands for is `CapabilityState.Capability`. */
  datatype CapabilityMessage = CapabilityMessage(index: U64)

  const CAPABILITY_SCHEMA: Schema := map[1 := VarintKind]
  const OWNER_SCHEMA: Schema := map[1 := BytesKind, 2 := BytesKind]
  const OWNERS_SCHEMA: Schema := map[1 := BytesKind]

  // ---------------------------------------------------------------------------
  // Fields and sizes
  // ---------------------------------------------------------------------------

  function CapabilityFields(m: CapabilityMessage): seq<Field> {
    VarintOpt(1, m.index) + []
  }

  function OwnerFields(m: Owner): seq<Field> {
    BytesOpt(1, m.moduleName) + (BytesOpt(2, m.name) + [])
  }

  function EncodeOwner(m: Owner): Bytes {
    Encode(OwnerFields(m))
  }

  /** Every owner is a field, also an empty one. */
  function OwnersFields(owners: seq<Owner>): seq<Field> {
    if owners == [] then [] else [BytesField(1, EncodeOwner(owners[0]))] + OwnersFields(owners[1..])
  }

  function EncodeCapability(m: CapabilityMessage): Bytes {
    Encode(CapabilityFields(m))
  }

  function EncodeOwners(owners: seq<Owner>): Bytes {
    Encode(OwnersFields(owners))
  }

  /** Lengths are Go `int`s. */
  predicate OwnerFits(m: Owner) {
    |m.moduleName| < TWO_63 && |m.name| < TWO_63 && |EncodeOwner(m)| < TWO_63
  }

  /** `Capability.Size`. */
  function CapabilitySize(m: CapabilityMessage): nat {
    VarintOptSize(m.index)
  }

  /** `Owner.Size`. */
  function OwnerSize(m: Owner): nat
    requires |m.moduleName| < TWO_63 && |m.name| < TWO_63
  {
    BytesOptSize(m.moduleName) + BytesOptSize(m.name)
  }

  lemma CapabilitySizeIsLength(m: CapabilityMessage)
    ensures CapabilitySize(m) == |EncodeCapability(m)|
  {
    VarintOptLength(1, m.index, []);
  }

  lemma OwnerSizeIsLength(m: Owner)
    requires |m.moduleName| < TWO_63 && |m.name| < TWO_63
    ensures OwnerSize(m) == |EncodeOwner(m)|
  {
    BytesOptLength(2, m.name, []);
    BytesOptLength(1, m.moduleName, BytesOpt(2, m.name) + []);
  }

  /** The bytes of a capability and of an owner, with their tags. */
  lemma CapabilityLayout(m: CapabilityMessage)
    ensures EncodeCapability(m) == Num(0x08, m.index)
  {
    NumLayout(1, m.index, []);
  }

  lemma OwnerLayout(m: Owner)
    ensures EncodeOwner(m) == Str(0x0a, m.moduleName) + Str(0x12, m.name)
  {
    StrLayout(2, m.name, []);
    StrLayout(1, m.moduleName, BytesOpt(2, m.name) + []);
  }

  /** Each owner of a list stands under its own tag and length, the empty one too. */
  lemma OwnersLayout(owners: seq<Owner>)
    ensures EncodeOwners(owners) ==
              if owners == [] then []
              else [0x0a] + Varint(|EncodeOwner(owners[0])|) + EncodeOwner(owners[0]) + EncodeOwners(owners[1..])
  {
    hide EncodeOwner;
    if owners != [] {
      var f := BytesField(1, EncodeOwner(owners[0]));
      assert ([f] + OwnersFields(owners[1..]))[1..] == OwnersFields(owners[1..]);
    }
  }

  /** `CapabilityOwners.Size`: the loop adds up to the length of the encoding. */
  method OwnersSize(owners: seq<Owner>) returns (n: nat)
    requires forall i :: 0 <= i < |owners| ==> OwnerFits(owners[i])
    ensures n == |EncodeOwners(owners)|
  {
    hide Varint, EncodeOwner, EncodeOwners;
    n := 0;
    assert owners[0..] == owners;
    for i := 0 to |owners|
      invariant n + |EncodeOwners(owners[i..])| == |EncodeOwners(owners)|
    {
      OwnerSizeIsLength(owners[i]);
      var l := OwnerSize(owners[i]);
      SovIsLength(l);
      OwnersStep(owners, i);
      n := n + 1 + l + Sov(l);
    }
    NoOwners(owners[|owners|..]);
  }

  lemma NoOwners(owners: seq<Owner>)
    requires owners == []
    ensures EncodeOwners(owners) == []
  {
  }

  lemma OwnersStep(owners: seq<Owner>, i: nat)
    requires i < |owners|
    ensures OwnersFields(owners[i..]) == [BytesField(1, EncodeOwner(owners[i]))] + OwnersFields(owners[i + 1..])
    ensures EncodeOwners(owners[i..]) == EncodeField(BytesField(1, EncodeOwner(owners[i]))) + EncodeOwners(owners[i + 1..])
    ensures |EncodeOwners(owners[i..])|
         == 1 + |Varint(|EncodeOwner(owners[i])|)| + |EncodeOwner(owners[i])| + |EncodeOwners(owners[i + 1..])|
  {
    assert owners[i..][1..] == owners[i + 1..];
    var f := BytesField(1, EncodeOwner(owners[i]));
    assert ([f] + OwnersFields(owners[i + 1..]))[1..] == OwnersFields(owners[i + 1..]);
  }

  // ---------------------------------------------------------------------------
  // Marshal
  // ---------------------------------------------------------------------------

  /** `Capability.MarshalToSizedBuffer` into the part of the buffer before `end`. */
  method MarshalCapability(m: CapabilityMessage, a: array<Byte>, end: nat) returns (n: nat)
    requires CapabilitySize(m) <= end <= a.Length
    modifies a
    ensures n == CapabilitySize(m) == |EncodeCapability(m)|
    ensures a[..] == Overwrite(old(a[..]), end - n, EncodeCapability(m))
  {
    CapabilitySizeIsLength(m);
    ghost var s := a[..];
    var i := PutVarintOpt(a, end, 1, m.index, s, end, []);
    n := end - i;
  }

  /** `Owner.MarshalToSizedBuffer`. */
  method MarshalOwner(m: Owner, a: array<Byte>, end: nat) returns (n: nat)
    requires OwnerFits(m) && OwnerSize(m) <= end <= a.Length
    modifies a
    ensures n == OwnerSize(m) == |EncodeOwner(m)|
    ensures a[..] == Overwrite(old(a[..]), end - n, EncodeOwner(m))
  {
    hide Encode;
    OwnerSizeIsLength(m);
    BytesOptLength(1, m.moduleName, BytesOpt(2, m.name) + []);
    ghost var s := a[..];
    EncodeNothing(s, end);
    var i := PutBytesOpt(a, end, 2, m.name, s, end, []);
    i := PutBytesOpt(a, i, 1, m.moduleName, s, end, BytesOpt(2, m.name) + []);
    n := end - i;
  }

  lemma EncodeNothing(s: Bytes, end: nat)
    requires end <= |s|
    ensures Encode([]) == [] && Messages.Holds(s, s, end, end, [])
  {
  }

  /** One turn of the loop of `CapabilityOwners.MarshalToSizedBuffer`: the owner is written
      before `i`, then its length, then the tag. */
  method PutOwner(o: Owner, a: array<Byte>, i: nat, ghost s: Bytes, ghost rest: Bytes) returns (at: nat)
    requires OwnerFits(o) && i + |rest| <= |s| == a.Length && a[..] == Overwrite(s, i, rest)
    requires |EncodeField(BytesField(1, EncodeOwner(o)))| <= i
    modifies a
    ensures at + |EncodeField(BytesField(1, EncodeOwner(o)))| == i
    ensures a[..] == Overwrite(s, at, EncodeField(BytesField(1, EncodeOwner(o))) + rest)
  {
    hide Varint, EncodeOwner, Overwrite;
    OwnerSizeIsLength(o);
    ghost var content := EncodeOwner(o);
    var size := MarshalOwner(o, a, i);
    OverwriteBefore(s, i - size, content, rest);
    at := PutLengthAndTag(a, i - size, size, 1);
    ghost var head := Varint(10) + Varint(size);
    OverwriteBefore(s, at, head, content + rest);
    TagLengthContentRest(Varint(10), Varint(size), content, rest);
  }

  lemma TagLengthContentRest(tag: Bytes, length: Bytes, content: Bytes, rest: Bytes)
    ensures (tag + length) + (content + rest) == (tag + (length + content)) + rest
  {
  }

  /** `CapabilityOwners.MarshalToSizedBuffer`: the owners are written from the last to the
      first. */
  method MarshalOwners(owners: seq<Owner>, a: array<Byte>, end: nat) returns (n: nat)
    requires forall i :: 0 <= i < |owners| ==> OwnerFits(owners[i])
    requires |EncodeOwners(owners)| <= end <= a.Length
    modifies a
    ensures n == |EncodeOwners(owners)|
    ensures a[..] == Overwrite(old(a[..]), end - n, EncodeOwners(owners))
  {
    hide EncodeField, EncodeOwner, EncodeOwners, OwnerFits;
    ghost var s := a[..];
    var i: nat, k: nat := end, |owners|;
    NoOwners(owners[k..]);
    while k > 0
      invariant k <= |owners|
      invariant i + |EncodeOwners(owners[k..])| == end
      invariant a[..] == Overwrite(s, i, EncodeOwners(owners[k..]))
    {
      OwnersSuffixFits(owners, k - 1);
      OwnersStep(owners, k - 1);
      i := PutOwner(owners[k - 1], a, i, s, EncodeOwners(owners[k..]));
      k := k - 1;
    }
    assert owners[0..] == owners;
    n := end - i;
  }

  /** `CapabilityOwners.Marshal`: a buffer of exactly `Size()` bytes, filled completely, whose
      content decodes to the owners again. */
  method MarshalOwnersToBytes(owners: seq<Owner>) returns (data: Bytes)
    requires forall i :: 0 <= i < |owners| ==> OwnerFits(owners[i])
    requires |EncodeOwners(owners)| < TWO_63
    ensures data == EncodeOwners(owners)
    ensures |data| < TWO_63 && DecodeOwners(data) == Ok(owners)
  {
    hide EncodeOwners, DecodeOwners;
    var size := OwnersSize(owners);
    var a := new Byte[size];
    var n := MarshalOwners(owners, a, size);
    data := a[..n];
    assert a[..n] == a[..];
    OwnersRoundTrip(owners);
  }

  /** The encoding of the later owners is no longer than that of all. */
  lemma {:induction false} OwnersSuffixFits(owners: seq<Owner>, k: nat)
    requires k <= |owners|
    ensures |EncodeOwners(owners[k..])| <= |EncodeOwners(owners)|
  {
    hide EncodeOwners, EncodeOwner, Varint, EncodeField;
    if k == 0 {
      assert owners[0..] == owners;
    } else {
      OwnersSuffixFits(owners, k - 1);
      OwnersStep(owners, k - 1);
    }
  }

  // ---------------------------------------------------------------------------
  // Unmarshal
  // ---------------------------------------------------------------------------

  /** The assignments of the `switch`, in the order of the fields. */
  function CapabilityOf(fs: seq<Field>): CapabilityMessage {
    if fs == [] then CapabilityMessage(0)
    else
      var m, f := CapabilityOf(fs[..|fs| - 1]), fs[|fs| - 1];
      if f.VarintField? then CapabilityMessage(f.value) else m
  }

  function OwnerOf(fs: seq<Field>): Owner {
    if fs == [] then Owner([], [])
    else SetOwnerField(OwnerOf(fs[..|fs| - 1]), fs[|fs| - 1])
  }

  function SetOwnerField(m: Owner, f: Field): Owner {
    if f.BytesField? && f.num == 1 then m.(moduleName := f.content)
    else if f.BytesField? && f.num == 2 then m.(name := f.content)
    else m
  }

  function DecodeCapability(data: Bytes): Result<CapabilityMessage>
    requires |data| < TWO_63
  {
    var s := ScanFrom(CAPABILITY_SCHEMA, data, 0);
    if s.error.Some? then Err(s.error.value) else Ok(CapabilityOf(s.fields))
  }

  function DecodeOwner(data: Bytes): Result<Owner>
    requires |data| < TWO_63
  {
    var s := ScanFrom(OWNER_SCHEMA, data, 0);
    if s.error.Some? then Err(s.error.value) else Ok(OwnerOf(s.fields))
  }

  /** The owners decoded from fields, up to the first that fails. (Scanned fields of this
      message are always length-delimited and shorter than the data.) */
  function OwnersOf(fs: seq<Field>): Result<seq<Owner>> {
    if fs == [] then Ok([])
    else
      match OwnersOf(fs[..|fs| - 1])
      case Err(e) => Err(e)
      case Ok(owners) =>
        var f := fs[|fs| - 1];
        if f.VarintField? || |f.content| >= TWO_63 then Ok(owners)
        else
          match DecodeOwner(f.content)
          case Err(e) => Err(e)
          case Ok(o) => Ok(owners + [o])
  }

  /** An owner that does not decode stops the loop before any later error. */
  function DecodeOwners(data: Bytes): Result<seq<Owner>>
    requires |data| < TWO_63
  {
    var s := ScanFrom(OWNERS_SCHEMA, data, 0);
    match OwnersOf(s.fields)
    case Err(e) => Err(e)
    case Ok(owners) => if s.error.Some? then Err(s.error.value) else Ok(owners)
  }

  /** What is left to scan, with the fields already read put in front. */
  ghost predicate Resumes(schema: Schema, data: Bytes, i: nat, read: seq<Field>)
    requires i <= |data| < TWO_63
  {
    var all, rest := ScanFrom(schema, data, 0), ScanFrom(schema, data, i);
    all == Scan(read + rest.fields, rest.error)
  }

  lemma ResumesStart(schema: Schema, data: Bytes)
    requires |data| < TWO_63
    ensures Resumes(schema, data, 0, [])
  {
    var all := ScanFrom(schema, data, 0);
    assert [] + all.fields == all.fields;
  }

  lemma ResumesStep(schema: Schema, data: Bytes, i: nat, read: seq<Field>, f: Option<Field>, n: nat)
    requires i < |data| < TWO_63 && Resumes(schema, data, i, read)
    requires ReadField(schema, data, i) == Ok((f, n)) && n <= |data|
    ensures Resumes(schema, data, n, if f.Some? then read + [f.value] else read)
  {
    hide ReadField;
    var rest := ScanFrom(schema, data, n);
    if f.Some? {
      assert read + ([f.value] + rest.fields) == (read + [f.value]) + rest.fields;
    }
  }

  lemma ResumesError(schema: Schema, data: Bytes, i: nat, read: seq<Field>, e: Error)
    requires i < |data| < TWO_63 && Resumes(schema, data, i, read)
    requires ReadField(schema, data, i) == Err(e)
    ensures ScanFrom(schema, data, 0) == Scan(read, Some(e))
  {
    hide ReadField;
    assert read + [] == read;
  }

  lemma ResumesEnd(schema: Schema, data: Bytes, read: seq<Field>)
    requires |data| < TWO_63 && Resumes(schema, data, |data|, read)
    ensures ScanFrom(schema, data, 0) == Scan(read, None)
  {
    assert read + [] == read;
  }

  /** `Capability.Unmarshal` into an empty value. */
  method UnmarshalCapability(data: Bytes) returns (r: Result<CapabilityMessage>)
    requires |data| < TWO_63
    ensures r == DecodeCapability(data)
  {
    hide ReadField, ScanFrom, Resumes;
    var m := CapabilityMessage(0);
    var i: nat := 0;
    ghost var read: seq<Field> := [];
    ResumesStart(CAPABILITY_SCHEMA, data);
    while i < |data|
      invariant i <= |data| && Resumes(CAPABILITY_SCHEMA, data, i, read)
      invariant m == CapabilityOf(read)
    {
      var step := NextField(CAPABILITY_SCHEMA, data, i);
      if step.Err? {
        ResumesError(CAPABILITY_SCHEMA, data, i, read, step.error);
        return Err(step.error);
      }
      var f := step.value.0;
      ResumesStep(CAPABILITY_SCHEMA, data, i, read, f, step.value.1);
      if f.Some? {
        ghost var before := read;
        read := read + [f.value];
        assert read[..|read| - 1] == before;
        if f.value.VarintField? {
          m := CapabilityMessage(f.value.value);
        }
      }
      i := step.value.1;
    }
    ResumesEnd(CAPABILITY_SCHEMA, data, read);
    return Ok(m);
  }

  /** `Owner.Unmarshal` into an empty value. */
  method UnmarshalOwner(data: Bytes) returns (r: Result<Owner>)
    requires |data| < TWO_63
    ensures r == DecodeOwner(data)
  {
    hide ReadField, ScanFrom, Resumes;
    var m := Owner([], []);
    var i: nat := 0;
    ghost var read: seq<Field> := [];
    ResumesStart(OWNER_SCHEMA, data);
    while i < |data|
      invariant i <= |data| && Resumes(OWNER_SCHEMA, data, i, read)
      invariant m == OwnerOf(read)
    {
      var step := NextField(OWNER_SCHEMA, data, i);
      if step.Err? {
        ResumesError(OWNER_SCHEMA, data, i, read, step.error);
        return Err(step.error);
      }
      var f := step.value.0;
      ResumesStep(OWNER_SCHEMA, data, i, read, f, step.value.1);
      if f.Some? {
        ghost var before := read;
        read := read + [f.value];
        assert read[..|read| - 1] == before;
        if f.value.BytesField? && f.value.num == 1 {
          m := m.(moduleName := f.value.content);
        } else if f.value.BytesField? && f.value.num == 2 {
          m := m.(name := f.value.content);
        }
      }
      i := step.value.1;
    }
    ResumesEnd(OWNER_SCHEMA, data, read);
    return Ok(m);
  }

  lemma {:induction false} OwnersOfFails(read: seq<Field>, rest: seq<Field>)
    requires OwnersOf(read).Err?
    ensures OwnersOf(read + rest) == OwnersOf(read)
    decreases |rest|
  {
    if rest == [] {
      assert read + rest == read;
    } else {
      var front := rest[..|rest| - 1];
      OwnersOfFails(read, front);
      assert (read + rest)[..|read + rest| - 1] == read + front;
    }
  }

  /** `CapabilityOwners.Unmarshal` into an empty value. */
  method UnmarshalOwners(data: Bytes) returns (r: Result<seq<Owner>>)
    requires |data| < TWO_63
    ensures r == DecodeOwners(data)
  {
    hide ReadField, ScanFrom, DecodeOwner;
    var owners: seq<Owner> := [];
    var i: nat := 0;
    ghost var read: seq<Field> := [];
    ResumesStart(OWNERS_SCHEMA, data);
    while i < |data|
      invariant i <= |data| && Resumes(OWNERS_SCHEMA, data, i, read)
      invariant OwnersOf(read) == Ok(owners)
    {
      var step := NextField(OWNERS_SCHEMA, data, i);
      if step.Err? {
        ResumesError(OWNERS_SCHEMA, data, i, read, step.error);
        return Err(step.error);
      }
      var f := step.value.0;
      ResumesStep(OWNERS_SCHEMA, data, i, read, f, step.value.1);
      if f.Some? {
        ghost var before := read;
        read := read + [f.value];
        assert read[..|read| - 1] == before;
        if f.value.BytesField? && |f.value.content| < TWO_63 {
          var o := UnmarshalOwner(f.value.content);
          if o.Err? {
            OwnersOfFails(read, ScanFrom(OWNERS_SCHEMA, data, step.value.1).fields);
            return Err(o.error);
          }
          owners := owners + [o.value];
        }
      }
      i := step.value.1;
    }
    ResumesEnd(OWNERS_SCHEMA, data, read);
    return Ok(owners);
  }

  // ---------------------------------------------------------------------------
  // Round trip
  // ---------------------------------------------------------------------------

  /** Decoding undoes encoding, for every capability. */
  lemma CapabilityRoundTrip(m: CapabilityMessage)
    ensures |EncodeCapability(m)| < TWO_63
    ensures DecodeCapability(EncodeCapability(m)) == Ok(m)
  {
    hide Encode, ScanFrom;
    CapabilitySizeIsLength(m);
    SovIsLength(m.index);
    Varint64Length(m.index);
    var fs := CapabilityFields(m);
    ScanWhole(CAPABILITY_SCHEMA, fs);
    if m.index != 0 {
      assert fs == [VarintField(1, m.index)];
      assert fs[..|fs| - 1] == [];
    }
  }

  /** Decoding undoes encoding, for every owner. */
  lemma OwnerRoundTrip(m: Owner)
    requires OwnerFits(m)
    ensures DecodeOwner(EncodeOwner(m)) == Ok(m)
  {
    hide Encode, ScanFrom;
    var fs := OwnerFields(m);
    ScanWhole(OWNER_SCHEMA, fs);
    OwnerOfFields(m);
  }

  lemma OwnerOfFields(m: Owner)
    ensures OwnerOf(OwnerFields(m)) == m
  {
    var fs := OwnerFields(m);
    if m.moduleName != [] && m.name != [] {
      assert fs == [BytesField(1, m.moduleName), BytesField(2, m.name)];
      assert fs[..1] == [fs[0]];
      assert fs[..1][..0] == [];
    } else if fs != [] {
      assert fs[..|fs| - 1] == [];
    }
  }

  lemma {:induction false} OwnersFieldsAt(owners: seq<Owner>)
    ensures |OwnersFields(owners)| == |owners|
    ensures forall i :: 0 <= i < |owners| ==> OwnersFields(owners)[i] == BytesField(1, EncodeOwner(owners[i]))
  {
    if owners != [] {
      OwnersFieldsAt(owners[1..]);
    }
  }

  lemma {:induction false} OwnersOfFields(fs: seq<Field>, owners: seq<Owner>)
    requires |fs| == |owners|
    requires forall i :: 0 <= i < |owners| ==> OwnerFits(owners[i]) && fs[i] == BytesField(1, EncodeOwner(owners[i]))
    ensures OwnersOf(fs) == Ok(owners)
  {
    hide EncodeOwner, DecodeOwner;
    if fs != [] {
      var n := |fs| - 1;
      OwnersOfFields(fs[..n], owners[..n]);
      OwnerRoundTrip(owners[n]);
      assert owners[..n] + [owners[n]] == owners;
    }
  }

  /** Decoding undoes encoding, for every list of owners. */
  lemma OwnersRoundTrip(owners: seq<Owner>)
    requires forall i :: 0 <= i < |owners| ==> OwnerFits(owners[i])
    requires |EncodeOwners(owners)| < TWO_63
    ensures DecodeOwners(EncodeOwners(owners)) == Ok(owners)
  {
    hide Encode, EncodeOwner, ScanFrom, OwnersOf, OwnerFits;
    var fs := OwnersFields(owners);
    OwnersFieldsAt(owners);
    ScanWhole(OWNERS_SCHEMA, fs);
    OwnersOfFields(fs, owners);
  }
}
