/** The three structures of the capability keeper and what it means that they agree. */
module CapabilityState {
  import opened ByteStrings
  import opened CapabilityTypes
  import CO = CapabilityOwners

  /** A reference to a capability object: its address and the index it holds. Two references
      are the same exactly when their addresses are. */
  datatype Capability = Capability(addr: nat, index: U64)

  // ---------------------------------------------------------------------------
  // Keys
  // ---------------------------------------------------------------------------

  const REV := Ascii("rev/")
  const FWD := Ascii("fwd/")
  const MEM_INITIALIZED := Ascii("mem_initialized")
  const INDEX_KEY := Ascii("index")
  const INDEX_PREFIX := Ascii("capability_index")

  function HexDigit(d: int): Byte
    requires 0 <= d < 16
  {
    if d < 10 then 48 + d else 87 + d
  }

  function Hex(v: nat): (s: Bytes)
    ensures s != []
  {
    if v < 16 then [HexDigit(v)] else Hex(v / 16) + [HexDigit(v % 16)]
  }

  /** `fmt.Sprintf("%#016p", ref)`: lower-case hexadecimal, padded with zeros to width 16. */
  function PointerText(addr: nat): Bytes {
    Zeros(16 - |Hex(addr)|) + Hex(addr)
  }

  function Zeros(n: int): Bytes {
    if n <= 0 then [] else [48] + Zeros(n - 1)
  }

  function HexValue(s: Bytes): int {
    if s == [] then 0
    else
      var b: int := s[|s| - 1];
      16 * HexValue(s[..|s| - 1]) + if b <= 57 then b - 48 else b - 87
  }

  lemma {:induction false} ZerosValue(n: int)
    ensures HexValue(Zeros(n)) == 0
    ensures forall i :: 0 <= i < |Zeros(n)| ==> Zeros(n)[i] == 48
    decreases n
  {
    if n > 0 {
      ZerosValue(n - 1);
      var z := Zeros(n);
      AllZeroValue(z);
    }
  }

  lemma {:induction false} AllZeroValue(s: Bytes)
    requires forall i :: 0 <= i < |s| ==> s[i] == 48
    ensures HexValue(s) == 0
  {
    if s != [] {
      AllZeroValue(s[..|s| - 1]);
    }
  }

  lemma {:induction false} HexValueOfHex(pad: Bytes, v: nat)
    requires HexValue(pad) == 0
    ensures HexValue(pad + Hex(v)) == v
    decreases v
  {
    var s := pad + Hex(v);
    if v < 16 {
      assert s[..|s| - 1] == pad;
    } else {
      assert s[..|s| - 1] == pad + Hex(v / 16);
      HexValueOfHex(pad, v / 16);
    }
  }

  lemma PointerTextInjective(a: nat, b: nat)
    requires PointerText(a) == PointerText(b)
    ensures a == b
  {
    ZerosValue(16 - |Hex(a)|);
    ZerosValue(16 - |Hex(b)|);
    HexValueOfHex(Zeros(16 - |Hex(a)|), a);
    HexValueOfHex(Zeros(16 - |Hex(b)|), b);
  }

  /** What is stored under a key of the memory store. */
  datatype MemKey = Rev(moduleName: Bytes, name: Bytes) | Fwd(moduleName: Bytes, addr: nat) | Initialized

  function RevCapabilityKey(moduleName: Bytes, name: Bytes): Bytes {
    moduleName + [SLASH] + (REV + name)
  }

  function FwdCapabilityKey(moduleName: Bytes, addr: nat): Bytes {
    moduleName + [SLASH] + (FWD + PointerText(addr))
  }

  function Render(k: MemKey): Bytes {
    match k
    case Rev(m, n) => RevCapabilityKey(m, n)
    case Fwd(m, a) => FwdCapabilityKey(m, a)
    case Initialized => MEM_INITIALIZED
  }

  /** The texts of the keys. */
  lemma KeyTexts(m: Bytes, n: Bytes, addr: nat)
    ensures RevCapabilityKey(m, n) == m + Ascii("/rev/") + n
    ensures FwdCapabilityKey(m, addr) == m + Ascii("/fwd/") + PointerText(addr)
    ensures Render(Initialized) == Ascii("mem_initialized")
    ensures INDEX_KEY == Ascii("index") && INDEX_PREFIX == Ascii("capability_index")
  {
    hide PointerText;
    assert Ascii("/rev/") == [SLASH] + REV;
    assert Ascii("/fwd/") == [SLASH] + FWD;
  }

  predicate Scoped(k: MemKey, modules: set<Bytes>) {
    k.Initialized? || k.moduleName in modules
  }

  /** No module name begins like a reverse key of another. */
  ghost predicate MemSafe(modules: set<Bytes>) {
    forall m, n :: m in modules && n in modules && m != n ==> !(m + [SLASH] + REV <= n + [SLASH])
  }

  /** What is safe for the keys of owners is safe for those of the memory store. */
  lemma SafeForMemory(modules: set<Bytes>)
    requires CO.SeparatorSafe(modules)
    ensures MemSafe(modules)
  {
    forall m: Bytes, n: Bytes | m + [SLASH] + REV <= n + [SLASH] ensures m + [SLASH] <= n {
      assert m + [SLASH] == (m + [SLASH] + REV)[..|m| + 1] == (n + [SLASH])[..|m| + 1];
    }
  }

  function Suffix(k: MemKey): Bytes
    requires !k.Initialized?
  {
    if k.Rev? then REV + k.name else FWD + PointerText(k.addr)
  }

  lemma RenderParts(k: MemKey)
    requires !k.Initialized?
    ensures Render(k) == k.moduleName + [SLASH] + Suffix(k)
    ensures |Suffix(k)| >= 4 && Suffix(k)[..4] == if k.Rev? then REV else FWD
    ensures k.Fwd? ==> |Suffix(k)| >= 6 && forall i :: 4 <= i < |Suffix(k)| ==> IsHex(Suffix(k)[i])
  {
    if k.Fwd? {
      PointerTextIsHex(k.addr);
    }
  }

  predicate IsHex(b: Byte) {
    48 <= b <= 57 || 97 <= b <= 102
  }

  lemma {:induction false} HexIsHex(v: nat)
    ensures forall i :: 0 <= i < |Hex(v)| ==> IsHex(Hex(v)[i])
  {
    if v >= 16 {
      HexIsHex(v / 16);
    }
  }

  lemma {:induction false} ZerosLength(n: int)
    ensures |Zeros(n)| == if n <= 0 then 0 else n
    decreases n
  {
    if n > 0 {
      ZerosLength(n - 1);
    }
  }

  lemma PointerTextIsHex(addr: nat)
    ensures |PointerText(addr)| >= 16
    ensures forall i :: 0 <= i < |PointerText(addr)| ==> IsHex(PointerText(addr)[i])
  {
    HexIsHex(addr);
    ZerosLength(16 - |Hex(addr)|);
    ZerosValue(16 - |Hex(addr)|);
  }

  /** An address is written in lower-case hexadecimal, padded to at least sixteen digits. */
  lemma PointerTextSpells(addr: nat)
    ensures HexValue(PointerText(addr)) == addr
    ensures |PointerText(addr)| == if |Hex(addr)| <= 16 then 16 else |Hex(addr)|
    ensures forall i :: 0 <= i < |PointerText(addr)| ==> IsHex(PointerText(addr)[i])
  {
    PointerTextIsHex(addr);
    ZerosLength(16 - |Hex(addr)|);
    ZerosValue(16 - |Hex(addr)|);
    HexValueOfHex(Zeros(16 - |Hex(addr)|), addr);
  }

  /** A longer module name never continues a forward key, and a reverse key only by
      beginning like it. */
  lemma LongerModule(k: MemKey, l: MemKey)
    requires !k.Initialized? && !l.Initialized? && |k.moduleName| < |l.moduleName|
    requires Render(k) == Render(l)
    ensures k.moduleName + [SLASH] + REV <= l.moduleName + [SLASH]
  {
    hide Render, Suffix;
    RenderParts(k);
    RenderParts(l);
    var m, n, x, y, s := k.moduleName, l.moduleName, Suffix(k), Suffix(l), Render(k);
    var d := |n| - |m| - 1;
    assert x[d] == s[|n|] == SLASH;
    assert x[d + 1] == s[|n| + 1] == y[..4][0] && x[d + 2] == s[|n| + 2] == y[..4][1];
    assert x[0] == x[..4][0] && x[1] == x[..4][1] && x[2] == x[..4][2];
    assert d >= 3;
    assert k.Rev?;
    assert m + [SLASH] + REV == s[..|m| + 5];
    assert n + [SLASH] == s[..|n| + 1];
  }

  /** Among safe module names different entries have different keys. */
  lemma RenderInjective(modules: set<Bytes>, k: MemKey, l: MemKey)
    requires MemSafe(modules) && Scoped(k, modules) && Scoped(l, modules) && Render(k) == Render(l)
    ensures k == l
  {
    FlagIsApart(k);
    FlagIsApart(l);
    if k.Initialized? {
    } else if |k.moduleName| < |l.moduleName| {
      LongerModule(k, l);
    } else if |l.moduleName| < |k.moduleName| {
      LongerModule(l, k);
    } else {
      SameModule(k, l);
    }
  }

  lemma SameModule(k: MemKey, l: MemKey)
    requires !k.Initialized? && !l.Initialized? && |k.moduleName| == |l.moduleName|
    requires Render(k) == Render(l)
    ensures k == l
  {
    hide Render, Suffix;
    RenderParts(k);
    RenderParts(l);
    var m, s := k.moduleName, Render(k);
    assert m == s[..|m|] == l.moduleName;
    assert Suffix(k) == s[|m| + 1..] == Suffix(l);
    SameSuffix(k, l);
  }

  lemma SameSuffix(k: MemKey, l: MemKey)
    requires !k.Initialized? && !l.Initialized? && k.moduleName == l.moduleName && Suffix(k) == Suffix(l)
    ensures k == l
  {
    hide PointerText;
    var x := Suffix(k);
    assert REV[0] != FWD[0];
    assert x[0] == (if k.Rev? then REV[0] else FWD[0]) && x[0] == (if l.Rev? then REV[0] else FWD[0]);
    if k.Rev? {
      assert k.name == x[4..] == l.name;
    } else {
      assert PointerText(k.addr) == x[4..] == PointerText(l.addr);
      PointerTextInjective(k.addr, l.addr);
    }
  }

  /** Keys of the memory store tell its entries apart exactly when no module name begins
      like a reverse key of another. */
  lemma RenderInjectiveIff(modules: set<Bytes>)
    ensures (forall k, l :: Writable(k, modules) && Writable(l, modules) && Render(k) == Render(l) ==> k == l)
       <==> MemSafe(modules)
  {
    hide Render;
    if MemSafe(modules) {
      forall k, l | Writable(k, modules) && Writable(l, modules) && Render(k) == Render(l) ensures k == l {
        RenderInjective(modules, k, l);
      }
    } else {
      var m, n :| m in modules && n in modules && m != n && m + [SLASH] + REV <= n + [SLASH];
      var k, l := SharedKey(m, n);
      assert Writable(k, modules) && Writable(l, modules);
    }
  }

  /** The keeper writes this entry for some owner of these modules. */
  predicate Writable(k: MemKey, modules: set<Bytes>) {
    Scoped(k, modules) && (k.Rev? ==> !Blank(k.name))
  }

  lemma SharedKey(m: Bytes, n: Bytes) returns (k: MemKey, l: MemKey)
    requires m + [SLASH] + REV <= n + [SLASH]
    ensures k.Rev? && k.moduleName == m && l == Rev(n, [120]) && Render(k) == Render(l)
    ensures !Blank(k.name) && !Blank(l.name)
  {
    var tail := (n + [SLASH])[|m| + 5..];
    var x: Bytes := [120];
    k, l := Rev(m, tail + (REV + x)), Rev(n, x);
    assert k.name[|k.name| - 1] == 120 && l.name[0] == 120;
    assert 120 in k.name && 120 in l.name;
    assert n + [SLASH] == m + [SLASH] + REV + tail;
    assert Render(l) == n + [SLASH] + (REV + x);
    assert Render(k) == m + [SLASH] + REV + tail + (REV + x);
  }

  lemma FlagIsApart(k: MemKey)
    ensures Render(k) == MEM_INITIALIZED <==> k.Initialized?
  {
    assert SLASH !in MEM_INITIALIZED;
    if !k.Initialized? {
      assert Render(k)[|k.moduleName|] == SLASH;
    }
  }

  /** The keys of the persistent store: the counter's key is none of the owners' keys, and
      an owners' key determines its index, so the store is a counter and a map by index. */
  lemma PersistentKeysDetermineIndex(i: U64, j: U64)
    ensures INDEX_KEY != INDEX_PREFIX + Uint64ToBigEndian(i)
    ensures BigEndianToUint64((INDEX_PREFIX + Uint64ToBigEndian(i))[|INDEX_PREFIX|..]) == i
    ensures INDEX_PREFIX + Uint64ToBigEndian(i) == INDEX_PREFIX + Uint64ToBigEndian(j) ==> i == j
  {
    assert (INDEX_PREFIX + Uint64ToBigEndian(i))[|INDEX_PREFIX|..] == Uint64ToBigEndian(i);
    assert (INDEX_PREFIX + Uint64ToBigEndian(j))[|INDEX_PREFIX|..] == Uint64ToBigEndian(j);
    Uint64RoundTrip(i);
    Uint64RoundTrip(j);
  }

  // ---------------------------------------------------------------------------
  // The memory store as an image
  // ---------------------------------------------------------------------------

  type Mem = map<MemKey, Bytes>

  ghost predicate Image(kv: map<Bytes, Bytes>, t: Mem, modules: set<Bytes>) {
    && (forall k :: k in t ==> Scoped(k, modules) && Render(k) in kv && kv[Render(k)] == t[k])
    && (forall b :: b in kv ==> exists k :: k in t && Render(k) == b)
  }

  lemma ImageLookup(kv: map<Bytes, Bytes>, t: Mem, modules: set<Bytes>, k: MemKey)
    requires MemSafe(modules) && Image(kv, t, modules) && Scoped(k, modules)
    ensures Render(k) in kv <==> k in t
    ensures k in t ==> kv[Render(k)] == t[k]
  {
    hide Render;
    if Render(k) in kv {
      var l :| l in t && Render(l) == Render(k);
      RenderInjective(modules, l, k);
    }
  }

  lemma ImageSet(kv: map<Bytes, Bytes>, t: Mem, modules: set<Bytes>, k: MemKey, v: Bytes)
    requires MemSafe(modules) && Image(kv, t, modules) && Scoped(k, modules)
    ensures Image(kv[Render(k) := v], t[k := v], modules)
  {
    hide Render;
    var kv', t' := kv[Render(k) := v], t[k := v];
    forall l | l in t' ensures Render(l) in kv' && kv'[Render(l)] == t'[l] {
      if Render(l) == Render(k) {
        RenderInjective(modules, l, k);
      }
    }
    forall b | b in kv' ensures exists l :: l in t' && Render(l) == b {
      if b == Render(k) {
        assert k in t';
      } else {
        var l :| l in t && Render(l) == b;
        assert l in t';
      }
    }
  }

  lemma ImageDelete(kv: map<Bytes, Bytes>, t: Mem, modules: set<Bytes>, k: MemKey)
    requires MemSafe(modules) && Image(kv, t, modules) && Scoped(k, modules)
    ensures Image(kv - {Render(k)}, t - {k}, modules)
  {
    hide Render;
    var kv', t' := kv - {Render(k)}, t - {k};
    forall l | l in t' ensures Render(l) in kv' && kv'[Render(l)] == t'[l] {
      if Render(l) == Render(k) {
        RenderInjective(modules, l, k);
      }
    }
    forall b | b in kv' ensures exists l :: l in t' && Render(l) == b {
      var l :| l in t && Render(l) == b;
      assert l in t';
    }
  }

  // ---------------------------------------------------------------------------
  // Agreement
  // ---------------------------------------------------------------------------

  /** Who owns what: the index each owner's name stands for. */
  type Ownership = map<Owner, U64>

  /** One module never owns one capability under two names. */
  ghost predicate OneNameEach(own: Ownership) {
    forall o, p :: o in own && p in own && o.moduleName == p.moduleName && own[o] == own[p] ==> o == p
  }

  ghost predicate WellNamed(own: Ownership, modules: set<Bytes>) {
    forall o :: o in own ==>
      o.moduleName in modules && !Blank(o.moduleName) && !Blank(o.name)
  }

  /** The persistent store: the stored lists are the sorted owner sets, none empty, and the
      counter is above every index in use. */
  ghost predicate PersistAgree(index: U64, owners: map<U64, seq<Owner>>, own: Ownership) {
    && OneNameEach(own)
    && (forall o :: o in own ==> 0 < own[o] < index && own[o] in owners && o in owners[own[o]])
    && (forall i :: i in owners ==> owners[i] != [] && CO.Sorted(owners[i]))
    && (forall i, o :: i in owners && o in owners[i] ==> o in own && own[o] == i)
  }

  /** The Go map: each reference is kept under its own index, no two share an address. */
  ghost predicate CapMapOk(capMap: map<U64, Capability>) {
    && (forall i :: i in capMap ==> capMap[i].index == i)
    && (forall i, j :: i in capMap && j in capMap && capMap[i].addr == capMap[j].addr ==> i == j)
  }

  /** The memory store and the Go map: exactly one reverse and one forward entry for each
      owner, and the capability itself in the map. */
  ghost predicate MemAgree(t: Mem, capMap: map<U64, Capability>, own: Ownership) {
    && CapMapOk(capMap)
    && (forall o :: o in own ==>
          && own[o] in capMap
          && Rev(o.moduleName, o.name) in t
          && t[Rev(o.moduleName, o.name)] == Uint64ToBigEndian(own[o])
          && Fwd(o.moduleName, capMap[own[o]].addr) in t
          && t[Fwd(o.moduleName, capMap[own[o]].addr)] == o.name)
    && (forall m, n :: Rev(m, n) in t ==> Owner(m, n) in own)
    && (forall m, a :: Fwd(m, a) in t ==>
          exists o :: o in own && o.moduleName == m && own[o] in capMap && capMap[own[o]].addr == a)
  }

  /** Reverse entry, forward entry and stored owner list say the same, for every module,
      name and mapped index. */
  lemma ThreeWayAgreement(
    index: U64, owners: map<U64, seq<Owner>>, t: Mem, capMap: map<U64, Capability>, own: Ownership,
    m: Bytes, n: Bytes, i: U64)
    requires PersistAgree(index, owners, own) && MemAgree(t, capMap, own) && i in capMap
    ensures Rev(m, n) in t && t[Rev(m, n)] == Uint64ToBigEndian(i)
       <==> i in owners && Owner(m, n) in owners[i]
    ensures Fwd(m, capMap[i].addr) in t && t[Fwd(m, capMap[i].addr)] == n
       <==> i in owners && Owner(m, n) in owners[i]
  {
    hide Uint64ToBigEndian;
    var o := Owner(m, n);
    if Rev(m, n) in t && t[Rev(m, n)] == Uint64ToBigEndian(i) {
      Uint64RoundTrip(i);
      Uint64RoundTrip(own[o]);
    }
    if Fwd(m, capMap[i].addr) in t && t[Fwd(m, capMap[i].addr)] == n {
      var p :| p in own && p.moduleName == m && own[p] in capMap && capMap[own[p]].addr == capMap[i].addr;
      assert own[p] == i && p == o;
    }
  }

  // ---------------------------------------------------------------------------
  // Adding and removing an owner
  // ---------------------------------------------------------------------------

  /** The two writes of the memory store when `o` becomes an owner of `c`. */
  function AddKeys(t: Mem, o: Owner, c: Capability): Mem {
    t[Fwd(o.moduleName, c.addr) := o.name][Rev(o.moduleName, o.name) := Uint64ToBigEndian(c.index)]
  }

  /** The two deletions when `o` stops being an owner of `c`. */
  function DropKeys(t: Mem, o: Owner, c: Capability): Mem {
    t - {Fwd(o.moduleName, c.addr)} - {Rev(o.moduleName, o.name)}
  }

  /** The same two writes and deletions on bytes. */
  function AddBytes(kv: map<Bytes, Bytes>, o: Owner, c: Capability): map<Bytes, Bytes> {
    kv[FwdCapabilityKey(o.moduleName, c.addr) := o.name]
      [RevCapabilityKey(o.moduleName, o.name) := Uint64ToBigEndian(c.index)]
  }

  function DropBytes(kv: map<Bytes, Bytes>, o: Owner, c: Capability): map<Bytes, Bytes> {
    kv - {FwdCapabilityKey(o.moduleName, c.addr)} - {RevCapabilityKey(o.moduleName, o.name)}
  }

  lemma AddImage(kv: map<Bytes, Bytes>, t: Mem, modules: set<Bytes>, o: Owner, c: Capability)
    requires MemSafe(modules) && Image(kv, t, modules) && o.moduleName in modules
    ensures Image(AddBytes(kv, o, c), AddKeys(t, o, c), modules)
  {
    hide Render, Image;
    RenderCases(o, c);
    var k, l := Fwd(o.moduleName, c.addr), Rev(o.moduleName, o.name);
    ImageSet(kv, t, modules, k, o.name);
    ImageSet(kv[Render(k) := o.name], t[k := o.name], modules, l, Uint64ToBigEndian(c.index));
  }

  lemma DropImage(kv: map<Bytes, Bytes>, t: Mem, modules: set<Bytes>, o: Owner, c: Capability)
    requires MemSafe(modules) && Image(kv, t, modules) && o.moduleName in modules
    ensures Image(DropBytes(kv, o, c), DropKeys(t, o, c), modules)
  {
    hide Render, Image;
    RenderCases(o, c);
    var k, l := Fwd(o.moduleName, c.addr), Rev(o.moduleName, o.name);
    ImageDelete(kv, t, modules, k);
    ImageDelete(kv - {Render(k)}, t - {k}, modules, l);
  }

  /** What creations, claims and releases do to the memory store. */
  datatype MemOp = AddOwner(owner: Owner, cap: Capability) | DropOwner(owner: Owner, cap: Capability)

  /** The bytes after any sequence of such writes to an initialized store. */
  function BytesAfter(ops: seq<MemOp>): map<Bytes, Bytes> {
    if ops == [] then map[MEM_INITIALIZED := [1]]
    else
      var before := BytesAfter(ops[..|ops| - 1]);
      match ops[|ops| - 1]
      case AddOwner(o, c) => AddBytes(before, o, c)
      case DropOwner(o, c) => DropBytes(before, o, c)
  }

  /** The same with an entry of its own for every module and name. */
  function EntriesAfter(ops: seq<MemOp>): Mem {
    if ops == [] then map[Initialized := [1]]
    else
      var before := EntriesAfter(ops[..|ops| - 1]);
      match ops[|ops| - 1]
      case AddOwner(o, c) => AddKeys(before, o, c)
      case DropOwner(o, c) => DropKeys(before, o, c)
  }

  predicate OpsNameable(ops: seq<MemOp>, modules: set<Bytes>) {
    forall i :: 0 <= i < |ops| ==> CO.Nameable(ops[i].owner, modules)
  }

  lemma {:induction false} BytesFollowEntries(modules: set<Bytes>, ops: seq<MemOp>)
    requires MemSafe(modules) && OpsNameable(ops, modules)
    ensures Image(BytesAfter(ops), EntriesAfter(ops), modules)
  {
    hide Image, AddBytes, DropBytes, AddKeys, DropKeys, MemSafe;
    if ops == [] {
      FlagImage(modules);
    } else {
      var before := ops[..|ops| - 1];
      BytesFollowEntries(modules, before);
      match ops[|ops| - 1]
      case AddOwner(o, c) => AddImage(BytesAfter(before), EntriesAfter(before), modules, o, c);
      case DropOwner(o, c) => DropImage(BytesAfter(before), EntriesAfter(before), modules, o, c);
    }
  }

  lemma FlagImage(modules: set<Bytes>)
    ensures Image(map[MEM_INITIALIZED := [1]], map[Initialized := [1]], modules)
  {
    assert Render(Initialized) == MEM_INITIALIZED;
    var t: Mem := map[Initialized := [1]];
    assert Initialized in t;
  }

  /** In every run a module finds under a name exactly what was last written for that module
      and name, if and only if no module name begins like a reverse key of another. */
  lemma ReadsOwnNamesIff(modules: set<Bytes>)
    ensures (forall ops, m, n :: OpsNameable(ops, modules) && m in modules && !Blank(n) ==> ReadsOwn(ops, m, n))
       <==> MemSafe(modules)
  {
    hide Render, MemSafe;
    if MemSafe(modules) {
      forall ops, m, n | OpsNameable(ops, modules) && m in modules && !Blank(n) ensures ReadsOwn(ops, m, n) {
        BytesFollowEntries(modules, ops);
        RevLookup(BytesAfter(ops), EntriesAfter(ops), modules, m, n);
      }
    } else {
      var m, n, name := StrangerReads(modules);
      var ops := [AddOwner(Owner(n, [120]), Capability(0, 1))];
      assert CO.Nameable(ops[0].owner, modules);
      assert !ReadsOwn(ops, m, name);
    }
  }

  /** What the keeper reads for a module's name is that module's own entry. */
  ghost predicate ReadsOwn(ops: seq<MemOp>, m: Bytes, n: Bytes) {
    var key, kv, t := RevCapabilityKey(m, n), BytesAfter(ops), EntriesAfter(ops);
    (key in kv <==> Rev(m, n) in t) && (key in kv ==> kv[key] == t[Rev(m, n)])
  }

  /** Under unsafe names a module finds an entry that only another module has written. */
  lemma StrangerReads(modules: set<Bytes>) returns (m: Bytes, n: Bytes, name: Bytes)
    requires !MemSafe(modules)
    ensures m in modules && n in modules && m != n && !Blank(name) && !Blank([120])
    ensures !ReadsOwn([AddOwner(Owner(n, [120]), Capability(0, 1))], m, name)
  {
    m, n :| m in modules && n in modules && m != n && m + [SLASH] + REV <= n + [SLASH];
    var k, l := SharedKey(m, n);
    name := k.name;
    var o, c := Owner(n, [120]), Capability(0, 1);
    var ops := [AddOwner(o, c)];
    var x: Bytes := [120];
    assert x[0] == 120;
    assert ops[..0] == [];
    assert BytesAfter(ops) == AddBytes(BytesAfter([]), o, c);
    assert EntriesAfter(ops) == AddKeys(EntriesAfter([]), o, c);
    assert Rev(m, name) !in EntriesAfter(ops);
    assert RevCapabilityKey(m, name) == RevCapabilityKey(n, x);
  }

  /** `o` may become an owner of index `i`: its name is unused and its module owns nothing
      at that index. */
  ghost predicate MayAdd(own: Ownership, o: Owner, i: U64) {
    o !in own && forall p :: p in own && p.moduleName == o.moduleName ==> own[p] != i
  }

  lemma MemAdd(t: Mem, capMap: map<U64, Capability>, own: Ownership, o: Owner, c: Capability)
    requires MemAgree(t, capMap, own) && MayAdd(own, o, c.index)
    requires c.index in capMap && capMap[c.index] == c
    ensures MemAgree(AddKeys(t, o, c), capMap, own[o := c.index])
  {
    hide Uint64ToBigEndian;
    var t', own' := AddKeys(t, o, c), own[o := c.index];
    forall p | p in own'
      ensures own'[p] in capMap
      ensures Rev(p.moduleName, p.name) in t' && t'[Rev(p.moduleName, p.name)] == Uint64ToBigEndian(own'[p])
      ensures Fwd(p.moduleName, capMap[own'[p]].addr) in t' && t'[Fwd(p.moduleName, capMap[own'[p]].addr)] == p.name
    {
      if p != o {
        assert p.moduleName == o.moduleName ==> capMap[own[p]].addr != c.addr;
      }
    }
    forall m, a | Fwd(m, a) in t'
      ensures exists p :: p in own' && p.moduleName == m && own'[p] in capMap && capMap[own'[p]].addr == a
    {
      if Fwd(m, a) in t {
        var p :| p in own && p.moduleName == m && own[p] in capMap && capMap[own[p]].addr == a;
        assert p in own' && own'[p] == own[p];
      } else {
        assert o in own';
      }
    }
  }

  lemma MemRemove(t: Mem, capMap: map<U64, Capability>, own: Ownership, o: Owner)
    requires MemAgree(t, capMap, own) && OneNameEach(own) && o in own
    ensures MemAgree(DropKeys(t, o, capMap[own[o]]), capMap, own - {o})
  {
    hide Uint64ToBigEndian;
    var t', own' := t - {Fwd(o.moduleName, capMap[own[o]].addr)} - {Rev(o.moduleName, o.name)}, own - {o};
    forall p | p in own'
      ensures own'[p] in capMap
      ensures Rev(p.moduleName, p.name) in t' && t'[Rev(p.moduleName, p.name)] == Uint64ToBigEndian(own'[p])
      ensures Fwd(p.moduleName, capMap[own'[p]].addr) in t' && t'[Fwd(p.moduleName, capMap[own'[p]].addr)] == p.name
    {
      assert p.moduleName == o.moduleName ==> capMap[own[p]].addr != capMap[own[o]].addr;
    }
    forall m, a | Fwd(m, a) in t'
      ensures exists p :: p in own' && p.moduleName == m && own'[p] in capMap && capMap[own'[p]].addr == a
    {
      var p :| p in own && p.moduleName == m && own[p] in capMap && capMap[own[p]].addr == a;
      assert p != o;
      assert p in own' && own'[p] == own[p];
    }
  }

  /** Putting a reference under an index that nobody owns leaves agreement alone; so does
      dropping one. */
  lemma MemRemap(t: Mem, capMap: map<U64, Capability>, own: Ownership, c: Capability)
    requires MemAgree(t, capMap, own)
    requires forall o :: o in own ==> own[o] != c.index
    requires forall i :: i in capMap ==> capMap[i].addr != c.addr
    ensures MemAgree(t, capMap[c.index := c], own)
  {
    hide Uint64ToBigEndian;
    var capMap' := capMap[c.index := c];
    forall m, a | Fwd(m, a) in t
      ensures exists o :: o in own && o.moduleName == m && own[o] in capMap' && capMap'[own[o]].addr == a
    {
      var o :| o in own && o.moduleName == m && own[o] in capMap && capMap[own[o]].addr == a;
      assert own[o] in capMap';
    }
  }

  lemma MemUnmap(t: Mem, capMap: map<U64, Capability>, own: Ownership, i: U64)
    requires MemAgree(t, capMap, own)
    requires forall o :: o in own ==> own[o] != i
    ensures MemAgree(t, capMap - {i}, own)
  {
    hide Uint64ToBigEndian;
    var capMap' := capMap - {i};
    forall m, a | Fwd(m, a) in t
      ensures exists o :: o in own && o.moduleName == m && own[o] in capMap' && capMap'[own[o]].addr == a
    {
      var o :| o in own && o.moduleName == m && own[o] in capMap && capMap[own[o]].addr == a;
      assert own[o] in capMap';
    }
  }

  /** `list` is `owners[i]` (or nothing) with `o` added in order. */
  ghost predicate Added(owners: map<U64, seq<Owner>>, i: U64, o: Owner, list: seq<Owner>) {
    && CO.Sorted(list)
    && forall x :: x in list <==> (i in owners && x in owners[i]) || x == o
  }

  lemma PersistAdd(
    index: U64, index': U64, owners: map<U64, seq<Owner>>, own: Ownership, o: Owner, i: U64, list: seq<Owner>)
    requires PersistAgree(index, owners, own) && MayAdd(own, o, i)
    requires Added(owners, i, o, list) && 0 < i < index' && index <= index'
    ensures PersistAgree(index', owners[i := list], own[o := i])
  {
    hide CO.Sorted;
    assert o in list;
  }

  /** `list` is `owners[i]` without `o`. */
  ghost predicate Removed(owners: map<U64, seq<Owner>>, i: U64, o: Owner, list: seq<Owner>)
    requires i in owners
  {
    CO.Sorted(list) && forall x :: x in list <==> x in owners[i] && x != o
  }

  lemma PersistRemove(index: U64, owners: map<U64, seq<Owner>>, own: Ownership, o: Owner, list: seq<Owner>)
    requires PersistAgree(index, owners, own) && o in own
    requires Removed(owners, own[o], o, list)
    ensures PersistAgree(index, if list == [] then owners - {own[o]} else owners[own[o] := list], own - {o})
  {
    hide CO.Sorted;
    var i := own[o];
    var owners' := if list == [] then owners - {i} else owners[i := list];
    forall p | p in own - {o} ensures own[p] in owners' && p in owners'[own[p]] {
      if own[p] == i {
        assert p in list;
      }
    }
  }

  /** A claim's writes keep the structures in agreement exactly when the reference is the
      one in the map for an index that has owners, the name is unused, and the claiming
      module owns nothing else at that index. */
  lemma ClaimKeepsAgreementIff(
    index: U64, owners: map<U64, seq<Owner>>, t: Mem, capMap: map<U64, Capability>, own: Ownership,
    o: Owner, c: Capability, list: seq<Owner>)
    requires PersistAgree(index, owners, own) && MemAgree(t, capMap, own)
    requires forall i :: i in capMap ==> i in owners || i >= index
    requires forall i :: i in capMap && capMap[i].addr == c.addr ==> capMap[i] == c
    requires !(c.index in owners && o in owners[c.index]) && Added(owners, c.index, o, list)
    ensures (exists own' :: PersistAgree(index, owners[c.index := list], own') && MemAgree(AddKeys(t, o, c), capMap, own'))
       <==> c.index in owners && c.index in capMap && capMap[c.index] == c && MayAdd(own, o, c.index)
  {
    hide CO.Sorted, MemAgree, AddKeys, PersistAgree, MayAdd;
    var owners', t' := owners[c.index := list], AddKeys(t, o, c);
    if c.index in owners && c.index in capMap && capMap[c.index] == c && MayAdd(own, o, c.index) {
      ListedIsBelow(index, owners, own, c.index);
      PersistAdd(index, index, owners, own, o, c.index, list);
      MemAdd(t, capMap, own, o, c);
      var own' := own[o := c.index];
      assert PersistAgree(index, owners', own') && MemAgree(t', capMap, own');
    }
    forall own' | PersistAgree(index, owners', own') && MemAgree(t', capMap, own')
      ensures c.index in owners && c.index in capMap && capMap[c.index] == c && MayAdd(own, o, c.index)
    {
      ClaimedMayAdd(index, owners, own, o, c.index, list, own');
      ClaimedIsLive(t, capMap, own', o, c);
    }
  }

  lemma ClaimedMayAdd(
    index: U64, owners: map<U64, seq<Owner>>, own: Ownership, o: Owner, i: U64, list: seq<Owner>, own': Ownership)
    requires PersistAgree(index, owners, own) && PersistAgree(index, owners[i := list], own')
    requires !(i in owners && o in owners[i]) && Added(owners, i, o, list)
    ensures MayAdd(own, o, i) && o in own' && own'[o] == i && i < index
  {
    hide CO.Sorted;
    var owners' := owners[i := list];
    assert o in owners'[i] && own'[o] == i;
    forall p | p in own ensures p in own' && own'[p] == own[p] {
      assert p in owners'[own[p]];
    }
  }

  lemma ClaimedIsLive(t: Mem, capMap: map<U64, Capability>, own': Ownership, o: Owner, c: Capability)
    requires MemAgree(AddKeys(t, o, c), capMap, own')
    requires forall i :: i in capMap && capMap[i].addr == c.addr ==> capMap[i] == c
    ensures c.index in capMap && capMap[c.index] == c
  {
    hide Uint64ToBigEndian;
    assert Fwd(o.moduleName, c.addr) in AddKeys(t, o, c);
    var p :| p in own' && p.moduleName == o.moduleName && own'[p] in capMap && capMap[own'[p]].addr == c.addr;
    assert capMap[own'[p]] == c;
  }

  /** The same for the one ownership that can result. */
  lemma ClaimIff(
    index: U64, owners: map<U64, seq<Owner>>, t: Mem, capMap: map<U64, Capability>, own: Ownership,
    o: Owner, c: Capability, list: seq<Owner>)
    requires PersistAgree(index, owners, own) && MemAgree(t, capMap, own)
    requires forall i :: i in capMap ==> i in owners || i >= index
    requires forall i :: i in capMap && capMap[i].addr == c.addr ==> capMap[i] == c
    requires !(c.index in owners && o in owners[c.index]) && Added(owners, c.index, o, list)
    ensures PersistAgree(index, owners[c.index := list], own[o := c.index]) && MemAgree(AddKeys(t, o, c), capMap, own[o := c.index])
       <==> c.index in owners && c.index in capMap && capMap[c.index] == c && MayAdd(own, o, c.index)
  {
    hide CO.Sorted, MemAgree, AddKeys, PersistAgree, MayAdd;
    ClaimKeepsAgreementIff(index, owners, t, capMap, own, o, c, list);
    if c.index in owners && c.index in capMap && capMap[c.index] == c && MayAdd(own, o, c.index) {
      ListedIsBelow(index, owners, own, c.index);
      PersistAdd(index, index, owners, own, o, c.index, list);
      MemAdd(t, capMap, own, o, c);
    }
  }

  // ---------------------------------------------------------------------------
  // Lookups
  // ---------------------------------------------------------------------------

  lemma EmptySorted()
    ensures CO.Sorted([])
  {
  }

  lemma RenderCases(o: Owner, c: Capability)
    ensures Render(Fwd(o.moduleName, c.addr)) == FwdCapabilityKey(o.moduleName, c.addr)
    ensures Render(Rev(o.moduleName, o.name)) == RevCapabilityKey(o.moduleName, o.name)
  {
  }

  lemma RevLookup(kv: map<Bytes, Bytes>, t: Mem, modules: set<Bytes>, m: Bytes, n: Bytes)
    requires MemSafe(modules) && Image(kv, t, modules) && m in modules
    ensures RevCapabilityKey(m, n) in kv <==> Rev(m, n) in t
    ensures Rev(m, n) in t ==> kv[RevCapabilityKey(m, n)] == t[Rev(m, n)]
  {
    ImageLookup(kv, t, modules, Rev(m, n));
  }

  lemma FwdLookup(kv: map<Bytes, Bytes>, t: Mem, modules: set<Bytes>, m: Bytes, a: nat)
    requires MemSafe(modules) && Image(kv, t, modules) && m in modules
    ensures FwdCapabilityKey(m, a) in kv <==> Fwd(m, a) in t
    ensures Fwd(m, a) in t ==> kv[FwdCapabilityKey(m, a)] == t[Fwd(m, a)]
  {
    ImageLookup(kv, t, modules, Fwd(m, a));
  }

  lemma FlagLookup(kv: map<Bytes, Bytes>, t: Mem, modules: set<Bytes>)
    requires MemSafe(modules) && Image(kv, t, modules)
    ensures MEM_INITIALIZED in kv <==> Initialized in t
  {
    ImageLookup(kv, t, modules, Initialized);
  }

  /** A forward entry names the one owner of that module at that reference. */
  lemma NamesByReference(t: Mem, capMap: map<U64, Capability>, own: Ownership, m: Bytes, a: nat)
    requires MemAgree(t, capMap, own)
    ensures Fwd(m, a) in t ==> Owner(m, t[Fwd(m, a)]) in own && capMap[own[Owner(m, t[Fwd(m, a)])]].addr == a
    ensures forall n :: Owner(m, n) in own && capMap[own[Owner(m, n)]].addr == a ==> Fwd(m, a) in t && t[Fwd(m, a)] == n
  {
    hide Uint64ToBigEndian;
    if Fwd(m, a) in t {
      var o :| o in own && o.moduleName == m && own[o] in capMap && capMap[own[o]].addr == a;
      assert o == Owner(m, t[Fwd(m, a)]);
    }
  }

  /** Stored indices are below the counter. */
  lemma ListedIsBelow(index: U64, owners: map<U64, seq<Owner>>, own: Ownership, i: U64)
    requires PersistAgree(index, owners, own) && i in owners
    ensures 0 < i < index
  {
    hide CO.Sorted;
    var first := owners[i][0];
    assert first in owners[i];
    assert first in own && own[first] == i;
  }

  lemma NewMayAdd(index: U64, owners: map<U64, seq<Owner>>, own: Ownership, o: Owner)
    requires PersistAgree(index, owners, own) && o !in own
    ensures MayAdd(own, o, index) && index !in owners
    ensures forall p :: p in own ==> own[p] != index
  {
    if index in owners {
      ListedIsBelow(index, owners, own, index);
      assert false;
    }
  }

  lemma OwnedIsListed(
    index: U64, owners: map<U64, seq<Owner>>, t: Mem, capMap: map<U64, Capability>, own: Ownership, o: Owner)
    requires PersistAgree(index, owners, own) && MemAgree(t, capMap, own) && o in own
    ensures own[o] in owners && owners[own[o]] != []
    ensures own[o] in capMap && capMap[own[o]].index == own[o]
  {
    hide CO.Sorted, Uint64ToBigEndian;
  }

  lemma FlagKept(t: Mem, o: Owner, c: Capability)
    ensures Initialized in AddKeys(t, o, c) <==> Initialized in t
  {
  }

  lemma FlagIgnored(t: Mem, capMap: map<U64, Capability>, own: Ownership, v: Bytes)
    requires MemAgree(t, capMap, own)
    ensures MemAgree(t[Initialized := v], capMap, own)
  {
    hide Uint64ToBigEndian;
  }

  lemma EmptyAgrees()
    ensures MemAgree(map[], map[], map[])
  {
  }

  /** The part of the ownership at the given indices. */
  ghost function At(own: Ownership, indices: set<U64>): Ownership {
    map o | o in own && own[o] in indices :: own[o]
  }

  /** The ownership with every member of `list` added at index `i`. */
  ghost function With(own: Ownership, list: seq<Owner>, i: U64): Ownership {
    own + map o | o in list :: i
  }

  lemma WithNone(own: Ownership, list: seq<Owner>, i: U64)
    ensures With(own, list[..0], i) == own
  {
  }

  lemma WithStep(own: Ownership, list: seq<Owner>, k: nat, i: U64)
    requires k < |list|
    ensures With(own, list[..k + 1], i) == With(own, list[..k], i)[list[k] := i]
  {
    assert list[..k + 1] == list[..k] + [list[k]];
  }

  lemma AtOneMore(index: U64, owners: map<U64, seq<Owner>>, own: Ownership, indices: set<U64>, i: U64)
    requires PersistAgree(index, owners, own) && i in owners
    ensures With(At(own, indices), owners[i], i) == At(own, indices + {i})
  {
    hide CO.Sorted;
    var a, b := With(At(own, indices), owners[i], i), At(own, indices + {i});
    forall o ensures o in a <==> o in b {
    }
  }

  lemma AtNone(own: Ownership)
    ensures At(own, {}) == map[]
  {
  }

  lemma AtAll(index: U64, owners: map<U64, seq<Owner>>, own: Ownership)
    requires PersistAgree(index, owners, own)
    ensures At(own, owners.Keys) == own
  {
    hide CO.Sorted;
  }

  // ---------------------------------------------------------------------------
  // Rollback
  // ---------------------------------------------------------------------------

  /** The Go map may have gained or replaced references since, but only at indices that
      were not allocated at the snapshot. */
  ghost predicate MapKept(before: map<U64, Capability>, index: U64, now: map<U64, Capability>) {
    && CapMapOk(now)
    && forall i :: i in before && i < index ==> i in now && now[i] == before[i]
  }

  /** Restoring both stores but not the Go map leaves the structures in agreement, with the
      same references for everything that was owned. */
  lemma RollbackKeepsAgreement(
    index: U64, owners: map<U64, seq<Owner>>, t: Mem, capMap: map<U64, Capability>, own: Ownership,
    now: map<U64, Capability>)
    requires PersistAgree(index, owners, own) && MemAgree(t, capMap, own) && MapKept(capMap, index, now)
    ensures MemAgree(t, now, own)
    ensures forall o :: o in own ==> now[own[o]] == capMap[own[o]]
  {
    hide Uint64ToBigEndian;
    forall m, a | Fwd(m, a) in t
      ensures exists o :: o in own && o.moduleName == m && own[o] in now && now[own[o]].addr == a
    {
      var o :| o in own && o.moduleName == m && own[o] in capMap && capMap[own[o]].addr == a;
      assert own[o] in now && now[own[o]] == capMap[own[o]];
    }
  }
}
