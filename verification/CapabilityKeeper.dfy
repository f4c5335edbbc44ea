/** The capability keeper: modules create, claim and release object capabilities. */
module CapabilityKeeper {
  import opened ByteStrings
  import opened CapabilityTypes
  import opened CapabilityState
  import CO = CapabilityOwners

  datatype Error =
    | InvalidName | Taken | NilCapability | OwnerClaimed | NotOwned | NotFound | OwnersNotFound

  datatype Result<+T> = Ok(value: T) | Err(error: Error)

  /** An operation of a transaction. */
  datatype Op = New(moduleName: Bytes, name: Bytes) | Claim(moduleName: Bytes, cap: Capability, name: Bytes)

  /** What happens to the keeper between blocks and transactions. */
  datatype Event = Committed(op: Op) | Released(moduleName: Bytes, cap: Capability) | Failed(ops: seq<Op>) | Restarted

  ghost predicate ModulesOk(modules: set<Bytes>) {
    MemSafe(modules) && forall m :: m in modules ==> !Blank(m)
  }

  lemma UnusedKey(owners: map<U64, seq<Owner>>, i: U64, o: Owner)
    ensures i in owners && o in owners[i] ==> CO.HasKey(owners[i], CO.Key(o))
  {
  }

  lemma OwnedIsNamed(own: Ownership, modules: set<Bytes>, o: Owner)
    requires WellNamed(own, modules) && o in own
    ensures o.moduleName in modules
  {
  }

  lemma NoEmptyName(own: Ownership, modules: set<Bytes>, m: Bytes)
    requires WellNamed(own, modules)
    ensures Owner(m, []) !in own
  {
    assert Blank([]);
  }

  lemma FewerWellNamed(own: Ownership, modules: set<Bytes>, o: Owner)
    requires WellNamed(own, modules)
    ensures WellNamed(own - {o}, modules)
  {
  }

  lemma MoreWellNamed(own: Ownership, modules: set<Bytes>, o: Owner, i: U64)
    requires WellNamed(own, modules) && o.moduleName in modules && !Blank(o.name) && ModulesOk(modules)
    ensures WellNamed(own[o := i], modules)
  {
  }

  lemma OneNameOf(index: U64, owners: map<U64, seq<Owner>>, own: Ownership)
    requires PersistAgree(index, owners, own)
    ensures OneNameEach(own)
  {
  }

  /** No owner of the list is known yet, and no module is in it twice. */
  ghost predicate Loadable(loaded: Ownership, list: seq<Owner>, modules: set<Bytes>) {
    && (forall k :: 0 <= k < |list| ==> list[k].moduleName in modules && list[k] !in loaded)
    && (forall j, k :: 0 <= j < k < |list| ==> list[j].moduleName != list[k].moduleName)
  }

  /** The next owner of a list may be added once the earlier ones are. */
  lemma NextMayAdd(loaded: Ownership, list: seq<Owner>, modules: set<Bytes>, i: U64, k: nat)
    requires Loadable(loaded, list, modules) && k < |list|
    requires forall o :: o in loaded ==> loaded[o] != i
    ensures MayAdd(With(loaded, list[..k], i), list[k], i) && list[k].moduleName in modules
  {
    forall p | p in list[..k] ensures p.moduleName != list[k].moduleName {
      var j :| 0 <= j < k && list[j] == p;
    }
  }

  lemma ListedIsLoadable(
    index: U64, owners: map<U64, seq<Owner>>, own: Ownership, modules: set<Bytes>, done: set<U64>, i: U64)
    requires PersistAgree(index, owners, own) && WellNamed(own, modules) && i in owners && i !in done
    ensures Loadable(At(own, done), owners[i], modules) && owners[i] != []
    ensures forall o :: o in At(own, done) ==> At(own, done)[o] != i
  {
    hide CO.Sorted;
    CO.SortedDistinct(owners[i]);
    forall k | 0 <= k < |owners[i]| ensures owners[i][k] in own && own[owners[i][k]] == i {
      assert owners[i][k] in owners[i];
    }
  }

  /** The keys of every owner of the list, written in order. */
  function AddAllBytes(kv: map<Bytes, Bytes>, list: seq<Owner>, c: Capability): map<Bytes, Bytes> {
    if list == [] then kv else AddBytes(AddAllBytes(kv, list[..|list| - 1], c), list[|list| - 1], c)
  }

  lemma AddAllNone(kv: map<Bytes, Bytes>, list: seq<Owner>, c: Capability)
    ensures AddAllBytes(kv, list[..0], c) == kv
  {
  }

  lemma AddAllStep(kv: map<Bytes, Bytes>, list: seq<Owner>, k: nat, c: Capability)
    requires k < |list|
    ensures AddAllBytes(kv, list[..k + 1], c) == AddBytes(AddAllBytes(kv, list[..k], c), list[k], c)
  {
    assert list[..k + 1][..k] == list[..k];
  }

  lemma EmptyImage(modules: set<Bytes>)
    ensures Image(map[], map[], modules)
  {
  }

  lemma ListIsNotEmpty(index: U64, owners: map<U64, seq<Owner>>, own: Ownership, i: U64)
    requires PersistAgree(index, owners, own) && i in owners
    ensures owners[i] != []
  {
  }

  lemma FlagRendered()
    ensures Render(Initialized) == MEM_INITIALIZED
  {
  }

  class Keeper {
    /** The persistent store: the counter (0 when unset) and the owners by index. */
    var index: U64
    var owners: map<U64, seq<Owner>>
    /** The memory store. */
    var mem: map<Bytes, Bytes>
    /** The Go map; it is not rolled back with the stores. */
    var capMap: map<U64, Capability>
    var scopedModules: set<Bytes>
    var isSealed: bool

    ghost var t: Mem
    ghost var own: Ownership

    /** The persistent part and the module names alone. */
    ghost predicate Persistent()
      reads this
    {
      && index >= 1 && PersistAgree(index, owners, own)
      && ModulesOk(scopedModules) && WellNamed(own, scopedModules)
    }

    /** All structures agree on who owns what. */
    ghost predicate Valid()
      reads this
    {
      && Persistent()
      && Image(mem, t, scopedModules) && Initialized in t
      && MemAgree(t, capMap, own)
      && OnlyLeftovers()
    }

    /** Beside the owned indices the Go map holds only what failed transactions left in it,
        and that lies at or above the counter. */
    ghost predicate OnlyLeftovers()
      reads this
    {
      forall i :: i in capMap ==> i in owners || i >= index
    }

    /** The Go map holds exactly the indices that have owners. */
    ghost predicate Exact()
      reads this
    {
      forall i :: i in capMap <==> i in owners
    }

    /** The reference is the one in the Go map for an index that has owners. */
    ghost predicate Live(c: Capability)
      reads this
    {
      c.index in owners && c.index in capMap && capMap[c.index] == c
    }

    /** A reference determines its object: no other object stands at its address. */
    ghost predicate Genuine(c: Capability)
      reads this
    {
      forall i :: i in capMap && capMap[i].addr == c.addr ==> capMap[i] == c
    }

    /** A keeper before genesis. */
    ghost predicate Blankslate()
      reads this
    {
      && index == 0 && owners == map[] && mem == map[] && capMap == map[] && t == map[] && own == map[]
      && ModulesOk(scopedModules)
    }

    constructor (modules: set<Bytes>)
      requires ModulesOk(modules)
      ensures Blankslate() && scopedModules == modules
    {
      index, owners, mem, capMap := 0, map[], map[], map[];
      scopedModules, isSealed := modules, false;
      t, own := map[], map[];
    }

    /** `ScopeToModule`; the three refusals are panics in Go. The code accepts any other name;
        agreement outlives those that leave the keys of the memory store apart. */
    method ScopeToModule(moduleName: Bytes) returns (ok: bool)
      modifies this`scopedModules
      ensures ok <==> !isSealed && !Blank(moduleName) && moduleName !in old(scopedModules)
      ensures scopedModules == if ok then old(scopedModules) + {moduleName} else old(scopedModules)
      ensures old(Valid()) && MemSafe(scopedModules) ==> Valid()
    {
      hide PersistAgree, MemAgree, Blank;
      if isSealed || Blank(moduleName) || moduleName in scopedModules {
        return false;
      }
      scopedModules := scopedModules + {moduleName};
      return true;
    }

    // -------------------------------------------------------------------------
    // Stores
    // -------------------------------------------------------------------------

    method SetMem(ghost k: MemKey, key: Bytes, v: Bytes)
      requires key == Render(k)
      modifies this`mem, this`t
      ensures mem == old(mem)[key := v] && t == old(t)[k := v]
      ensures MemSafe(scopedModules) && old(Image(mem, t, scopedModules)) && Scoped(k, scopedModules)
              ==> Image(mem, t, scopedModules)
    {
      hide MemSafe, Image, Render;
      if MemSafe(scopedModules) && Image(mem, t, scopedModules) && Scoped(k, scopedModules) {
        ImageSet(mem, t, scopedModules, k, v);
      }
      mem := mem[key := v];
      t := t[k := v];
    }

    /** `getOwners`. */
    method GetOwnersOf(i: U64) returns (list: CO.Owners)
      ensures fresh(list) && list.owners == if i in owners then owners[i] else []
    {
      list := new CO.Owners(if i in owners then owners[i] else []);
    }

    /** `addOwner`: refused exactly when the owner's key is in use. */
    method AddOwner(o: Owner, i: U64) returns (ok: bool)
      requires Persistent()
      modifies this`owners
      ensures ok <==> !(i in old(owners) && CO.HasKey(old(owners)[i], CO.Key(o)))
      ensures !ok ==> owners == old(owners)
      ensures ok ==> i in owners && owners == old(owners)[i := owners[i]] && Added(old(owners), i, o, owners[i])
    {
      hide CO.Key, CO.Sorted;
      var list := GetOwnersOf(i);
      EmptySorted();
      ok := list.Set(o);
      if ok {
        owners := owners[i := list.owners];
      }
    }

    /** The two writes by which `o` becomes an owner of `c` in the memory store. */
    method WriteOwner(o: Owner, c: Capability)
      modifies this`mem, this`t
      ensures mem == AddBytes(old(mem), o, c) && t == AddKeys(old(t), o, c)
      ensures MemSafe(scopedModules) && old(Image(mem, t, scopedModules)) && o.moduleName in scopedModules
              ==> Image(mem, t, scopedModules)
    {
      hide MemSafe, Image;
      if MemSafe(scopedModules) && Image(mem, t, scopedModules) && o.moduleName in scopedModules {
        AddImage(mem, t, scopedModules, o, c);
      }
      mem := mem[FwdCapabilityKey(o.moduleName, c.addr) := o.name];
      mem := mem[RevCapabilityKey(o.moduleName, o.name) := Uint64ToBigEndian(c.index)];
      t := AddKeys(t, o, c);
    }

    /** `types.NewCapability`: an object at an address that no reference in the map has. */
    method Allocate(i: U64) returns (c: Capability)
      ensures c.index == i && forall j :: j in capMap ==> capMap[j].addr != c.addr
    {
      var rest, top: nat := capMap.Keys, 0;
      while rest != {}
        invariant rest <= capMap.Keys
        invariant forall j :: j in capMap.Keys - rest ==> capMap[j].addr < top
        decreases |rest|
      {
        var j :| j in rest;
        top := if capMap[j].addr >= top then capMap[j].addr + 1 else top;
        rest := rest - {j};
      }
      c := Capability(top, i);
    }

    // -------------------------------------------------------------------------
    // Reading
    // -------------------------------------------------------------------------

    /** `GetCapability`: the reference for an owned name. The panic is the dead branch. */
    method GetCapability(moduleName: Bytes, name: Bytes) returns (r: Option<Capability>)
      requires Valid() && moduleName in scopedModules
      ensures r == if Owner(moduleName, name) in own then Some(capMap[own[Owner(moduleName, name)]]) else None
    {
      hide Render, Uint64ToBigEndian, BigEndianToUint64, Image, PersistAgree, Blank;
      var o := Owner(moduleName, name);
      if Blank(name) {
        return None;
      }
      RevLookup(mem, t, scopedModules, moduleName, name);
      var key := RevCapabilityKey(moduleName, name);
      if key !in mem || |mem[key]| == 0 {
        return None;
      }
      Uint64RoundTrip(own[o]);
      var i := BigEndianToUint64(mem[key]);
      if i !in capMap {
        assert false;
      }
      return Some(capMap[i]);
    }

    /** `GetCapabilityName`: the empty string when the module does not own the reference. */
    method GetCapabilityName(moduleName: Bytes, c: Capability) returns (name: Bytes)
      requires Valid() && moduleName in scopedModules
      ensures forall n :: n != [] ==>
                (name == n <==> Owner(moduleName, n) in own && capMap[own[Owner(moduleName, n)]].addr == c.addr)
    {
      hide Render, Uint64ToBigEndian, Image;
      FwdLookup(mem, t, scopedModules, moduleName, c.addr);
      NamesByReference(t, capMap, own, moduleName, c.addr);
      var key := FwdCapabilityKey(moduleName, c.addr);
      name := if key in mem then mem[key] else [];
    }

    /** `AuthenticateCapability`: true exactly for an owned name and its own reference. */
    method AuthenticateCapability(moduleName: Bytes, cap: Option<Capability>, name: Bytes) returns (ok: bool)
      requires Valid() && moduleName in scopedModules
      ensures ok <==>
        cap.Some? && Owner(moduleName, name) in own && capMap[own[Owner(moduleName, name)]].addr == cap.value.addr
    {
      hide Render, Image, MemAgree, PersistAgree;
      if Blank(name) || cap.None? {
        return false;
      }
      var n := GetCapabilityName(moduleName, cap.value);
      return n == name;
    }

    /** `LookupModules`: the modules of the stored owner list, in its order. */
    method LookupModules(moduleName: Bytes, name: Bytes) returns (r: Result<(seq<Bytes>, Capability)>)
      requires Valid() && moduleName in scopedModules
      ensures Blank(name) ==> r == Err(InvalidName)
      ensures !Blank(name) ==> (r.Ok? <==> Owner(moduleName, name) in own) && (r.Err? ==> r == Err(NotFound))
      ensures r.Ok? ==>
                var i := own[Owner(moduleName, name)];
                && r.value.1 == capMap[i]
                && |r.value.0| == |owners[i]|
                && forall k :: 0 <= k < |owners[i]| ==> r.value.0[k] == owners[i][k].moduleName
    {
      hide Image, MemAgree, PersistAgree, WellNamed;
      if Blank(name) {
        return Err(InvalidName);
      }
      var c := GetCapability(moduleName, name);
      if c.None? {
        return Err(NotFound);
      }
      OwnedIsListed(index, owners, t, capMap, own, Owner(moduleName, name));
      var i := c.value.index;
      if i !in owners || |owners[i]| == 0 {
        assert false;
      }
      var mods: seq<Bytes> := [];
      for k := 0 to |owners[i]|
        invariant |mods| == k && forall j :: 0 <= j < k ==> mods[j] == owners[i][j].moduleName
      {
        mods := mods + [owners[i][k].moduleName];
      }
      return Ok((mods, c.value));
    }

    // -------------------------------------------------------------------------
    // Creating, claiming, releasing
    // -------------------------------------------------------------------------

    /** `NewCapability`: a fresh index and a fresh reference, owned by the caller alone. The
        64-bit counter wraps to 0, which is the one way to lose agreement. */
    method NewCapability(moduleName: Bytes, name: Bytes) returns (r: Result<Capability>)
      requires Valid() && moduleName in scopedModules
      modifies this`index, this`owners, this`mem, this`capMap, this`t, this`own
      ensures Valid() <==> r.Err? || old(index) < TWO_64 - 1
      ensures r == Err(InvalidName) <==> Blank(name)
      ensures r == Err(Taken) <==> !Blank(name) && Owner(moduleName, name) in old(own)
      ensures r.Err? ==> r.error in {InvalidName, Taken} && own == old(own) && index == old(index) && capMap == old(capMap) && owners == old(owners)
      ensures r.Ok? ==>
                && own == old(own)[Owner(moduleName, name) := old(index)]
                && index == (old(index) + 1) % TWO_64
                && r.value.index == old(index)
                && capMap == old(capMap)[old(index) := r.value]
                && mem == AddBytes(old(mem), Owner(moduleName, name), r.value)
                && forall i :: i in old(capMap) ==> old(capMap)[i].addr != r.value.addr
      ensures old(Exact()) ==> Exact()
    {
      hide Image, MemAgree, PersistAgree, WellNamed, MemSafe, Blank;
      if Blank(name) {
        return Err(InvalidName);
      }
      var existing := GetCapability(moduleName, name);
      if existing.Some? {
        return Err(Taken);
      }
      var c := Create(Owner(moduleName, name));
      return Ok(c);
    }

    /** The writes of `NewCapability` once the name is known to be free. */
    method Create(o: Owner) returns (c: Capability)
      requires Valid() && o !in own && o.moduleName in scopedModules && !Blank(o.name)
      modifies this`index, this`owners, this`mem, this`capMap, this`t, this`own
      ensures Valid() <==> old(index) < TWO_64 - 1
      ensures own == old(own)[o := old(index)] && index == (old(index) + 1) % TWO_64
      ensures c.index == old(index) && capMap == old(capMap)[old(index) := c]
      ensures mem == AddBytes(old(mem), o, c)
      ensures forall i :: i in old(capMap) ==> old(capMap)[i].addr != c.addr
      ensures owners.Keys == old(owners).Keys + {old(index)}
    {
      hide Render, Uint64ToBigEndian, Image, MemAgree, PersistAgree, AddKeys, AddBytes, MayAdd, Added, WellNamed;
      hide MemSafe, Blank;
      NewMayAdd(index, owners, own, o);
      var i: U64 := index;
      c := Allocate(i);
      var ok := AddOwner(o, i);
      if !ok {
        assert false;
      }
      if i < TWO_64 - 1 {
        PersistAdd(i, i + 1, old(owners), own, o, i, owners[i]);
      }
      index := (i + 1) % TWO_64;
      WriteOwner(o, c);
      MoreWellNamed(own, scopedModules, o, i);
      MemRemap(old(t), capMap, own, c);
      MemAdd(old(t), capMap[i := c], own, o, c);
      FlagKept(old(t), o, c);
      capMap := capMap[i := c];
      own := own[o := i];
    }

    /** `ClaimCapability`. The code does not check that the reference is live, that the
        module does not own it under another name, or that the name is free; exactly these
        keep the structures in agreement. */
    method ClaimCapability(moduleName: Bytes, cap: Option<Capability>, name: Bytes) returns (r: Result<()>)
      requires Valid() && moduleName in scopedModules
      requires cap.Some? ==> Genuine(cap.value)
      modifies this`owners, this`mem, this`t, this`own
      ensures r == Err(NilCapability) <==> cap.None?
      ensures r == Err(InvalidName) <==> cap.Some? && Blank(name)
      ensures r == Err(OwnerClaimed) <==>
                && cap.Some? && !Blank(name)
                && cap.value.index in old(owners)
                && CO.HasKey(old(owners)[cap.value.index], CO.Key(Owner(moduleName, name)))
      ensures r.Err? ==>
                && r.error in {NilCapability, InvalidName, OwnerClaimed}
                && Valid() && own == old(own) && owners == old(owners) && mem == old(mem)
      ensures r.Ok? ==> Claimed(old(owners), old(t), Owner(moduleName, name), cap.value)
      ensures r.Ok? ==> mem == AddBytes(old(mem), Owner(moduleName, name), cap.value)
      ensures r.Ok? ==> own == old(own)[Owner(moduleName, name) := cap.value.index]
      ensures r.Ok? ==>
                (Valid() <==> old(Live(cap.value)) && MayAdd(old(own), Owner(moduleName, name), cap.value.index))
      ensures r.Ok? && old(Live(cap.value)) ==> owners.Keys == old(owners).Keys
    {
      hide Render, Uint64ToBigEndian, Image, MemAgree, PersistAgree, CO.Sorted, CO.Key, AddKeys, AddBytes, MayAdd, WellNamed, Added;
      hide MemSafe;
      var o := Owner(moduleName, name);
      if cap.None? {
        return Err(NilCapability);
      }
      if Blank(name) {
        return Err(InvalidName);
      }
      var c := cap.value;
      var ok := AddOwner(o, c.index);
      if !ok {
        return Err(OwnerClaimed);
      }
      UnusedKey(old(owners), c.index, o);
      WriteOwner(o, c);
      FlagKept(old(t), o, c);
      ClaimIff(index, old(owners), old(t), capMap, own, o, c, owners[c.index]);
      MoreWellNamed(own, scopedModules, o, c.index);
      own := own[o := c.index];
      return Ok(());
    }

    /** The two stores are those of before with `o` added at `c`. */
    ghost predicate Claimed(before: map<U64, seq<Owner>>, t0: Mem, o: Owner, c: Capability)
      reads this
    {
      && c.index in owners && owners == before[c.index := owners[c.index]] && Added(before, c.index, o, owners[c.index])
      && Image(mem, t, scopedModules) && t == AddKeys(t0, o, c)
    }

    /** `ReleaseCapability`: the module stops being an owner; the last one out removes the
        capability from the map. */
    method ReleaseCapability(moduleName: Bytes, cap: Option<Capability>) returns (r: Result<()>)
      requires Valid() && moduleName in scopedModules
      requires cap.Some? ==> Genuine(cap.value)
      modifies this`owners, this`mem, this`capMap, this`t, this`own
      ensures Valid()
      ensures r == Err(NilCapability) <==> cap.None?
      ensures r.Err? ==> own == old(own) && capMap == old(capMap) && r.error in {NilCapability, NotOwned}
      ensures r == Err(NotOwned) ==>
                forall n :: Owner(moduleName, n) in own ==> capMap[own[Owner(moduleName, n)]] != cap.value
      ensures r.Ok? ==>
                exists n ::
                  && Owner(moduleName, n) in old(own)
                  && old(own)[Owner(moduleName, n)] == cap.value.index
                  && old(capMap)[cap.value.index] == cap.value
                  && own == old(own) - {Owner(moduleName, n)}
                  && mem == DropBytes(old(mem), Owner(moduleName, n), cap.value)
      ensures r.Ok? ==>
                capMap == if cap.value.index in owners then old(capMap) else old(capMap) - {cap.value.index}
      ensures old(Exact()) ==> Exact()
    {
      hide Render, Uint64ToBigEndian, Image, MemAgree, PersistAgree, WellNamed, MemSafe, Blank, DropBytes;
      if cap.None? {
        return Err(NilCapability);
      }
      var c := cap.value;
      var name := GetCapabilityName(moduleName, c);
      if |name| == 0 {
        NoEmptyName(own, scopedModules, moduleName);
        return Err(NotOwned);
      }
      var o := Owner(moduleName, name);
      OwnedIsListed(index, owners, t, capMap, own, o);
      ReleaseNamed(o, c);
      return Ok(());
    }

    /** The two deletions of `ReleaseCapability` in the memory store. */
    method ReleaseKeys(o: Owner, c: Capability)
      modifies this`mem, this`t
      ensures mem == DropBytes(old(mem), o, c) && t == DropKeys(old(t), o, c)
      ensures Initialized in t <==> Initialized in old(t)
      ensures MemSafe(scopedModules) && old(Image(mem, t, scopedModules)) && o.moduleName in scopedModules
              ==> Image(mem, t, scopedModules)
    {
      hide MemSafe, Image;
      if MemSafe(scopedModules) && Image(mem, t, scopedModules) && o.moduleName in scopedModules {
        DropImage(mem, t, scopedModules, o, c);
      }
      mem := mem - {FwdCapabilityKey(o.moduleName, c.addr)};
      mem := mem - {RevCapabilityKey(o.moduleName, o.name)};
      t := DropKeys(t, o, c);
    }

    /** The writes of `ReleaseCapability` once the name is known. */
    method ReleaseNamed(o: Owner, c: Capability)
      requires Valid() && o in own && own[o] == c.index && c.index in capMap && capMap[c.index] == c
      modifies this`owners, this`mem, this`capMap, this`t, this`own
      ensures Valid()
      ensures own == old(own) - {o} && mem == DropBytes(old(mem), o, c)
      ensures capMap == if c.index in owners then old(capMap) else old(capMap) - {c.index}
      ensures old(Exact()) ==> Exact()
    {
      hide Image, MemAgree, PersistAgree, WellNamed, MemSafe, OneNameEach, DropBytes, DropKeys;
      OwnedIsNamed(own, scopedModules, o);
      OneNameOf(index, owners, own);
      OwnedIsListed(index, owners, t, capMap, own, o);
      ReleaseKeys(o, c);
      MemRemove(old(t), capMap, own, o);
      ReleaseOwner(o, c.index);
      FewerWellNamed(own, scopedModules, o);
      ghost var own' := own - {o};
      if c.index !in owners {
        MemUnmap(t, capMap, own', c.index);
        capMap := capMap - {c.index};
      }
      own := own';
    }

    /** The owner list part of `ReleaseCapability`. */
    method ReleaseOwner(o: Owner, i: U64)
      requires Persistent() && o in own && own[o] == i
      modifies this`owners
      ensures PersistAgree(index, owners, own - {o})
      ensures forall j :: j != i ==> (j in owners <==> j in old(owners))
      ensures i !in owners ==> forall p :: p in own - {o} ==> own[p] != i
    {
      hide CO.Key, CO.HasKey, CO.Sorted;
      var list := GetOwnersOf(i);
      var k :| 0 <= k < |list.owners| && list.owners[k] == o;
      CO.KeyMarksOne(list.owners, k);
      CO.MemberHasKey(list.owners, o);
      list.Remove(o);
      assert Removed(owners, i, o, list.owners);
      PersistRemove(index, owners, own, o, list.owners);
      if |list.owners| == 0 {
        owners := owners - {i};
      } else {
        owners := owners[i := list.owners];
      }
    }

    // -------------------------------------------------------------------------
    // Restart
    // -------------------------------------------------------------------------

    /** The list can be loaded at index `i` next to what is loaded already. */
    ghost predicate CanLoad(loaded: Ownership, i: U64, list: seq<Owner>)
      reads this
    {
      && ModulesOk(scopedModules) && Image(mem, t, scopedModules) && MemAgree(t, capMap, loaded)
      && (forall o :: o in loaded ==> loaded[o] != i)
      && Loadable(loaded, list, scopedModules)
    }

    /** `InitializeCapability`: one new reference and the keys of every owner, whatever the
        list; agreement grows by a list whose owners are new and of different modules. */
    method InitializeCapability(i: U64, list: seq<Owner>, ghost loaded: Ownership) returns (c: Capability)
      modifies this`mem, this`t, this`capMap
      ensures c.index == i && forall j :: j in old(capMap) ==> old(capMap)[j].addr != c.addr
      ensures mem == AddAllBytes(old(mem), list, c)
      ensures capMap == if list == [] then old(capMap) else old(capMap)[i := c]
      ensures Initialized in t <==> Initialized in old(t)
      ensures old(CanLoad(loaded, i, list)) ==>
                Image(mem, t, scopedModules) && MemAgree(t, capMap, With(loaded, list, i))
    {
      hide Render, Uint64ToBigEndian, Image, MemAgree, AddKeys, AddBytes, With, MemSafe, Loadable;
      ghost var can := CanLoad(loaded, i, list);
      c := Allocate(i);
      ghost var mapped := capMap[i := c];
      if can {
        MemRemap(t, capMap, loaded, c);
        WithNone(loaded, list, i);
      }
      AddAllNone(mem, list, c);
      for k := 0 to |list|
        invariant capMap == if k == 0 then old(capMap) else mapped
        invariant mem == AddAllBytes(old(mem), list[..k], c)
        invariant k == 0 ==> t == old(t)
        invariant can ==> Image(mem, t, scopedModules) && MemAgree(t, mapped, With(loaded, list[..k], i))
        invariant Initialized in t <==> Initialized in old(t)
      {
        var o := list[k];
        ghost var before := t;
        AddAllStep(old(mem), list, k, c);
        WriteOwner(o, c);
        FlagKept(before, o, c);
        if can {
          NextMayAdd(loaded, list, scopedModules, i, k);
          MemAdd(before, mapped, With(loaded, list[..k], i), o, c);
          WithStep(loaded, list, k, i);
        }
        capMap := capMap[i := c];
      }
      assert list[..|list|] == list;
    }

    /** `InitMemStore`: nothing when the flag is set; otherwise every stored capability gets
        a reference and the keys of its owners. */
    method InitMemStore()
      requires Initialized in t ==> Valid()
      requires Initialized !in t ==> mem == map[] && t == map[] && capMap == map[]
      modifies this`mem, this`t, this`capMap
      ensures Persistent() ==> Valid()
      ensures Initialized in old(t) ==> mem == old(mem) && capMap == old(capMap)
      ensures Initialized !in old(t) && Persistent() ==> Exact()
    {
      hide Render, Image, MemAgree, PersistAgree, WellNamed, MemSafe;
      if Initialized in t {
        FlagLookup(mem, t, scopedModules);
      }
      FlagRendered();
      if MEM_INITIALIZED !in mem {
        LoadAll();
        if Persistent() {
          FlagIgnored(t, capMap, own, [1]);
        }
        SetMem(Initialized, MEM_INITIALIZED, [1]);
      }
    }

    /** Exactly the given indices are loaded. */
    ghost predicate Loaded(done: set<U64>)
      reads this
    {
      Image(mem, t, scopedModules) && MemAgree(t, capMap, At(own, done)) && capMap.Keys == done
    }

    /** The loop of `InitMemStore`. Indices may be visited in any order. */
    method LoadAll()
      requires mem == map[] && t == map[] && capMap == map[]
      modifies this`mem, this`t, this`capMap
      ensures Initialized !in t
      ensures Persistent() ==>
                Image(mem, t, scopedModules) && MemAgree(t, capMap, own) && capMap.Keys == owners.Keys
    {
      hide Image, MemAgree, PersistAgree, WellNamed, MemSafe, At;
      var rest := owners.Keys;
      ghost var done := {};
      EmptyAgrees();
      EmptyImage(scopedModules);
      AtNone(own);
      while rest != {}
        invariant done !! rest && done + rest == owners.Keys
        invariant Initialized !in t
        invariant Persistent() ==> Loaded(done)
        decreases |rest|
      {
        var i :| i in rest;
        LoadOne(i, done);
        rest, done := rest - {i}, done + {i};
      }
      assert done == owners.Keys;
      if Persistent() {
        AtAll(index, owners, own);
      }
    }

    method LoadOne(i: U64, ghost done: set<U64>)
      requires i in owners && i !in done && (Persistent() ==> Loaded(done))
      modifies this`mem, this`t, this`capMap
      ensures Initialized in t <==> Initialized in old(t)
      ensures Persistent() ==> Loaded(done + {i})
    {
      hide Image, MemAgree, PersistAgree, WellNamed, MemSafe, Loadable, At, With, AddAllBytes;
      if Persistent() {
        ListedIsLoadable(index, owners, own, scopedModules, done, i);
        AtOneMore(index, owners, own, done, i);
      }
      var _ := InitializeCapability(i, owners[i], At(own, done));
    }
  }
}
