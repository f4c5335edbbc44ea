/** What happens to a capability keeper over its life: restarts, transactions that fail,
    whole runs, and export to and import from genesis. */
module CapabilityRuns {
  import opened ByteStrings
  import opened CapabilityTypes
  import opened CapabilityState
  import opened CapabilityKeeper
  import CO = CapabilityOwners

  // ---------------------------------------------------------------------------
  // Restart
  // ---------------------------------------------------------------------------

  /** A restart loses the memory store and the Go map; `InitMemStore` rebuilds both. Every
      name stands for the same index and the same owner list as before, and the map holds
      exactly the owned indices. */
  method Restart(k: Keeper)
    requires k.Valid()
    modifies k
    ensures k.Valid() && k.Exact()
    ensures k.own == old(k.own) && k.owners == old(k.owners) && k.index == old(k.index)
    ensures k.scopedModules == old(k.scopedModules)
  {
    hide MemAgree, PersistAgree, WellNamed, MemSafe, Image;
    k.mem, k.capMap, k.t := map[], map[], map[];
    k.InitMemStore();
  }

  /** Across a restart a lookup finds the same modules for the same names, and the new
      reference it returns authenticates. */
  method LookupSurvivesRestart(k: Keeper, moduleName: Bytes, name: Bytes)
    returns (before: Result<(seq<Bytes>, Capability)>, after: Result<(seq<Bytes>, Capability)>, authentic: bool)
    requires k.Valid() && moduleName in k.scopedModules
    modifies k
    ensures before.Err? ==> after == before
    ensures before.Ok? ==> after.Ok? && after.value.0 == before.value.0
    ensures before.Ok? ==> after.value.1.index == before.value.1.index && authentic
  {
    hide Image, MemAgree, PersistAgree, WellNamed, Blank;
    before := k.LookupModules(moduleName, name);
    if before.Ok? {
      OwnedIsListed(k.index, k.owners, k.t, k.capMap, k.own, Owner(moduleName, name));
    }
    Restart(k);
    after := k.LookupModules(moduleName, name);
    authentic := false;
    if after.Ok? {
      OwnedIsListed(k.index, k.owners, k.t, k.capMap, k.own, Owner(moduleName, name));
      authentic := k.AuthenticateCapability(moduleName, Some(after.value.1), name);
    }
  }

  // ---------------------------------------------------------------------------
  // Transactions
  // ---------------------------------------------------------------------------

  /** The claim is one the keeper's callers may make: a live reference, a free name, and no
      other name of the module for it (or exactly this owner again). */
  ghost predicate MayClaim(k: Keeper, moduleName: Bytes, c: Capability, name: Bytes)
    reads k
  {
    var o := Owner(moduleName, name);
    k.Live(c) && (MayAdd(k.own, o, c.index) || (o in k.own && k.own[o] == c.index))
  }

  /** The assumption on claims, decided from the stores. */
  method CheckClaim(k: Keeper, moduleName: Bytes, c: Capability, name: Bytes) returns (ok: bool)
    requires k.Valid() && moduleName in k.scopedModules
    ensures ok <==> MayClaim(k, moduleName, c, name)
  {
    hide Render, Image, Uint64ToBigEndian, CO.Sorted;
    if c.index !in k.owners || c.index !in k.capMap || k.capMap[c.index] != c {
      return false;
    }
    var o := Owner(moduleName, name);
    RevLookup(k.mem, k.t, k.scopedModules, moduleName, name);
    FwdLookup(k.mem, k.t, k.scopedModules, moduleName, c.addr);
    OwnsByReference(k.t, k.capMap, k.own, moduleName, c);
    var free := RevCapabilityKey(moduleName, name) !in k.mem && FwdCapabilityKey(moduleName, c.addr) !in k.mem;
    return free || o in k.owners[c.index];
  }

  lemma OwnsByReference(t: Mem, capMap: map<U64, Capability>, own: Ownership, m: Bytes, c: Capability)
    requires MemAgree(t, capMap, own) && c.index in capMap && capMap[c.index] == c
    ensures Fwd(m, c.addr) in t <==> exists p :: p in own && p.moduleName == m && own[p] == c.index
  {
    hide Uint64ToBigEndian;
    if Fwd(m, c.addr) in t {
      var p :| p in own && p.moduleName == m && own[p] in capMap && capMap[own[p]].addr == c.addr;
      assert own[p] == c.index;
    }
  }

  /** The operation creates a capability. */
  ghost predicate Creates(own: Ownership, modules: set<Bytes>, index: U64, op: Op) {
    && op.New? && op.moduleName in modules && !Blank(op.name)
    && Owner(op.moduleName, op.name) !in own && index < TWO_64 - 1
  }

  /** Some owner at the index has the key of `o`. */
  ghost predicate KeyTaken(own: Ownership, o: Owner, i: U64) {
    exists p :: p in own && own[p] == i && CO.Key(p) == CO.Key(o)
  }

  /** The ownership after an operation that creates nothing; `live` are the references of
      the indices that have owners. */
  ghost function AfterClaim(own: Ownership, modules: set<Bytes>, live: map<U64, Capability>, op: Op): Ownership {
    if op.Claim? && op.moduleName in modules && !Blank(op.name)
      && op.cap.index in live && live[op.cap.index] == op.cap
      && MayAdd(own, Owner(op.moduleName, op.name), op.cap.index)
      && !KeyTaken(own, Owner(op.moduleName, op.name), op.cap.index)
    then own[Owner(op.moduleName, op.name) := op.cap.index]
    else own
  }

  /** Some operation of the transaction creates a capability: its name is owned neither
      before the transaction nor through a claim earlier in it. */
  ghost predicate Allocates(
    own: Ownership, modules: set<Bytes>, index: U64, live: map<U64, Capability>, ops: seq<Op>)
    decreases ops
  {
    ops != [] &&
    (Creates(own, modules, index, ops[0])
     || Allocates(AfterClaim(own, modules, live, ops[0]), modules, index, live, ops[1..]))
  }

  /** The references of the indices that have owners. */
  ghost function LiveMap(owners: map<U64, seq<Owner>>, capMap: map<U64, Capability>): map<U64, Capability> {
    map i | i in capMap && i in owners :: capMap[i]
  }

  /** One operation of a transaction; operations outside the callers' assumptions are not
      part of any run. References of allocated indices stay in the map. */
  method Apply(k: Keeper, op: Op)
    requires k.Valid()
    modifies k
    ensures k.Valid() && k.scopedModules == old(k.scopedModules)
    ensures k.index >= old(k.index) && old(k.capMap).Keys <= k.capMap.Keys
    ensures forall i :: i in k.capMap && i < old(k.index) ==> i in old(k.capMap) && k.capMap[i] == old(k.capMap)[i]
    ensures old(k.Exact()) ==> k.Exact()
    ensures Creates(old(k.own), k.scopedModules, old(k.index), op) ==>
              k.index > old(k.index) && old(k.index) in k.capMap
    ensures !Creates(old(k.own), k.scopedModules, old(k.index), op) ==>
              && k.index == old(k.index) && k.capMap == old(k.capMap) && k.owners.Keys == old(k.owners).Keys
              && k.own == AfterClaim(old(k.own), k.scopedModules, old(LiveMap(k.owners, k.capMap)), op)
  {
    hide Image, MemAgree, PersistAgree, WellNamed, MemSafe, MayAdd, Blank, KeyTaken, CO.Key, CO.HasKey;
    if op.moduleName !in k.scopedModules {
      return;
    }
    match op
    case New(m, n) =>
      if k.index < TWO_64 - 1 {
        var _ := k.NewCapability(m, n);
      }
    case Claim(m, c, n) =>
      var ok := CheckClaim(k, m, c, n);
      if ok {
        MapIsOk(k.t, k.capMap, k.own);
        ClaimedOnce(k.index, k.owners, k.own, c.index, Owner(m, n));
        var _ := k.ClaimCapability(m, Some(c), n);
      }
  }

  lemma ClaimedOnce(index: U64, owners: map<U64, seq<Owner>>, own: Ownership, i: U64, o: Owner)
    requires PersistAgree(index, owners, own) && i in owners
    ensures CO.HasKey(owners[i], CO.Key(o)) <==> KeyTaken(own, o, i)
    ensures o in own && own[o] == i ==> CO.HasKey(owners[i], CO.Key(o))
  {
    hide CO.Key, CO.Sorted;
    if CO.HasKey(owners[i], CO.Key(o)) {
      var k :| 0 <= k < |owners[i]| && CO.Key(owners[i][k]) == CO.Key(o);
      var p := owners[i][k];
      assert p in owners[i] && own[p] == i;
    }
    if KeyTaken(own, o, i) {
      var p :| p in own && own[p] == i && CO.Key(p) == CO.Key(o);
      CO.MemberHasKey(owners[i], p);
    }
  }

  lemma MapIsOk(t: Mem, capMap: map<U64, Capability>, own: Ownership)
    requires MemAgree(t, capMap, own)
    ensures CapMapOk(capMap)
  {
  }

  /** A transaction that began at counter `index` with this map has `rest` still to do: until
      it creates something, counter and map are as they were. */
  ghost predicate Midway(
    k: Keeper, index: U64, capMap: map<U64, Capability>, live: map<U64, Capability>, allocates: bool, rest: seq<Op>)
    reads k
  {
    && index <= k.index && capMap.Keys <= k.capMap.Keys
    && (forall i :: i in k.capMap && i < index ==> i in capMap && k.capMap[i] == capMap[i])
    && (k.index > index ==> index in k.capMap && allocates)
    && (k.index == index ==>
          && k.capMap == capMap && LiveMap(k.owners, k.capMap) == live
          && (allocates <==> Allocates(k.own, k.scopedModules, index, live, rest)))
  }

  method ApplyNext(
    k: Keeper, op: Op, ghost index: U64, ghost capMap: map<U64, Capability>, ghost live: map<U64, Capability>,
    ghost allocates: bool, ghost rest: seq<Op>)
    requires k.Valid() && rest != [] && rest[0] == op && Midway(k, index, capMap, live, allocates, rest)
    modifies k
    ensures k.Valid() && k.scopedModules == old(k.scopedModules)
    ensures Midway(k, index, capMap, live, allocates, rest[1..])
  {
    hide Image, MemAgree, PersistAgree, WellNamed, CapMapOk, AfterClaim, Creates, MemSafe;
    Apply(k, op);
  }

  method ApplyAll(k: Keeper, ops: seq<Op>)
    requires k.Valid()
    modifies k
    ensures k.Valid() && k.scopedModules == old(k.scopedModules)
    ensures Midway(k, old(k.index), old(k.capMap), old(LiveMap(k.owners, k.capMap)),
                   Allocates(old(k.own), k.scopedModules, old(k.index), old(LiveMap(k.owners, k.capMap)), ops), [])
  {
    hide Image, MemAgree, PersistAgree, WellNamed, MemSafe, LiveMap, Allocates;
    ghost var index, capMap, live := k.index, k.capMap, LiveMap(k.owners, k.capMap);
    ghost var allocates := Allocates(k.own, k.scopedModules, index, live, ops);
    assert ops[0..] == ops;
    for j := 0 to |ops|
      invariant k.Valid() && k.scopedModules == old(k.scopedModules)
      invariant Midway(k, index, capMap, live, allocates, ops[j..])
    {
      assert ops[j..][0] == ops[j] && ops[j..][1..] == ops[j + 1..];
      ApplyNext(k, ops[j], index, capMap, live, allocates, ops[j..]);
    }
    assert ops[|ops|..] == [];
  }

  /** A transaction that fails: both stores go back, the Go map does not. Everything owned
      before is owned after, under the same references, and the structures agree again; the
      map is still exact unless the transaction created a capability. */
  method FailedTransaction(k: Keeper, ops: seq<Op>)
    requires k.Valid()
    modifies k
    ensures k.Valid() && k.scopedModules == old(k.scopedModules)
    ensures k.own == old(k.own) && k.index == old(k.index) && k.owners == old(k.owners) && k.mem == old(k.mem)
    ensures forall o :: o in k.own ==> k.own[o] in k.capMap && k.own[o] in old(k.capMap)
    ensures forall o :: o in k.own ==> k.capMap[k.own[o]] == old(k.capMap)[k.own[o]]
    ensures Allocates(k.own, k.scopedModules, k.index, old(LiveMap(k.owners, k.capMap)), ops) ==> k.index in k.capMap
    ensures k.Exact() <==>
              old(k.Exact()) && !Allocates(k.own, k.scopedModules, k.index, old(LiveMap(k.owners, k.capMap)), ops)
  {
    hide Image, MemAgree, PersistAgree, WellNamed, CapMapOk, AfterClaim, Creates, MemSafe;
    hide LiveMap;
    var index, owners, mem := k.index, k.owners, k.mem;
    ghost var t, own, capMap := k.t, k.own, k.capMap;
    ExactIff(k);
    ApplyAll(k, ops);
    MapIsOk(k.t, k.capMap, k.own);
    RollbackKeepsAgreement(index, owners, t, capMap, own, k.capMap);
    OwnedAreMapped(t, capMap, own);
    OwnedAreMapped(t, k.capMap, own);
    k.index, k.owners, k.mem := index, owners, mem;
    k.t, k.own := t, own;
    ExactIff(k);
  }

  /** In every valid state the map holds exactly the owned indices if and only if it holds
      nothing at or above the counter. */
  lemma ExactIff(k: Keeper)
    requires k.Valid()
    ensures k.Exact() <==> forall i :: i in k.capMap ==> i < k.index
  {
    hide Image, MemAgree, WellNamed, PersistAgree, MemSafe;
    forall i | i in k.owners ensures i in k.capMap && i < k.index {
      ListedIsBelow(k.index, k.owners, k.own, i);
      ListedIsMapped(k.index, k.owners, k.t, k.capMap, k.own, i);
    }
  }

  lemma ListedIsMapped(
    index: U64, owners: map<U64, seq<Owner>>, t: Mem, capMap: map<U64, Capability>, own: Ownership, i: U64)
    requires PersistAgree(index, owners, own) && MemAgree(t, capMap, own) && i in owners
    ensures i in capMap
  {
    hide CO.Sorted, Uint64ToBigEndian;
    var first := owners[i][0];
    assert first in owners[i] && first in own && own[first] == i;
  }

  /** A module creates its first capability in a transaction that fails: the map is no
      longer exact. */
  method FailedCreationIsLeftover() returns (k: Keeper)
    ensures k.Valid() && !k.Exact() && k.own == map[] && 1 in k.capMap
  {
    hide Image, MemAgree, PersistAgree, AfterClaim;
    var m: Bytes := [109];
    assert 109 in m && !Blank(m);
    k := new Keeper({m});
    var _ := InitGenesis(k, GenesisState(1, []));
    assert Creates(k.own, k.scopedModules, k.index, New(m, m));
    FailedTransaction(k, [New(m, m)]);
  }

  lemma OwnedAreMapped(t: Mem, capMap: map<U64, Capability>, own: Ownership)
    requires MemAgree(t, capMap, own)
    ensures forall o :: o in own ==> own[o] in capMap
  {
  }

  /** After a failed transaction every committed capability is returned as the same
      reference and still authenticates, whoever asks. */
  method CommittedSurvivesFailure(k: Keeper, ops: seq<Op>, moduleName: Bytes, name: Bytes)
    returns (before: Option<Capability>, after: Option<Capability>, authentic: bool)
    requires k.Valid() && moduleName in k.scopedModules
    modifies k
    ensures after == before && (before.Some? <==> Owner(moduleName, name) in old(k.own))
    ensures before.Some? ==> authentic
    ensures k.Valid()
  {
    hide Image, MemAgree, PersistAgree, WellNamed;
    before := k.GetCapability(moduleName, name);
    FailedTransaction(k, ops);
    after := k.GetCapability(moduleName, name);
    authentic := k.AuthenticateCapability(moduleName, before, name);
  }

  // ---------------------------------------------------------------------------
  // Runs
  // ---------------------------------------------------------------------------

  /** Over every run of committed operations, releases, failed transactions and restarts the
      structures agree. The map holds the owned indices and, at or above the counter, what
      failed transactions left; it holds exactly the owned ones if and only if nothing is
      left there, as after every run without failures. */
  method Run(k: Keeper, events: seq<Event>)
    requires k.Valid()
    modifies k
    ensures k.Valid() && k.scopedModules == old(k.scopedModules) && k.index >= old(k.index)
    ensures k.OnlyLeftovers()
    ensures k.Exact() <==> forall i :: i in k.capMap ==> i < k.index
    ensures old(k.Exact()) && (forall e :: e in events ==> !e.Failed?) ==> k.Exact()
  {
    hide Image, MemAgree, PersistAgree, WellNamed, MemSafe, AfterClaim, Creates, Allocates;
    ghost var clean := k.Exact() && forall e :: e in events ==> !e.Failed?;
    for j := 0 to |events|
      invariant k.Valid() && k.scopedModules == old(k.scopedModules) && k.index >= old(k.index)
      invariant clean ==> k.Exact()
    {
      assert events[j] in events;
      match events[j]
      case Committed(op) => Apply(k, op);
      case Released(m, c) =>
        if m in k.scopedModules {
          var genuine := CheckGenuine(k, c);
          if genuine {
            var _ := k.ReleaseCapability(m, Some(c));
          }
        }
      case Failed(ops) => FailedTransaction(k, ops);
      case Restarted => Restart(k);
    }
    ExactIff(k);
  }

  /** Go's typing: no reference stands at the address of a different object. */
  method CheckGenuine(k: Keeper, c: Capability) returns (ok: bool)
    ensures ok <==> k.Genuine(c)
  {
    ok := forall i | i in k.capMap.Keys :: k.capMap[i].addr == c.addr ==> k.capMap[i] == c;
  }

  // ---------------------------------------------------------------------------
  // Genesis
  // ---------------------------------------------------------------------------

  datatype GenesisOwners = GenesisOwners(index: U64, owners: seq<Owner>)
  datatype GenesisState = GenesisState(index: U64, owners: seq<GenesisOwners>)

  /** `GenesisState.Validate` returns no error. */
  predicate Validate(g: GenesisState) {
    && g.index != 0
    && forall j :: 0 <= j < |g.owners| ==> ValidateOwners(g.index, g.owners[j])
  }

  predicate ValidateOwners(index: U64, x: GenesisOwners) {
    && |x.owners| != 0
    && x.index != 0 && x.index < index
    && forall i :: 0 <= i < |x.owners| ==> !Blank(x.owners[i].moduleName) && !Blank(x.owners[i].name)
  }

  /** The store after `SetOwners` for each element. */
  function OwnersMap(gs: seq<GenesisOwners>): map<U64, seq<Owner>> {
    if gs == [] then map[] else OwnersMap(gs[..|gs| - 1])[gs[|gs| - 1].index := gs[|gs| - 1].owners]
  }

  lemma OwnersMapAppend(gs: seq<GenesisOwners>, x: GenesisOwners)
    ensures OwnersMap(gs + [x]) == OwnersMap(gs)[x.index := x.owners]
  {
    assert (gs + [x])[..|gs|] == gs;
  }

  lemma OwnersMapEmpty()
    ensures OwnersMap([]) == map[]
  {
  }

  function Below(owners: map<U64, seq<Owner>>, i: int): map<U64, seq<Owner>> {
    map j | j in owners && j < i :: owners[j]
  }

  lemma BelowNext(owners: map<U64, seq<Owner>>, i: U64)
    ensures Below(owners, i + 1) == if i in owners then Below(owners, i)[i := owners[i]] else Below(owners, i)
  {
  }

  lemma BelowAll(index: U64, owners: map<U64, seq<Owner>>, own: Ownership)
    requires PersistAgree(index, owners, own)
    ensures Below(owners, index) == owners && Below(owners, 1) == map[]
  {
    hide PersistAgree;
    forall i | i in owners ensures 0 < i < index {
      ListedIsBelow(index, owners, own, i);
    }
  }

  lemma ListedValidates(index: U64, owners: map<U64, seq<Owner>>, own: Ownership, modules: set<Bytes>, i: U64)
    requires PersistAgree(index, owners, own) && WellNamed(own, modules) && i in owners
    ensures ValidateOwners(index, GenesisOwners(i, owners[i]))
  {
    ListedIsBelow(index, owners, own, i);
    hide CO.Sorted, Blank;
    forall j | 0 <= j < |owners[i]| ensures !Blank(owners[i][j].moduleName) && !Blank(owners[i][j].name) {
      assert owners[i][j] in owners[i];
    }
  }

  /** `ExportGenesis`: the counter and every owner list, by ascending index, in a form that
      passes validation. */
  method ExportGenesis(k: Keeper) returns (g: GenesisState)
    requires k.Valid()
    ensures g.index == k.index && OwnersMap(g.owners) == k.owners
    ensures forall i, j :: 0 <= i < j < |g.owners| ==> g.owners[i].index < g.owners[j].index
    ensures Validate(g)
  {
    hide Image, MemAgree, PersistAgree, WellNamed, Below, ValidateOwners, OwnersMap;
    BelowAll(k.index, k.owners, k.own);
    var list: seq<GenesisOwners> := [];
    OwnersMapEmpty();
    for i := 1 to k.index
      invariant OwnersMap(list) == Below(k.owners, i)
      invariant forall a, b :: 0 <= a < b < |list| ==> list[a].index < list[b].index
      invariant forall a :: 0 <= a < |list| ==> list[a].index < i && ValidateOwners(k.index, list[a])
    {
      BelowNext(k.owners, i);
      if i !in k.owners || |k.owners[i]| == 0 {
        if i in k.owners {
          ListIsNotEmpty(k.index, k.owners, k.own, i);
          assert false;
        }
        continue;
      }
      ListedValidates(k.index, k.owners, k.own, k.scopedModules, i);
      OwnersMapAppend(list, GenesisOwners(i, k.owners[i]));
      list := list + [GenesisOwners(i, k.owners[i])];
    }
    g := GenesisState(k.index, list);
  }

  /** The owner lists are such as the keeper stores: sorted, not empty, below the counter,
      with no module twice in a list and no owner in two lists. */
  ghost predicate Consistent(index: U64, owners: map<U64, seq<Owner>>) {
    && (forall i :: i in owners ==>
          0 < i < index && owners[i] != [] && CO.Sorted(owners[i]) && OneEach(owners[i]))
    && (forall i, j, o :: i in owners && j in owners && o in owners[i] && o in owners[j] ==> i == j)
  }

  ghost predicate OneEach(list: seq<Owner>) {
    forall o, p :: o in list && p in list && o.moduleName == p.moduleName ==> o == p
  }

  ghost function Listed(owners: map<U64, seq<Owner>>): set<Owner> {
    set i, o | i in owners && o in owners[i] :: o
  }

  ghost function IndexOf(owners: map<U64, seq<Owner>>, o: Owner): U64
    requires o in Listed(owners)
  {
    var i :| i in owners && o in owners[i];
    i
  }

  ghost function OwnershipOf(owners: map<U64, seq<Owner>>): Ownership {
    map o | o in Listed(owners) :: IndexOf(owners, o)
  }

  /** Lists can agree with an ownership exactly when they are consistent, and then with one. */
  lemma ConsistentIff(index: U64, owners: map<U64, seq<Owner>>)
    ensures (exists own :: PersistAgree(index, owners, own)) <==> Consistent(index, owners)
    ensures Consistent(index, owners) ==> PersistAgree(index, owners, OwnershipOf(owners))
    ensures forall own :: PersistAgree(index, owners, own) ==> own == OwnershipOf(owners)
  {
    hide CO.Sorted, Consistent, PersistAgree, OwnershipOf;
    if Consistent(index, owners) {
      ConsistentAgrees(index, owners);
    }
    forall own | PersistAgree(index, owners, own)
      ensures Consistent(index, owners) && own == OwnershipOf(owners)
    {
      AgreeingIsConsistent(index, owners, own);
      AgreeingIsUnique(index, owners, own);
    }
  }

  lemma ConsistentAgrees(index: U64, owners: map<U64, seq<Owner>>)
    requires Consistent(index, owners)
    ensures PersistAgree(index, owners, OwnershipOf(owners))
  {
    hide CO.Sorted;
    var own := OwnershipOf(owners);
    forall i, o | i in owners && o in owners[i] ensures o in own && own[o] == i {
      assert o in Listed(owners);
    }
  }

  lemma AgreeingIsUnique(index: U64, owners: map<U64, seq<Owner>>, own: Ownership)
    requires PersistAgree(index, owners, own)
    ensures own == OwnershipOf(owners)
  {
    hide CO.Sorted;
    forall o | o in own ensures o in Listed(owners) {
      assert own[o] in owners && o in owners[own[o]];
    }
  }

  lemma AgreeingIsConsistent(index: U64, owners: map<U64, seq<Owner>>, own: Ownership)
    requires PersistAgree(index, owners, own)
    ensures Consistent(index, owners)
  {
    hide CO.Sorted;
    forall i | i in owners ensures 0 < i < index && OneEach(owners[i]) {
      ListedIsBelow(index, owners, own, i);
      forall o, p | o in owners[i] && p in owners[i] && o.moduleName == p.moduleName ensures o == p {
        assert own[o] == own[p];
      }
    }
    forall i, j, o | i in owners && j in owners && o in owners[i] && o in owners[j] ensures i == j {
      assert own[o] == i;
    }
  }

  /** The owners are of known modules and named. */
  ghost predicate OwnersNamed(owners: map<U64, seq<Owner>>, modules: set<Bytes>) {
    forall i, o :: i in owners && o in owners[i] ==>
      o.moduleName in modules && !Blank(o.moduleName) && !Blank(o.name)
  }

  /** `InitGenesis` on an empty keeper; a zero counter is a panic in Go. Any other state is
      loaded, and the structures then agree exactly when its owner lists are consistent and
      name known modules. */
  method InitGenesis(k: Keeper, g: GenesisState) returns (ok: bool)
    requires k.Blankslate()
    modifies k
    ensures ok <==> g.index != 0
    ensures ok ==> k.index == g.index && k.owners == OwnersMap(g.owners) && k.own == OwnershipOf(k.owners)
    ensures ok ==> (k.Valid() <==> Consistent(k.index, k.owners) && OwnersNamed(k.owners, k.scopedModules))
    ensures ok && k.Valid() ==> k.Exact()
    ensures !ok ==> k.Blankslate()
    ensures k.scopedModules == old(k.scopedModules)
  {
    hide MemAgree, PersistAgree, WellNamed, ModulesOk, Consistent, OwnershipOf, OwnersNamed, Image;
    if g.index == 0 {
      return false;
    }
    k.index := g.index;
    for j := 0 to |g.owners|
      invariant k.owners == OwnersMap(g.owners[..j])
      invariant k.index == g.index && k.mem == map[] && k.capMap == map[] && k.t == map[]
      invariant k.scopedModules == old(k.scopedModules) && ModulesOk(k.scopedModules)
    {
      assert g.owners[..j + 1][..j] == g.owners[..j];
      k.owners := k.owners[g.owners[j].index := g.owners[j].owners];
    }
    assert g.owners[..|g.owners|] == g.owners;
    ConsistentIff(k.index, k.owners);
    if Consistent(k.index, k.owners) {
      NamedOwnership(k.index, k.owners, k.scopedModules);
    }
    k.own := OwnershipOf(k.owners);
    k.InitMemStore();
    return true;
  }

  ghost predicate IndicesDiffer(gs: seq<GenesisOwners>) {
    forall i, j :: 0 <= i < j < |gs| ==> gs[i].index != gs[j].index
  }

  /** What `Validate` leaves to check: sorted lists, no module twice in a list, no owner in
      two lists, and known modules. */
  ghost predicate Tidy(owners: map<U64, seq<Owner>>, modules: set<Bytes>) {
    && (forall i :: i in owners ==> CO.Sorted(owners[i]) && OneEach(owners[i]))
    && (forall i, j, o :: i in owners && j in owners && o in owners[i] && o in owners[j] ==> i == j)
    && (forall i, o :: i in owners && o in owners[i] ==> o.moduleName in modules)
  }

  lemma {:induction false} OwnersMapHolds(gs: seq<GenesisOwners>)
    requires IndicesDiffer(gs)
    ensures forall j :: 0 <= j < |gs| ==> gs[j].index in OwnersMap(gs) && OwnersMap(gs)[gs[j].index] == gs[j].owners
    ensures forall i :: i in OwnersMap(gs) ==> exists j :: 0 <= j < |gs| && gs[j].index == i
  {
    if gs != [] {
      var front := gs[..|gs| - 1];
      OwnersMapHolds(front);
      forall i | i in OwnersMap(gs) ensures exists j :: 0 <= j < |gs| && gs[j].index == i {
        if i != gs[|gs| - 1].index {
          assert i in OwnersMap(front);
          var j :| 0 <= j < |front| && front[j].index == i;
          assert gs[j].index == i;
        } else {
          assert gs[|gs| - 1].index == i;
        }
      }
    }
  }

  /** For a genesis state with one list for each index, passing `Validate` and being tidy is
      exactly what a loadable state needs. */
  lemma ValidateIff(g: GenesisState, modules: set<Bytes>)
    requires IndicesDiffer(g.owners) && ModulesOk(modules)
    ensures Validate(g) && Tidy(OwnersMap(g.owners), modules)
       <==> g.index != 0 && Consistent(g.index, OwnersMap(g.owners)) && OwnersNamed(OwnersMap(g.owners), modules)
  {
    hide OwnersMap, CO.Sorted, Blank, MemSafe, OneEach;
    OwnersMapHolds(g.owners);
    var owners := OwnersMap(g.owners);
    if Validate(g) && Tidy(owners, modules) {
      forall i | i in owners
        ensures 0 < i < g.index && owners[i] != [] && forall o :: o in owners[i] ==> !Blank(o.moduleName) && !Blank(o.name)
      {
        var j :| 0 <= j < |g.owners| && g.owners[j].index == i;
        assert ValidateOwners(g.index, g.owners[j]);
      }
    }
    if Consistent(g.index, owners) && OwnersNamed(owners, modules) {
      forall j | 0 <= j < |g.owners| ensures ValidateOwners(g.index, g.owners[j]) {
        var x := g.owners[j];
        assert x.index in owners && owners[x.index] == x.owners;
        forall k | 0 <= k < |x.owners| ensures !Blank(x.owners[k].moduleName) && !Blank(x.owners[k].name) {
          assert x.owners[k] in x.owners;
        }
      }
    }
  }

  /** Validation does not see that a module is listed twice for one capability. */
  lemma ValidateAcceptsInconsistent()
    ensures var g := GenesisState(2, [GenesisOwners(1, [Owner([109], [97]), Owner([109], [98])])]);
            Validate(g) && !Consistent(g.index, OwnersMap(g.owners))
  {
    var a, b := Owner([109], [97]), Owner([109], [98]);
    var g := GenesisState(2, [GenesisOwners(1, [a, b])]);
    assert a.moduleName[0] == 109 && a.name[0] == 97 && b.name[0] == 98;
    assert 109 in a.moduleName && 97 in a.name && 98 in b.name;
    var owners := OwnersMap(g.owners);
    OwnersMapEmpty();
    assert g.owners[..0] == [];
    assert owners[1] == [a, b];
    assert a in owners[1] && b in owners[1] && a != b by {
      assert [a, b][0] == a && [a, b][1] == b && a.name != b.name;
    }
  }

  lemma NamedOwnership(index: U64, owners: map<U64, seq<Owner>>, modules: set<Bytes>)
    requires PersistAgree(index, owners, OwnershipOf(owners))
    ensures OwnersNamed(owners, modules) <==> WellNamed(OwnershipOf(owners), modules)
  {
    hide CO.Sorted, OwnershipOf;
  }

  /** Exporting a keeper and importing into an empty one reproduces the counter, every owner
      list and every name-to-index lookup. */
  method GenesisRoundTrip(k: Keeper) returns (g: GenesisState, copy: Keeper)
    requires k.Valid()
    ensures Validate(g)
    ensures fresh(copy) && copy.Valid() && copy.Exact()
    ensures copy.own == k.own && copy.index == k.index && copy.owners == k.owners
  {
    hide Image, MemAgree, PersistAgree, WellNamed, OwnersMap, Validate, Consistent, OwnershipOf, MemSafe;
    g := ExportGenesis(k);
    copy := new Keeper(k.scopedModules);
    ExportedIndex(g);
    ConsistentIff(k.index, k.owners);
    NamedOwnership(k.index, k.owners, k.scopedModules);
    var _ := InitGenesis(copy, g);
  }

  /** A capability of module `n` is claimed by a module `m` whose name followed by a separator
      begins `n`: the claim is refused as a repetition although `m` owns nothing. */
  method StrangerIsRefused(m: Bytes, n: Bytes) returns (k: Keeper, r: Result<()>)
    requires m + [SLASH] <= n && ModulesOk({m, n})
    ensures k.Valid() && k.own == map[Owner(n, [120]) := 1]
    ensures r == Err(OwnerClaimed)
  {
    hide Image, MemAgree, PersistAgree, MemSafe, WellNamed, AddBytes;
    k := new Keeper({m, n});
    EmptyIsConsistent(k.scopedModules);
    var _ := InitGenesis(k, GenesisState(1, []));
    ghost var a, b := CO.SharedKey(m, n);
    var c := k.NewCapability(n, [120]);
    var o := Owner(m, n[|m| + 1..] + [SLASH, 120]);
    MapIsOk(k.t, k.capMap, k.own);
    ClaimedOnce(k.index, k.owners, k.own, 1, o) by {
      OwnedIsListed(k.index, k.owners, k.t, k.capMap, k.own, b);
    }
    r := k.ClaimCapability(m, Some(c.value), o.name);
  }

  lemma EmptyIsConsistent(modules: set<Bytes>)
    ensures OwnersMap([]) == map[] && Consistent(1, map[]) && OwnersNamed(map[], modules)
    ensures OwnershipOf(map[]) == map[]
  {
  }

  lemma ExportedIndex(g: GenesisState)
    requires Validate(g)
    ensures g.index != 0
  {
  }
}
