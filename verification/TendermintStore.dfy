/** The Tendermint client store as an object: every operation that writes it, proved to do
    to the byte store what `TendermintClient` does to the client. */
module TendermintStore {
  import opened ByteStrings
  import opened Heights
  import opened HostPaths
  import opened StoreIteration
  import opened TendermintKeys
  import opened TendermintView
  import C = TendermintClient

  /** The inputs of `VerifyUpgradeAndUpdateState`: the flags are the answers of the type
      assertions, of proof decoding, of the two Merkle proofs and of `Validate`. */
  datatype Upgrade = Upgrade(
    client: C.ClientState,
    consensus: C.ConsensusState,
    typesMatch: bool,
    proofsDecode: bool,
    clientProven: bool,
    consensusProven: bool,
    validates: bool)

  datatype UpgradeResult = Upgraded | NoUpgradePath | HeightNotGreater | WrongType | BadProof | NoConsensusState | ProofFailed | Invalid

  datatype SubstituteResult = Substituted | NoMatch | NoLatestState | MetadataMissing

  /** What can happen to a client store; a substitute is another client's store and state. */
  datatype Event =
    | Deliver(step: C.Step)
    | UpgradeTo(ctx: C.Context, upgrade: Upgrade)
    | Substitute(ctx: C.Context, kv: KV, client: C.ClientState)
    | PruneExpired(ctx: C.Context)

  const SENTINEL_ROOT := Ascii("sentinel_root")

  /** The client state written by a successful upgrade: chain parameters of the upgraded
      client, client parameters of the current one. */
  function UpgradedState(cs: C.ClientState, u: C.ClientState): C.ClientState {
    C.ClientState(u.chainId, cs.trustLevel, cs.trustingPeriod, u.unbondingPeriod, cs.maxClockDrift,
                  u.latestHeight, C.ZERO_HEIGHT, u.proofSpecs, u.upgradePath, false, false)
  }

  function ZeroedForMatch(cs: C.ClientState): C.ClientState {
    cs.(latestHeight := C.ZERO_HEIGHT, frozenHeight := C.ZERO_HEIGHT, trustingPeriod := 0, chainId := [],
        allowUpdateAfterExpiry := true, allowUpdateAfterMisbehaviour := true)
  }

  /** `IsMatchingClientState`. */
  predicate IsMatching(subject: C.ClientState, substitute: C.ClientState) {
    ZeroedForMatch(subject) == ZeroedForMatch(substitute)
  }

  /** The client state written by a successful substitution. */
  function SubstitutedState(subject: C.ClientState, substitute: C.ClientState): C.ClientState {
    subject.(frozenHeight := C.ZERO_HEIGHT, latestHeight := substitute.latestHeight,
             chainId := substitute.chainId, trustingPeriod := substitute.trustingPeriod)
  }

  /** `ZeroCustomFields`: the fields a chain commits to when it plans an upgrade. */
  function ZeroCustomFields(cs: C.ClientState): C.ClientState {
    C.ClientState(cs.chainId, (0, 0), 0, cs.unbondingPeriod, 0, cs.latestHeight, C.ZERO_HEIGHT,
                  cs.proofSpecs, cs.upgradePath, false, false)
  }

  /** The client state written by an upgrade has exactly the committed fields that the proof
      is about, is not frozen, and keeps what the current client had chosen. */
  lemma UpgradeKeepsCommittedFields(cs: C.ClientState, u: C.ClientState)
    ensures ZeroCustomFields(UpgradedState(cs, u)) == ZeroCustomFields(u)
    ensures var n := UpgradedState(cs, u);
            && n.trustLevel == cs.trustLevel && n.trustingPeriod == cs.trustingPeriod
            && n.maxClockDrift == cs.maxClockDrift && IsZero(n.frozenHeight)
  {
  }

  /** A matching subject adopts every parameter of the substitute and is unfrozen; only the
      two deprecated flags stay its own. */
  lemma SubstitutionAdoptsParameters(subject: C.ClientState, substitute: C.ClientState)
    requires IsMatching(subject, substitute)
    ensures SubstitutedState(subject, substitute)
         == substitute.(frozenHeight := C.ZERO_HEIGHT,
                        allowUpdateAfterExpiry := subject.allowUpdateAfterExpiry,
                        allowUpdateAfterMisbehaviour := subject.allowUpdateAfterMisbehaviour)
  {
    var a, b := ZeroedForMatch(subject), ZeroedForMatch(substitute);
    assert a.trustLevel == b.trustLevel && a.unbondingPeriod == b.unbondingPeriod
        && a.maxClockDrift == b.maxClockDrift && a.proofSpecs == b.proofSpecs && a.upgradePath == b.upgradePath;
  }

  /** All checks of `VerifyUpgradeAndUpdateState` pass. */
  predicate UpgradeAllowed(c: C.Client, cs: C.ClientState, u: Upgrade) {
    && cs.upgradePath != [] && Lt(cs.latestHeight, u.client.latestHeight) && cs.latestHeight in c.entries
    && u.typesMatch && u.proofsDecode && u.clientProven && u.consensusProven && u.validates
  }

  /** The client with one more entry, at the upgraded height, that no proof can use. */
  function AfterUpgrade(c: C.Client, cs: C.ClientState, ctx: C.Context, u: Upgrade): C.Client {
    C.Insert(c.(state := Some(UpgradedState(cs, u.client))), ctx, u.client.latestHeight,
             u.consensus.(root := SENTINEL_ROOT))
  }

  /** The substitute matches and its store holds its latest state with metadata. */
  predicate SubstitutionAllowed(cs: C.ClientState, other: KV, substitute: C.ClientState) {
    && IsMatching(cs, substitute)
    && GetConsensusState(other, substitute.latestHeight).Some?
    && GetProcessedHeight(other, substitute.latestHeight).Some?
    && GetProcessedTime(other, substitute.latestHeight).Some?
  }

  /** The client with the substitute's latest entry and parameters. */
  function AfterSubstitution(c: C.Client, cs: C.ClientState, other: KV, substitute: C.ClientState): C.Client
    requires SubstitutionAllowed(cs, other, substitute)
  {
    var h := substitute.latestHeight;
    var e := C.Entry(GetConsensusState(other, h).value, GetProcessedTime(other, h).value,
                     GetProcessedHeight(other, h).value);
    C.Client(Some(SubstitutedState(cs, substitute)), c.entries[h := e])
  }

  /** The client after an event. */
  ghost function After(c: C.Client, e: Event): C.Client {
    if c.state.None? then c
    else
      var cs := c.state.value;
      match e
      case Deliver(step) => C.UpdateGiven(c, step.ctx, step.msg, C.NearConflict(c, step.msg))
      case UpgradeTo(ctx, u) => if UpgradeAllowed(c, cs, u) then AfterUpgrade(c, cs, ctx, u) else c
      case Substitute(_, other, substitute) =>
        if SubstitutionAllowed(cs, other, substitute) then AfterSubstitution(c, cs, other, substitute) else c
      case PruneExpired(ctx) => C.PruneAll(c, cs, ctx.blockTime)
  }

  ghost function AfterAll(c: C.Client, events: seq<Event>): C.Client {
    if events == [] then c else After(AfterAll(c, events[..|events| - 1]), events[|events| - 1])
  }

  /** The state written by an upgrade can carry no proof: its root is the sentinel, whatever
      the upgrade brings, and the rest is what the two proofs were about. */
  lemma UpgradeWritesSentinel(c: C.Client, cs: C.ClientState, ctx: C.Context, u: Upgrade)
    ensures var d := AfterUpgrade(c, cs, ctx, u);
            var h := u.client.latestHeight;
            && h in d.entries && d.entries[h].consensus.root == Ascii("sentinel_root")
            && d.entries[h].consensus.timestamp == u.consensus.timestamp
            && d.entries[h].consensus.nextValidatorsHash == u.consensus.nextValidatorsHash
            && d.entries[h].processedTime == ctx.blockTime % TWO_64 && d.entries[h].processedHeight == ctx.selfHeight
            && (forall x :: x != h ==> (x in d.entries <==> x in c.entries))
            && (forall x :: x != h && x in c.entries ==> d.entries[x] == c.entries[x])
            && d.state.Some? && d.state.value.latestHeight == h
  {
  }

  /** A substitute matches exactly when it has the subject's security parameters. */
  lemma MatchesIff(subject: C.ClientState, substitute: C.ClientState)
    ensures IsMatching(subject, substitute)
       <==> && subject.trustLevel == substitute.trustLevel && subject.unbondingPeriod == substitute.unbondingPeriod
            && subject.maxClockDrift == substitute.maxClockDrift && subject.proofSpecs == substitute.proofSpecs
            && subject.upgradePath == substitute.upgradePath
  {
    var a, b := ZeroedForMatch(subject), ZeroedForMatch(substitute);
    assert a == b <==> a.trustLevel == b.trustLevel && a.unbondingPeriod == b.unbondingPeriod
                       && a.maxClockDrift == b.maxClockDrift && a.proofSpecs == b.proofSpecs && a.upgradePath == b.upgradePath;
  }

  /** The event at `i` wrote the entry at `h`: a trusted header, a proven upgrade, or the
      latest entry of a matching substitute. */
  ghost predicate WrittenBy(c: C.Client, events: seq<Event>, i: int, h: Height, entry: C.Entry) {
    && 0 <= i < |events|
    && var at := AfterAll(c, events[..i]);
    && at.state.Some?
    && match events[i]
       case Deliver(step) =>
         && step.msg.Update? && step.msg.header.height == h
         && C.Vouched(at, step.ctx, step.msg.header) && C.Records(entry.consensus, step.msg.header)
       case UpgradeTo(_, u) =>
         && u.client.latestHeight == h && u.clientProven && u.consensusProven && u.typesMatch && u.proofsDecode
         && u.validates && at.state.value.upgradePath != []
         && at.state.value.latestHeight in at.entries && Lt(at.state.value.latestHeight, h)
         && entry.consensus == u.consensus.(root := Ascii("sentinel_root"))
       case Substitute(_, other, substitute) =>
         && substitute.latestHeight == h && IsMatching(at.state.value, substitute)
         && GetConsensusState(other, h) == Some(entry.consensus)
         && GetProcessedTime(other, h) == Some(entry.processedTime)
         && GetProcessedHeight(other, h) == Some(entry.processedHeight)
       case PruneExpired(_) => false
  }

  lemma WrittenLater(c: C.Client, events: seq<Event>, more: seq<Event>, i: int, h: Height, entry: C.Entry)
    requires events <= more && WrittenBy(c, events, i, h, entry)
    ensures WrittenBy(c, more, i, h, entry)
  {
    hide AfterAll, GetConsensusState, GetProcessedTime, GetProcessedHeight;
    assert events[..i] == more[..i];
  }

  /** One event leaves an entry alone or writes it in one of the three ways. */
  lemma OneEventWrites(c: C.Client, events: seq<Event>, e: Event, h: Height)
    requires h in After(AfterAll(c, events), e).entries
    ensures var at, d := AfterAll(c, events), After(AfterAll(c, events), e);
            || (h in at.entries && d.entries[h] == at.entries[h])
            || WrittenBy(c, events + [e], |events|, h, d.entries[h])
  {
    hide AfterAll, GetConsensusState, GetProcessedTime, GetProcessedHeight;
    assert (events + [e])[..|events|] == events;
    var at := AfterAll(c, events);
    if at.state.Some? && e.Deliver? && e.step.msg.Update? {
      C.TrustedIffVouched(at, e.step.ctx, e.step.msg.header);
    }
  }

  /** Over every run of events, each entry is one of the start or was written by an event
      entitled to it. */
  lemma {:induction false} EntryProvenance(c: C.Client, events: seq<Event>, h: Height)
    requires h in AfterAll(c, events).entries
    ensures var entry := AfterAll(c, events).entries[h];
            (h in c.entries && c.entries[h] == entry) || exists i :: WrittenBy(c, events, i, h, entry)
    decreases |events|
  {
    hide After, WrittenBy;
    if events != [] {
      var front, e := events[..|events| - 1], events[|events| - 1];
      assert events == front + [e];
      OneEventWrites(c, front, e, h);
      var entry := AfterAll(c, events).entries[h];
      if h in AfterAll(c, front).entries && AfterAll(c, front).entries[h] == entry {
        EntryProvenance(c, front, h);
        if exists i :: WrittenBy(c, front, i, h, entry) {
          var i :| WrittenBy(c, front, i, h, entry);
          WrittenLater(c, front, events, i, h, entry);
        }
      }
    }
  }

  /** What an event writes without comparing times is in order with all other states. */
  ghost predicate InTimeOrder(c: C.Client, e: Event) {
    c.state.Some? ==>
      match e
      case Deliver(_) => true
      case UpgradeTo(ctx, u) =>
        UpgradeAllowed(c, c.state.value, u) ==>
          var h := u.client.latestHeight; C.NoConflict(c.entries - {h}, h, u.consensus)
      case Substitute(_, other, substitute) =>
        SubstitutionAllowed(c.state.value, other, substitute) ==>
          var h := substitute.latestHeight; C.NoConflict(c.entries - {h}, h, GetConsensusState(other, h).value)
      case PruneExpired(_) => true
  }

  ghost predicate AllInTimeOrder(c: C.Client, events: seq<Event>) {
    forall i :: 0 <= i < |events| ==> InTimeOrder(AfterAll(c, events[..i]), events[i])
  }

  /** Messages and prunings keep time monotone; an upgrade or a substitution does exactly when
      the state it writes is in order with all states at other heights. */
  lemma EventMonotoneIff(kv: KV, c: C.Client, e: Event)
    requires Agrees(kv, c) && C.Monotone(c.entries)
    ensures C.Monotone(After(c, e).entries) <==> InTimeOrder(c, e)
  {
    hide Image, Contents, GetConsensusState, GetProcessedHeight, GetProcessedTime;
    if c.state.Some? {
      var cs := c.state.value;
      match e
      case Deliver(step) =>
        ChecksAgree(kv, c, step.msg);
        C.UpdateKeepsMonotone(c, step.ctx, step.msg);
      case UpgradeTo(ctx, u) =>
        if UpgradeAllowed(c, cs, u) {
          var h := u.client.latestHeight;
          var c' := AfterUpgrade(c, cs, ctx, u);
          C.WriteMonotoneIff(c.entries, h, c'.entries[h]);
        }
      case Substitute(_, other, substitute) =>
        if SubstitutionAllowed(cs, other, substitute) {
          var h := substitute.latestHeight;
          C.WriteMonotoneIff(c.entries, h, AfterSubstitution(c, cs, other, substitute).entries[h]);
        }
      case PruneExpired(_) =>
    }
  }

  lemma ChecksAgree(kv: KV, c: C.Client, m: C.Message)
    requires Agrees(kv, c)
    ensures m.Update? ==> (CheckForMisbehaviour(kv, m) <==> C.NearConflict(c, m))
    ensures m.Update? && C.Monotone(c.entries) ==> (CheckForMisbehaviour(kv, m) <==> C.AnyConflict(c, m))
    ensures m.Misbehaviour? ==> (CheckForMisbehaviour(kv, m) <==> C.IsMisbehaviour(m))
  {
    hide Image, Contents;
    if m.Update? {
      CheckReadsNeighbours(kv, c, m.header);
      if C.Monotone(c.entries) {
        NeighbourCheckIsWholeStoreCheck(kv, c, m.header);
      }
    }
  }

  // ---------------------------------------------------------------------------
  // Contents under the client's operations
  // ---------------------------------------------------------------------------

  function WithMetadata(t: Typed, h: Height, processedHeight: Height, processedTime: U64): Typed {
    t[TimeKey(h) := Raw(Uint64ToBigEndian(processedTime))]
     [HeightKey(h) := Raw(Text(processedHeight))]
     [IterKey(h) := Raw(ConsensusStatePath(h))]
  }

  lemma ContentsInsert(c: C.Client, h: Height, e: C.Entry)
    ensures Contents(c.(entries := c.entries[h := e]))
         == WithMetadata(Contents(c)[ConsensusKey(h) := ConsensusValue(e.consensus)], h, e.processedHeight, e.processedTime)
  {
    hide Contents;
  }

  lemma ContentsRemove(c: C.Client, h: Height)
    ensures Contents(C.Remove(c, h))
         == Contents(c) - {ConsensusKey(h)} - {TimeKey(h)} - {HeightKey(h)} - {IterKey(h)}
  {
    hide Contents;
    var left := Contents(C.Remove(c, h));
    var right := Contents(c) - {ConsensusKey(h)} - {TimeKey(h)} - {HeightKey(h)} - {IterKey(h)};
    forall k: Key ensures k in left <==> k in right {
    }
    forall k | k in left ensures left[k] == right[k] {
      assert Present(c, k);
    }
  }

  lemma ContentsState(c: C.Client, cs: C.ClientState)
    ensures Contents(c.(state := Some(cs))) == Contents(c)[ClientKey := ClientValue(cs)]
  {
    hide Contents;
  }

  /** An index key is the iteration key of one stored height. */
  lemma IndexNamesStored(kv: KV, c: C.Client, b: Bytes)
    requires Agrees(kv, c) && b in kv && HasPrefix(b, ITERATE)
    ensures |b| == |ITERATE| + 16
    ensures GetHeightFromIterationKey(b) in c.entries
    ensures IterationKey(GetHeightFromIterationKey(b)) == b
  {
    var h := IndexKeyIsStored(kv, c, b);
    IterationKeyRoundTrip(h);
  }

  lemma StoredIsRead(kv: KV, c: C.Client, h: Height)
    requires Agrees(kv, c) && h in c.entries
    ensures GetConsensusState(kv, h) == Some(c.entries[h].consensus)
  {
    ReadsAgree(kv, c, h);
  }

  predicate Ascending(hs: seq<Height>) {
    forall i, j :: 0 <= i < j < |hs| ==> Lt(hs[i], hs[j])
  }

  /** Sorted index keys name ascending heights. */
  lemma SortedKeysAscend(keys: seq<Bytes>, hs: seq<Height>)
    requires |keys| == |hs| && StrictlySorted(keys)
    requires forall i :: 0 <= i < |hs| ==> keys[i] == IterationKey(hs[i])
    ensures Ascending(hs)
  {
    forall i, j | 0 <= i < j < |hs| ensures Lt(hs[i], hs[j]) {
      IterationKeyOrder(hs[i], hs[j]);
      assert Less(keys[i], keys[j]);
    }
  }

  lemma IndexIsReadable(kv: KV, c: C.Client, keys: seq<Bytes>)
    requires Agrees(kv, c) && forall k :: k in keys <==> k in kv && HasPrefix(k, ITERATE)
    ensures forall i :: 0 <= i < |keys| ==> |keys[i]| == |ITERATE| + 16
  {
    forall i | 0 <= i < |keys| ensures |keys[i]| == |ITERATE| + 16 {
      assert keys[i] in keys;
      IndexNamesStored(kv, c, keys[i]);
    }
  }

  /** The loop of `IterateConsensusStateAscending` over the keys of its iterator: it ends
      after the first height at which the callback returns true. */
  method HeightsOfKeys(keys: seq<Bytes>, stop: Height -> bool) returns (hs: seq<Height>)
    requires forall i :: 0 <= i < |keys| ==> |keys[i]| == |ITERATE| + 16
    ensures |hs| <= |keys| && forall i :: 0 <= i < |hs| ==> hs[i] == GetHeightFromIterationKey(keys[i])
    ensures forall i :: 0 <= i < |hs| - 1 ==> !stop(hs[i])
    ensures |hs| < |keys| ==> hs != [] && stop(hs[|hs| - 1])
  {
    hs := [];
    for i := 0 to |keys|
      invariant |hs| == i && forall j :: 0 <= j < i ==> hs[j] == GetHeightFromIterationKey(keys[j])
      invariant forall j :: 0 <= j < i ==> !stop(hs[j])
    {
      hs := hs + [GetHeightFromIterationKey(keys[i])];
      if stop(hs[i]) {
        return;
      }
    }
  }

  ghost function IndexHeights(keys: seq<Bytes>): (hs: seq<Height>)
    requires forall i :: 0 <= i < |keys| ==> |keys[i]| == |ITERATE| + 16
    ensures |hs| == |keys| && forall i :: 0 <= i < |keys| ==> hs[i] == GetHeightFromIterationKey(keys[i])
  {
    seq(|keys|, i requires 0 <= i < |keys| => GetHeightFromIterationKey(keys[i]))
  }

  /** `hs` are the members of `s` in ascending order up to the first that stops. */
  predicate VisitedUntil(hs: seq<Height>, s: set<Height>, stop: Height -> bool) {
    && Ascending(hs)
    && (forall h :: h in hs ==> h in s)
    && (forall i :: 0 <= i < |hs| - 1 ==> !stop(hs[i]))
    && (forall h :: h in s && h !in hs ==> hs != [] && stop(hs[|hs| - 1]) && Lt(hs[|hs| - 1], h))
  }

  lemma PrefixIsVisited(all: seq<Height>, n: nat, s: set<Height>, stop: Height -> bool)
    requires Ascending(all) && (forall h :: h in all <==> h in s) && n <= |all|
    requires forall i :: 0 <= i < n - 1 ==> !stop(all[i])
    requires n < |all| ==> n > 0 && stop(all[n - 1])
    ensures VisitedUntil(all[..n], s, stop)
  {
    forall h | h in s && h !in all[..n] ensures n > 0 && stop(all[n - 1]) && Lt(all[n - 1], h) {
      assert h in all;
      var j :| 0 <= j < |all| && all[j] == h;
      assert j < n ==> all[..n][j] == h;
    }
  }

  lemma IndexListsStored(keys: seq<Bytes>, hs: seq<Height>, h: Height)
    requires IterationKey(h) in keys
    requires |keys| == |hs| && forall i :: 0 <= i < |hs| ==> keys[i] == IterationKey(hs[i])
    ensures h in hs
  {
    var k := IterationKey(h);
    var i :| 0 <= i < |keys| && keys[i] == k;
    IterationKeyOrder(h, hs[i]);
  }

  /** The heights named by the sorted index are the stored ones, ascending. */
  lemma IndexListsExactly(kv: KV, c: C.Client, keys: seq<Bytes>, hs: seq<Height>)
    requires Agrees(kv, c) && StrictlySorted(keys)
    requires forall k :: k in keys <==> k in kv && HasPrefix(k, ITERATE)
    requires forall i :: 0 <= i < |keys| ==> |keys[i]| == |ITERATE| + 16
    requires |hs| == |keys| && forall i :: 0 <= i < |keys| ==> hs[i] == GetHeightFromIterationKey(keys[i])
    ensures Ascending(hs)
    ensures forall h :: h in hs <==> h in c.entries
  {
    forall i | 0 <= i < |hs| ensures hs[i] in c.entries && keys[i] == IterationKey(hs[i]) {
      assert keys[i] in keys;
      IndexNamesStored(kv, c, keys[i]);
    }
    SortedKeysAscend(keys, hs);
    forall h | h in c.entries ensures h in hs {
      StoredIsIndexed(kv, c, h);
      IndexListsStored(keys, hs, h);
    }
  }

  /** Reading the sorted index up to the first stop visits the stored heights so far. */
  lemma IndexIsVisited(kv: KV, c: C.Client, keys: seq<Bytes>, hs: seq<Height>, stop: Height -> bool)
    requires Agrees(kv, c) && StrictlySorted(keys)
    requires forall k :: k in keys <==> k in kv && HasPrefix(k, ITERATE)
    requires forall i :: 0 <= i < |keys| ==> |keys[i]| == |ITERATE| + 16
    requires |hs| <= |keys| && forall i :: 0 <= i < |hs| ==> hs[i] == GetHeightFromIterationKey(keys[i])
    requires forall i :: 0 <= i < |hs| - 1 ==> !stop(hs[i])
    requires |hs| < |keys| ==> hs != [] && stop(hs[|hs| - 1])
    ensures VisitedUntil(hs, c.entries.Keys, stop)
  {
    hide VisitedUntil, GetHeightFromIterationKey, Image, Contents, Ascending, StrictlySorted;
    IndexListsExactly(kv, c, keys, IndexHeights(keys));
    assert hs == IndexHeights(keys)[..|hs|];
    PrefixIsVisited(IndexHeights(keys), |hs|, c.entries.Keys, stop);
  }

  lemma FirstIsLowest(s: set<Height>, hs: seq<Height>)
    requires VisitedUntil(hs, s, _ => true)
    ensures hs == [] <==> s == {}
    ensures hs != [] ==> hs[0] == Lowest(s)
  {
    assert hs != [] ==> hs[0] in hs;
    if s != {} {
      var low := Lowest(s);
      assert low in hs;
      var j :| 0 <= j < |hs| && hs[j] == low;
    }
  }

  class ClientStore {
    var kv: KV
    ghost var typed: Typed

    /** The bytes are the rendering of the typed entries. */
    ghost predicate Valid()
      reads this
    {
      Image(kv, typed)
    }

    /** The store holds exactly client `c`. */
    ghost predicate Holds(c: C.Client)
      reads this
    {
      Valid() && typed == Contents(c)
    }

    constructor ()
      ensures Holds(C.EMPTY) && kv == map[]
    {
      kv := map[];
      typed := map[];
    }

    // -------------------------------------------------------------------------
    // Setters and deleters
    // -------------------------------------------------------------------------

    method Set(ghost k: Key, key: Bytes, v: Value)
      requires Valid() && key == Render(k)
      modifies this
      ensures Valid() && typed == old(typed)[k := v] && kv == old(kv)[key := v]
    {
      ImageSet(kv, typed, k, v);
      kv := kv[key := v];
      typed := typed[k := v];
    }

    method Delete(ghost k: Key, key: Bytes)
      requires Valid() && key == Render(k)
      modifies this
      ensures Valid() && typed == old(typed) - {k} && kv == old(kv) - {key}
    {
      ImageDelete(kv, typed, k);
      kv := kv - {key};
      typed := typed - {k};
    }

    method SetClientState(cs: C.ClientState)
      requires Valid()
      modifies this
      ensures Valid() && typed == old(typed)[ClientKey := ClientValue(cs)]
    {
      Set(ClientKey, CLIENT_STATE, ClientValue(cs));
    }

    method SetConsensusState(cons: C.ConsensusState, h: Height)
      requires Valid()
      modifies this
      ensures Valid() && typed == old(typed)[ConsensusKey(h) := ConsensusValue(cons)]
      ensures kv == old(kv)[ConsensusStatePath(h) := ConsensusValue(cons)]
    {
      Set(ConsensusKey(h), ConsensusStatePath(h), ConsensusValue(cons));
    }

    /** `setConsensusMetadataWithValues`. */
    method SetConsensusMetadataWithValues(h: Height, processedHeight: Height, processedTime: U64)
      requires Valid()
      modifies this
      ensures Valid() && typed == WithMetadata(old(typed), h, processedHeight, processedTime)
    {
      hide Image, Contents;
      Set(TimeKey(h), ProcessedTimeKey(h), Raw(Uint64ToBigEndian(processedTime)));
      Set(HeightKey(h), ProcessedHeightKey(h), Raw(Text(processedHeight)));
      Set(IterKey(h), IterationKey(h), Raw(ConsensusStatePath(h)));
    }

    method SetConsensusMetadata(ctx: C.Context, h: Height)
      requires Valid()
      modifies this
      ensures Valid() && typed == WithMetadata(old(typed), h, ctx.selfHeight, C.UnixNano(ctx.blockTime))
    {
      SetConsensusMetadataWithValues(h, ctx.selfHeight, C.UnixNano(ctx.blockTime));
    }

    /** `deleteConsensusState` followed by `deleteConsensusMetadata`. */
    method DeleteConsensus(h: Height, ghost c: C.Client)
      requires Holds(c)
      modifies this
      ensures Holds(C.Remove(c, h))
    {
      hide Image, Contents;
      ContentsRemove(c, h);
      Delete(ConsensusKey(h), ConsensusStatePath(h));
      Delete(TimeKey(h), ProcessedTimeKey(h));
      Delete(HeightKey(h), ProcessedHeightKey(h));
      Delete(IterKey(h), IterationKey(h));
    }

    /** Writing a consensus state and its metadata inserts one entry. */
    method InsertConsensus(ctx: C.Context, cons: C.ConsensusState, h: Height, ghost c: C.Client)
      requires Holds(c)
      modifies this
      ensures Holds(C.Insert(c, ctx, h, cons))
    {
      ContentsInsert(c, h, C.Entry(cons, C.UnixNano(ctx.blockTime), ctx.selfHeight));
      SetConsensusState(cons, h);
      SetConsensusMetadata(ctx, h);
    }

    // -------------------------------------------------------------------------
    // Initialize and update
    // -------------------------------------------------------------------------

    method Initialize(ctx: C.Context, cs: C.ClientState, cons: C.ConsensusState, ghost c: C.Client)
      requires Holds(c)
      modifies this
      ensures Holds(C.Initialize(c, ctx, cs, cons))
    {
      ContentsState(c, cs);
      SetClientState(cs);
      InsertConsensus(ctx, cons, cs.latestHeight, c.(state := Some(cs)));
    }

    /** `IterateConsensusStateAscending`: the heights the callback is given, which are the
        stored ones in ascending order up to the first at which it asks to stop. */
    method IterateConsensusStateAscending(stop: Height -> bool, ghost c: C.Client) returns (hs: seq<Height>)
      requires Holds(c)
      ensures VisitedUntil(hs, c.entries.Keys, stop)
    {
      hide VisitedUntil, GetHeightFromIterationKey, Image, Contents, StrictlySorted;
      var keys := IterateKeys(kv, ITERATE);
      IndexIsReadable(kv, c, keys);
      hs := HeightsOfKeys(keys, stop);
      IndexIsVisited(kv, c, keys, hs, stop);
    }

    /** `pruneOldestConsensusState`; the "should never occur" panic is the dead branch. */
    method PruneOldestConsensusState(ctx: C.Context, cs: C.ClientState, ghost c: C.Client)
      requires Holds(c)
      modifies this
      ensures Holds(C.PruneOldest(c, cs, ctx.blockTime))
    {
      var hs := IterateConsensusStateAscending(_ => true, c);
      FirstIsLowest(c.entries.Keys, hs);
      var pruneHeight := None;
      if hs != [] {
        var h := hs[0];
        ReadsAgree(kv, c, h);
        var cons := GetConsensusState(kv, h);
        if cons.None? {
          assert false;
        } else if C.IsExpired(cs, cons.value.timestamp, ctx.blockTime) {
          pruneHeight := Some(h);
        }
      }
      if pruneHeight.Some? {
        DeleteConsensus(pruneHeight.value, c);
      }
    }

    /** `UpdateState`. */
    method UpdateState(ctx: C.Context, cs: C.ClientState, header: C.Header, ghost c: C.Client)
      requires Holds(c)
      modifies this
      ensures Holds(C.UpdateState(c, cs, ctx, header))
    {
      PruneOldestConsensusState(ctx, cs, c);
      ghost var pruned := C.PruneOldest(c, cs, ctx.blockTime);
      ReadsAgree(kv, pruned, header.height);
      var existing := GetConsensusState(kv, header.height);
      if existing.Some? {
        return;
      }
      var cs' := cs;
      if Lt(cs'.latestHeight, header.height) {
        cs' := cs'.(latestHeight := header.height);
      }
      ContentsState(pruned, cs');
      SetClientState(cs');
      InsertConsensus(ctx, C.HeaderConsensus(header), header.height, pruned.(state := Some(cs')));
    }

    /** `UpdateStateOnMisbehaviour`. */
    method UpdateStateOnMisbehaviour(cs: C.ClientState, ghost c: C.Client)
      requires Holds(c)
      modifies this
      ensures Holds(C.Freeze(c, cs))
    {
      ContentsState(c, cs.(frozenHeight := C.FROZEN_HEIGHT));
      SetClientState(cs.(frozenHeight := C.FROZEN_HEIGHT));
    }

    /** `Status`, read from the store. */
    method Status(cs: C.ClientState, now: int, ghost c: C.Client) returns (s: C.Status)
      requires Holds(c)
      ensures s == C.StatusOf(c, cs, now)
    {
      ReadsAgree(kv, c, cs.latestHeight);
      if !IsZero(cs.frozenHeight) {
        return C.Frozen;
      }
      var cons := GetConsensusState(kv, cs.latestHeight);
      if cons.None? || C.IsExpired(cs, cons.value.timestamp, now) {
        return C.Expired;
      }
      return C.Active;
    }

    /** `verifyHeader`, read from the store. */
    method VerifyHeader(h: C.Header, ghost c: C.Client) returns (ok: bool)
      requires Holds(c)
      ensures ok == C.VerifyHeader(c, h)
    {
      ReadsAgree(kv, c, h.trustedHeight);
      var cons := GetConsensusState(kv, h.trustedHeight);
      if cons.None? || h.trustedValidatorsHash != Some(cons.value.nextValidatorsHash) {
        return false;
      }
      if h.height.revision != h.trustedHeight.revision || Lte(h.height, h.trustedHeight) {
        return false;
      }
      return h.lightVerified;
    }

    /** `checkMisbehaviourHeader` with the read of the trusted state. */
    method CheckMisbehaviourHeader(cs: C.ClientState, x: C.Conflicting, now: int, ghost c: C.Client) returns (ok: bool)
      requires Holds(c)
      ensures ok == C.CheckMisbehaviourHeader(c, cs, x, now)
    {
      ReadsAgree(kv, c, x.header.trustedHeight);
      var cons := GetConsensusState(kv, x.header.trustedHeight);
      if cons.None? || x.header.trustedValidatorsHash != Some(cons.value.nextValidatorsHash) {
        return false;
      }
      if now - cons.value.timestamp >= cs.trustingPeriod {
        return false;
      }
      return x.trusted;
    }

    /** The 02-client keeper's `UpdateClient`: outcome and store follow from the state at the
        header's height and its two neighbours. With monotone time they are those of the
        machine that checks against every stored state. */
    method UpdateClient(ctx: C.Context, m: C.Message, ghost c: C.Client) returns (outcome: C.Outcome)
      requires Holds(c)
      modifies this
      ensures outcome == C.OutcomeGiven(c, ctx, m, C.NearConflict(c, m))
      ensures Holds(C.UpdateGiven(c, ctx, m, C.NearConflict(c, m)))
      ensures C.Monotone(c.entries) ==> outcome == C.OutcomeOf(c, ctx, m) && Holds(C.UpdateClient(c, ctx, m))
    {
      hide Image, Contents, C.UpdateState, GetConsensusState, C.NoConflict, C.NeighbourConflict, C.Monotone;
      hide CheckForMisbehaviour, C.IsMisbehaviour;
      ReadsAgree(kv, c, C.ZERO_HEIGHT);
      ChecksAgree(kv, c, m);
      var state := GetClientState(kv);
      if state.None? {
        return C.NotFound;
      }
      var cs := state.value;
      var status := Status(cs, ctx.blockTime, c);
      if status != C.Active {
        return C.NotActive;
      }
      var verified;
      match m {
        case Update(h) =>
          verified := VerifyHeader(h, c);
        case Misbehaviour(first, second) =>
          verified := CheckMisbehaviourHeader(cs, first, ctx.blockTime, c);
          if verified {
            verified := CheckMisbehaviourHeader(cs, second, ctx.blockTime, c);
          }
      }
      if !verified {
        return C.NotVerified;
      }
      if CheckForMisbehaviour(kv, m) {
        UpdateStateOnMisbehaviour(cs, c);
        return C.Froze;
      }
      if m.Misbehaviour? {
        return C.Panicked;
      }
      UpdateState(ctx, cs, m.header, c);
      return C.Updated;
    }

    /** A whole run on the byte store: after every sequence of messages the store holds the
        client machine's state, so all that is proved of runs holds of the bytes. */
    method RunMessages(ctx0: C.Context, cs: C.ClientState, cons: C.ConsensusState, steps: seq<C.Step>)
      requires Holds(C.EMPTY)
      modifies this
      ensures Holds(C.Run(ctx0, cs, cons, steps))
      ensures C.Monotone(C.Run(ctx0, cs, cons, steps).entries)
      ensures C.LatestIsGreatest(C.Run(ctx0, cs, cons, steps))
    {
      hide Image, Contents, C.UpdateClient, C.UpdateGiven, C.OutcomeGiven;
      Initialize(ctx0, cs, cons, C.EMPTY);
      for i := 0 to |steps|
        invariant Holds(C.Run(ctx0, cs, cons, steps[..i]))
      {
        C.RunInvariant(ctx0, cs, cons, steps[..i]);
        assert steps[..i + 1][..i] == steps[..i];
        var _ := UpdateClient(steps[i].ctx, steps[i].msg, C.Run(ctx0, cs, cons, steps[..i]));
      }
      assert steps[..|steps|] == steps;
      C.RunInvariant(ctx0, cs, cons, steps);
    }

    // -------------------------------------------------------------------------
    // Pruning everything
    // -------------------------------------------------------------------------

    /** The iteration of `PruneAllExpiredConsensusStates`: the expired heights, each once. */
    method CollectExpired(ctx: C.Context, cs: C.ClientState, ghost c: C.Client) returns (heights: seq<Height>)
      requires Holds(c)
      ensures (set h | h in heights) == C.ExpiredHeights(c, cs, ctx.blockTime)
      ensures |heights| == |C.ExpiredHeights(c, cs, ctx.blockTime)|
    {
      hide ExpiredAmong, Image, Contents, C.ExpiredHeights, GetConsensusState;
      var hs := IterateConsensusStateAscending(_ => false, c);
      assert forall i :: 0 <= i < |hs| ==> hs[i] in hs;
      heights := [];
      ExpiredAmongNone(c, cs, ctx.blockTime);
      for i := 0 to |hs|
        invariant heights == ExpiredAmong(c, cs, ctx.blockTime, hs[..i])
      {
        var h := hs[i];
        StoredIsRead(kv, c, h);
        ExpiredAmongStep(c, cs, ctx.blockTime, hs, i);
        var cons := GetConsensusState(kv, h);
        if cons.None? {
          assert false;
        }
        if C.IsExpired(cs, cons.value.timestamp, ctx.blockTime) {
          heights := heights + [h];
        }
      }
      assert hs[..|hs|] == hs;
      ExpiredAmongAll(c, cs, ctx.blockTime, hs);
    }

    /** `PruneAllExpiredConsensusStates`: deletes exactly the expired states with their
        metadata and returns their number. */
    method PruneAllExpiredConsensusStates(ctx: C.Context, cs: C.ClientState, ghost c: C.Client) returns (n: nat)
      requires Holds(c)
      modifies this
      ensures Holds(C.PruneAll(c, cs, ctx.blockTime))
      ensures n == |C.ExpiredHeights(c, cs, ctx.blockTime)|
    {
      var heights := CollectExpired(ctx, cs, c);
      for i := 0 to |heights|
        invariant Holds(RemoveAll(c, heights[..i]))
      {
        assert heights[..i + 1][..i] == heights[..i];
        DeleteConsensus(heights[i], RemoveAll(c, heights[..i]));
      }
      assert heights[..|heights|] == heights;
      RemoveAllIsDifference(c, heights);
      n := |heights|;
    }

    // -------------------------------------------------------------------------
    // Upgrade and substitution
    // -------------------------------------------------------------------------

    /** `VerifyUpgradeAndUpdateState`: success inserts one entry at the upgraded height,
        above everything the latest height bounds; every error leaves the store alone. */
    method VerifyUpgradeAndUpdateState(ctx: C.Context, cs: C.ClientState, u: Upgrade, ghost c: C.Client)
      returns (r: UpgradeResult)
      requires Holds(c)
      modifies this
      ensures r == Upgraded <==> UpgradeAllowed(c, cs, u)
      ensures r == Upgraded ==> Holds(AfterUpgrade(c, cs, ctx, u))
      ensures r != Upgraded ==> kv == old(kv) && Holds(c)
    {
      if cs.upgradePath == [] {
        return NoUpgradePath;
      }
      if !Lt(cs.latestHeight, u.client.latestHeight) {
        return HeightNotGreater;
      }
      if !u.typesMatch {
        return WrongType;
      }
      if !u.proofsDecode {
        return BadProof;
      }
      ReadsAgree(kv, c, cs.latestHeight);
      var cons := GetConsensusState(kv, cs.latestHeight);
      if cons.None? {
        return NoConsensusState;
      }
      if !u.clientProven || !u.consensusProven {
        return ProofFailed;
      }
      var newState := UpgradedState(cs, u.client);
      if !u.validates {
        return Invalid;
      }
      ContentsState(c, newState);
      SetClientState(newState);
      InsertConsensus(ctx, u.consensus.(root := SENTINEL_ROOT), newState.latestHeight, c.(state := Some(newState)));
      return Upgraded;
    }

    /** `CheckSubstituteAndUpdateState`: success copies the substitute's latest state with
        its metadata. The consensus state is written before the metadata is looked up, so a
        substitute without metadata leaves a state that no index entry names; a substitute
        store that holds a client never does. */
    method CheckSubstituteAndUpdateState(
      ctx: C.Context, cs: C.ClientState, substituteKv: KV, substitute: C.ClientState, ghost c: C.Client)
      returns (r: SubstituteResult)
      requires Holds(c)
      modifies this
      ensures r == NoMatch <==> !IsMatching(cs, substitute)
      ensures r == NoLatestState <==> IsMatching(cs, substitute) && GetConsensusState(substituteKv, substitute.latestHeight).None?
      ensures r == Substituted <==> SubstitutionAllowed(cs, substituteKv, substitute)
      ensures r == Substituted ==> Holds(AfterSubstitution(c, cs, substituteKv, substitute))
      ensures r == MetadataMissing ==>
                var h := substitute.latestHeight;
                kv == old(kv)[ConsensusStatePath(h) := ConsensusValue(GetConsensusState(substituteKv, h).value)]
      ensures r == NoMatch || r == NoLatestState ==> kv == old(kv) && Holds(c)
    {
      if !IsMatching(cs, substitute) {
        return NoMatch;
      }
      var cs' := cs;
      var status := Status(cs, ctx.blockTime, c);
      if status == C.Frozen {
        cs' := cs'.(frozenHeight := C.ZERO_HEIGHT);
      }
      var h := substitute.latestHeight;
      var cons := GetConsensusState(substituteKv, h);
      if cons.None? {
        return NoLatestState;
      }
      SetConsensusState(cons.value, h);
      var processedHeight := GetProcessedHeight(substituteKv, h);
      if processedHeight.None? {
        return MetadataMissing;
      }
      var processedTime := GetProcessedTime(substituteKv, h);
      if processedTime.None? {
        return MetadataMissing;
      }
      SetConsensusMetadataWithValues(h, processedHeight.value, processedTime.value);
      cs' := cs'.(latestHeight := substitute.latestHeight, chainId := substitute.chainId,
                  trustingPeriod := substitute.trustingPeriod);
      assert cs' == SubstitutedState(cs, substitute);
      ghost var inserted := c.(entries := c.entries[h := C.Entry(cons.value, processedTime.value, processedHeight.value)]);
      ContentsInsert(c, h, inserted.entries[h]);
      ContentsState(inserted, cs');
      SetClientState(cs');
      return Substituted;
    }

    /** Index agreement over every run of messages, upgrades, substitutions and prunings,
        from any agreeing store: all four kinds of entry keep the same heights, no step
        reaches the panic of `pruneOldestConsensusState`, and the client held is the one
        that the events lead to. Time stays monotone as long as upgrades and substitutions
        write in time order. */
    method RunEvents(events: seq<Event>, ghost c: C.Client)
      requires Holds(c)
      modifies this
      ensures Holds(AfterAll(c, events))
      ensures C.Monotone(c.entries) && AllInTimeOrder(c, events) ==> C.Monotone(AfterAll(c, events).entries)
    {
      hide Image, Contents, After, InTimeOrder, C.Monotone;
      assert events[..0] == [];
      for i := 0 to |events|
        invariant Holds(AfterAll(c, events[..i]))
        invariant C.Monotone(c.entries) && AllInTimeOrder(c, events) ==> C.Monotone(AfterAll(c, events[..i]).entries)
      {
        assert events[..i + 1][..i] == events[..i];
        OneEvent(events[i], AfterAll(c, events[..i]));
      }
      assert events[..|events|] == events;
    }

    /** `CheckSubstituteAndUpdateState` as part of a proposal: when it stops half-way with an
        error, the writes are dropped with the proposal. */
    method SubstituteOrNot(ctx: C.Context, cs: C.ClientState, other: KV, substitute: C.ClientState, ghost c: C.Client)
      requires Holds(c)
      modifies this
      ensures SubstitutionAllowed(cs, other, substitute) ==> Holds(AfterSubstitution(c, cs, other, substitute))
      ensures !SubstitutionAllowed(cs, other, substitute) ==> Holds(c)
    {
      hide Image, Contents, GetConsensusState, GetProcessedHeight, GetProcessedTime;
      var before := kv;
      ghost var typedBefore := typed;
      var r := CheckSubstituteAndUpdateState(ctx, cs, other, substitute, c);
      if r == MetadataMissing {
        kv, typed := before, typedBefore;
      }
    }

    /** One event, on whatever the store holds. */
    method OneEvent(e: Event, ghost c: C.Client)
      requires Holds(c)
      modifies this
      ensures Holds(After(c, e))
      ensures C.Monotone(c.entries) ==> (C.Monotone(After(c, e).entries) <==> InTimeOrder(c, e))
    {
      if C.Monotone(c.entries) {
        EventMonotoneIff(kv, c, e);
      }
      hide Image, Contents, GetClientState, GetConsensusState, GetProcessedHeight, GetProcessedTime;
      hide C.UpdateGiven, C.OutcomeGiven, C.NearConflict, C.OutcomeOf, C.Monotone, C.UpdateClient, C.PruneAll, InTimeOrder;
      ReadsAgree(kv, c, C.ZERO_HEIGHT);
      var state := GetClientState(kv);
      if state.None? {
        return;
      }
      var cs := state.value;
      match e
      case Deliver(step) =>
        var _ := UpdateClient(step.ctx, step.msg, c);
      case UpgradeTo(ctx, u) =>
        var _ := VerifyUpgradeAndUpdateState(ctx, cs, u, c);
      case Substitute(ctx, other, substitute) =>
        SubstituteOrNot(ctx, cs, other, substitute, c);
      case PruneExpired(ctx) =>
        var _ := PruneAllExpiredConsensusStates(ctx, cs, c);
    }

    // -------------------------------------------------------------------------
    // Genesis metadata
    // -------------------------------------------------------------------------

    /** The first loop of `IterateConsensusMetadata`: the keys given to the callback are
        those whose third element names a processed time or height. */
    method PickMetadataKeys(keys: seq<Bytes>) returns (picked: seq<Bytes>)
      ensures picked == Select(MetadataText, keys)
    {
      picked := [];
      for i := 0 to |keys|
        invariant picked == Select(MetadataText, keys[..i])
      {
        SelectStep(MetadataText, keys, i);
        var parts := Split(keys[i], [SLASH]);
        if |parts| != 3 {
          continue;
        }
        if parts[2] != PROCESSED_TIME && parts[2] != PROCESSED_HEIGHT {
          continue;
        }
        picked := picked + [keys[i]];
      }
      assert keys[..|keys|] == keys;
    }

    /** `ExportMetadata`: the callback lists the picked metadata and then the index. */
    method ExportMetadata() returns (gm: seq<(Bytes, Value)>)
      ensures IsExport(kv, gm)
    {
      var keys := IterateKeys(kv, CONSENSUS_STATES);
      var picked := PickMetadataKeys(keys);
      var index := IterateKeys(kv, ITERATE);
      ExportIsComplete(kv, keys, picked, index);
      gm := ListEntries(kv, picked + index);
      ListIsExport(kv, picked + index, gm);
    }
  }

  method ListEntries(kv: KV, keys: seq<Bytes>) returns (gm: seq<(Bytes, Value)>)
    requires forall b :: b in keys ==> b in kv
    ensures |gm| == |keys| && forall j :: 0 <= j < |keys| ==> keys[j] in kv && gm[j] == (keys[j], kv[keys[j]])
  {
    assert forall j :: 0 <= j < |keys| ==> keys[j] in keys;
    gm := [];
    for i := 0 to |keys|
      invariant |gm| == i && forall j :: 0 <= j < i ==> gm[j] == (keys[j], kv[keys[j]])
    {
      gm := gm + [(keys[i], kv[keys[i]])];
    }
  }

  // ---------------------------------------------------------------------------
  // Removing several heights
  // ---------------------------------------------------------------------------

  function RemoveAll(c: C.Client, hs: seq<Height>): C.Client {
    if hs == [] then c else C.Remove(RemoveAll(c, hs[..|hs| - 1]), hs[|hs| - 1])
  }

  /** The expired heights of a list, in order. */
  ghost function ExpiredAmong(c: C.Client, cs: C.ClientState, now: int, hs: seq<Height>): seq<Height> {
    if hs == [] then []
    else
      var h := hs[|hs| - 1];
      var front := ExpiredAmong(c, cs, now, hs[..|hs| - 1]);
      if h in C.ExpiredHeights(c, cs, now) then front + [h] else front
  }

  lemma ExpiredAmongNone(c: C.Client, cs: C.ClientState, now: int)
    ensures ExpiredAmong(c, cs, now, []) == []
  {
  }

  lemma ExpiredAmongStep(c: C.Client, cs: C.ClientState, now: int, hs: seq<Height>, i: nat)
    requires i < |hs| && hs[i] in c.entries
    ensures ExpiredAmong(c, cs, now, hs[..i + 1])
         == ExpiredAmong(c, cs, now, hs[..i])
            + if C.IsExpired(cs, c.entries[hs[i]].consensus.timestamp, now) then [hs[i]] else []
  {
    assert hs[..i + 1][..i] == hs[..i];
  }

  lemma {:induction false} ExpiredAmongMembers(c: C.Client, cs: C.ClientState, now: int, hs: seq<Height>, h: Height)
    ensures h in ExpiredAmong(c, cs, now, hs) <==> h in C.ExpiredHeights(c, cs, now) && h in hs
  {
    if hs != [] {
      ExpiredAmongMembers(c, cs, now, hs[..|hs| - 1], h);
      assert hs == hs[..|hs| - 1] + [hs[|hs| - 1]];
    }
  }

  lemma {:induction false} ExpiredAmongCount(c: C.Client, cs: C.ClientState, now: int, hs: seq<Height>)
    requires Ascending(hs)
    ensures |set h | h in ExpiredAmong(c, cs, now, hs)| == |ExpiredAmong(c, cs, now, hs)|
  {
    if hs != [] {
      var front, last := hs[..|hs| - 1], hs[|hs| - 1];
      ExpiredAmongCount(c, cs, now, front);
      ExpiredAmongMembers(c, cs, now, front, last);
      assert last !in front;
      var rest := ExpiredAmong(c, cs, now, front);
      assert (set x | x in rest + [last]) == (set x | x in rest) + {last};
    }
  }

  lemma ExpiredAmongAll(c: C.Client, cs: C.ClientState, now: int, hs: seq<Height>)
    requires Ascending(hs) && forall h :: h in hs <==> h in c.entries
    ensures (set h | h in ExpiredAmong(c, cs, now, hs)) == C.ExpiredHeights(c, cs, now)
    ensures |ExpiredAmong(c, cs, now, hs)| == |C.ExpiredHeights(c, cs, now)|
  {
    ExpiredAmongCount(c, cs, now, hs);
    forall h ensures h in ExpiredAmong(c, cs, now, hs) <==> h in C.ExpiredHeights(c, cs, now) {
      ExpiredAmongMembers(c, cs, now, hs, h);
    }
  }

  lemma {:induction false} RemoveAllIsDifference(c: C.Client, hs: seq<Height>)
    ensures RemoveAll(c, hs) == c.(entries := c.entries - (set h | h in hs))
  {
    if hs != [] {
      var front, last := hs[..|hs| - 1], hs[|hs| - 1];
      RemoveAllIsDifference(c, front);
      assert hs == front + [last];
      assert (set h | h in hs) == (set h | h in front) + {last};
      assert c.entries - (set h | h in front) - {last} == c.entries - (set h | h in hs);
    } else {
      assert c.entries - (set h | h in hs) == c.entries;
    }
  }

  // ---------------------------------------------------------------------------
  // Exported metadata
  // ---------------------------------------------------------------------------

  /** The filter of `IterateConsensusMetadata` on the keys of consensus states. */
  predicate MetadataText(b: Bytes) {
    var parts := Split(b, [SLASH]);
    |parts| == 3 && (parts[2] == PROCESSED_TIME || parts[2] == PROCESSED_HEIGHT)
  }

  predicate IsMetadata(b: Bytes) {
    HasPrefix(b, ITERATE) || (HasPrefix(b, CONSENSUS_STATES) && MetadataText(b))
  }

  function Select(f: Bytes -> bool, keys: seq<Bytes>): seq<Bytes> {
    if keys == [] then []
    else
      var front, last := Select(f, keys[..|keys| - 1]), keys[|keys| - 1];
      if f(last) then front + [last] else front
  }

  lemma SelectStep(f: Bytes -> bool, keys: seq<Bytes>, i: nat)
    requires i < |keys|
    ensures Select(f, keys[..i + 1]) == if f(keys[i]) then Select(f, keys[..i]) + [keys[i]] else Select(f, keys[..i])
  {
    assert keys[..i + 1][..i] == keys[..i];
  }

  lemma {:induction false} SelectMembers(f: Bytes -> bool, keys: seq<Bytes>, b: Bytes)
    ensures b in Select(f, keys) <==> b in keys && f(b)
  {
    if keys != [] {
      SelectMembers(f, keys[..|keys| - 1], b);
      assert keys == keys[..|keys| - 1] + [keys[|keys| - 1]];
    }
  }

  predicate Distinct(keys: seq<Bytes>) {
    forall i, j :: 0 <= i < j < |keys| ==> keys[i] != keys[j]
  }

  lemma {:induction false} SelectDistinct(f: Bytes -> bool, keys: seq<Bytes>)
    requires Distinct(keys)
    ensures Distinct(Select(f, keys))
  {
    if keys != [] {
      var front, last := keys[..|keys| - 1], keys[|keys| - 1];
      SelectDistinct(f, front);
      SelectMembers(f, front, last);
      assert last !in front;
    }
  }

  /** `gm` lists entries of `kv`, no key twice. */
  ghost predicate Listed(kv: KV, gm: seq<(Bytes, Value)>) {
    && (forall p :: p in gm ==> p.0 in kv && p.1 == kv[p.0])
    && (forall i, j :: 0 <= i < j < |gm| ==> gm[i].0 != gm[j].0)
  }

  /** `gm` lists exactly the metadata and index entries of `kv`, each once. */
  ghost predicate IsExport(kv: KV, gm: seq<(Bytes, Value)>) {
    && Listed(kv, gm)
    && (forall p :: p in gm ==> IsMetadata(p.0))
    && (forall b :: b in kv && IsMetadata(b) ==> (b, kv[b]) in gm)
  }

  /** The selected text keys and the index keys are all the metadata keys, each once. */
  lemma ExportIsComplete(kv: KV, keys: seq<Bytes>, picked: seq<Bytes>, index: seq<Bytes>)
    requires Distinct(keys) && Distinct(index) && picked == Select(MetadataText, keys)
    requires forall k :: k in keys <==> k in kv && HasPrefix(k, CONSENSUS_STATES)
    requires forall k :: k in index <==> k in kv && HasPrefix(k, ITERATE)
    ensures Distinct(picked + index)
    ensures forall b :: b in picked + index <==> b in kv && IsMetadata(b)
  {
    SelectDistinct(MetadataText, keys);
    forall b ensures b in picked <==> b in kv && HasPrefix(b, CONSENSUS_STATES) && MetadataText(b) {
      SelectMembers(MetadataText, keys, b);
    }
    forall i, j | 0 <= i < |picked| && 0 <= j < |index| ensures picked[i] != index[j] {
      assert picked[i] in picked && index[j] in index;
      PrefixesApart(picked[i]);
    }
  }

  lemma ListIsExport(kv: KV, all: seq<Bytes>, gm: seq<(Bytes, Value)>)
    requires Distinct(all) && forall b :: b in all <==> b in kv && IsMetadata(b)
    requires |gm| == |all| && forall j :: 0 <= j < |gm| ==> all[j] in kv && gm[j] == (all[j], kv[all[j]])
    ensures IsExport(kv, gm)
  {
    forall p | p in gm ensures p.0 in all && p.0 in kv && p.1 == kv[p.0] {
      var j :| 0 <= j < |gm| && gm[j] == p;
      assert all[j] in all;
    }
    forall b | b in kv && IsMetadata(b) ensures (b, kv[b]) in gm {
      var j :| 0 <= j < |all| && all[j] == b;
      assert gm[j] == (b, kv[b]);
    }
  }

  lemma PrefixesApart(b: Bytes)
    ensures !(HasPrefix(b, ITERATE) && HasPrefix(b, CONSENSUS_STATES))
  {
    assert ITERATE[0] == 105 && CONSENSUS_STATES[0] == 99;
  }

  /** The metadata keys are those of processed times, processed heights and the index. */
  lemma MetadataKeys(k: Key)
    ensures IsMetadata(Render(k)) <==> k.TimeKey? || k.HeightKey? || k.IterKey?
  {
    ClientKeyIsNotIterated(k);
    if !k.IterKey? {
      SplitKey(k);
    }
  }

  /** Writing a list of entries one after the other. */
  function WriteAll(kv: KV, gm: seq<(Bytes, Value)>): KV {
    if gm == [] then kv else WriteAll(kv, gm[..|gm| - 1])[gm[|gm| - 1].0 := gm[|gm| - 1].1]
  }

  lemma {:induction false} WriteAllListed(source: KV, kv: KV, gm: seq<(Bytes, Value)>)
    requires Listed(source, gm)
    ensures forall b :: b in WriteAll(kv, gm) <==> b in kv || (b in source && (b, source[b]) in gm)
    ensures forall b :: b in WriteAll(kv, gm) ==>
              WriteAll(kv, gm)[b] == if b in source && (b, source[b]) in gm then source[b] else kv[b]
  {
    if gm != [] {
      var front, last := gm[..|gm| - 1], gm[|gm| - 1];
      WriteAllListed(source, kv, front);
      assert gm == front + [last];
      assert last in gm;
    }
  }

  /** The client state and the consensus states of `c`, without metadata. */
  function StatesOf(c: C.Client): (t: Typed)
    ensures forall k :: k in t <==> Present(c, k) && (k.ClientKey? || k.ConsensusKey?)
    ensures forall k :: k in t ==> t[k] == ValueAt(c, k)
  {
    var all := Contents(c);
    map k | k in all && (k.ClientKey? || k.ConsensusKey?) :: all[k]
  }

  lemma RebuiltEntry(kv: KV, c: C.Client, gm: seq<(Bytes, Value)>, states: KV, k: Key)
    requires Agrees(kv, c) && IsExport(kv, gm) && Image(states, StatesOf(c))
    requires Present(c, k)
    ensures Render(k) in WriteAll(states, gm) && Render(k) in kv
    ensures WriteAll(states, gm)[Render(k)] == kv[Render(k)]
  {
    WriteAllListed(kv, states, gm);
    MetadataKeys(k);
    ImageLookup(kv, Contents(c), k);
    ImageLookup(states, StatesOf(c), k);
    var b := Render(k);
    assert IsMetadata(b) <==> (b, kv[b]) in gm;
  }

  lemma RebuiltWithin(kv: KV, c: C.Client, gm: seq<(Bytes, Value)>, states: KV, b: Bytes)
    requires Agrees(kv, c) && IsExport(kv, gm) && Image(states, StatesOf(c))
    requires b in WriteAll(states, gm)
    ensures b in kv
  {
    WriteAllListed(kv, states, gm);
    if b in states {
      var k :| k in StatesOf(c) && Render(k) == b;
      RebuiltEntry(kv, c, gm, states, k);
    }
  }

  /** The exported metadata, written beside the client state and the consensus states,
      rebuilds the store byte for byte. */
  lemma ExportRebuildsStore(kv: KV, c: C.Client, gm: seq<(Bytes, Value)>, states: KV)
    requires Agrees(kv, c) && IsExport(kv, gm) && Image(states, StatesOf(c))
    ensures WriteAll(states, gm) == kv
  {
    hide Render, WriteAll, StatesOf, IsExport;
    var built := WriteAll(states, gm);
    forall b | b in kv ensures b in built && built[b] == kv[b] {
      var k :| k in Contents(c) && Render(k) == b;
      RebuiltEntry(kv, c, gm, states, k);
    }
    forall b | b in built ensures b in kv {
      RebuiltWithin(kv, c, gm, states, b);
    }
  }
}
