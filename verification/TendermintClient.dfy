/** The Tendermint light client as a machine over a finite map from heights to
    consensus states with their metadata. `TendermintStore` refines it to the byte store. */
module TendermintClient {
  import opened ByteStrings
  import opened Heights

  // ---------------------------------------------------------------------------
  // Data
  // ---------------------------------------------------------------------------

  /** Times and durations are in nanoseconds. */
  datatype ConsensusState = ConsensusState(timestamp: int, root: Bytes, nextValidatorsHash: Bytes)

  datatype ClientState = ClientState(
    chainId: Bytes,
    trustLevel: (U64, U64),
    trustingPeriod: int,
    unbondingPeriod: int,
    maxClockDrift: int,
    latestHeight: Height,
    frozenHeight: Height,
    proofSpecs: seq<Bytes>,
    upgradePath: seq<Bytes>,
    allowUpdateAfterExpiry: bool,
    allowUpdateAfterMisbehaviour: bool)

  /** A consensus state with the metadata kept beside it. */
  datatype Entry = Entry(consensus: ConsensusState, processedTime: U64, processedHeight: Height)

  datatype Client = Client(state: Option<ClientState>, entries: map<Height, Entry>)

  const EMPTY := Client(None, map[])

  /** The executing chain: `ctx.BlockTime()` and `clienttypes.GetSelfHeight(ctx)`. */
  datatype Context = Context(blockTime: int, selfHeight: Height)

  /** The parts of a header that the client reads. `trustedValidatorsHash` is `None` when
      the trusted validators cannot be converted; `lightVerified` is the answer of the
      conversions and of `light.Verify` for this header and this call. */
  datatype Header = Header(
    height: Height,
    time: int,
    appHash: Bytes,
    nextValidatorsHash: Bytes,
    trustedHeight: Height,
    trustedValidatorsHash: Option<Bytes>,
    lightVerified: bool)

  /** A header of a `Misbehaviour` message. `blockHash` is `None` when the commit's block id
      cannot be converted; `trusted` is the answer of the commit's conversion and of
      `VerifyCommitLightTrusting` for this call. */
  datatype Conflicting = Conflicting(header: Header, blockHash: Option<Bytes>, trusted: bool)

  datatype Message =
    | Update(header: Header)
    | Misbehaviour(first: Conflicting, second: Conflicting)

  datatype Status = Active | Frozen | Expired

  const FROZEN_HEIGHT := Height(0, 1)
  const ZERO_HEIGHT := Height(0, 0)

  /** `uint64(t.UnixNano())`. */
  function UnixNano(t: int): U64 {
    t % TWO_64
  }

  function HeaderConsensus(h: Header): ConsensusState {
    ConsensusState(h.time, h.appHash, h.nextValidatorsHash)
  }

  // ---------------------------------------------------------------------------
  // Operations
  // ---------------------------------------------------------------------------

  /** `ClientState.IsExpired`. */
  predicate IsExpired(cs: ClientState, timestamp: int, now: int) {
    !(timestamp + cs.trustingPeriod > now)
  }

  function StatusOf(c: Client, cs: ClientState, now: int): Status {
    if !IsZero(cs.frozenHeight) then Frozen
    else if cs.latestHeight !in c.entries then Expired
    else if IsExpired(cs, c.entries[cs.latestHeight].consensus.timestamp, now) then Expired
    else Active
  }

  function Insert(c: Client, ctx: Context, h: Height, cons: ConsensusState): Client {
    c.(entries := c.entries[h := Entry(cons, UnixNano(ctx.blockTime), ctx.selfHeight)])
  }

  function Remove(c: Client, h: Height): Client {
    c.(entries := c.entries - {h})
  }

  /** `ClientState.Initialize`. */
  function Initialize(c: Client, ctx: Context, cs: ClientState, cons: ConsensusState): Client {
    Insert(c.(state := Some(cs)), ctx, cs.latestHeight, cons)
  }

  /** What `pruneOldestConsensusState` does to the map. */
  ghost function PruneOldest(c: Client, cs: ClientState, now: int): Client {
    if c.entries == map[] then c
    else
      var low := Lowest(c.entries.Keys);
      if IsExpired(cs, c.entries[low].consensus.timestamp, now) then Remove(c, low) else c
  }

  ghost function ExpiredHeights(c: Client, cs: ClientState, now: int): set<Height> {
    set h | h in c.entries && IsExpired(cs, c.entries[h].consensus.timestamp, now)
  }

  /** What `PruneAllExpiredConsensusStates` does to the map. */
  ghost function PruneAll(c: Client, cs: ClientState, now: int): Client {
    c.(entries := c.entries - ExpiredHeights(c, cs, now))
  }

  /** `verifyHeader` returns no error. */
  predicate VerifyHeader(c: Client, h: Header) {
    && h.trustedHeight in c.entries
    && h.trustedValidatorsHash == Some(c.entries[h.trustedHeight].consensus.nextValidatorsHash)
    && h.height.revision == h.trustedHeight.revision
    && Lt(h.trustedHeight, h.height)
    && h.lightVerified
  }

  /** `checkMisbehaviourHeader` returns no error: the trusted state is stored, matches the
      trusted validators and is younger than the trusting period. */
  predicate CheckMisbehaviourHeader(c: Client, cs: ClientState, x: Conflicting, now: int) {
    && x.header.trustedHeight in c.entries
    && var cons := c.entries[x.header.trustedHeight].consensus;
    && x.header.trustedValidatorsHash == Some(cons.nextValidatorsHash)
    && now - cons.timestamp < cs.trustingPeriod
    && x.trusted
  }

  /** `verifyMisbehaviour` returns no error. */
  predicate VerifyMisbehaviour(c: Client, cs: ClientState, m: Message, now: int)
    requires m.Misbehaviour?
  {
    CheckMisbehaviourHeader(c, cs, m.first, now) && CheckMisbehaviourHeader(c, cs, m.second, now)
  }

  /** The header agrees with every stored state: equal at its own height, later than all
      lower ones, earlier than all higher ones. */
  ghost predicate NoConflict(entries: map<Height, Entry>, h: Height, cons: ConsensusState) {
    && (h in entries ==> entries[h].consensus == cons)
    && (forall x :: x in entries && Lt(x, h) ==> entries[x].consensus.timestamp < cons.timestamp)
    && (forall x :: x in entries && Lt(h, x) ==> cons.timestamp < entries[x].consensus.timestamp)
  }

  /** The `Misbehaviour` case of `CheckForMisbehaviour`. */
  predicate IsMisbehaviour(m: Message)
    requires m.Misbehaviour?
  {
    if m.first.header.height == m.second.header.height then
      m.first.blockHash.Some? && m.second.blockHash.Some? && m.first.blockHash != m.second.blockHash
    else
      m.first.header.time <= m.second.header.time
  }

  /** `UpdateState`. */
  ghost function UpdateState(c: Client, cs: ClientState, ctx: Context, h: Header): Client {
    var pruned := PruneOldest(c, cs, ctx.blockTime);
    if h.height in pruned.entries then pruned
    else
      var cs' := if Lt(cs.latestHeight, h.height) then cs.(latestHeight := h.height) else cs;
      Insert(pruned.(state := Some(cs')), ctx, h.height, HeaderConsensus(h))
  }

  function Freeze(c: Client, cs: ClientState): Client {
    c.(state := Some(cs.(frozenHeight := FROZEN_HEIGHT)))
  }

  datatype Outcome = NotFound | NotActive | NotVerified | Froze | Updated | Panicked

  /** `x` is the least stored height strictly above `h`. */
  ghost predicate IsNext(c: Client, h: Height, x: Height) {
    x in c.entries && Lt(h, x) && forall y :: y in c.entries && Lt(h, y) ==> Lte(x, y)
  }

  /** `x` is the greatest stored height strictly below `h`. */
  ghost predicate IsPrevious(c: Client, h: Height, x: Height) {
    x in c.entries && Lt(x, h) && forall y :: y in c.entries && Lt(y, h) ==> Lte(y, x)
  }

  /** The header conflicts with the state at its height or, when there is none, with one of
      its two neighbours. */
  ghost predicate NeighbourConflict(c: Client, h: Height, cons: ConsensusState) {
    if h in c.entries then c.entries[h].consensus != cons
    else
      || (exists x :: IsPrevious(c, h, x) && c.entries[x].consensus.timestamp >= cons.timestamp)
      || (exists x :: IsNext(c, h, x) && c.entries[x].consensus.timestamp <= cons.timestamp)
  }

  /** What the 02-client keeper's `UpdateClient` does when the header check says `conflict`.
      A `Misbehaviour` message that shows none reaches `UpdateState`, which panics. */
  function OutcomeGiven(c: Client, ctx: Context, m: Message, conflict: bool): Outcome {
    if c.state.None? then NotFound
    else if StatusOf(c, c.state.value, ctx.blockTime) != Active then NotActive
    else
      match m
      case Update(h) =>
        if !VerifyHeader(c, h) then NotVerified
        else if conflict then Froze
        else Updated
      case Misbehaviour(_, _) =>
        if !VerifyMisbehaviour(c, c.state.value, m, ctx.blockTime) then NotVerified
        else if IsMisbehaviour(m) then Froze
        else Panicked
  }

  ghost function UpdateGiven(c: Client, ctx: Context, m: Message, conflict: bool): Client {
    match OutcomeGiven(c, ctx, m, conflict)
    case Updated => UpdateState(c, c.state.value, ctx, m.header)
    case Froze => Freeze(c, c.state.value)
    case _ => c
  }

  /** The header check that looks at the neighbours only. */
  ghost predicate NearConflict(c: Client, m: Message) {
    m.Update? && NeighbourConflict(c, m.header.height, HeaderConsensus(m.header))
  }

  /** The header check against the whole map. */
  ghost predicate AnyConflict(c: Client, m: Message) {
    m.Update? && !NoConflict(c.entries, m.header.height, HeaderConsensus(m.header))
  }

  /** The client machine: headers are checked against every stored state. */
  ghost function OutcomeOf(c: Client, ctx: Context, m: Message): Outcome {
    OutcomeGiven(c, ctx, m, AnyConflict(c, m))
  }

  ghost function UpdateClient(c: Client, ctx: Context, m: Message): Client {
    UpdateGiven(c, ctx, m, AnyConflict(c, m))
  }

  // ---------------------------------------------------------------------------
  // Monotone time
  // ---------------------------------------------------------------------------

  /** Timestamps strictly increase with height. */
  ghost predicate Monotone(entries: map<Height, Entry>) {
    forall x, y :: x in entries && y in entries && Lt(x, y)
      ==> entries[x].consensus.timestamp < entries[y].consensus.timestamp
  }

  /** An accepted update keeps time monotone, also when its own height is the one pruned
      and re-inserted. */
  lemma UpdateKeepsMonotone(c: Client, ctx: Context, m: Message)
    requires Monotone(c.entries)
    ensures Monotone(UpdateClient(c, ctx, m).entries)
  {
  }

  /** The greatest stored height is the client's latest height. */
  ghost predicate LatestIsGreatest(c: Client) {
    && c.state.Some?
    && c.state.value.latestHeight in c.entries
    && forall x :: x in c.entries ==> Lte(x, c.state.value.latestHeight)
  }

  /** Every message keeps the latest height stored and greatest, and an accepted header
      leaves the client Active at that block time. */
  lemma UpdateKeepsActive(c: Client, ctx: Context, m: Message)
    requires LatestIsGreatest(c)
    ensures LatestIsGreatest(UpdateClient(c, ctx, m))
    ensures OutcomeOf(c, ctx, m) == Updated ==>
              var c' := UpdateClient(c, ctx, m);
              StatusOf(c', c'.state.value, ctx.blockTime) == Active
  {
  }

  /** Writing a state at any height keeps time monotone exactly when it conflicts with no
      state stored at another height. */
  lemma WriteMonotoneIff(entries: map<Height, Entry>, h: Height, e: Entry)
    requires Monotone(entries)
    ensures Monotone(entries[h := e]) <==> NoConflict(entries - {h}, h, e.consensus)
  {
    var after, others := entries[h := e], entries - {h};
    assert after[h] == e;
    if Monotone(after) {
      forall x | x in others ensures after[x] == others[x] {
      }
    }
  }

  /** An upgrade writes a state above the latest height without comparing times: time stays
      monotone exactly when the upgraded state is later than the latest one. */
  lemma UpgradeMonotoneIff(c: Client, ctx: Context, h: Height, cons: ConsensusState)
    requires LatestIsGreatest(c) && Monotone(c.entries) && Lt(c.state.value.latestHeight, h)
    ensures Monotone(Insert(c, ctx, h, cons).entries)
       <==> c.entries[c.state.value.latestHeight].consensus.timestamp < cons.timestamp
  {
    var latest := c.state.value.latestHeight;
    var after := Insert(c, ctx, h, cons).entries;
    assert h !in c.entries;
    assert after[latest] == c.entries[latest] && after[h].consensus == cons;
  }

  /** For headers at different heights the submitted misbehaviour is a violation exactly when
      the later header would conflict with a store that holds only the earlier one. */
  lemma MisbehaviourIsConflict(m: Message, time: U64, height: Height)
    requires m.Misbehaviour? && Lt(m.second.header.height, m.first.header.height)
    ensures IsMisbehaviour(m)
       <==> !NoConflict(map[m.second.header.height := Entry(HeaderConsensus(m.second.header), time, height)],
                        m.first.header.height, HeaderConsensus(m.first.header))
  {
    var stored := map[m.second.header.height := Entry(HeaderConsensus(m.second.header), time, height)];
    assert m.second.header.height in stored;
  }

  /** A `Misbehaviour` message makes an active client panic exactly when both headers verify
      and there is no misbehaviour in them: at different heights, when the first is later. */
  lemma PanicsIff(c: Client, ctx: Context, m: Message)
    requires m.Misbehaviour? && c.state.Some? && StatusOf(c, c.state.value, ctx.blockTime) == Active
    ensures OutcomeOf(c, ctx, m) == Panicked
       <==> && CheckMisbehaviourHeader(c, c.state.value, m.first, ctx.blockTime)
            && CheckMisbehaviourHeader(c, c.state.value, m.second, ctx.blockTime)
            && if m.first.header.height != m.second.header.height
               then m.second.header.time < m.first.header.time
               else m.first.blockHash.None? || m.second.blockHash.None? || m.first.blockHash == m.second.blockHash
  {
  }

  /** Every active client with a trusted latest state can be made to panic: two headers that
      verify against that state, one above the other and later. */
  lemma PanicIsReachable(c: Client, ctx: Context, low: Height, high: Height) returns (m: Message)
    requires c.state.Some? && StatusOf(c, c.state.value, ctx.blockTime) == Active && Lt(low, high)
    ensures m.Misbehaviour? && m.first.header.height == high && m.second.header.height == low
    ensures m.second.header.time < m.first.header.time
    ensures OutcomeOf(c, ctx, m) == Panicked && UpdateClient(c, ctx, m) == c
  {
    var at := c.state.value.latestHeight;
    var hash := Some(c.entries[at].consensus.nextValidatorsHash);
    m := Misbehaviour(Conflicting(Header(high, 1, [], [], at, hash, true), None, true),
                      Conflicting(Header(low, 0, [], [], at, hash, true), None, true));
    PanicsIff(c, ctx, m);
  }

  // ---------------------------------------------------------------------------
  // Runs
  // ---------------------------------------------------------------------------

  datatype Step = Step(ctx: Context, msg: Message)

  /** The client after `Initialize` in an empty store and then the given messages. */
  ghost function Run(ctx0: Context, cs: ClientState, cons: ConsensusState, steps: seq<Step>): (c: Client)
    ensures c.state.Some?
  {
    if steps == [] then Initialize(EMPTY, ctx0, cs, cons)
    else
      var last := steps[|steps| - 1];
      UpdateClient(Run(ctx0, cs, cons, steps[..|steps| - 1]), last.ctx, last.msg)
  }

  /** Over every run the stored timestamps strictly increase with height and the latest
      height is stored and greatest. */
  lemma {:induction false} RunInvariant(ctx0: Context, cs: ClientState, cons: ConsensusState, steps: seq<Step>)
    ensures Monotone(Run(ctx0, cs, cons, steps).entries)
    ensures LatestIsGreatest(Run(ctx0, cs, cons, steps))
  {
    if steps != [] {
      var before := steps[..|steps| - 1];
      var last := steps[|steps| - 1];
      RunInvariant(ctx0, cs, cons, before);
      UpdateKeepsMonotone(Run(ctx0, cs, cons, before), last.ctx, last.msg);
      UpdateKeepsActive(Run(ctx0, cs, cons, before), last.ctx, last.msg);
    }
  }

  /** The client trusts the header: it is active, which means not frozen and with an unexpired
      latest state, the state at the trusted height is stored and committed to the trusted
      validators, the header is higher in the same revision, and `light.Verify` accepts it. */
  ghost predicate Vouched(c: Client, ctx: Context, h: Header) {
    && c.state.Some? && var cs := c.state.value;
    && cs.frozenHeight == Height(0, 0) && cs.latestHeight in c.entries
    && ctx.blockTime < c.entries[cs.latestHeight].consensus.timestamp + cs.trustingPeriod
    && h.trustedHeight in c.entries
    && h.trustedValidatorsHash == Some(c.entries[h.trustedHeight].consensus.nextValidatorsHash)
    && h.trustedHeight.revision == h.height.revision && h.trustedHeight.number < h.height.number
    && h.lightVerified
  }

  /** What is stored of a header. */
  ghost predicate Records(cons: ConsensusState, h: Header) {
    cons.timestamp == h.time && cons.root == h.appHash && cons.nextValidatorsHash == h.nextValidatorsHash
  }

  /** The step at `i` inserted the state at `h` from a header that the client trusted then. */
  ghost predicate InsertedBy(
    ctx0: Context, cs: ClientState, cons: ConsensusState, steps: seq<Step>, i: int, h: Height, state: ConsensusState)
  {
    && 0 <= i < |steps| && steps[i].msg.Update?
    && var header := steps[i].msg.header;
    && header.height == h && Records(state, header)
    && Vouched(Run(ctx0, cs, cons, steps[..i]), steps[i].ctx, header)
  }

  /** Chain of trust: every state stored after a run is the initial one, or the record of a
      header that the client trusted when it was inserted. */
  lemma {:induction false} ChainOfTrust(
    ctx0: Context, cs: ClientState, cons: ConsensusState, steps: seq<Step>, h: Height)
    requires h in Run(ctx0, cs, cons, steps).entries
    ensures var state := Run(ctx0, cs, cons, steps).entries[h].consensus;
            || (h == cs.latestHeight && state == cons)
            || (exists i :: InsertedBy(ctx0, cs, cons, steps, i, h, state))
  {
    if steps != [] {
      var n := |steps| - 1;
      var before := steps[..n];
      var c, state := Run(ctx0, cs, cons, before), Run(ctx0, cs, cons, steps).entries[h].consensus;
      if h in c.entries && c.entries[h].consensus == state {
        ChainOfTrust(ctx0, cs, cons, before, h);
        if exists i :: InsertedBy(ctx0, cs, cons, before, i, h, state) {
          var i :| InsertedBy(ctx0, cs, cons, before, i, h, state);
          assert before[..i] == steps[..i];
          assert InsertedBy(ctx0, cs, cons, steps, i, h, state);
        }
      } else {
        assert InsertedBy(ctx0, cs, cons, steps, n, h, state);
      }
    }
  }

  /** A client never leaves the revision it started in, except by an upgrade. */
  lemma {:induction false} OneRevision(ctx0: Context, cs: ClientState, cons: ConsensusState, steps: seq<Step>, h: Height)
    requires h in Run(ctx0, cs, cons, steps).entries
    ensures h.revision == cs.latestHeight.revision
    decreases |steps|
  {
    hide Run;
    ChainOfTrust(ctx0, cs, cons, steps, h);
    if h != cs.latestHeight {
      var state := Run(ctx0, cs, cons, steps).entries[h].consensus;
      var i :| InsertedBy(ctx0, cs, cons, steps, i, h, state);
      OneRevision(ctx0, cs, cons, steps[..i], steps[i].msg.header.trustedHeight);
    }
  }

  /** Messages change no parameter of the client: only its latest and its frozen height. */
  lemma {:induction false} ParametersStay(ctx0: Context, cs: ClientState, cons: ConsensusState, steps: seq<Step>)
    ensures var now := Run(ctx0, cs, cons, steps).state.value;
            now == cs.(latestHeight := now.latestHeight, frozenHeight := now.frozenHeight)
  {
    if steps != [] {
      ParametersStay(ctx0, cs, cons, steps[..|steps| - 1]);
    }
  }

  // ---------------------------------------------------------------------------
  // Freezing
  // ---------------------------------------------------------------------------

  /** Freezing makes the status Frozen at every time and leaves the states alone. */
  lemma FreezeFreezes(c: Client, cs: ClientState, now: int)
    ensures var d := Freeze(c, cs);
            && d.state.Some? && StatusOf(d, d.state.value, now) == Frozen
            && d.entries == c.entries && d.state.value == cs.(frozenHeight := d.state.value.frozenHeight)
  {
  }

  /** A state stored at height `x` that an honest chain could not have beside the header. */
  ghost predicate Clashes(x: Height, state: ConsensusState, h: Header) {
    || (x == h.height && !Records(state, h))
    || (Lt(x, h.height) && state.timestamp >= h.time)
    || (Lt(h.height, x) && state.timestamp <= h.time)
  }

  /** The header of a `Misbehaviour` message counts: its trusted state is stored, committed to
      the trusted validators, within the trusting period, and the commit is trusted. */
  ghost predicate Counts(c: Client, trustingPeriod: int, now: int, x: Conflicting) {
    && x.header.trustedHeight in c.entries
    && var state := c.entries[x.header.trustedHeight].consensus;
    && x.header.trustedValidatorsHash == Some(state.nextValidatorsHash)
    && now < state.timestamp + trustingPeriod
    && x.trusted
  }

  /** The evidence on which a client freezes: a trusted header that clashes with a stored
      state; or two headers that count, of different blocks at one height or with time not
      later at the first, higher one. */
  ghost predicate Evidence(c: Client, ctx: Context, m: Message) {
    match m
    case Update(h) => Vouched(c, ctx, h) && exists x :: x in c.entries && Clashes(x, c.entries[x].consensus, h)
    case Misbehaviour(first, second) =>
      && c.state.Some? && var cs := c.state.value;
      && cs.frozenHeight == Height(0, 0) && cs.latestHeight in c.entries
      && ctx.blockTime < c.entries[cs.latestHeight].consensus.timestamp + cs.trustingPeriod
      && Counts(c, cs.trustingPeriod, ctx.blockTime, first) && Counts(c, cs.trustingPeriod, ctx.blockTime, second)
      && if first.header.height == second.header.height
         then first.blockHash.Some? && second.blockHash.Some? && first.blockHash.value != second.blockHash.value
         else first.header.time <= second.header.time
  }

  /** A message freezes the client exactly when it is evidence. */
  lemma FreezesIffEvidence(c: Client, ctx: Context, m: Message)
    ensures OutcomeOf(c, ctx, m) == Froze <==> Evidence(c, ctx, m)
  {
    if m.Update? {
      TrustedIffVouched(c, ctx, m.header);
      ConflictIffClash(c.entries, m.header);
    }
  }

  lemma TrustedIffVouched(c: Client, ctx: Context, h: Header)
    ensures c.state.Some? && StatusOf(c, c.state.value, ctx.blockTime) == Active && VerifyHeader(c, h)
       <==> Vouched(c, ctx, h)
  {
  }

  lemma ConflictIffClash(entries: map<Height, Entry>, h: Header)
    ensures !NoConflict(entries, h.height, HeaderConsensus(h))
       <==> exists x :: x in entries && Clashes(x, entries[x].consensus, h)
  {
  }

  /** An accepted header is exactly one that the client trusts and that clashes with nothing. */
  lemma UpdatesIffTrusted(c: Client, ctx: Context, h: Header)
    ensures OutcomeOf(c, ctx, Update(h)) == Updated
       <==> Vouched(c, ctx, h) && forall x :: x in c.entries ==> !Clashes(x, c.entries[x].consensus, h)
  {
    TrustedIffVouched(c, ctx, h);
    ConflictIffClash(c.entries, h);
  }

  /** `x` is the lowest stored height and its state is past the trusting period. */
  ghost predicate OldestExpired(c: Client, now: int, x: Height) {
    && c.state.Some? && x in c.entries && (forall y :: y in c.entries ==> Lte(x, y))
    && c.entries[x].consensus.timestamp + c.state.value.trustingPeriod <= now
  }

  /** An accepted header removes the oldest state if it is expired, keeps every other entry
      with its metadata, and is recorded with the time and height of the block unless it was
      stored already; the latest height rises to it, never falls. */
  lemma UpdateExact(c: Client, ctx: Context, h: Header)
    requires OutcomeOf(c, ctx, Update(h)) == Updated
    ensures var d := UpdateClient(c, ctx, Update(h));
            && (forall x :: x in d.entries <==> x == h.height || (x in c.entries && !OldestExpired(c, ctx.blockTime, x)))
            && (forall x :: x in c.entries && !OldestExpired(c, ctx.blockTime, x) ==> d.entries[x] == c.entries[x])
            && Records(d.entries[h.height].consensus, h)
            && (h.height !in c.entries || OldestExpired(c, ctx.blockTime, h.height) ==>
                  && d.entries[h.height].processedTime == ctx.blockTime % TWO_64
                  && d.entries[h.height].processedHeight == ctx.selfHeight)
            && (h.height !in c.entries ==>
                  d.state.value.latestHeight
                  == if Lt(c.state.value.latestHeight, h.height) then h.height else c.state.value.latestHeight)
  {
    var low := Lowest(c.entries.Keys);
    assert forall x :: x in c.entries.Keys ==> Lte(low, x);
    assert forall x :: OldestExpired(c, ctx.blockTime, x) ==> x == low;
  }

  /** The message at `i` is evidence at its point of the run. */
  ghost predicate EvidenceAt(ctx0: Context, cs: ClientState, cons: ConsensusState, steps: seq<Step>, i: int) {
    0 <= i < |steps| && Evidence(Run(ctx0, cs, cons, steps[..i]), steps[i].ctx, steps[i].msg)
  }

  lemma StepFreezes(c: Client, ctx: Context, m: Message)
    requires c.state.Some?
    ensures var d := UpdateClient(c, ctx, m);
            d.state.Some? && (!IsZero(d.state.value.frozenHeight) <==> !IsZero(c.state.value.frozenHeight) || Evidence(c, ctx, m))
  {
    hide Evidence, NoConflict;
    FreezesIffEvidence(c, ctx, m);
  }

  lemma EvidenceInFront(ctx0: Context, cs: ClientState, cons: ConsensusState, steps: seq<Step>, i: int)
    requires 0 <= i < |steps| - 1
    ensures EvidenceAt(ctx0, cs, cons, steps[..|steps| - 1], i) <==> EvidenceAt(ctx0, cs, cons, steps, i)
  {
    hide Run, Evidence;
    assert steps[..|steps| - 1][..i] == steps[..i];
  }

  /** Over runs, the client is frozen exactly when it started frozen or some message was
      evidence at its point of the run. */
  lemma {:induction false} FrozenIffEvidence(ctx0: Context, cs: ClientState, cons: ConsensusState, steps: seq<Step>)
    ensures !IsZero(Run(ctx0, cs, cons, steps).state.value.frozenHeight)
       <==> !IsZero(cs.frozenHeight) || exists i :: EvidenceAt(ctx0, cs, cons, steps, i)
  {
    hide Evidence, UpdateClient, IsZero;
    if steps != [] {
      var n := |steps| - 1;
      var before := steps[..n];
      FrozenIffEvidence(ctx0, cs, cons, before);
      StepFreezes(Run(ctx0, cs, cons, before), steps[n].ctx, steps[n].msg);
      forall i | 0 <= i < n ensures EvidenceAt(ctx0, cs, cons, before, i) <==> EvidenceAt(ctx0, cs, cons, steps, i) {
        EvidenceInFront(ctx0, cs, cons, steps, i);
      }
      assert EvidenceAt(ctx0, cs, cons, steps, n) <==> Evidence(Run(ctx0, cs, cons, before), steps[n].ctx, steps[n].msg);
    }
  }

  /** After evidence every later message is refused and the client stays as it was left. */
  lemma FrozenForGood(
    ctx0: Context, cs: ClientState, cons: ConsensusState, steps: seq<Step>, i: nat, j: nat)
    requires i < j < |steps| && EvidenceAt(ctx0, cs, cons, steps, i)
    ensures OutcomeOf(Run(ctx0, cs, cons, steps[..j]), steps[j].ctx, steps[j].msg) == NotActive
    ensures Run(ctx0, cs, cons, steps) == Run(ctx0, cs, cons, steps[..i + 1])
    ensures Run(ctx0, cs, cons, steps).entries == Run(ctx0, cs, cons, steps[..i]).entries
  {
    hide Evidence;
    var c := Run(ctx0, cs, cons, steps[..i]);
    FreezesIffEvidence(c, steps[i].ctx, steps[i].msg);
    assert steps[..i + 1][..i] == steps[..i];
    FrozenIsFinal(ctx0, cs, cons, steps, i + 1);
    assert steps[..j][..i + 1] == steps[..i + 1];
    FrozenIsFinal(ctx0, cs, cons, steps[..j], i + 1);
  }

  /** Once a run has frozen the client, nothing that follows changes it. */
  lemma {:induction false} FrozenIsFinal(
    ctx0: Context, cs: ClientState, cons: ConsensusState, steps: seq<Step>, i: nat)
    requires i <= |steps|
    requires !IsZero(Run(ctx0, cs, cons, steps[..i]).state.value.frozenHeight)
    ensures Run(ctx0, cs, cons, steps) == Run(ctx0, cs, cons, steps[..i])
    decreases |steps|
  {
    if i == |steps| {
      assert steps[..i] == steps;
    } else {
      var before := steps[..|steps| - 1];
      assert before[..i] == steps[..i];
      FrozenIsFinal(ctx0, cs, cons, before, i);
    }
  }

  // ---------------------------------------------------------------------------
  // Pruning
  // ---------------------------------------------------------------------------

  /** Every stored state below an expired one is expired. */
  ghost predicate ExpiryIsDownwardClosed(c: Client, cs: ClientState, now: int) {
    forall x, y :: x in c.entries && y in c.entries && Lt(x, y)
        && IsExpired(cs, c.entries[y].consensus.timestamp, now)
      ==> IsExpired(cs, c.entries[x].consensus.timestamp, now)
  }

  /** `pruneOldestConsensusState` repeated until nothing changes. */
  ghost function PruneUntilStable(c: Client, cs: ClientState, now: int): Client
    decreases |c.entries|
  {
    var pruned := PruneOldest(c, cs, now);
    if pruned == c then c
    else
      PruneOldestShrinks(c, cs, now);
      PruneUntilStable(pruned, cs, now)
  }

  lemma SmallerMap<K, V>(a: map<K, V>, b: map<K, V>)
    requires a.Keys < b.Keys
    ensures |a| < |b|
  {
    var rest := b.Keys - a.Keys;
    assert b.Keys == a.Keys + rest && rest != {};
    assert |b.Keys| == |a.Keys| + |rest|;
  }

  lemma PruneOldestShrinks(c: Client, cs: ClientState, now: int)
    requires PruneOldest(c, cs, now) != c
    ensures |PruneOldest(c, cs, now).entries| < |c.entries|
  {
    assert PruneOldest(c, cs, now).entries.Keys < c.entries.Keys;
    SmallerMap(PruneOldest(c, cs, now).entries, c.entries);
  }

  lemma PruneAllAfterOldest(c: Client, cs: ClientState, now: int)
    ensures PruneAll(PruneOldest(c, cs, now), cs, now) == PruneAll(c, cs, now)
  {
    assert PruneAll(PruneOldest(c, cs, now), cs, now).entries == PruneAll(c, cs, now).entries;
  }

  /** Nothing is pruned in the end exactly when nothing is expired. */
  lemma NothingToPrune(c: Client, cs: ClientState, now: int)
    ensures PruneAll(c, cs, now) == c <==> ExpiredHeights(c, cs, now) == {}
  {
    var all := PruneAll(c, cs, now).entries;
    if all == c.entries {
      assert forall h :: h in c.entries ==> h in all;
    }
  }

  /** When the oldest state is not expired, no expired state lies above it, or closure fails. */
  lemma StableIsClosed(c: Client, cs: ClientState, now: int)
    requires PruneOldest(c, cs, now) == c
    ensures ExpiredHeights(c, cs, now) == {} <==> ExpiryIsDownwardClosed(c, cs, now)
  {
    if c.entries != map[] {
      var low := Lowest(c.entries.Keys);
      assert low in c.entries && low !in Remove(c, low).entries;
      if ExpiredHeights(c, cs, now) == {} {
        assert forall h :: h in c.entries ==> h !in ExpiredHeights(c, cs, now);
      }
    }
  }

  /** Repeated pruning of the oldest state agrees with pruning all expired states exactly
      when expiry is downward closed in height. */
  lemma {:induction false} PruningEquivalence(c: Client, cs: ClientState, now: int)
    ensures PruneUntilStable(c, cs, now) == PruneAll(c, cs, now) <==> ExpiryIsDownwardClosed(c, cs, now)
    decreases |c.entries|
  {
    hide PruneAll, PruneOldest, ExpiryIsDownwardClosed, ExpiredHeights;
    var pruned := PruneOldest(c, cs, now);
    if pruned == c {
      NothingToPrune(c, cs, now);
      StableIsClosed(c, cs, now);
    } else {
      PruneOldestShrinks(c, cs, now);
      PruningEquivalence(pruned, cs, now);
      PruneAllAfterOldest(c, cs, now);
      PruneOldestKeepsClosure(c, cs, now);
    }
  }

  lemma PruneOldestKeepsClosure(c: Client, cs: ClientState, now: int)
    ensures ExpiryIsDownwardClosed(PruneOldest(c, cs, now), cs, now) == ExpiryIsDownwardClosed(c, cs, now)
  {
    var pruned := PruneOldest(c, cs, now);
    if pruned != c {
      var low := Lowest(c.entries.Keys);
      if ExpiryIsDownwardClosed(pruned, cs, now) {
        forall x, y | x in c.entries && y in c.entries && Lt(x, y)
            && IsExpired(cs, c.entries[y].consensus.timestamp, now)
          ensures IsExpired(cs, c.entries[x].consensus.timestamp, now)
        {
          if x != low {
            assert x in pruned.entries && y in pruned.entries;
          }
        }
      }
    }
  }

  /** In every run, at every time, the two ways of pruning agree. */
  lemma PruningAgreesInRuns(
    ctx0: Context, cs0: ClientState, cons: ConsensusState, steps: seq<Step>, cs: ClientState, now: int)
    ensures var c := Run(ctx0, cs0, cons, steps); PruneUntilStable(c, cs, now) == PruneAll(c, cs, now)
  {
    RunInvariant(ctx0, cs0, cons, steps);
    PruningEquivalence(Run(ctx0, cs0, cons, steps), cs, now);
  }

  // ---------------------------------------------------------------------------
  // Delay period
  // ---------------------------------------------------------------------------

  datatype DelayResult = Passed | TimeNotFound | HeightNotFound | NotPassed

  /** `verifyDelayPeriodPassed`, given what the metadata reads return; the two sums are
      64-bit and wrap. */
  function DelayCheck(
    ctx: Context, time: Option<U64>, height: Option<Height>, delayTime: U64, delayBlocks: U64): DelayResult
  {
    if delayTime != 0 && time.None? then TimeNotFound
    else if delayTime != 0 && UnixNano(ctx.blockTime) < (time.value + delayTime) % TWO_64 then NotPassed
    else if delayBlocks != 0 && height.None? then HeightNotFound
    else if delayBlocks != 0
      && Lt(ctx.selfHeight, Height(height.value.revision, (height.value.number + delayBlocks) % TWO_64)) then NotPassed
    else Passed
  }

  function VerifyDelay(c: Client, ctx: Context, h: Height, delayTime: U64, delayBlocks: U64): DelayResult {
    if h in c.entries then
      DelayCheck(ctx, Some(c.entries[h].processedTime), Some(c.entries[h].processedHeight), delayTime, delayBlocks)
    else
      DelayCheck(ctx, None, None, delayTime, delayBlocks)
  }

  /** The context of the last step that inserted the state now stored at `h`. */
  ghost function LastInsert(ctx0: Context, cs: ClientState, cons: ConsensusState, steps: seq<Step>, h: Height): Context {
    if steps == [] then ctx0
    else
      var before := steps[..|steps| - 1];
      var last := steps[|steps| - 1];
      var c := Run(ctx0, cs, cons, before);
      if OutcomeOf(c, last.ctx, last.msg) == Updated
        && last.msg.header.height == h
        && h !in PruneOldest(c, c.state.value, last.ctx.blockTime).entries
      then last.ctx
      else LastInsert(ctx0, cs, cons, before, h)
  }

  /** Metadata never changes while a state stays stored: it is that of its insertion. */
  lemma {:induction false} MetadataIsThatOfInsertion(
    ctx0: Context, cs: ClientState, cons: ConsensusState, steps: seq<Step>, h: Height)
    requires h in Run(ctx0, cs, cons, steps).entries
    ensures var e := Run(ctx0, cs, cons, steps).entries[h];
            var at := LastInsert(ctx0, cs, cons, steps, h);
            e.processedTime == UnixNano(at.blockTime) && e.processedHeight == at.selfHeight
  {
    if steps != [] {
      var before := steps[..|steps| - 1];
      var last := steps[|steps| - 1];
      var c := Run(ctx0, cs, cons, before);
      if h in c.entries {
        MetadataIsThatOfInsertion(ctx0, cs, cons, before, h);
      }
    }
  }

  /** Block time and height never go back along the run, and stay in 64 bits. */
  ghost predicate ForwardInTime(ctx0: Context, steps: seq<Step>, now: Context) {
    && 0 <= ctx0.blockTime && now.blockTime < TWO_64
    && (if steps == [] then ctx0.blockTime <= now.blockTime && Lte(ctx0.selfHeight, now.selfHeight)
        else
          var last := steps[|steps| - 1].ctx;
          && last.blockTime <= now.blockTime && Lte(last.selfHeight, now.selfHeight)
          && ForwardInTime(ctx0, steps[..|steps| - 1], last))
  }

  lemma {:induction false} InsertionIsPast(
    ctx0: Context, cs: ClientState, cons: ConsensusState, steps: seq<Step>, h: Height, now: Context)
    requires ForwardInTime(ctx0, steps, now)
    ensures var at := LastInsert(ctx0, cs, cons, steps, h);
            0 <= at.blockTime <= now.blockTime && Lte(at.selfHeight, now.selfHeight)
    decreases |steps|
  {
    if steps != [] {
      var last := steps[|steps| - 1].ctx;
      ContextsNonNegative(ctx0, steps, now);
      InsertionIsPast(ctx0, cs, cons, steps[..|steps| - 1], h, last);
    }
  }

  lemma {:induction false} ContextsNonNegative(ctx0: Context, steps: seq<Step>, now: Context)
    requires ForwardInTime(ctx0, steps, now)
    ensures now.blockTime >= 0
    decreases |steps|
  {
    if steps != [] {
      ContextsNonNegative(ctx0, steps[..|steps| - 1], steps[|steps| - 1].ctx);
    }
  }

  /** `now` is at least `delayTime` later and `delayBlocks` higher than `at`. */
  predicate Reached(at: Context, now: Context, delayTime: U64, delayBlocks: U64)
    requires at.selfHeight.number + delayBlocks < TWO_64
  {
    && at.blockTime + delayTime <= now.blockTime
    && Lte(Height(at.selfHeight.revision, at.selfHeight.number + delayBlocks), now.selfHeight)
  }

  /** The check on one stored state whose metadata is that of `at`. */
  lemma DelayOfEntry(c: Client, h: Height, at: Context, now: Context, delayTime: U64, delayBlocks: U64)
    requires h in c.entries
    requires c.entries[h].processedTime == at.blockTime && c.entries[h].processedHeight == at.selfHeight
    requires 0 <= at.blockTime <= now.blockTime < TWO_64 && Lte(at.selfHeight, now.selfHeight)
    requires at.blockTime + delayTime < TWO_64 && at.selfHeight.number + delayBlocks < TWO_64
    ensures VerifyDelay(c, now, h, delayTime, delayBlocks) == Passed <==> Reached(at, now, delayTime, delayBlocks)
  {
  }

  /** For a state stored after any run, the delay check passes exactly when the block time
      and block height have reached those of its insertion plus the delays. */
  lemma DelayPassesExactlyWhenReached(
    ctx0: Context, cs: ClientState, cons: ConsensusState, steps: seq<Step>,
    h: Height, now: Context, delayTime: U64, delayBlocks: U64)
    requires ForwardInTime(ctx0, steps, now)
    requires h in Run(ctx0, cs, cons, steps).entries
    requires var at := LastInsert(ctx0, cs, cons, steps, h);
             at.blockTime + delayTime < TWO_64 && at.selfHeight.number + delayBlocks < TWO_64
    ensures VerifyDelay(Run(ctx0, cs, cons, steps), now, h, delayTime, delayBlocks) == Passed
       <==> Reached(LastInsert(ctx0, cs, cons, steps, h), now, delayTime, delayBlocks)
  {
    hide Run, LastInsert, VerifyDelay, Reached;
    MetadataIsThatOfInsertion(ctx0, cs, cons, steps, h);
    InsertionIsPast(ctx0, cs, cons, steps, h, now);
    DelayOfEntry(Run(ctx0, cs, cons, steps), h, LastInsert(ctx0, cs, cons, steps, h), now, delayTime, delayBlocks);
  }

  /** `VerifyMembership` and `VerifyNonMembership` up to the Merkle proof, given what the
      reads of the store return, whether the proof decodes and whether the path is a Merkle
      path. */
  predicate MembershipGuards(
    cs: ClientState, h: Height, delay: DelayResult, proofDecodes: bool, merklePath: bool,
    consensus: Option<ConsensusState>)
  {
    !Lt(cs.latestHeight, h) && delay == Passed && proofDecodes && merklePath && consensus.Some?
  }

  /** After any run, a proof at height `h` gets as far as the Merkle check exactly when it
      decodes, its path is a Merkle path, a state is stored at `h` and the delays since its
      insertion have passed. */
  lemma ProofsWaitForDelay(
    ctx0: Context, cs: ClientState, cons: ConsensusState, steps: seq<Step>,
    h: Height, now: Context, delayTime: U64, delayBlocks: U64, proofDecodes: bool, merklePath: bool)
    requires ForwardInTime(ctx0, steps, now)
    requires var at := LastInsert(ctx0, cs, cons, steps, h);
             at.blockTime + delayTime < TWO_64 && at.selfHeight.number + delayBlocks < TWO_64
    ensures var c := Run(ctx0, cs, cons, steps);
            MembershipGuards(c.state.value, h, VerifyDelay(c, now, h, delayTime, delayBlocks), proofDecodes, merklePath,
                             if h in c.entries then Some(c.entries[h].consensus) else None)
            <==> && proofDecodes && merklePath && h in c.entries
                 && Reached(LastInsert(ctx0, cs, cons, steps, h), now, delayTime, delayBlocks)
  {
    hide Run, VerifyDelay, Reached, LastInsert, ForwardInTime;
    RunInvariant(ctx0, cs, cons, steps);
    if h in Run(ctx0, cs, cons, steps).entries {
      DelayPassesExactlyWhenReached(ctx0, cs, cons, steps, h, now, delayTime, delayBlocks);
    }
  }

  /** The time check enforces the delay at every block time exactly when the 64-bit sum
      does not overflow. */
  lemma TimeDelayEnforcedIffNoOverflow(c: Client, h: Height, self: Height, delayTime: U64)
    requires h in c.entries && delayTime != 0
    ensures (forall now: U64 {:trigger VerifyDelay(c, Context(now, self), h, delayTime, 0)} ::
              VerifyDelay(c, Context(now, self), h, delayTime, 0) == Passed
              ==> now >= c.entries[h].processedTime + delayTime)
       <==> c.entries[h].processedTime + delayTime < TWO_64
  {
    var now: U64 := TWO_64 - 1;
    assert VerifyDelay(c, Context(now, self), h, delayTime, 0) == Passed;
  }

  /** Likewise for the block delay, in (revision, number) order. */
  lemma BlockDelayEnforcedIffNoOverflow(c: Client, h: Height, now: int, delayBlocks: U64)
    requires h in c.entries && delayBlocks != 0
    ensures (forall self: Height {:trigger VerifyDelay(c, Context(now, self), h, 0, delayBlocks)} ::
              VerifyDelay(c, Context(now, self), h, 0, delayBlocks) == Passed
              ==> var from := c.entries[h].processedHeight;
                  self.revision > from.revision
                  || (self.revision == from.revision && self.number >= from.number + delayBlocks))
       <==> c.entries[h].processedHeight.number + delayBlocks < TWO_64
  {
    var self := Height(c.entries[h].processedHeight.revision, TWO_64 - 1);
    assert VerifyDelay(c, Context(now, self), h, 0, delayBlocks) == Passed;
  }
}
