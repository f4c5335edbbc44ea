/** Reading a Tendermint client store: the byte store is the image of a client under the
    key rendering, and what the store's readers compute is what the client holds. */
module TendermintView {
  import opened ByteStrings
  import opened Heights
  import opened HostPaths
  import opened StoreIteration
  import opened TendermintKeys
  import C = TendermintClient

  /** Stored values. The `Any` encoding of states is taken as a bijection, so the two kinds
      of state appear decoded; metadata and index values are the bytes themselves. */
  datatype Value = ClientValue(client: C.ClientState) | ConsensusValue(consensus: C.ConsensusState) | Raw(bytes: Bytes)

  type KV = map<Bytes, Value>
  type Typed = map<Key, Value>

  // ---------------------------------------------------------------------------
  // The store of a client
  // ---------------------------------------------------------------------------

  predicate Present(c: C.Client, k: Key) {
    if k.ClientKey? then c.state.Some? else k.height in c.entries
  }

  function ValueAt(c: C.Client, k: Key): Value
    requires Present(c, k)
  {
    match k
    case ClientKey => ClientValue(c.state.value)
    case ConsensusKey(h) => ConsensusValue(c.entries[h].consensus)
    case TimeKey(h) => Raw(Uint64ToBigEndian(c.entries[h].processedTime))
    case HeightKey(h) => Raw(Text(c.entries[h].processedHeight))
    case IterKey(h) => Raw(ConsensusStatePath(h))
  }

  /** What the store of client `c` holds: the same heights under all four kinds of key,
      and each iteration entry naming its own height's consensus key. */
  function Contents(c: C.Client): (t: Typed)
    ensures forall k :: k in t <==> Present(c, k)
    ensures forall k :: k in t ==> t[k] == ValueAt(c, k)
  {
    var keys :=
      (if c.state.Some? then {ClientKey} else {})
      + (set h | h in c.entries :: ConsensusKey(h))
      + (set h | h in c.entries :: TimeKey(h))
      + (set h | h in c.entries :: HeightKey(h))
      + (set h | h in c.entries :: IterKey(h));
    map k | k in keys :: ValueAt(c, k)
  }

  /** `kv` holds exactly the rendered entries of `t`. */
  ghost predicate Image(kv: KV, t: Typed) {
    && (forall k :: k in t ==> Render(k) in kv && kv[Render(k)] == t[k])
    && (forall b :: b in kv ==> exists k :: k in t && Render(k) == b)
  }

  /** The byte store agrees with the client. */
  ghost predicate Agrees(kv: KV, c: C.Client) {
    Image(kv, Contents(c))
  }

  lemma ImageLookup(kv: KV, t: Typed, k: Key)
    requires Image(kv, t)
    ensures Render(k) in kv <==> k in t
    ensures k in t ==> kv[Render(k)] == t[k]
  {
    if Render(k) in kv {
      var l :| l in t && Render(l) == Render(k);
      RenderInjective(l, k);
    }
  }

  lemma ImageSet(kv: KV, t: Typed, k: Key, v: Value)
    requires Image(kv, t)
    ensures Image(kv[Render(k) := v], t[k := v])
  {
    var kv', t' := kv[Render(k) := v], t[k := v];
    forall l | l in t' ensures Render(l) in kv' && kv'[Render(l)] == t'[l] {
      if Render(l) == Render(k) {
        RenderInjective(l, k);
      }
    }
    forall b | b in kv' ensures exists l :: l in t' && Render(l) == b {
      if b == Render(k) {
        assert k in t';
      } else {
        var l :| l in t && Render(l) == b;
        assert l in t';
      }
    }
  }

  lemma ImageDelete(kv: KV, t: Typed, k: Key)
    requires Image(kv, t)
    ensures Image(kv - {Render(k)}, t - {k})
  {
    var kv', t' := kv - {Render(k)}, t - {k};
    forall l | l in t' ensures Render(l) in kv' && kv'[Render(l)] == t'[l] {
      if Render(l) == Render(k) {
        RenderInjective(l, k);
      }
    }
    forall b | b in kv' ensures exists l :: l in t' && Render(l) == b {
      var l :| l in t && Render(l) == b;
      assert l in t';
    }
  }

  /** The client determines the store. */
  lemma AgreementDetermines(kv1: KV, kv2: KV, c: C.Client)
    requires Agrees(kv1, c) && Agrees(kv2, c)
    ensures kv1 == kv2
  {
    forall b | b in kv1 ensures b in kv2 && kv1[b] == kv2[b] {
      var k :| k in Contents(c) && Render(k) == b;
    }
    forall b | b in kv2 ensures b in kv1 {
      var k :| k in Contents(c) && Render(k) == b;
    }
  }

  // ---------------------------------------------------------------------------
  // Single reads
  // ---------------------------------------------------------------------------

  /** `GetConsensusState`; a value of another kind is a decoding panic in Go. */
  function GetConsensusState(kv: KV, h: Height): Option<C.ConsensusState> {
    var key := ConsensusStatePath(h);
    if key in kv && kv[key].ConsensusValue? then Some(kv[key].consensus) else None
  }

  function GetClientState(kv: KV): Option<C.ClientState> {
    if CLIENT_STATE in kv && kv[CLIENT_STATE].ClientValue? then Some(kv[CLIENT_STATE].client) else None
  }

  /** `GetProcessedTime`; fewer than eight bytes are a panic in Go. */
  function GetProcessedTime(kv: KV, h: Height): Option<U64> {
    var key := ProcessedTimeKey(h);
    if key in kv && kv[key].Raw? && |kv[key].bytes| >= 8 then Some(BigEndianToUint64(kv[key].bytes)) else None
  }

  function GetProcessedHeight(kv: KV, h: Height): Option<Height> {
    var key := ProcessedHeightKey(h);
    if key in kv && kv[key].Raw? then ParseHeight(kv[key].bytes) else None
  }

  /** On an agreeing store the single reads give the client's own data. */
  lemma ReadsAgree(kv: KV, c: C.Client, h: Height)
    requires Agrees(kv, c)
    ensures GetClientState(kv) == c.state
    ensures GetConsensusState(kv, h) == if h in c.entries then Some(c.entries[h].consensus) else None
    ensures GetProcessedTime(kv, h) == if h in c.entries then Some(c.entries[h].processedTime) else None
    ensures GetProcessedHeight(kv, h) == if h in c.entries then Some(c.entries[h].processedHeight) else None
  {
    hide Image, Contents;
    var t := Contents(c);
    ImageLookup(kv, t, ClientKey);
    ImageLookup(kv, t, ConsensusKey(h));
    ImageLookup(kv, t, TimeKey(h));
    ImageLookup(kv, t, HeightKey(h));
    if h in c.entries {
      Uint64RoundTrip(c.entries[h].processedTime);
      ParseText(c.entries[h].processedHeight);
    }
  }

  // ---------------------------------------------------------------------------
  // Ordered reads
  // ---------------------------------------------------------------------------

  /** `getTmConsensusState` on the key held by an index entry. */
  function Follow(kv: KV, v: Value): Option<C.ConsensusState> {
    if v.Raw? && v.bytes in kv && kv[v.bytes].ConsensusValue? then Some(kv[v.bytes].consensus) else None
  }

  /** The index keys of an iterator from `start` to the end, and of a reverse iterator
      from just below `start`. */
  function KeysFrom(kv: KV, start: Bytes): set<Bytes> {
    set k | k in PrefixKeys(kv, ITERATE) && !Less(k, start)
  }

  function KeysBelow(kv: KV, start: Bytes): set<Bytes> {
    set k | k in PrefixKeys(kv, ITERATE) && Less(k, start)
  }

  /** `GetNextConsensusState`. */
  function GetNextConsensusState(kv: KV, h: Height): Option<C.ConsensusState> {
    var keys := KeysFrom(kv, IterationKey(h));
    if keys == {} then None
    else
      var first := Least(keys);
      if kv[first] == Raw(ConsensusStatePath(h)) then
        var rest := keys - {first};
        if rest == {} then None else Follow(kv, kv[Least(rest)])
      else Follow(kv, kv[first])
  }

  /** `GetPreviousConsensusState`. */
  function GetPreviousConsensusState(kv: KV, h: Height): Option<C.ConsensusState> {
    var keys := KeysBelow(kv, IterationKey(h));
    if keys == {} then None else Follow(kv, kv[Greatest(keys)])
  }

  function IndexOf(hs: set<Height>): set<Bytes> {
    set h | h in hs :: IterationKey(h)
  }

  lemma IndexKeyIsStored(kv: KV, c: C.Client, b: Bytes) returns (h: Height)
    requires Agrees(kv, c) && b in kv && HasPrefix(b, ITERATE)
    ensures h in c.entries && b == IterationKey(h)
  {
    var k :| k in Contents(c) && Render(k) == b;
    ClientKeyIsNotIterated(k);
    assert k.IterKey? && Present(c, k);
    h := k.height;
  }

  lemma StoredIsIndexed(kv: KV, c: C.Client, h: Height)
    requires Agrees(kv, c) && h in c.entries
    ensures IterationKey(h) in kv && HasPrefix(IterationKey(h), ITERATE)
  {
    ImageLookup(kv, Contents(c), IterKey(h));
    ClientKeyIsNotIterated(IterKey(h));
  }

  /** The keys of the index are the iteration keys of the stored heights. */
  lemma IndexKeys(kv: KV, c: C.Client)
    requires Agrees(kv, c)
    ensures PrefixKeys(kv, ITERATE) == IndexOf(c.entries.Keys)
  {
    forall b | b in PrefixKeys(kv, ITERATE) ensures b in IndexOf(c.entries.Keys) {
      var h := IndexKeyIsStored(kv, c, b);
    }
    forall h | h in c.entries ensures IterationKey(h) in PrefixKeys(kv, ITERATE) {
      StoredIsIndexed(kv, c, h);
    }
  }

  lemma FollowIndex(kv: KV, c: C.Client, h: Height)
    requires Agrees(kv, c) && h in c.entries
    ensures IterationKey(h) in kv && kv[IterationKey(h)] == Raw(ConsensusStatePath(h))
    ensures Follow(kv, kv[IterationKey(h)]) == Some(c.entries[h].consensus)
  {
    ImageLookup(kv, Contents(c), IterKey(h));
    ImageLookup(kv, Contents(c), ConsensusKey(h));
  }

  /** The least of a set of iteration keys belongs to the least height. */
  lemma LeastIsLowest(hs: set<Height>, keys: set<Bytes>)
    requires keys == IndexOf(hs)
    requires hs != {}
    ensures keys != {}
    ensures exists x :: x in hs && Least(keys) == IterationKey(x) && forall y :: y in hs ==> Lte(x, y)
  {
    var e :| e in hs;
    assert IterationKey(e) in keys;
    var k := Least(keys);
    assert IsLeast(k, keys);
    var x :| x in hs && IterationKey(x) == k;
    forall y | y in hs ensures Lte(x, y) {
      IterationKeyOrder(x, y);
      assert IterationKey(y) in keys;
      var l := IterationKey(y);
      assert l == k || Less(k, l);
    }
  }

  lemma GreatestIsHighest(hs: set<Height>, keys: set<Bytes>)
    requires keys == IndexOf(hs)
    requires hs != {}
    ensures keys != {}
    ensures exists x :: x in hs && Greatest(keys) == IterationKey(x) && forall y :: y in hs ==> Lte(y, x)
  {
    var e :| e in hs;
    assert IterationKey(e) in keys;
    var k := Greatest(keys);
    assert IsGreatest(k, keys);
    var x :| x in hs && IterationKey(x) == k;
    forall y | y in hs ensures Lte(y, x) {
      IterationKeyOrder(y, x);
      assert IterationKey(y) in keys;
      var l := IterationKey(y);
      assert l == k || Less(l, k);
    }
  }

  /** The part of the index that an iterator started at `h` visits. */
  lemma IndexFrom(kv: KV, c: C.Client, h: Height)
    requires Agrees(kv, c)
    ensures KeysFrom(kv, IterationKey(h)) == IndexOf(set y | y in c.entries && !Lt(y, h))
    ensures KeysBelow(kv, IterationKey(h)) == IndexOf(set y | y in c.entries && Lt(y, h))
  {
    IndexKeys(kv, c);
    forall y ensures Less(IterationKey(y), IterationKey(h)) == Lt(y, h) {
      IterationKeyOrder(y, h);
    }
  }

  /** `GetPreviousConsensusState` returns the state at the greatest stored height strictly
      below `h`, and nothing exactly when there is none. */
  lemma PreviousIsGreatestBelow(kv: KV, c: C.Client, h: Height)
    requires Agrees(kv, c)
    ensures match GetPreviousConsensusState(kv, h)
            case None => forall y :: y in c.entries ==> !Lt(y, h)
            case Some(s) => exists x :: C.IsPrevious(c, h, x) && s == c.entries[x].consensus
  {
    IndexFrom(kv, c, h);
    var below := set y | y in c.entries && Lt(y, h);
    var keys := KeysBelow(kv, IterationKey(h));
    if below == {} {
      assert keys == {};
      forall y | y in c.entries ensures !Lt(y, h) {
        assert y !in below;
      }
    } else {
      GreatestIsHighest(below, keys);
      var x :| x in below && Greatest(keys) == IterationKey(x) && forall y :: y in below ==> Lte(y, x);
      FollowIndex(kv, c, x);
      assert C.IsPrevious(c, h, x);
    }
  }

  /** `GetNextConsensusState` returns the state at the least stored height strictly above
      `h`, whether or not `h` is stored, and nothing exactly when there is none. */
  lemma NextIsLeastAbove(kv: KV, c: C.Client, h: Height)
    requires Agrees(kv, c)
    ensures match GetNextConsensusState(kv, h)
            case None => forall y :: y in c.entries ==> !Lt(h, y)
            case Some(s) => exists x :: C.IsNext(c, h, x) && s == c.entries[x].consensus
  {
    hide IterationKey, Image, Contents, KeysFrom;
    IndexFrom(kv, c, h);
    var from := set y | y in c.entries && !Lt(y, h);
    var keys := KeysFrom(kv, IterationKey(h));
    if from == {} {
      assert keys == {};
      forall y | y in c.entries ensures !Lt(h, y) {
        assert y !in from;
      }
    } else {
      LeastIsLowest(from, keys);
      var x :| x in from && Least(keys) == IterationKey(x) && forall y :: y in from ==> Lte(x, y);
      FollowIndex(kv, c, x);
      if x == h {
        NextAfterStored(kv, c, h, from, keys);
      } else {
        if ConsensusStatePath(x) == ConsensusStatePath(h) {
          RenderInjective(ConsensusKey(x), ConsensusKey(h));
        }
        assert C.IsNext(c, h, x);
      }
    }
  }

  lemma IndexWithout(hs: set<Height>, h: Height)
    ensures IndexOf(hs) - {IterationKey(h)} == IndexOf(hs - {h})
  {
    forall x | x in hs ensures IterationKey(x) == IterationKey(h) ==> x == h {
      IterationKeyOrder(x, h);
    }
  }

  lemma NextAfterStored(kv: KV, c: C.Client, h: Height, from: set<Height>, keys: set<Bytes>)
    requires Agrees(kv, c) && h in c.entries
    requires from == set y | y in c.entries && !Lt(y, h)
    requires keys == IndexOf(from)
    requires keys == KeysFrom(kv, IterationKey(h))
    requires keys != {} && Least(keys) == IterationKey(h)
    ensures match GetNextConsensusState(kv, h)
            case None => forall y :: y in c.entries ==> !Lt(h, y)
            case Some(s) => exists x :: C.IsNext(c, h, x) && s == c.entries[x].consensus
  {
    hide IterationKey, Image, Contents, KeysFrom;
    FollowIndex(kv, c, h);
    var above := from - {h};
    var rest := keys - {IterationKey(h)};
    IndexWithout(from, h);
    if above == {} {
      assert rest == {};
      forall y | y in c.entries ensures !Lt(h, y) {
        assert y !in above;
      }
    } else {
      LeastIsLowest(above, rest);
      var x :| x in above && Least(rest) == IterationKey(x) && forall y :: y in above ==> Lte(x, y);
      FollowIndex(kv, c, x);
      assert C.IsNext(c, h, x);
    }
  }

  // ---------------------------------------------------------------------------
  // Misbehaviour
  // ---------------------------------------------------------------------------

  /** `CheckForMisbehaviour`. */
  predicate CheckForMisbehaviour(kv: KV, m: C.Message) {
    match m
    case Update(h) =>
      var cons := C.HeaderConsensus(h);
      var existing := GetConsensusState(kv, h.height);
      if existing.Some? then existing.value != cons
      else
        var prev := GetPreviousConsensusState(kv, h.height);
        var next := GetNextConsensusState(kv, h.height);
        || (prev.Some? && !(prev.value.timestamp < cons.timestamp))
        || (next.Some? && !(next.value.timestamp > cons.timestamp))
    case Misbehaviour(_, _) => C.IsMisbehaviour(m)
  }

  /** On an agreeing store with monotone time, looking at the neighbours alone is the same
      as checking the header against every stored state. */
  lemma NeighbourCheckIsWholeStoreCheck(kv: KV, c: C.Client, h: C.Header)
    requires Agrees(kv, c) && C.Monotone(c.entries)
    ensures !CheckForMisbehaviour(kv, C.Update(h)) <==> C.NoConflict(c.entries, h.height, C.HeaderConsensus(h))
  {
    hide GetPreviousConsensusState, GetNextConsensusState, GetConsensusState, Image, Contents;
    ReadsAgree(kv, c, h.height);
    PreviousIsGreatestBelow(kv, c, h.height);
    NextIsLeastAbove(kv, c, h.height);
  }

  /** On every agreeing store the check compares the header with its own height or with its
      two neighbours. */
  lemma CheckReadsNeighbours(kv: KV, c: C.Client, h: C.Header)
    requires Agrees(kv, c)
    ensures CheckForMisbehaviour(kv, C.Update(h)) <==> C.NeighbourConflict(c, h.height, C.HeaderConsensus(h))
  {
    hide GetPreviousConsensusState, GetNextConsensusState, GetConsensusState, Image, Contents;
    ReadsAgree(kv, c, h.height);
    PreviousIsGreatestBelow(kv, c, h.height);
    NextIsLeastAbove(kv, c, h.height);
  }

  /** The neighbours are enough for every header exactly when time is monotone. */
  lemma NeighboursSufficeIff(kv: KV, c: C.Client)
    requires Agrees(kv, c)
    ensures (forall h :: !CheckForMisbehaviour(kv, C.Update(h)) <==> C.NoConflict(c.entries, h.height, C.HeaderConsensus(h)))
       <==> C.Monotone(c.entries)
  {
    hide CheckForMisbehaviour, Image, Contents;
    if C.Monotone(c.entries) {
      forall h ensures !CheckForMisbehaviour(kv, C.Update(h)) <==> C.NoConflict(c.entries, h.height, C.HeaderConsensus(h)) {
        NeighbourCheckIsWholeStoreCheck(kv, c, h);
      }
    } else {
      var x, y :| x in c.entries && y in c.entries && Lt(x, y)
        && c.entries[x].consensus.timestamp >= c.entries[y].consensus.timestamp;
      var cons := c.entries[x].consensus;
      var h := C.Header(x, cons.timestamp, cons.root, cons.nextValidatorsHash, x, None, true);
      CheckReadsNeighbours(kv, c, h);
      assert C.HeaderConsensus(h) == cons;
      assert !C.NoConflict(c.entries, h.height, C.HeaderConsensus(h));
    }
  }

  /** `verifyDelayPeriodPassed` on the byte store. */
  function VerifyDelayPeriodPassed(kv: KV, ctx: C.Context, h: Height, delayTime: U64, delayBlocks: U64): C.DelayResult {
    C.DelayCheck(ctx, GetProcessedTime(kv, h), GetProcessedHeight(kv, h), delayTime, delayBlocks)
  }

  lemma DelayAgrees(kv: KV, c: C.Client, ctx: C.Context, h: Height, delayTime: U64, delayBlocks: U64)
    requires Agrees(kv, c)
    ensures VerifyDelayPeriodPassed(kv, ctx, h, delayTime, delayBlocks) == C.VerifyDelay(c, ctx, h, delayTime, delayBlocks)
  {
    ReadsAgree(kv, c, h);
  }
}
