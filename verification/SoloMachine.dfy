/** The solo machine light client: a sequence number, a timestamp and a public key that one
    party advances by signing. */
module SoloMachine {
  import opened ByteStrings
  import opened SignBytesCodec
  import Wire

  /** `publicKey` is the encoded key, or `None` for nil. */
  datatype ConsensusState = ConsensusState(publicKey: Option<Bytes>, diversifier: Bytes, timestamp: U64)

  datatype ClientState = ClientState(sequence: U64, isFrozen: bool, consensus: ConsensusState)

  /** Foreign code: signature verification (key, message, signature data), whether an encoded
      key is a public key, decoding of signature data, and `url.PathEscape`. */
  datatype Env = Env(
    verify: (Bytes, Bytes, Bytes) -> bool,
    isKey: Bytes -> bool,
    decodes: Bytes -> bool,
    escape: Bytes -> Bytes)

  datatype Proof = NoProof | Undecodable | Timestamped(timestamp: U64, signature: Bytes)

  /** A path that is not a Merkle path is `None`. */
  datatype Request =
    | Header(timestamp: U64, newPublicKey: Option<Bytes>, newDiversifier: Bytes, signature: Bytes)
    | Membership(proof: Proof, path: Option<seq<Bytes>>, value: Bytes)
    | NonMembership(proof: Proof, path: Option<seq<Bytes>>)
    | Misbehaviour

  const SENTINEL_HEADER_PATH := Ascii("solomachine:header")

  /** `MerklePath.String`. */
  function PathText(env: Env, keys: seq<Bytes>): Bytes {
    if keys == [] then [] else PathText(env, keys[..|keys| - 1]) + [SLASH] + env.escape(keys[|keys| - 1])
  }

  // ---------------------------------------------------------------------------
  // One request
  // ---------------------------------------------------------------------------

  /** `ConsensusState.GetPubKey` returns no error. */
  predicate HasKey(env: Env, cs: ClientState) {
    cs.consensus.publicKey.Some? && env.isKey(cs.consensus.publicKey.value)
  }

  /** `produceVerificationArgs` returns no error. */
  predicate ProofUsable(env: Env, cs: ClientState, proof: Proof) {
    && proof.Timestamped?
    && proof.signature != []
    && env.decodes(proof.signature)
    && cs.consensus.timestamp <= proof.timestamp
    && HasKey(env, cs)
  }

  /** The message whose signature the request must carry, when it gets that far. */
  function Message(env: Env, cs: ClientState, r: Request): Option<SignBytes> {
    match r
    case Header(ts, key, diversifier, signature) =>
      if ts < cs.consensus.timestamp || !env.decodes(signature) || !HasKey(env, cs) then None
      else
        Some(SignBytes(cs.sequence, ts, cs.consensus.diversifier, SENTINEL_HEADER_PATH,
                       EncodeHeaderData(key, diversifier)))
    case Membership(proof, path, value) =>
      if !ProofUsable(env, cs, proof) || path.None? || path.value == [] then None
      else Some(SignBytes(cs.sequence, proof.timestamp, cs.consensus.diversifier, PathText(env, path.value), value))
    case NonMembership(proof, path) =>
      if !ProofUsable(env, cs, proof) || path.None? then None
      else Some(SignBytes(cs.sequence, proof.timestamp, cs.consensus.diversifier, PathText(env, path.value), []))
    case Misbehaviour => None
  }

  function Signature(r: Request): Bytes {
    match r
    case Header(_, _, _, s) => s
    case Membership(Timestamped(_, s), _, _) => s
    case NonMembership(Timestamped(_, s), _) => s
    case _ => []
  }

  /** The request is accepted: its message is signed by the registered key. */
  predicate Accepted(env: Env, cs: ClientState, r: Request) {
    var m := Message(env, cs, r);
    m.Some? && env.verify(cs.consensus.publicKey.value, EncodeSignBytes(m.value), Signature(r))
  }

  /** The client state after the request; an error leaves it alone. */
  function After(env: Env, cs: ClientState, r: Request): ClientState {
    if r.Misbehaviour? then cs.(isFrozen := true)
    else if !Accepted(env, cs, r) then cs
    else
      var next := (cs.sequence + 1) % TWO_64;
      match r
      case Header(ts, key, diversifier, _) => cs.(sequence := next, consensus := ConsensusState(key, diversifier, ts))
      case Membership(proof, _, _) => cs.(sequence := next, consensus := cs.consensus.(timestamp := proof.timestamp))
      case NonMembership(proof, _) => cs.(sequence := next, consensus := cs.consensus.(timestamp := proof.timestamp))
  }

  lemma HeaderDataFits(env: Env, cs: ClientState, h: Request)
    requires h.Header? && Message(env, cs, h).Some? && Fits(Message(env, cs, h).value)
    ensures |EncodeHeaderData(h.newPublicKey, h.newDiversifier)| < TWO_63
  {
  }

  /** The stored client state and the operations that write it. */
  class Client {
    var stored: ClientState

    constructor (initial: ClientState)
      ensures stored == initial
    {
      stored := initial;
    }

    /** `produceVerificationArgs`. */
    method ProduceVerificationArgs(env: Env, proof: Proof) returns (ok: bool)
      ensures ok == ProofUsable(env, stored, proof)
    {
      match proof
      case NoProof => return false;
      case Undecodable => return false;
      case Timestamped(timestamp, signature) =>
        if signature == [] || !env.decodes(signature) {
          return false;
        }
        if stored.consensus.timestamp > timestamp {
          return false;
        }
        return HasKey(env, stored);
    }

    /** The end both verifications share: the message is signed, then sequence and timestamp
        move on. */
    method VerifyAndAdvance(env: Env, proof: Proof, path: Bytes, data: Bytes) returns (ok: bool)
      requires ProofUsable(env, stored, proof)
      requires Fits(SignBytes(stored.sequence, proof.timestamp, stored.consensus.diversifier, path, data))
      modifies this
      ensures var m := SignBytes(old(stored).sequence, proof.timestamp, old(stored).consensus.diversifier, path, data);
              ok == env.verify(old(stored).consensus.publicKey.value, EncodeSignBytes(m), proof.signature)
      ensures stored == if !ok then old(stored) else
                old(stored).(sequence := (old(stored).sequence + 1) % TWO_64,
                             consensus := old(stored).consensus.(timestamp := proof.timestamp))
    {
      hide EncodeSignBytes, DecodeSignBytes, Fits;
      var cs := stored;
      var signBz := Marshal(SignBytes(cs.sequence, proof.timestamp, cs.consensus.diversifier, path, data));
      if !env.verify(cs.consensus.publicKey.value, signBz, proof.signature) {
        return false;
      }
      cs := cs.(sequence := (cs.sequence + 1) % TWO_64);
      cs := cs.(consensus := cs.consensus.(timestamp := proof.timestamp));
      stored := cs;
      return true;
    }

    /** `VerifyMembership`: an empty path is refused. */
    method VerifyMembership(env: Env, proof: Proof, path: Option<seq<Bytes>>, value: Bytes) returns (ok: bool)
      requires var m := Message(env, stored, Membership(proof, path, value)); m.Some? ==> Fits(m.value)
      modifies this
      ensures ok == Accepted(env, old(stored), Membership(proof, path, value))
      ensures stored == After(env, old(stored), Membership(proof, path, value))
    {
      hide EncodeSignBytes, Fits, PathText;
      ok := ProduceVerificationArgs(env, proof);
      if !ok || path.None? || path.value == [] {
        return false;
      }
      ok := VerifyAndAdvance(env, proof, PathText(env, path.value), value);
    }

    /** `VerifyNonMembership`: the signed data is empty, and the path may be. */
    method VerifyNonMembership(env: Env, proof: Proof, path: Option<seq<Bytes>>) returns (ok: bool)
      requires var m := Message(env, stored, NonMembership(proof, path)); m.Some? ==> Fits(m.value)
      modifies this
      ensures ok == Accepted(env, old(stored), NonMembership(proof, path))
      ensures stored == After(env, old(stored), NonMembership(proof, path))
    {
      hide EncodeSignBytes, Fits, PathText;
      ok := ProduceVerificationArgs(env, proof);
      if !ok || path.None? {
        return false;
      }
      ok := VerifyAndAdvance(env, proof, PathText(env, path.value), []);
    }

    /** `verifyHeader` followed by `UpdateState`. */
    method UpdateClient(env: Env, h: Request) returns (ok: bool)
      requires h.Header?
      requires Message(env, stored, h).Some? ==> Fits(Message(env, stored, h).value)
      modifies this
      ensures ok == Accepted(env, old(stored), h) && stored == After(env, old(stored), h)
    {
      hide EncodeSignBytes, DecodeSignBytes, Fits, EncodeHeaderData;
      var cs := stored;
      if h.timestamp < cs.consensus.timestamp {
        return false;
      }
      if !env.decodes(h.signature) || !HasKey(env, cs) {
        return false;
      }
      HeaderDataFits(env, cs, h);
      var headerData := MarshalHeaderData(h.newPublicKey, h.newDiversifier);
      var signBytes := SignBytes(cs.sequence, h.timestamp, cs.consensus.diversifier, SENTINEL_HEADER_PATH, headerData);
      var data := Marshal(signBytes);
      if !env.verify(cs.consensus.publicKey.value, data, h.signature) {
        return false;
      }
      cs := cs.(sequence := (cs.sequence + 1) % TWO_64);
      cs := cs.(consensus := ConsensusState(h.newPublicKey, h.newDiversifier, h.timestamp));
      stored := cs;
      return true;
    }

    method UpdateStateOnMisbehaviour(ghost env: Env)
      modifies this
      ensures stored == After(env, old(stored), Misbehaviour)
    {
      stored := stored.(isFrozen := true);
    }
  }

  // ---------------------------------------------------------------------------
  // What a signature covers
  // ---------------------------------------------------------------------------

  /** The value a proof is about; absence is signed as the empty value. */
  function ValueOf(p: Request): Bytes
    requires p.Membership? || p.NonMembership?
  {
    if p.Membership? then p.value else []
  }

  /** If proofs in any two states are signed as the same bytes, they are about the same value
      at the same path, with the same timestamp, diversifier and sequence number. */
  lemma ProofsCover(env: Env, cs1: ClientState, p: Request, cs2: ClientState, q: Request)
    requires (p.Membership? || p.NonMembership?) && (q.Membership? || q.NonMembership?)
    requires Message(env, cs1, p).Some? && Message(env, cs2, q).Some?
    requires Fits(Message(env, cs1, p).value) && Fits(Message(env, cs2, q).value)
    requires EncodeSignBytes(Message(env, cs1, p).value) == EncodeSignBytes(Message(env, cs2, q).value)
    ensures ValueOf(p) == ValueOf(q)
    ensures PathText(env, p.path.value) == PathText(env, q.path.value)
    ensures p.proof.timestamp == q.proof.timestamp
    ensures cs1.consensus.diversifier == cs2.consensus.diversifier && cs1.sequence == cs2.sequence
    ensures EscapesApart(env) ==> p.path == q.path
  {
    hide EncodeSignBytes, Fits, PathText, EscapesApart;
    Injective(Message(env, cs1, p).value, Message(env, cs2, q).value);
    if EscapesApart(env) {
      PathTextInjective(env, p.path.value, q.path.value);
    }
  }

  /** Likewise for headers: the signature covers the new key and the new diversifier. */
  lemma HeadersCover(env: Env, cs1: ClientState, h: Request, cs2: ClientState, g: Request)
    requires h.Header? && g.Header?
    requires Message(env, cs1, h).Some? && Message(env, cs2, g).Some?
    requires Fits(Message(env, cs1, h).value) && Fits(Message(env, cs2, g).value)
    requires EncodeSignBytes(Message(env, cs1, h).value) == EncodeSignBytes(Message(env, cs2, g).value)
    ensures h.newPublicKey == g.newPublicKey && h.newDiversifier == g.newDiversifier && h.timestamp == g.timestamp
    ensures cs1.consensus.diversifier == cs2.consensus.diversifier && cs1.sequence == cs2.sequence
  {
    hide EncodeSignBytes, Fits, EncodeHeaderData;
    Injective(Message(env, cs1, h).value, Message(env, cs2, g).value);
    HeaderDataFits(env, cs1, h);
    HeaderDataInjective(h.newPublicKey, h.newDiversifier, g.newPublicKey, g.newDiversifier);
  }

  /** A signature over the absence of a path is accepted as one over a value there, in the
      same state, exactly when that value is empty. */
  lemma AbsenceIsEmptyValue(env: Env, cs: ClientState, proof: Proof, path: seq<Bytes>, value: Bytes)
    requires path != [] && ProofUsable(env, cs, proof)
    requires Fits(Message(env, cs, Membership(proof, Some(path), value)).value)
    requires Fits(Message(env, cs, NonMembership(proof, Some(path))).value)
    ensures EncodeSignBytes(Message(env, cs, Membership(proof, Some(path), value)).value)
              == EncodeSignBytes(Message(env, cs, NonMembership(proof, Some(path))).value)
       <==> value == []
  {
    hide EncodeSignBytes, Fits, PathText;
    var p, q := Membership(proof, Some(path), value), NonMembership(proof, Some(path));
    if EncodeSignBytes(Message(env, cs, p).value) == EncodeSignBytes(Message(env, cs, q).value) {
      ProofsCover(env, cs, p, cs, q);
    }
  }

  /** What `url.PathEscape` guarantees: no slash in its results, and different ones for
      different keys. */
  ghost predicate EscapesApart(env: Env) {
    && (forall k :: SLASH !in env.escape(k))
    && (forall k, l :: env.escape(k) == env.escape(l) ==> k == l)
  }

  function Escaped(env: Env, keys: seq<Bytes>): (es: seq<Bytes>)
    ensures |es| == |keys| && forall i :: 0 <= i < |keys| ==> es[i] == env.escape(keys[i])
  {
    seq(|keys|, i requires 0 <= i < |keys| => env.escape(keys[i]))
  }

  /** The text of a path is a slash before each escaped key. */
  lemma {:induction false} PathTextJoins(env: Env, keys: seq<Bytes>)
    ensures PathText(env, keys) == Join([[]] + Escaped(env, keys), SLASH)
  {
    if keys != [] {
      var front := keys[..|keys| - 1];
      PathTextJoins(env, front);
      assert [[]] + Escaped(env, keys) == ([[]] + Escaped(env, front)) + [env.escape(keys[|keys| - 1])];
      JoinAtEnd([[]] + Escaped(env, front), env.escape(keys[|keys| - 1]));
    }
  }

  lemma {:induction false} JoinAtEnd(parts: seq<Bytes>, last: Bytes)
    requires parts != []
    ensures Join(parts + [last], SLASH) == Join(parts, SLASH) + [SLASH] + last
    decreases |parts|
  {
    assert (parts + [last])[1..] == parts[1..] + [last];
    if |parts| == 1 {
      assert parts[1..] + [last] == [last];
    } else {
      JoinAtEnd(parts[1..], last);
    }
  }

  lemma PathTextInjective(env: Env, keys: seq<Bytes>, other: seq<Bytes>)
    requires EscapesApart(env) && PathText(env, keys) == PathText(env, other)
    ensures keys == other
  {
    hide PathText;
    var x, y := Escaped(env, keys), Escaped(env, other);
    PathTextJoins(env, keys);
    PathTextJoins(env, other);
    SplitJoin([[]] + x, SLASH);
    SplitJoin([[]] + y, SLASH);
    assert x == ([[]] + x)[1..] == ([[]] + y)[1..] == y;
    forall i | 0 <= i < |keys| ensures keys[i] == other[i] {
      assert env.escape(keys[i]) == x[i] == y[i] == env.escape(other[i]);
    }
  }

  // ---------------------------------------------------------------------------
  // Runs
  // ---------------------------------------------------------------------------

  /** A request reaches the client only while its `Status` is Active, which is what the
      keepers ask first. */
  predicate Taken(env: Env, cs: ClientState, r: Request) {
    !cs.isFrozen && Accepted(env, cs, r)
  }

  function Step(env: Env, cs: ClientState, r: Request): ClientState {
    if cs.isFrozen then cs else After(env, cs, r)
  }

  /** The state after the requests, and how many of them were accepted. */
  function Run(env: Env, cs: ClientState, rs: seq<Request>): ClientState {
    if rs == [] then cs else Step(env, Run(env, cs, rs[..|rs| - 1]), rs[|rs| - 1])
  }

  function Acceptances(env: Env, cs: ClientState, rs: seq<Request>): nat {
    if rs == [] then 0
    else
      Acceptances(env, cs, rs[..|rs| - 1])
      + if Taken(env, Run(env, cs, rs[..|rs| - 1]), rs[|rs| - 1]) then 1 else 0
  }

  /** The request at `i` is accepted in the state the earlier ones lead to. */
  predicate AcceptedAt(env: Env, cs: ClientState, rs: seq<Request>, i: nat)
    requires i < |rs|
  {
    Taken(env, Run(env, cs, rs[..i]), rs[i])
  }

  function MessageAt(env: Env, cs: ClientState, rs: seq<Request>, i: nat): SignBytes
    requires i < |rs| && AcceptedAt(env, cs, rs, i)
  {
    Message(env, Run(env, cs, rs[..i]), rs[i]).value
  }

  lemma ModStep(a: int, b: int)
    ensures (a % TWO_64 + b) % TWO_64 == (a + b) % TWO_64
  {
    Wire.ModAdd(a, b);
  }

  /** The sequence number counts the acceptances, and the timestamp never goes back. */
  lemma {:induction false} SequenceCountsAcceptances(env: Env, cs: ClientState, rs: seq<Request>)
    ensures Run(env, cs, rs).sequence == (cs.sequence + Acceptances(env, cs, rs)) % TWO_64
    ensures Run(env, cs, rs).consensus.timestamp >= cs.consensus.timestamp
  {
    hide EncodeSignBytes, PathText;
    if rs != [] {
      var front := rs[..|rs| - 1];
      SequenceCountsAcceptances(env, cs, front);
      ModStep(cs.sequence + Acceptances(env, cs, front), 1);
    }
  }

  lemma RunStep(env: Env, cs: ClientState, rs: seq<Request>, i: nat)
    requires i < |rs|
    ensures Run(env, cs, rs[..i + 1]) == Step(env, Run(env, cs, rs[..i]), rs[i])
    ensures Acceptances(env, cs, rs[..i + 1])
         == Acceptances(env, cs, rs[..i]) + if AcceptedAt(env, cs, rs, i) then 1 else 0
  {
    hide After, Accepted;
    assert rs[..i + 1][..i] == rs[..i];
  }

  /** Between two positions there are at most as many acceptances as requests. */
  lemma {:induction false} AcceptancesBetween(env: Env, cs: ClientState, rs: seq<Request>, i: nat, j: nat)
    requires i <= j <= |rs|
    ensures Acceptances(env, cs, rs[..i]) <= Acceptances(env, cs, rs[..j]) <= Acceptances(env, cs, rs[..i]) + (j - i)
    decreases j - i
  {
    hide Acceptances, After, Accepted;
    if i < j {
      AcceptancesBetween(env, cs, rs, i, j - 1);
      RunStep(env, cs, rs, j - 1);
    }
  }

  lemma SequenceOfMessage(env: Env, cs: ClientState, r: Request)
    requires Accepted(env, cs, r)
    ensures Message(env, cs, r).value.sequence == cs.sequence
  {
    hide EncodeSignBytes, PathText;
  }

  lemma DifferentResidues(s: nat, a: nat, b: nat)
    requires a < b < a + TWO_64
    ensures (s + a) % TWO_64 != (s + b) % TWO_64
  {
  }

  /** No repeat: over every run, any two accepted messages less than 2^64 requests apart are
      signed as different bytes, so no signature is accepted twice. */
  lemma NoRepeat(env: Env, cs: ClientState, rs: seq<Request>, i: nat, j: nat)
    requires i < j < |rs| && j - i < TWO_64
    requires AcceptedAt(env, cs, rs, i) && AcceptedAt(env, cs, rs, j)
    requires Fits(MessageAt(env, cs, rs, i)) && Fits(MessageAt(env, cs, rs, j))
    ensures EncodeSignBytes(MessageAt(env, cs, rs, i)) != EncodeSignBytes(MessageAt(env, cs, rs, j))
  {
    hide EncodeSignBytes, Accepted, Message, Run, Acceptances, Fits;
    SequenceCountsAcceptances(env, cs, rs[..i]);
    SequenceCountsAcceptances(env, cs, rs[..j]);
    SequenceOfMessage(env, Run(env, cs, rs[..i]), rs[i]);
    SequenceOfMessage(env, Run(env, cs, rs[..j]), rs[j]);
    RunStep(env, cs, rs, i);
    AcceptancesBetween(env, cs, rs, i + 1, j);
    DifferentResidues(cs.sequence, Acceptances(env, cs, rs[..i]), Acceptances(env, cs, rs[..j]));
    if EncodeSignBytes(MessageAt(env, cs, rs, i)) == EncodeSignBytes(MessageAt(env, cs, rs, j)) {
      Injective(MessageAt(env, cs, rs, i), MessageAt(env, cs, rs, j));
    }
  }

  lemma PathTextStart(env: Env, keys: seq<Bytes>)
    ensures keys == [] || (PathText(env, keys) != [] && PathText(env, keys)[0] == SLASH)
    decreases |keys|
  {
    if |keys| > 1 {
      PathTextStart(env, keys[..|keys| - 1]);
    }
  }

  /** A signature over a header is never one over a proof, in whatever states the two are. */
  lemma HeadersAreNotProofs(env: Env, cs1: ClientState, h: Request, cs2: ClientState, p: Request)
    requires h.Header? && (p.Membership? || p.NonMembership?)
    requires Message(env, cs1, h).Some? && Message(env, cs2, p).Some?
    requires Fits(Message(env, cs1, h).value) && Fits(Message(env, cs2, p).value)
    ensures EncodeSignBytes(Message(env, cs1, h).value) != EncodeSignBytes(Message(env, cs2, p).value)
  {
    hide EncodeSignBytes, Fits, PathText;
    var m, l := Message(env, cs1, h).value, Message(env, cs2, p).value;
    PathTextStart(env, p.path.value);
    assert SENTINEL_HEADER_PATH[0] == 115;
    EmptyPathText(env);
    if EncodeSignBytes(m) == EncodeSignBytes(l) {
      Injective(m, l);
    }
  }

  lemma EmptyPathText(env: Env)
    ensures PathText(env, []) == []
  {
  }

  // ---------------------------------------------------------------------------
  // Where the state of a run comes from
  // ---------------------------------------------------------------------------

  /** The key in force signed exactly these bytes for the request. */
  predicate SignedBy(env: Env, key: Option<Bytes>, m: SignBytes, signature: Bytes) {
    && key.Some? && env.isKey(key.value) && env.decodes(signature)
    && env.verify(key.value, EncodeSignBytes(m), signature)
  }

  /** The header at `i` was signed by the key then in force, over the new key. */
  predicate HeaderSignedAt(env: Env, cs: ClientState, rs: seq<Request>, i: nat)
    requires i < |rs| && rs[i].Header?
  {
    var at, h := Run(env, cs, rs[..i]), rs[i];
    && !at.isFrozen && at.consensus.timestamp <= h.timestamp
    && SignedBy(env, at.consensus.publicKey,
                SignBytes(at.sequence, h.timestamp, at.consensus.diversifier, Ascii("solomachine:header"),
                          EncodeHeaderData(h.newPublicKey, h.newDiversifier)),
                h.signature)
  }

  /** The proof at `i` was signed by the key then in force, over path and value. */
  predicate ProofSignedAt(env: Env, cs: ClientState, rs: seq<Request>, i: nat)
    requires i < |rs| && (rs[i].Membership? || rs[i].NonMembership?)
  {
    var at, p := Run(env, cs, rs[..i]), rs[i];
    && !at.isFrozen && p.proof.Timestamped? && p.path.Some? && at.consensus.timestamp <= p.proof.timestamp
    && p.proof.signature != [] && (p.Membership? ==> p.path.value != [])
    && SignedBy(env, at.consensus.publicKey,
                SignBytes(at.sequence, p.proof.timestamp, at.consensus.diversifier, PathText(env, p.path.value),
                          if p.Membership? then p.value else []),
                p.proof.signature)
  }

  /** A request of a run is accepted exactly when the key in force at that point has signed
      what it says, with the sequence number of that point. */
  lemma AcceptedIffSigned(env: Env, cs: ClientState, rs: seq<Request>, i: nat)
    requires i < |rs|
    ensures AcceptedAt(env, cs, rs, i) <==>
              match rs[i]
              case Header(_, _, _, _) => HeaderSignedAt(env, cs, rs, i)
              case Misbehaviour => false
              case _ => ProofSignedAt(env, cs, rs, i)
  {
    hide EncodeSignBytes, PathText, Run, EncodeHeaderData;
    assert SENTINEL_HEADER_PATH == Ascii("solomachine:header");
  }

  /** Each request of a run moves the whole state as follows: an accepted one advances the
      sequence number and brings its timestamp, a header also key and diversifier; misbehaviour
      sets the flag; everything else changes nothing. */
  lemma StepExact(env: Env, cs: ClientState, rs: seq<Request>, i: nat)
    requires i < |rs|
    ensures var at, next := Run(env, cs, rs[..i]), Run(env, cs, rs[..i + 1]);
            && (AcceptedAt(env, cs, rs, i) ==>
                  && next.sequence == (at.sequence + 1) % TWO_64 && !next.isFrozen
                  && match rs[i]
                     case Header(ts, key, diversifier, _) => next.consensus == ConsensusState(key, diversifier, ts)
                     case _ => next.consensus == ConsensusState(at.consensus.publicKey, at.consensus.diversifier,
                                                                rs[i].proof.timestamp))
            && (!AcceptedAt(env, cs, rs, i) ==>
                  next == ClientState(at.sequence, at.isFrozen || rs[i].Misbehaviour?, at.consensus))
  {
    hide EncodeSignBytes, PathText, Run, EncodeHeaderData;
    RunStep(env, cs, rs, i);
  }

  /** The header at `i` gave the consensus state its key and diversifier, signed by the key
      in force before it, and no later header was accepted. */
  ghost predicate GivenBy(env: Env, cs: ClientState, rs: seq<Request>, i: int, c: ConsensusState) {
    && 0 <= i < |rs| && rs[i].Header? && HeaderSignedAt(env, cs, rs, i)
    && c.publicKey == rs[i].newPublicKey && c.diversifier == rs[i].newDiversifier
    && NoHeaderFrom(env, cs, rs, i + 1)
  }

  ghost predicate NoHeaderFrom(env: Env, cs: ClientState, rs: seq<Request>, i: nat) {
    forall j :: i <= j < |rs| && rs[j].Header? ==> !AcceptedAt(env, cs, rs, j)
  }

  lemma RunOfNone(env: Env, cs: ClientState)
    ensures Run(env, cs, []) == cs
  {
  }

  lemma SignedInFront(env: Env, cs: ClientState, rs: seq<Request>, i: nat)
    requires i < |rs| - 1 && rs[i].Header?
    ensures HeaderSignedAt(env, cs, rs[..|rs| - 1], i) == HeaderSignedAt(env, cs, rs, i)
  {
    assert rs[..|rs| - 1][..i] == rs[..i];
  }

  /** Chain of keys: after every run, key and diversifier are the initial ones, with no header
      accepted, or those of the last accepted header. */
  lemma {:induction false} KeyProvenance(env: Env, cs: ClientState, rs: seq<Request>)
    ensures var c := Run(env, cs, rs).consensus;
            || (&& c.publicKey == cs.consensus.publicKey && c.diversifier == cs.consensus.diversifier
                && NoHeaderFrom(env, cs, rs, 0))
            || (exists i :: GivenBy(env, cs, rs, i, c))
  {
    hide EncodeSignBytes, PathText, EncodeHeaderData, Taken, HeaderSignedAt, Run;
    RunOfNone(env, cs);
    if rs != [] {
      var n := |rs| - 1;
      var front, c := rs[..n], Run(env, cs, rs).consensus;
      KeyProvenance(env, cs, front);
      AcceptedIffSigned(env, cs, rs, n);
      StepExact(env, cs, rs, n);
      assert rs[..n + 1] == rs;
      forall j | 0 <= j < n ensures AcceptedAt(env, cs, front, j) == AcceptedAt(env, cs, rs, j) {
        assert front[..j] == rs[..j];
      }
      if rs[n].Header? && AcceptedAt(env, cs, rs, n) {
        assert GivenBy(env, cs, rs, n, c);
      } else if exists i :: GivenBy(env, cs, front, i, Run(env, cs, front).consensus) {
        var i :| GivenBy(env, cs, front, i, Run(env, cs, front).consensus);
        SignedInFront(env, cs, rs, i);
        assert GivenBy(env, cs, rs, i, c);
      }
    }
  }

  /** Misbehaviour freezes the client, and nothing that follows changes it. */
  lemma {:induction false} FrozenIsFinal(env: Env, cs: ClientState, rs: seq<Request>, i: nat)
    requires i < |rs| && rs[i].Misbehaviour?
    ensures var c := Run(env, cs, rs);
            c.isFrozen && c == Run(env, cs, rs[..i]).(isFrozen := true)
    decreases |rs|
  {
    hide Accepted;
    var front := rs[..|rs| - 1];
    if i < |rs| - 1 {
      assert front[..i] == rs[..i];
      FrozenIsFinal(env, cs, front, i);
    }
  }
}
