/** ICS 24 host paths: builders, parsers and identifier validation. */
module HostPaths {
  import opened ByteStrings
  import opened Heights

  const CLIENTS := Ascii("clients")
  const CLIENT_STATE := Ascii("clientState")
  const CONSENSUS_STATES := Ascii("consensusStates")
  const CONNECTIONS := Ascii("connections")
  const CHANNEL_ENDS := Ascii("channelEnds")
  const CHANNELS := Ascii("channels")
  const PORTS := Ascii("ports")
  const SEQUENCES := Ascii("sequences")
  const CAPABILITIES := Ascii("capabilities")
  const NEXT_SEQ_SEND := Ascii("nextSequenceSend")
  const NEXT_SEQ_RECV := Ascii("nextSequenceRecv")
  const NEXT_SEQ_ACK := Ascii("nextSequenceAck")
  const COMMITMENTS := Ascii("commitments")
  const ACKS := Ascii("acks")
  const RECEIPTS := Ascii("receipts")

  // ---------------------------------------------------------------------------
  // Builders
  // ---------------------------------------------------------------------------

  /** `fmt.Sprintf("%s/%s", a, b)`. */
  function Slashed(a: Bytes, b: Bytes): Bytes {
    a + [SLASH] + b
  }

  function FullClientPath(client: Bytes, path: Bytes): Bytes {
    Slashed(CLIENTS, Slashed(client, path))
  }

  function FullClientStatePath(client: Bytes): Bytes {
    FullClientPath(client, CLIENT_STATE)
  }

  function ConsensusStatePath(h: Height): Bytes {
    Slashed(CONSENSUS_STATES, Text(h))
  }

  function FullConsensusStatePath(client: Bytes, h: Height): Bytes {
    FullClientPath(client, ConsensusStatePath(h))
  }

  function ClientConnectionsPath(client: Bytes): Bytes {
    FullClientPath(client, CONNECTIONS)
  }

  function ConnectionPath(connection: Bytes): Bytes {
    Slashed(CONNECTIONS, connection)
  }

  function ChannelSubpath(port: Bytes, channel: Bytes): Bytes {
    Slashed(PORTS, Slashed(port, Slashed(CHANNELS, channel)))
  }

  function ChannelPath(port: Bytes, channel: Bytes): Bytes {
    Slashed(CHANNEL_ENDS, ChannelSubpath(port, channel))
  }

  function ChannelCapabilityPath(port: Bytes, channel: Bytes): Bytes {
    Slashed(CAPABILITIES, ChannelSubpath(port, channel))
  }

  function NextSequenceSendPath(port: Bytes, channel: Bytes): Bytes {
    Slashed(NEXT_SEQ_SEND, ChannelSubpath(port, channel))
  }

  function NextSequenceRecvPath(port: Bytes, channel: Bytes): Bytes {
    Slashed(NEXT_SEQ_RECV, ChannelSubpath(port, channel))
  }

  function NextSequenceAckPath(port: Bytes, channel: Bytes): Bytes {
    Slashed(NEXT_SEQ_ACK, ChannelSubpath(port, channel))
  }

  function PacketCommitmentPrefixPath(port: Bytes, channel: Bytes): Bytes {
    Slashed(COMMITMENTS, Slashed(ChannelSubpath(port, channel), SEQUENCES))
  }

  function PacketCommitmentPath(port: Bytes, channel: Bytes, sequence: U64): Bytes {
    Slashed(PacketCommitmentPrefixPath(port, channel), Decimal(sequence))
  }

  function PacketAcknowledgementPrefixPath(port: Bytes, channel: Bytes): Bytes {
    Slashed(ACKS, Slashed(ChannelSubpath(port, channel), SEQUENCES))
  }

  function PacketAcknowledgementPath(port: Bytes, channel: Bytes, sequence: U64): Bytes {
    Slashed(PacketAcknowledgementPrefixPath(port, channel), Decimal(sequence))
  }

  function PacketReceiptPath(port: Bytes, channel: Bytes, sequence: U64): Bytes {
    Slashed(RECEIPTS, Slashed(ChannelSubpath(port, channel), Slashed(SEQUENCES, Decimal(sequence))))
  }

  function PortPath(port: Bytes): Bytes {
    Slashed(PORTS, port)
  }

  // ---------------------------------------------------------------------------
  // The texts of ICS 24
  // ---------------------------------------------------------------------------

  lemma ClientTexts(client: Bytes, connection: Bytes, port: Bytes, h: Height)
    ensures FullClientStatePath(client) == Ascii("clients/") + client + Ascii("/clientState")
    ensures FullConsensusStatePath(client, h)
         == Ascii("clients/") + client + Ascii("/consensusStates/") + Decimal(h.revision) + Ascii("-") + Decimal(h.number)
    ensures ClientConnectionsPath(client) == Ascii("clients/") + client + Ascii("/connections")
    ensures ConnectionPath(connection) == Ascii("connections/") + connection
    ensures PortPath(port) == Ascii("ports/") + port
  {
    hide Decimal, Ascii;
    ClientWords();
  }

  lemma ClientWords()
    ensures Ascii("clients/") == CLIENTS + [SLASH]
    ensures Ascii("/clientState") == [SLASH] + CLIENT_STATE
    ensures Ascii("/connections") == [SLASH] + CONNECTIONS
    ensures Ascii("/consensusStates/") == [SLASH] + CONSENSUS_STATES + [SLASH]
    ensures Ascii("-") == [DASH]
    ensures Ascii("connections/") == CONNECTIONS + [SLASH] && Ascii("ports/") == PORTS + [SLASH]
  {
  }

  /** The part of a text that names port and channel. */
  function ChannelText(port: Bytes, channel: Bytes): Bytes {
    Ascii("/ports/") + port + Ascii("/channels/") + channel
  }

  lemma ChannelSubpathText(root: Bytes, port: Bytes, channel: Bytes)
    ensures Slashed(root, ChannelSubpath(port, channel)) == root + ChannelText(port, channel)
  {
    assert Ascii("/ports/") == [SLASH] + PORTS + [SLASH];
    assert Ascii("/channels/") == [SLASH] + CHANNELS + [SLASH];
  }

  lemma ChannelTexts(port: Bytes, channel: Bytes)
    ensures ChannelPath(port, channel) == Ascii("channelEnds") + ChannelText(port, channel)
    ensures ChannelCapabilityPath(port, channel) == Ascii("capabilities") + ChannelText(port, channel)
    ensures NextSequenceSendPath(port, channel) == Ascii("nextSequenceSend") + ChannelText(port, channel)
    ensures NextSequenceRecvPath(port, channel) == Ascii("nextSequenceRecv") + ChannelText(port, channel)
    ensures NextSequenceAckPath(port, channel) == Ascii("nextSequenceAck") + ChannelText(port, channel)
  {
    hide ChannelText, ChannelSubpath, Slashed;
    ChannelSubpathText(CHANNEL_ENDS, port, channel);
    ChannelSubpathText(CAPABILITIES, port, channel);
    ChannelSubpathText(NEXT_SEQ_SEND, port, channel);
    ChannelSubpathText(NEXT_SEQ_RECV, port, channel);
    ChannelSubpathText(NEXT_SEQ_ACK, port, channel);
  }

  lemma SequenceText(root: Bytes, port: Bytes, channel: Bytes, n: Bytes)
    ensures Slashed(Slashed(root, Slashed(ChannelSubpath(port, channel), SEQUENCES)), n)
         == root + ChannelText(port, channel) + Ascii("/sequences/") + n
    ensures Slashed(root, Slashed(ChannelSubpath(port, channel), Slashed(SEQUENCES, n)))
         == root + ChannelText(port, channel) + Ascii("/sequences/") + n
  {
    hide ChannelText, ChannelSubpath;
    ChannelSubpathText(root, port, channel);
    assert Ascii("/sequences/") == [SLASH] + SEQUENCES + [SLASH];
  }

  lemma PacketTexts(port: Bytes, channel: Bytes, n: U64)
    ensures PacketCommitmentPath(port, channel, n)
         == Ascii("commitments") + ChannelText(port, channel) + Ascii("/sequences/") + Decimal(n)
    ensures PacketAcknowledgementPath(port, channel, n)
         == Ascii("acks") + ChannelText(port, channel) + Ascii("/sequences/") + Decimal(n)
    ensures PacketReceiptPath(port, channel, n)
         == Ascii("receipts") + ChannelText(port, channel) + Ascii("/sequences/") + Decimal(n)
  {
    hide ChannelText, ChannelSubpath, Slashed, Decimal;
    SequenceText(COMMITMENTS, port, channel, Decimal(n));
    SequenceText(ACKS, port, channel, Decimal(n));
    SequenceText(RECEIPTS, port, channel, Decimal(n));
  }

  // ---------------------------------------------------------------------------
  // The path space
  // ---------------------------------------------------------------------------

  /** The kinds of path that belong to a channel, and to a packet of a channel. */
  datatype ChannelKind = End | Capability | NextSend | NextRecv | NextAck
  datatype PacketKind = Commitment | Acknowledgement | Receipt

  /** What a host path stands for. */
  datatype PathName =
    | ClientState(client: Bytes)
    | ConsensusState(client: Bytes, height: Height)
    | ClientConnections(client: Bytes)
    | Connection(connection: Bytes)
    | Port(port: Bytes)
    | Channel(channelKind: ChannelKind, port: Bytes, channel: Bytes)
    | Packet(packetKind: PacketKind, port: Bytes, channel: Bytes, sequence: U64)

  function BuildChannel(kind: ChannelKind, port: Bytes, channel: Bytes): Bytes {
    match kind
    case End => ChannelPath(port, channel)
    case Capability => ChannelCapabilityPath(port, channel)
    case NextSend => NextSequenceSendPath(port, channel)
    case NextRecv => NextSequenceRecvPath(port, channel)
    case NextAck => NextSequenceAckPath(port, channel)
  }

  function BuildPacket(kind: PacketKind, port: Bytes, channel: Bytes, sequence: U64): Bytes {
    match kind
    case Commitment => PacketCommitmentPath(port, channel, sequence)
    case Acknowledgement => PacketAcknowledgementPath(port, channel, sequence)
    case Receipt => PacketReceiptPath(port, channel, sequence)
  }

  function Build(p: PathName): Bytes {
    match p
    case ClientState(c) => FullClientStatePath(c)
    case ConsensusState(c, h) => FullConsensusStatePath(c, h)
    case ClientConnections(c) => ClientConnectionsPath(c)
    case Connection(c) => ConnectionPath(c)
    case Port(q) => PortPath(q)
    case Channel(k, q, c) => BuildChannel(k, q, c)
    case Packet(k, q, c, n) => BuildPacket(k, q, c, n)
  }

  predicate SepFree(s: Bytes) {
    SLASH !in s
  }

  /** Every identifier in the name is free of the separator. */
  predicate WellNamed(p: PathName) {
    match p
    case ClientState(c) => SepFree(c)
    case ConsensusState(c, _) => SepFree(c)
    case ClientConnections(c) => SepFree(c)
    case Connection(c) => SepFree(c)
    case Port(q) => SepFree(q)
    case Channel(_, q, c) => SepFree(q) && SepFree(c)
    case Packet(_, q, c, _) => SepFree(q) && SepFree(c)
  }

  function ChannelRoot(kind: ChannelKind): Bytes {
    match kind
    case End => CHANNEL_ENDS
    case Capability => CAPABILITIES
    case NextSend => NEXT_SEQ_SEND
    case NextRecv => NEXT_SEQ_RECV
    case NextAck => NEXT_SEQ_ACK
  }

  function PacketRoot(kind: PacketKind): Bytes {
    match kind
    case Commitment => COMMITMENTS
    case Acknowledgement => ACKS
    case Receipt => RECEIPTS
  }

  /** The slash-separated elements of a path. */
  function Elements(p: PathName): (es: seq<Bytes>)
    ensures |es| >= 2
  {
    match p
    case ClientState(c) => [CLIENTS, c, CLIENT_STATE]
    case ConsensusState(c, h) => [CLIENTS, c, CONSENSUS_STATES, Text(h)]
    case ClientConnections(c) => [CLIENTS, c, CONNECTIONS]
    case Connection(c) => [CONNECTIONS, c]
    case Port(q) => [PORTS, q]
    case Channel(k, q, c) => [ChannelRoot(k), PORTS, q, CHANNELS, c]
    case Packet(k, q, c, n) => [PacketRoot(k), PORTS, q, CHANNELS, c, SEQUENCES, Decimal(n)]
  }

  lemma Join2(a: Bytes, b: Bytes)
    ensures Join([a, b], SLASH) == Slashed(a, b)
  {
    assert [a, b][1..] == [b];
  }

  lemma JoinMore(a: Bytes, rest: seq<Bytes>)
    requires rest != []
    ensures Join([a] + rest, SLASH) == Slashed(a, Join(rest, SLASH))
  {
    assert ([a] + rest)[1..] == rest;
  }

  lemma SlashedAssociative(a: Bytes, b: Bytes, c: Bytes)
    ensures Slashed(Slashed(a, b), c) == Slashed(a, Slashed(b, c))
  {
  }

  lemma JoinChannel(root: Bytes, port: Bytes, channel: Bytes)
    ensures Join([root, PORTS, port, CHANNELS, channel], SLASH) == Slashed(root, ChannelSubpath(port, channel))
  {
    Join2(CHANNELS, channel);
    JoinMore(port, [CHANNELS, channel]);
    JoinMore(PORTS, [port, CHANNELS, channel]);
    JoinMore(root, [PORTS, port, CHANNELS, channel]);
    assert [port] + [CHANNELS, channel] == [port, CHANNELS, channel];
    assert [PORTS] + [port, CHANNELS, channel] == [PORTS, port, CHANNELS, channel];
    assert [root] + [PORTS, port, CHANNELS, channel] == [root, PORTS, port, CHANNELS, channel];
  }

  lemma JoinPacket(root: Bytes, port: Bytes, channel: Bytes, last: Bytes)
    ensures Join([root, PORTS, port, CHANNELS, channel, SEQUENCES, last], SLASH)
         == Slashed(root, Slashed(ChannelSubpath(port, channel), Slashed(SEQUENCES, last)))
  {
    Join2(SEQUENCES, last);
    JoinMore(channel, [SEQUENCES, last]);
    JoinMore(CHANNELS, [channel, SEQUENCES, last]);
    JoinMore(port, [CHANNELS, channel, SEQUENCES, last]);
    JoinMore(PORTS, [port, CHANNELS, channel, SEQUENCES, last]);
    JoinMore(root, [PORTS, port, CHANNELS, channel, SEQUENCES, last]);
    assert [channel] + [SEQUENCES, last] == [channel, SEQUENCES, last];
    assert [CHANNELS] + [channel, SEQUENCES, last] == [CHANNELS, channel, SEQUENCES, last];
    assert [port] + [CHANNELS, channel, SEQUENCES, last] == [port, CHANNELS, channel, SEQUENCES, last];
    assert [PORTS] + [port, CHANNELS, channel, SEQUENCES, last] == [PORTS, port, CHANNELS, channel, SEQUENCES, last];
    assert [root] + [PORTS, port, CHANNELS, channel, SEQUENCES, last]
        == [root, PORTS, port, CHANNELS, channel, SEQUENCES, last];
    var tail := Slashed(SEQUENCES, last);
    SlashedAssociative(CHANNELS, channel, tail);
    SlashedAssociative(port, Slashed(CHANNELS, channel), tail);
    SlashedAssociative(PORTS, Slashed(port, Slashed(CHANNELS, channel)), tail);
  }

  /** A built path is its elements joined by slashes. */
  lemma BuildIsJoin(p: PathName)
    ensures Build(p) == Join(Elements(p), SLASH)
  {
    match p
    case ClientState(c) =>
      Join2(c, CLIENT_STATE);
      JoinMore(CLIENTS, [c, CLIENT_STATE]);
      assert [CLIENTS] + [c, CLIENT_STATE] == Elements(p);
    case ConsensusState(c, h) =>
      Join2(CONSENSUS_STATES, Text(h));
      JoinMore(c, [CONSENSUS_STATES, Text(h)]);
      JoinMore(CLIENTS, [c, CONSENSUS_STATES, Text(h)]);
      assert [c] + [CONSENSUS_STATES, Text(h)] == [c, CONSENSUS_STATES, Text(h)];
      assert [CLIENTS] + [c, CONSENSUS_STATES, Text(h)] == Elements(p);
    case ClientConnections(c) =>
      Join2(c, CONNECTIONS);
      JoinMore(CLIENTS, [c, CONNECTIONS]);
      assert [CLIENTS] + [c, CONNECTIONS] == Elements(p);
    case Connection(c) => Join2(CONNECTIONS, c);
    case Port(q) => Join2(PORTS, q);
    case Channel(k, q, c) => JoinChannel(ChannelRoot(k), q, c);
    case Packet(k, q, c, n) => PacketIsJoin(k, q, c, n);
  }

  lemma PacketIsJoin(kind: PacketKind, port: Bytes, channel: Bytes, sequence: U64)
    ensures BuildPacket(kind, port, channel, sequence)
         == Join([PacketRoot(kind), PORTS, port, CHANNELS, channel, SEQUENCES, Decimal(sequence)], SLASH)
  {
    var last, sub := Decimal(sequence), ChannelSubpath(port, channel);
    JoinPacket(PacketRoot(kind), port, channel, last);
    SlashedAssociative(PacketRoot(kind), Slashed(sub, SEQUENCES), last);
    SlashedAssociative(sub, SEQUENCES, last);
  }

  lemma WordsAreSepFree()
    ensures SepFree(CLIENTS) && SepFree(CLIENT_STATE) && SepFree(CONSENSUS_STATES) && SepFree(CONNECTIONS)
    ensures SepFree(CHANNEL_ENDS) && SepFree(CHANNELS) && SepFree(PORTS) && SepFree(SEQUENCES)
    ensures SepFree(CAPABILITIES) && SepFree(NEXT_SEQ_SEND) && SepFree(NEXT_SEQ_RECV) && SepFree(NEXT_SEQ_ACK)
    ensures SepFree(COMMITMENTS) && SepFree(ACKS) && SepFree(RECEIPTS)
  {
    ClientWordsAreSepFree();
    ChannelWordsAreSepFree();
    SequenceWordsAreSepFree();
    PacketWordsAreSepFree();
  }

  lemma ClientWordsAreSepFree()
    ensures SepFree(CLIENTS) && SepFree(CLIENT_STATE) && SepFree(CONSENSUS_STATES) && SepFree(CONNECTIONS)
  {
  }

  lemma ChannelWordsAreSepFree()
    ensures SepFree(CHANNEL_ENDS) && SepFree(CHANNELS) && SepFree(PORTS) && SepFree(SEQUENCES)
  {
  }

  lemma SequenceWordsAreSepFree()
    ensures SepFree(CAPABILITIES) && SepFree(NEXT_SEQ_SEND) && SepFree(NEXT_SEQ_RECV) && SepFree(NEXT_SEQ_ACK)
  {
  }

  lemma PacketWordsAreSepFree()
    ensures SepFree(COMMITMENTS) && SepFree(ACKS) && SepFree(RECEIPTS)
  {
  }

  lemma ElementsSepFree(p: PathName)
    requires WellNamed(p)
    ensures forall e :: e in Elements(p) ==> SLASH !in e
  {
    WordsAreSepFree();
    match p
    case ConsensusState(_, h) => TextHasNoSlash(h);
    case Packet(_, _, _, n) => assert forall b :: b in Decimal(n) ==> IsDigit(b);
    case _ =>
  }

  /** Splitting a built path at the slashes gives its elements back. */
  lemma SplitBuild(p: PathName)
    requires WellNamed(p)
    ensures Split(Build(p), [SLASH]) == Elements(p)
  {
    BuildIsJoin(p);
    ElementsSepFree(p);
    SplitJoin(Elements(p), SLASH);
  }

  /** The first elements tell the channel kinds apart, and the packet kinds. */
  lemma RootsDistinct()
    ensures forall k, l :: ChannelRoot(k) == ChannelRoot(l) ==> k == l
    ensures forall k, l :: PacketRoot(k) == PacketRoot(l) ==> k == l
  {
    assert NEXT_SEQ_SEND[12] == 83 && NEXT_SEQ_RECV[12] == 82;
  }

  /** Two names have the same elements only when they are the same name. */
  lemma ElementsInjective(p: PathName, q: PathName)
    requires Elements(p) == Elements(q)
    ensures p == q
  {
    var es, fs := Elements(p), Elements(q);
    assert |es| == |fs| && es[0] == fs[0] && es[1] == fs[1];
    match p
    case Packet(_, _, _, n) =>
      assert es[2] == fs[2] && es[4] == fs[4] && es[6] == fs[6];
      RootsDistinct();
      DecimalInjective(n, q.sequence);
    case Channel(_, _, _) =>
      assert es[2] == fs[2] && es[4] == fs[4];
      RootsDistinct();
    case ConsensusState(_, h) =>
      assert es[3] == fs[3];
      TextInjective(h, q.height);
    case ClientState(_) =>
      assert es[2] == fs[2] && CLIENT_STATE[1] != CONNECTIONS[1];
    case ClientConnections(_) =>
      assert es[2] == fs[2] && CLIENT_STATE[1] != CONNECTIONS[1];
    case Connection(_) => assert PORTS[0] != CONNECTIONS[0];
    case Port(_) => assert PORTS[0] != CONNECTIONS[0];
  }

  /** No two well-named paths collide, within one kind or across kinds. */
  lemma PathsInjective(p: PathName, q: PathName)
    requires WellNamed(p) && WellNamed(q)
    requires Build(p) == Build(q)
    ensures p == q
  {
    SplitBuild(p);
    SplitBuild(q);
    ElementsInjective(p, q);
  }

  // ---------------------------------------------------------------------------
  // Parsers
  // ---------------------------------------------------------------------------

  /** `parseClientStatePath`: `None` is any of its errors. */
  function ParseClientStatePath(path: Bytes): Option<Bytes> {
    var parts := Split(path, [SLASH]);
    if |parts| != 3 then None
    else if parts[0] != CLIENTS then None
    else if parts[2] != CLIENT_STATE then None
    else if Blank(parts[1]) then None
    else Some(parts[1])
  }

  function ParseConnectionPath(path: Bytes): Option<Bytes> {
    var parts := Split(path, [SLASH]);
    if |parts| != 2 then None else Some(parts[1])
  }

  function ParseChannelPath(path: Bytes): Option<(Bytes, Bytes)> {
    var parts := Split(path, [SLASH]);
    if |parts| < 5 then None
    else if parts[1] != PORTS || parts[3] != CHANNELS then None
    else Some((parts[2], parts[4]))
  }

  /** The parser accepts exactly the built paths of non-blank, separator-free client ids. */
  lemma ParseClientStatePathExact(path: Bytes, client: Bytes)
    ensures ParseClientStatePath(path) == Some(client)
       <==> path == FullClientStatePath(client) && SepFree(client) && !Blank(client)
  {
    JoinSplit(path, SLASH);
    var parts := Split(path, [SLASH]);
    if ParseClientStatePath(path) == Some(client) {
      assert parts == Elements(ClientState(client));
      assert parts[1] in parts;
      BuildIsJoin(ClientState(client));
    }
    if path == FullClientStatePath(client) && SepFree(client) {
      SplitBuild(ClientState(client));
    }
  }

  /** The connection parser undoes its builder; what it accepts is any two-element path. */
  lemma ParseConnectionPathExact(path: Bytes, connection: Bytes)
    ensures ParseConnectionPath(path) == Some(connection)
       <==> SepFree(connection) && exists root :: SepFree(root) && path == Slashed(root, connection)
  {
    JoinSplit(path, SLASH);
    var parts := Split(path, [SLASH]);
    if ParseConnectionPath(path) == Some(connection) {
      assert parts == [parts[0], connection];
      Join2(parts[0], connection);
      assert parts[0] in parts && parts[1] in parts;
      assert SepFree(parts[0]) && path == Slashed(parts[0], connection);
    }
    if SepFree(connection) && exists root :: SepFree(root) && path == Slashed(root, connection) {
      var root :| SepFree(root) && path == Slashed(root, connection);
      SplitFirst(root, SLASH, connection);
      SplitWithout(connection, SLASH);
    }
  }

  lemma ParseConnectionUndoesBuild(connection: Bytes)
    requires SepFree(connection)
    ensures ParseConnectionPath(ConnectionPath(connection)) == Some(connection)
  {
    SplitBuild(Connection(connection));
  }

  /** `path` runs `root/ports/port/channels/channel` and then ends or goes on with a slash. */
  predicate RunsThroughChannel(path: Bytes, root: Bytes, port: Bytes, channel: Bytes, tail: Bytes) {
    && SepFree(root) && (tail == [] || tail[0] == SLASH)
    && path == Slashed(root, Slashed(PORTS, Slashed(port, Slashed(CHANNELS, channel + tail))))
  }

  /** The channel parser accepts exactly the paths that run through a port and a channel,
      under any root and with anything after them. */
  lemma ParseChannelPathExact(path: Bytes, port: Bytes, channel: Bytes)
    ensures ParseChannelPath(path) == Some((port, channel))
       <==> SepFree(port) && SepFree(channel) && exists root, tail :: RunsThroughChannel(path, root, port, channel, tail)
  {
    if ParseChannelPath(path) == Some((port, channel)) {
      var root, tail := ChannelPathRuns(path, port, channel);
    }
    if SepFree(port) && SepFree(channel) && exists root, tail :: RunsThroughChannel(path, root, port, channel, tail) {
      var root, tail :| RunsThroughChannel(path, root, port, channel, tail);
      RunningPathParses(path, root, port, channel, tail);
    }
  }

  lemma JoinFrom(parts: seq<Bytes>, i: nat)
    requires i + 1 < |parts|
    ensures Join(parts[i..], SLASH) == Slashed(parts[i], Join(parts[i + 1..], SLASH))
  {
    assert parts[i..] == [parts[i]] + parts[i + 1..];
    JoinMore(parts[i], parts[i + 1..]);
  }

  lemma JoinLast(parts: seq<Bytes>)
    requires parts != []
    ensures Join(parts, SLASH) == parts[0] + if |parts| == 1 then [] else [SLASH] + Join(parts[1..], SLASH)
  {
  }

  lemma ChannelPathRuns(path: Bytes, port: Bytes, channel: Bytes) returns (root: Bytes, tail: Bytes)
    requires ParseChannelPath(path) == Some((port, channel))
    ensures SepFree(port) && SepFree(channel) && RunsThroughChannel(path, root, port, channel, tail)
  {
    hide Split, Join;
    JoinSplit(path, SLASH);
    var parts := Split(path, [SLASH]);
    root := parts[0];
    assert root in parts && parts[2] in parts && parts[4] in parts;
    tail := if |parts| == 5 then [] else [SLASH] + Join(parts[5..], SLASH);
    JoinLast(parts[4..]);
    assert parts[4..][1..] == parts[5..];
    JoinFrom(parts, 3);
    JoinFrom(parts, 2);
    JoinFrom(parts, 1);
    JoinFrom(parts, 0);
    assert parts[0..] == parts;
  }

  lemma RunningPathParses(path: Bytes, root: Bytes, port: Bytes, channel: Bytes, tail: Bytes)
    requires SepFree(port) && SepFree(channel) && RunsThroughChannel(path, root, port, channel, tail)
    ensures ParseChannelPath(path) == Some((port, channel))
  {
    hide Split;
    SplitThroughChannel(path, root, port, channel, tail);
  }

  lemma SplitThroughChannel(path: Bytes, root: Bytes, port: Bytes, channel: Bytes, tail: Bytes)
    requires SepFree(port) && SepFree(channel) && RunsThroughChannel(path, root, port, channel, tail)
    ensures Split(path, [SLASH])
         == [root, PORTS, port, CHANNELS, channel] + if tail == [] then [] else Split(tail[1..], [SLASH])
  {
    hide Split;
    var end := channel + tail;
    WordsAreSepFree();
    SplitFirst(CHANNELS, SLASH, end);
    SplitFirst(port, SLASH, Slashed(CHANNELS, end));
    SplitFirst(PORTS, SLASH, Slashed(port, Slashed(CHANNELS, end)));
    SplitFirst(root, SLASH, Slashed(PORTS, Slashed(port, Slashed(CHANNELS, end))));
    if tail == [] {
      assert end == channel;
      SplitWithout(channel, SLASH);
    } else {
      assert end == channel + [SLASH] + tail[1..];
      SplitFirst(channel, SLASH, tail[1..]);
    }
  }

  /** What precedes the sequence number in a packet path, without the last slash. */
  function PacketPrefix(kind: PacketKind, port: Bytes, channel: Bytes): Bytes {
    Slashed(PacketRoot(kind), Slashed(ChannelSubpath(port, channel), SEQUENCES))
  }

  lemma PrefixRuns(kind: PacketKind, port: Bytes, channel: Bytes, rest: Bytes)
    ensures RunsThroughChannel(PacketPrefix(kind, port, channel) + rest, PacketRoot(kind), port, channel,
                               [SLASH] + (SEQUENCES + rest))
  {
    WordsAreSepFree();
    var tail := [SLASH] + (SEQUENCES + rest);
    assert Slashed(CHANNELS, channel + tail) == Slashed(Slashed(CHANNELS, channel), SEQUENCES + rest);
    SlashedAssociative(port, Slashed(CHANNELS, channel), SEQUENCES + rest);
    SlashedAssociative(PORTS, Slashed(port, Slashed(CHANNELS, channel)), SEQUENCES + rest);
    assert PacketPrefix(kind, port, channel) + rest
        == Slashed(PacketRoot(kind), Slashed(ChannelSubpath(port, channel), SEQUENCES + rest));
  }

  /** A prefix iteration visits exactly the packets of that kind, port and channel. */
  lemma PrefixVisitsChannel(p: PathName, kind: PacketKind, port: Bytes, channel: Bytes)
    requires WellNamed(p) && SepFree(port) && SepFree(channel)
    ensures HasPrefix(Build(p), PacketPrefix(kind, port, channel))
       <==> p.Packet? && p.packetKind == kind && p.port == port && p.channel == channel
  {
    hide Split, Build, Elements, RunsThroughChannel;
    var prefix := PacketPrefix(kind, port, channel);
    if HasPrefix(Build(p), prefix) {
      var rest := Build(p)[|prefix|..];
      assert Build(p) == prefix + rest;
      PrefixRuns(kind, port, channel, rest);
      SplitThroughChannel(Build(p), PacketRoot(kind), port, channel, [SLASH] + (SEQUENCES + rest));
      SplitBuild(p);
      LongElements(p, kind, port, channel);
    }
    if p.Packet? && p.packetKind == kind && p.port == port && p.channel == channel {
      PacketHasPrefix(p);
    }
  }

  lemma LongElements(p: PathName, kind: PacketKind, port: Bytes, channel: Bytes)
    requires |Elements(p)| > 5 && Elements(p)[..5] == [PacketRoot(kind), PORTS, port, CHANNELS, channel]
    ensures p.Packet? && p.packetKind == kind && p.port == port && p.channel == channel
  {
    var es := Elements(p)[..5];
    assert es[0] == Elements(p)[0] && es[2] == Elements(p)[2] && es[4] == Elements(p)[4];
    RootsDistinct();
  }

  lemma PacketHasPrefix(p: PathName)
    requires p.Packet?
    ensures HasPrefix(Build(p), PacketPrefix(p.packetKind, p.port, p.channel))
  {
    var prefix, n := PacketPrefix(p.packetKind, p.port, p.channel), Decimal(p.sequence);
    SlashedAssociative(PacketRoot(p.packetKind), Slashed(ChannelSubpath(p.port, p.channel), SEQUENCES), n);
    SlashedAssociative(ChannelSubpath(p.port, p.channel), SEQUENCES, n);
    assert Build(p) == Slashed(prefix, n);
  }

  /** The two prefixes the source builds: an iteration over all well-named paths with such a
      prefix visits exactly the commitments, or acknowledgements, of that port and channel. */
  lemma PrefixIterationExact(p: PathName, port: Bytes, channel: Bytes)
    requires WellNamed(p) && SepFree(port) && SepFree(channel)
    ensures HasPrefix(Build(p), PacketCommitmentPrefixPath(port, channel))
       <==> p.Packet? && p.packetKind == Commitment && p.port == port && p.channel == channel
    ensures HasPrefix(Build(p), PacketAcknowledgementPrefixPath(port, channel))
       <==> p.Packet? && p.packetKind == Acknowledgement && p.port == port && p.channel == channel
  {
    hide Build;
    PrefixVisitsChannel(p, Commitment, port, channel);
    PrefixVisitsChannel(p, Acknowledgement, port, channel);
  }

  /** The channel parser recovers port and channel from every channel-scoped path,
      packet paths included, and rejects every other kind. */
  lemma ParseChannelUndoesBuild(p: PathName)
    requires WellNamed(p)
    ensures ParseChannelPath(Build(p)) == if p.Channel? || p.Packet? then Some((p.port, p.channel)) else None
  {
    hide Build, Split;
    SplitBuild(p);
  }

  /** `ParseIdentifier`. With an empty prefix `strings.Split` yields single characters,
      so the check on the first piece (or on their number) always fails. */
  function ParseIdentifier(identifier: Bytes, prefix: Bytes): Option<U64> {
    if !HasPrefix(identifier, prefix) then None
    else if prefix == [] then None
    else
      var parts := Split(identifier, prefix);
      if |parts| != 2 then None
      else if parts[0] != [] then None
      else ParseUint(parts[1])
  }

  /** Exactly the identifiers are accepted that are the non-empty prefix and then a decimal
      number in which the prefix does not occur again. Leading zeros are accepted too. */
  lemma ParseIdentifierExact(id: Bytes, prefix: Bytes, n: U64)
    ensures ParseIdentifier(id, prefix) == Some(n)
       <==> && prefix != [] && HasPrefix(id, prefix)
            && ParseUint(id[|prefix|..]) == Some(n) && !Contains(id[|prefix|..], prefix)
  {
    if prefix != [] && HasPrefix(id, prefix) {
      var d := id[|prefix|..];
      assert id[0..0 + |prefix|] == prefix;
      assert OccursAt(id, prefix, 0);
      assert Find(id, prefix) == Some(0);
      assert Split(id, prefix) == [id[..0]] + Split(d, prefix);
      match Find(d, prefix)
      case None =>
        assert Split(d, prefix) == [d];
      case Some(i) =>
        assert i <= |d|;
    }
  }

  /** A prefix with a non-digit never occurs inside a printed number. */
  lemma ParseIdentifierRoundTrip(prefix: Bytes, n: U64)
    requires !AllDigits(prefix)
    ensures ParseIdentifier(prefix + Decimal(n), prefix) == Some(n)
  {
    var d := Decimal(n);
    var b :| b in prefix && !IsDigit(b);
    var j :| 0 <= j < |prefix| && prefix[j] == b;
    forall i: nat ensures !OccursAt(d, prefix, i) {
      if i + |prefix| <= |d| {
        assert d[i..i + |prefix|][j] == d[i + j];
        assert d[i + j] in d;
      }
    }
    assert (prefix + d)[|prefix|..] == d;
    ParseUintDecimal(n);
    ParseIdentifierExact(prefix + d, prefix, n);
  }

  // ---------------------------------------------------------------------------
  // Identifier validation
  // ---------------------------------------------------------------------------

  /** The characters of `IsValidID`. */
  predicate ValidIdByte(b: Byte) {
    || 97 <= b <= 122 || 65 <= b <= 90 || 48 <= b <= 57
    || b in {46, 95, 43, 45, 35, 91, 93, 60, 62}
  }

  /** `defaultIdentifierValidator` returns no error. */
  predicate ValidIdentifier(id: Bytes, min: nat, max: nat) {
    && !Blank(id)
    && SLASH !in id
    && min <= |id| <= max
    && id != [] && forall b :: b in id ==> ValidIdByte(b)
  }

  /** The valid characters: letters, digits and nine signs; no white space, no slash. */
  lemma ValidBytesAre(b: Byte)
    ensures ValidIdByte(b) <==> 97 <= b <= 122 || 65 <= b <= 90 || IsDigit(b) || b in Ascii("._+-#[]<>")
    ensures ValidIdByte(b) ==> b != SLASH && !IsSpace(b)
  {
    assert Ascii("._+-#[]<>") == [46, 95, 43, 45, 35, 91, 93, 60, 62];
  }

  /** Names made of identifiers that pass their own validators. */
  predicate ValidName(p: PathName) {
    match p
    case ClientState(c) => ValidIdentifier(c, 9, 64)
    case ConsensusState(c, _) => ValidIdentifier(c, 9, 64)
    case ClientConnections(c) => ValidIdentifier(c, 9, 64)
    case Connection(c) => ValidIdentifier(c, 10, 64)
    case Port(q) => ValidIdentifier(q, 2, 128)
    case Channel(_, q, c) => ValidIdentifier(q, 2, 128) && ValidIdentifier(c, 8, 64)
    case Packet(_, q, c, _) => ValidIdentifier(q, 2, 128) && ValidIdentifier(c, 8, 64)
  }

  /** Which lengths the validators allow, for an identifier of letters alone. */
  lemma ValidLengths(id: Bytes)
    requires forall i :: 0 <= i < |id| ==> id[i] == 97
    ensures ValidName(ClientState(id)) <==> 9 <= |id| <= 64
    ensures ValidName(Connection(id)) <==> 10 <= |id| <= 64
    ensures ValidName(Port(id)) <==> 2 <= |id| <= 128
    ensures 2 <= |id| <= 128 ==> (ValidName(Channel(End, id, id)) <==> 8 <= |id| <= 64)
  {
    assert id != [] ==> id[0] in id;
  }

  /** Validated identifiers give a collision-free path space whose parsers undo the builders. */
  lemma ValidatedPathSpace(p: PathName, q: PathName)
    requires ValidName(p) && ValidName(q)
    ensures Build(p) == Build(q) ==> p == q
    ensures p.ClientState? ==> ParseClientStatePath(Build(p)) == Some(p.client)
    ensures p.Connection? ==> ParseConnectionPath(Build(p)) == Some(p.connection)
    ensures ParseChannelPath(Build(p)) == if p.Channel? || p.Packet? then Some((p.port, p.channel)) else None
  {
    assert WellNamed(p) && WellNamed(q);
    if Build(p) == Build(q) {
      PathsInjective(p, q);
    }
    if p.ClientState? {
      ParseClientStatePathExact(Build(p), p.client);
    }
    if p.Connection? {
      ParseConnectionUndoesBuild(p.connection);
    }
    ParseChannelUndoesBuild(p);
  }
}
