/** The keys of a Tendermint client store and how they are rendered to bytes. */
module TendermintKeys {
  import opened ByteStrings
  import opened Heights
  import opened HostPaths

  const PROCESSED_TIME := Ascii("processedTime")
  const PROCESSED_HEIGHT := Ascii("processedHeight")
  const ITERATE := Ascii("iterateConsensusStates")

  /** What is stored under a key. */
  datatype Key =
    | ClientKey
    | ConsensusKey(height: Height)
    | TimeKey(height: Height)
    | HeightKey(height: Height)
    | IterKey(height: Height)

  function ProcessedTimeKey(h: Height): Bytes {
    Slashed(ConsensusStatePath(h), PROCESSED_TIME)
  }

  function ProcessedHeightKey(h: Height): Bytes {
    Slashed(ConsensusStatePath(h), PROCESSED_HEIGHT)
  }

  function IterationKey(h: Height): Bytes {
    ITERATE + BigEndianHeight(h)
  }

  function Render(k: Key): Bytes {
    match k
    case ClientKey => CLIENT_STATE
    case ConsensusKey(h) => ConsensusStatePath(h)
    case TimeKey(h) => ProcessedTimeKey(h)
    case HeightKey(h) => ProcessedHeightKey(h)
    case IterKey(h) => IterationKey(h)
  }

  /** The texts of the keys. */
  lemma KeyTexts(h: Height)
    ensures Render(ClientKey) == Ascii("clientState")
    ensures Render(ConsensusKey(h)) == Ascii("consensusStates/") + Text(h)
    ensures Render(TimeKey(h)) == Ascii("consensusStates/") + Text(h) + Ascii("/processedTime")
    ensures Render(HeightKey(h)) == Ascii("consensusStates/") + Text(h) + Ascii("/processedHeight")
    ensures Render(IterKey(h))
         == Ascii("iterateConsensusStates") + Uint64ToBigEndian(h.revision) + Uint64ToBigEndian(h.number)
  {
    hide Text, Uint64ToBigEndian, Ascii;
    KeyWords();
  }

  lemma KeyWords()
    ensures Ascii("consensusStates/") == CONSENSUS_STATES + [SLASH]
    ensures Ascii("/processedTime") == [SLASH] + PROCESSED_TIME
    ensures Ascii("/processedHeight") == [SLASH] + PROCESSED_HEIGHT
  {
  }

  /** `GetHeightFromIterationKey`; a key shorter than the prefix and sixteen bytes is a
      run-time panic in Go. */
  function GetHeightFromIterationKey(key: Bytes): Height
    requires |key| >= |ITERATE| + 16
  {
    HeightFromBytes(key[|ITERATE|..])
  }

  lemma IterationKeyRoundTrip(h: Height)
    ensures GetHeightFromIterationKey(IterationKey(h)) == h
  {
    assert IterationKey(h)[|ITERATE|..] == BigEndianHeight(h);
    HeightBytesRoundTrip(h);
  }

  /** The byte order of iteration keys is the order of heights. */
  lemma IterationKeyOrder(a: Height, b: Height)
    ensures Less(IterationKey(a), IterationKey(b)) == Lt(a, b)
    ensures IterationKey(a) == IterationKey(b) ==> a == b
  {
    LessAfterPrefix(ITERATE, BigEndianHeight(a), BigEndianHeight(b));
    BigEndianHeightOrder(a, b);
    assert IterationKey(a)[|ITERATE|..] == BigEndianHeight(a);
    assert IterationKey(b)[|ITERATE|..] == BigEndianHeight(b);
  }

  /** The consensus keys of two heights are in height order exactly when the smaller of the
      first differing numbers is at most the equally long front of the greater: 9 does not
      lead up to 10, which is why the index exists. */
  lemma ConsensusKeyOrder(a: Height, b: Height)
    requires Lt(a, b)
    ensures Less(ConsensusStatePath(a), ConsensusStatePath(b)) <==>
              if a.revision != b.revision then LeadsUp(a.revision, b.revision) else LeadsUp(a.number, b.number)
  {
    LessAfterPrefix(CONSENSUS_STATES + [SLASH], Text(a), Text(b));
    TextOrder(a, b);
  }

  /** Where the number of digits grows, consecutive heights have their keys the wrong way. */
  lemma ConsensusKeysAreUnordered()
    ensures Lt(Height(0, 9), Height(0, 10)) && !Less(ConsensusStatePath(Height(0, 9)), ConsensusStatePath(Height(0, 10)))
  {
    ConsensusKeyOrder(Height(0, 9), Height(0, 10));
    assert |Decimal(10)| == 2 && |Decimal(9)| == 1;
    assert Leading(10, 1) == Leading(1, 0) == 1;
  }

  /** The elements of the keys that are slash-separated text. */
  function TextElements(k: Key): (es: seq<Bytes>)
    requires !k.IterKey?
    ensures es != []
  {
    match k
    case ClientKey => [CLIENT_STATE]
    case ConsensusKey(h) => [CONSENSUS_STATES, Text(h)]
    case TimeKey(h) => [CONSENSUS_STATES, Text(h), PROCESSED_TIME]
    case HeightKey(h) => [CONSENSUS_STATES, Text(h), PROCESSED_HEIGHT]
  }

  lemma SplitKey(k: Key)
    requires !k.IterKey?
    ensures Split(Render(k), [SLASH]) == TextElements(k)
  {
    ClientWordsAreSepFree();
    match k
    case ClientKey => SplitWithout(CLIENT_STATE, SLASH);
    case ConsensusKey(h) => SplitTwo(CONSENSUS_STATES, h, []);
    case TimeKey(h) => SplitTwo(CONSENSUS_STATES, h, PROCESSED_TIME);
    case HeightKey(h) => SplitTwo(CONSENSUS_STATES, h, PROCESSED_HEIGHT);
  }

  lemma SplitTwo(root: Bytes, h: Height, last: Bytes)
    requires SepFree(root) && SepFree(last)
    ensures Split(Slashed(root, Text(h)), [SLASH]) == [root, Text(h)]
    ensures Split(Slashed(Slashed(root, Text(h)), last), [SLASH]) == [root, Text(h), last]
  {
    TextHasNoSlash(h);
    SplitWithout(Text(h), SLASH);
    SplitFirst(root, SLASH, Text(h));
    SplitWithout(last, SLASH);
    SplitFirst(Text(h), SLASH, last);
    SplitFirst(root, SLASH, Slashed(Text(h), last));
    SlashedAssociative(root, Text(h), last);
  }

  lemma ClientKeyIsNotIterated(k: Key)
    ensures HasPrefix(Render(k), ITERATE) <==> k.IterKey?
    ensures HasPrefix(Render(k), CONSENSUS_STATES) <==> !k.IterKey? && !k.ClientKey?
  {
    assert ITERATE[0] == 105 && CONSENSUS_STATES[0] == 99 && CLIENT_STATE[0] == 99;
    assert CLIENT_STATE[1] == 108 && CONSENSUS_STATES[1] == 111;
    if !k.IterKey? {
      assert Render(k)[0] == 99;
    }
    if k.ConsensusKey? || k.TimeKey? || k.HeightKey? {
      assert Render(k)[..15] == CONSENSUS_STATES;
    }
    if k.ClientKey? {
      assert Render(k)[1] == 108;
    }
    if k.IterKey? {
      assert Render(k)[..22] == ITERATE;
    }
  }

  /** Different entries never share a key. */
  lemma RenderInjective(k: Key, l: Key)
    requires Render(k) == Render(l)
    ensures k == l
  {
    ClientKeyIsNotIterated(k);
    ClientKeyIsNotIterated(l);
    if k.IterKey? {
      IterationKeyOrder(k.height, l.height);
    } else {
      SplitKey(k);
      SplitKey(l);
      var es, fs := TextElements(k), TextElements(l);
      assert es == fs && |es| == |fs|;
      if |es| >= 2 {
        assert es[1] == fs[1];
        TextInjective(k.height, l.height);
      }
      if |es| == 3 {
        assert es[2] == fs[2] && |PROCESSED_TIME| != |PROCESSED_HEIGHT|;
      }
    }
  }
}
