# Light clients, capabilities, wire codec and host paths of ibc-go, in Dafny

This project models four parts of the IBC implementation and proves what they are for:

1. **The Tendermint light client** (ICS 7): a byte store with an ordered big-endian index beside
   unordered consensus-state keys, updates that prune, insert and detect misbehaviour by looking
   at the two neighbours of a header, upgrades, substitutions, delay periods and genesis metadata.
2. **The capability keeper**: an object-capability allocator spread over a persistent store, a
   memory store and a Go map that is not rolled back with the stores.
3. **The generated Protocol Buffers codec** of `Capability`, `Owner`, `CapabilityOwners` and
   `SignBytes` (with `HeaderData`): varints and messages written backwards into sized buffers, read by shift loops
   (Protocol Buffers Encoding, section "Base 128 Varints").
4. **Host paths** (ICS 24, section "Path-space") **and the solo machine** (ICS 6), whose
   no-repeat guarantee rests on the injectivity of the `SignBytes` encoding.

`dafny verify dfyconfig.toml` checks the whole project.

## Layout

| file | contents |
|---|---|
| `ByteStrings.dfy` | byte strings: lexicographic order, big-endian and decimal numbers, split and join |
| `StoreIteration.dfy` | the order in which a KV-store iterator visits keys |
| `Heights.dfy`, `HostPaths.dfy` | heights and their texts; ICS 24 builders, parsers, validators |
| `TendermintClient.dfy` | the client as a machine over a map from heights to states; runs, pruning, delays |
| `TendermintKeys.dfy`, `TendermintView.dfy` | store keys; what readers of the byte store compute |
| `TendermintStore.dfy` | the byte store as an object, refining the machine |
| `Wire.dfy`, `Messages.dfy` | varints, fields, skipping, buffers filled backwards |
| `CapabilityTypes.dfy`, `SignBytesCodec.dfy` | the messages, their layout on the wire, size, marshalling and unmarshalling |
| `CapabilityOwners.dfy` | the sorted owner list and its bisection |
| `CapabilityState.dfy`, `CapabilityKeeper.dfy`, `CapabilityRuns.dfy` | agreement of the three structures; the keeper; restarts, failed transactions, runs, genesis |
| `SoloMachine.dfy` | the solo machine and its runs |

## How the model is built

- **The byte store refines a map.** A Tendermint client is a client state and a map from heights to
  entries (state, processed time, processed height). `TendermintView.Agrees` says that a byte store
  is exactly the rendering of such a client: the same heights under all four kinds of key, each
  index entry naming its own height's key, and nothing else. Every method of
  `TendermintStore.ClientStore` writes bytes and is proved to do to the client what
  `TendermintClient` says. The client machine checks a header against *every* stored state; the
  method checks the two neighbours only; the two agree for every header exactly when time is
  monotone, and time is monotone because they agree.
- **The keeper's structures agree on one relation.** The ghost field `own` maps each owner
  (module, name) to an index. `PersistAgree` and `MemAgree` say that the owner lists, the forward
  and reverse entries and the Go map all describe `own`. Each method states its effect on `own`.
  A reference is a pair of an address and an index; the allocator may return any address that no
  reference in the map has.
- **One codec model for all messages.** Generated code follows a template, so reading and writing
  are modelled once over numbered fields (`Messages`), with a table of known fields per message;
  each message has its own `Size`, `Marshal` and `Unmarshal`.
- **Foreign code.** `light.Verify`, Merkle proofs, signature checks, decoding of public keys,
  `url.PathEscape` and type assertions appear as arbitrary inputs, so results hold whatever they answer. The `Any` encoding
  of client and consensus states is taken as a bijection: those values appear decoded in the store.
  Block time, block height and block hashes are inputs. That the SDK drops the writes of a
  transaction or proposal that fails is taken over from it.
- **Integers.** 64-bit sums wrap where the code's do (delay checks, sequence numbers, varints,
  lengths). `Wire.Or` is bitwise or, bit by bit, and `Wire.Shl` a shift that loses what leaves 64
  bits; that the shift loop thereby adds up digits rests on the loop invariant that the bits read so
  far lie below the next shift (`Wire.OrDigit`).
- **Conditions the code does not check** have exact answers. A module reads only its own names in
  every run if and only if no module name begins like a reverse key of another
  (`CapabilityState.ReadsOwnNamesIff`); that is all the keeper's invariant asks of names. The error
  "already an owner" means what it says if and only if no module name extends another by `/`, which
  is stronger (`CapabilityOwners.KeyMeansOwnerIff`): otherwise a claim by a stranger is refused
  (`CapabilityRuns.StrangerIsRefused`) while all structures still agree. A claim keeps agreement if
  and only if the reference is live, the name free and no second one for the same capability; a
  creation does unless the counter wraps; a genesis state gives agreement if and only if its owner
  lists are consistent. The runs of `CapabilityRuns` contain the operations that keep agreement. A
  reference is taken to be what Go's typing makes it: no other object stands at its address
  (`Genuine`). Encoded sizes are Go `int`s.
- **Where code and documentation or intent differ**, the code is followed: `InitMemStore` sets the Go
  map entry only for indices with owners; `ParseConnectionPath` accepts any two-element path and
  `ParseChannelPath` any root and any ending, although their comments speak of invalid paths;
  a solo machine's signature over the absence of a path is also one over the empty value there
  (`SoloMachine.AbsenceIsEmptyValue`); `ParseIdentifier` reads `channel-07` and `channel-7` as the same number; genesis `Validate` passes
  owner lists that no run produces (`CapabilityRuns.ValidateAcceptsInconsistent`); the Go
  map keeps what a failed transaction put there (`CapabilityRuns.FailedTransaction` says exactly
  when); a `Misbehaviour` message that verifies but shows no misbehaviour is passed on to
  `UpdateState`, which panics on anything but a header (`TendermintClient.PanicIsReachable`).

## Model

| member | source | states |
|---|---|---|
| TendermintClient.RunInvariant | modules/light-clients/07-tendermint/misbehaviour_handle.go:23-54 | after `Initialize` and any sequence of messages, stored timestamps strictly increase with height, and the latest height is stored and greatest |
| TendermintClient.UpdateKeepsMonotone | modules/light-clients/07-tendermint/update.go:133-164 | one update keeps time monotone, also when its own height is pruned and re-inserted in the same step |
| TendermintClient.UpdateKeepsActive | modules/light-clients/07-tendermint/client_state.go:83-112 | every message keeps the latest height stored and greatest; an accepted header leaves the client Active at that block time |
| TendermintClient.ChainOfTrust | modules/light-clients/07-tendermint/update.go:44-164 | every state stored after a run is the initial one or the record (time, app hash as root, next-validators hash) of a header accepted by an active client and by `light.Verify`, against a stored trusted state that committed to its validators, lower in the same revision |
| TendermintClient.OneRevision | modules/light-clients/07-tendermint/update.go:60-68 | every height stored in a run has the revision the client started in |
| TendermintClient.ParametersStay | modules/light-clients/07-tendermint/update.go:147-158 | over runs only the latest and the frozen height of the client state change |
| TendermintClient.UpdatesIffTrusted | modules/light-clients/07-tendermint/update.go:44-121 | a header is accepted if and only if the client trusts it and it clashes with no stored state |
| TendermintClient.UpdateExact | modules/light-clients/07-tendermint/update.go:133-164 | an accepted header drops the oldest state exactly when expired, keeps every other entry, and is recorded with block time and height unless stored already |
| TendermintClient.FreezeFreezes | modules/light-clients/07-tendermint/misbehaviour.go:18-19 | after a freeze the status is Frozen at every time, with all states and parameters as they were |
| TendermintClient.FreezesIffEvidence | modules/light-clients/07-tendermint/misbehaviour_handle.go:21-171 | a message freezes the client if and only if it is evidence: a trusted header that clashes with a stored state, or two counting headers that fork or break time |
| TendermintClient.FrozenIffEvidence | modules/light-clients/07-tendermint/misbehaviour_handle.go:21-171 | after a run the client is frozen if and only if it started so or some message was evidence at its point of the run |
| TendermintClient.FrozenForGood | modules/light-clients/07-tendermint/update.go:199-205 | after evidence every later message finds the client not active and leaves it as the freeze did |
| TendermintClient.FrozenIsFinal | modules/light-clients/07-tendermint/update.go:199-205 | once frozen, a client is never changed by later messages of the run |
| TendermintClient.UpgradeMonotoneIff | modules/light-clients/07-tendermint/upgrade.go:119-125 | an upgrade keeps time monotone if and only if the upgraded state is later than the latest stored one |
| TendermintClient.WriteMonotoneIff | modules/light-clients/07-tendermint/store.go:336-349 | writing a state at any height keeps time monotone if and only if it conflicts with no state at another height |
| TendermintClient.MisbehaviourIsConflict | modules/light-clients/07-tendermint/misbehaviour_handle.go:75-79 | at different heights, submitted misbehaviour is flagged if and only if the higher header conflicts with a store holding the lower one |
| TendermintClient.PanicIsReachable | modules/light-clients/07-tendermint/update.go:133-137 | for every active client and any two heights there are two headers in time order that verify as misbehaviour, show none and make the update panic |
| TendermintClient.PruningEquivalence | modules/light-clients/07-tendermint/update.go:169-197 | repeating the pruning of the oldest state gives the result of pruning all expired states if and only if no expired state lies above an unexpired one |
| TendermintClient.PruningAgreesInRuns | modules/light-clients/07-tendermint/store.go:277-304 | after every run and at every time the two ways of pruning give the same client |
| TendermintClient.MetadataIsThatOfInsertion | modules/light-clients/07-tendermint/store.go:336-349 | over runs, processed time and height of a stored state are those of the step that inserted it |
| TendermintClient.DelayPassesExactlyWhenReached | modules/light-clients/07-tendermint/client_state.go:292-329 | for a state stored after any run the delay check passes if and only if block time and height have reached insertion plus delays |
| TendermintClient.ProofsWaitForDelay | modules/light-clients/07-tendermint/client_state.go:208-246 | after any run a proof reaches the Merkle check if and only if it decodes, its path is a Merkle path, its height is stored and the delays have passed |
| TendermintClient.TimeDelayEnforcedIffNoOverflow | modules/light-clients/07-tendermint/client_state.go:293-308 | the time delay is enforced at every block time if and only if processed time plus delay does not overflow 64 bits |
| TendermintClient.BlockDelayEnforcedIffNoOverflow | modules/light-clients/07-tendermint/client_state.go:311-326 | the block delay is enforced at every self height, in (revision, number) order, if and only if processed height plus delay does not overflow 64 bits |
| TendermintKeys.RenderInjective | modules/light-clients/07-tendermint/store.go:36-43 | client state, consensus, processed-time, processed-height and iteration keys never collide, within or across kinds |
| TendermintKeys.KeyTexts | modules/light-clients/07-tendermint/store.go:34-43 | the texts of the five kinds of key |
| TendermintKeys.IterationKeyOrder | modules/light-clients/07-tendermint/store.go:179-184 | byte order of iteration keys is height order, and a key determines its height |
| TendermintKeys.IterationKeyRoundTrip | modules/light-clients/07-tendermint/store.go:206-214 | `GetHeightFromIterationKey` undoes `IterationKey` |
| TendermintKeys.ConsensusKeyOrder | modules/light-clients/07-tendermint/store.go:17-32 | consensus-state keys of two heights are in height order if and only if the smaller of the first differing numbers is at most the equally long front of the greater (9 and 10 are not) |
| TendermintView.ReadsAgree | modules/light-clients/07-tendermint/store.go:61-69 | on an agreeing store the client-state, consensus-state, processed-time and processed-height reads return the client's data, or nothing when the height is not stored |
| TendermintView.IndexKeys | modules/light-clients/07-tendermint/store.go:186-191 | the keys under the iteration prefix are exactly the iteration keys of the stored heights |
| TendermintView.NextIsLeastAbove | modules/light-clients/07-tendermint/store.go:231-255 | `GetNextConsensusState` returns the state at the least stored height strictly above, stored or not, and nothing only when there is none |
| TendermintView.PreviousIsGreatestBelow | modules/light-clients/07-tendermint/store.go:257-272 | `GetPreviousConsensusState` returns the state at the greatest stored height strictly below, and nothing only when there is none |
| TendermintView.NeighbourCheckIsWholeStoreCheck | modules/light-clients/07-tendermint/misbehaviour_handle.go:21-54 | with monotone time, the header check returns false if and only if the header conflicts with no stored state |
| TendermintView.NeighboursSufficeIff | modules/light-clients/07-tendermint/misbehaviour_handle.go:21-54 | the neighbour check is the whole-store check for every header if and only if time is monotone |
| TendermintView.CheckReadsNeighbours | modules/light-clients/07-tendermint/misbehaviour_handle.go:26-54 | on every agreeing store the check compares the header with the state at its height or with its two neighbours |
| TendermintView.DelayAgrees | modules/light-clients/07-tendermint/client_state.go:292-329 | the delay check on the byte store is the one on the client |
| TendermintView.AgreementDetermines | modules/light-clients/07-tendermint/store.go:336-356 | a client determines its byte store |
| TendermintStore.ClientStore.Initialize | modules/light-clients/07-tendermint/client_state.go:191-203 | the store then holds the client with the initial state at its latest height |
| TendermintStore.ClientStore.SetConsensusMetadataWithValues | modules/light-clients/07-tendermint/store.go:341-349 | writes processed time, processed height and the index entry of the height, nothing else |
| TendermintStore.ClientStore.DeleteConsensus | modules/light-clients/07-tendermint/store.go:352-356 | removes the height from all four kinds of entry |
| TendermintStore.ClientStore.IterateConsensusStateAscending | modules/light-clients/07-tendermint/store.go:218-229 | gives the callback the stored heights in ascending order, up to and including the first at which it asks to stop |
| TendermintStore.ClientStore.PruneOldestConsensusState | modules/light-clients/07-tendermint/update.go:169-197 | removes the lowest height when expired; the "should never occur" panic is unreachable |
| TendermintStore.ClientStore.PruneAllExpiredConsensusStates | modules/light-clients/07-tendermint/store.go:277-304 | removes exactly the expired states with their metadata and returns their number |
| TendermintStore.ClientStore.UpdateState | modules/light-clients/07-tendermint/update.go:133-164 | the byte store follows the client machine: prune, no-op on a duplicate, else insert and raise the latest height |
| TendermintStore.ClientStore.UpdateStateOnMisbehaviour | modules/light-clients/07-tendermint/update.go:199-205 | stores the frozen client, whose status `FreezeFreezes` gives, and changes nothing else |
| TendermintStore.ClientStore.Status | modules/light-clients/07-tendermint/client_state.go:83-105 | the status read from bytes is that of the client |
| TendermintStore.ClientStore.VerifyHeader | modules/light-clients/07-tendermint/update.go:44-121 | the header check read from bytes is that of the client, which `UpdatesIffTrusted` spells out |
| TendermintStore.ClientStore.CheckMisbehaviourHeader | modules/light-clients/07-tendermint/misbehaviour_handle.go:92-171 | a submitted header passes if and only if its trusted state is stored, matches the trusted validators, is younger than the trusting period and the commit is trusted |
| TendermintStore.ClientStore.UpdateClient | modules/core/02-client/keeper/client.go:57-113 | outcome and new store follow from the header's own height and its neighbours; with monotone time they are those of the machine that checks against every stored state |
| TendermintStore.ClientStore.RunMessages | modules/light-clients/07-tendermint/update.go:123-164 | after any run on bytes the store holds the machine's client, with monotone time and the latest height greatest |
| TendermintStore.ClientStore.RunEvents | modules/light-clients/07-tendermint/store.go:336-356 | messages, upgrades, substitutions from any store and prunings in any order keep the byte store the rendering of the client they lead to; time stays monotone while upgrades and substitutions write in time order |
| TendermintStore.EventMonotoneIff | modules/light-clients/07-tendermint/proposal_handle.go:55-78 | messages and prunings keep time monotone; an upgrade or substitution does if and only if the state it writes is in order with all states at other heights |
| TendermintStore.EntryProvenance | modules/light-clients/07-tendermint/upgrade.go:29-128 | over messages, upgrades, substitutions and prunings every entry is one of the start, the record of a trusted header, the sentinel state of a proven upgrade, or the latest entry of a matching substitute |
| TendermintStore.ClientStore.VerifyUpgradeAndUpdateState | modules/light-clients/07-tendermint/upgrade.go:29-128 | succeeds if and only if all checks pass; success inserts the sentinel state at the upgraded height, an error leaves the store alone |
| TendermintStore.UpgradeKeepsCommittedFields | modules/light-clients/07-tendermint/upgrade.go:99-106 | the written client state has exactly the fields the proof commits to and keeps the client-chosen ones |
| TendermintStore.UpgradeWritesSentinel | modules/light-clients/07-tendermint/upgrade.go:108-125 | the root written by an upgrade is the sentinel whatever the upgrade brings; time and next validators are those proven, other entries stay |
| TendermintStore.ClientStore.CheckSubstituteAndUpdateState | modules/light-clients/07-tendermint/proposal_handle.go:28-81 | each result has its exact condition; success copies the substitute's latest entry; the half-written case happens only when the substitute lacks metadata |
| TendermintStore.SubstitutionAdoptsParameters | modules/light-clients/07-tendermint/proposal_handle.go:83-102 | a matching subject ends with every parameter of the substitute, unfrozen |
| TendermintStore.MatchesIff | modules/light-clients/07-tendermint/proposal_handle.go:83-102 | a substitute matches if and only if trust level, unbonding period, clock drift, proof specs and upgrade path are the subject's |
| TendermintStore.ClientStore.ExportMetadata | modules/light-clients/07-tendermint/genesis.go:12-22 | lists exactly the processed-time, processed-height and index entries, each once |
| TendermintStore.ExportRebuildsStore | modules/light-clients/07-tendermint/store.go:79-111 | the exported metadata, written beside client state and consensus states, rebuilds the store byte for byte |
| Heights.ParseText | modules/core/02-client/types/height.go:137-151 | `ParseHeight` undoes `Height.String` |
| Heights.BigEndianHeightOrder | modules/light-clients/07-tendermint/store.go:325-330 | order of the sixteen bytes is (revision, height) order, and they determine the height |
| HostPaths.PathsInjective | modules/core/24-host/keys.go:34-235 | for separator-free identifiers no two paths collide, within one kind or across kinds |
| HostPaths.ClientTexts | modules/core/24-host/keys.go:34-235 | the texts of client, consensus, connection and port paths |
| HostPaths.ChannelTexts | modules/core/24-host/keys.go:129-176 | the texts of channel, capability and next-sequence paths |
| HostPaths.PacketTexts | modules/core/24-host/keys.go:178-214 | the texts of commitment, acknowledgement and receipt paths |
| HostPaths.SplitBuild | modules/core/24-host/keys.go:34-235 | splitting a built path at the slashes gives back its elements |
| HostPaths.PrefixIterationExact | modules/core/24-host/keys.go:189-208 | among all well-named paths, those with a commitment or acknowledgement prefix are exactly the commitments or acknowledgements of that port and channel |
| HostPaths.ParseClientStatePathExact | modules/core/24-host/parse.go:48-67 | the parser returns an id if and only if the path is the built path of that id, separator-free and not blank |
| HostPaths.ParseConnectionPathExact | modules/core/24-host/parse.go:71-78 | exactly the two-element paths are accepted, with their second element |
| HostPaths.ParseConnectionUndoesBuild | modules/core/24-host/parse.go:71-78 | the connection parser undoes the connection builder |
| HostPaths.ParseChannelPathExact | modules/core/24-host/parse.go:82-93 | exactly the paths `root/ports/port/channels/channel`, ended or followed by a slash and anything, are accepted |
| HostPaths.ParseChannelUndoesBuild | modules/core/24-host/parse.go:82-93 | port and channel are recovered from every channel-scoped path, packets included, and every other kind is rejected |
| HostPaths.ParseIdentifierExact | modules/core/24-host/parse.go:13-33 | exactly the identifiers are accepted that are the non-empty prefix and a decimal number in which the prefix does not occur again, leading zeros included |
| HostPaths.ParseIdentifierRoundTrip | modules/core/24-host/parse.go:13-33 | the number is recovered for every prefix with a non-digit |
| HostPaths.ValidatedPathSpace | modules/core/24-host/validate.go:39-88 | identifiers that pass their validators give a collision-free path space whose parsers undo the builders |
| HostPaths.ValidBytesAre | modules/core/24-host/validate.go:22-60 | the valid characters are letters, digits and nine signs, never white space or a slash |
| HostPaths.ValidLengths | modules/core/24-host/validate.go:62-88 | which lengths the validators of clients, connections, channels and ports allow |
| ByteStrings.BlankIff | modules/core/24-host/validate.go:39-43 | blank means that trimming white space leaves nothing |
| Wire.SovIsLength | modules/capability/types/capability.pb.go:343-345 | the size formula counts the bytes of the varint, for every 64-bit number |
| Wire.VarintSpells | modules/capability/types/capability.pb.go:288-298 | the encoding is the shortest one that spells the number in base 128, with the high bit on every byte but the last |
| Wire.EncodeVarint | modules/capability/types/capability.pb.go:288-298 | fills exactly the bytes before the offset with the base-128 encoding and leaves the rest of the buffer alone |
| Wire.ReadVarintOfVarint | modules/capability/types/capability.pb.go:383-396 | wherever an encoding stands, reading returns the number and the index after it |
| Wire.OrDigit | modules/capability/types/capability.pb.go:355-368 | or-ing a shifted digit above the bits read so far adds it, modulo 2^64, at every shift of the loop |
| Wire.DecodeVarint | modules/capability/types/capability.pb.go:355-368 | the loop of shifts and ors returns the spelled number modulo 2^64, or the overflow or end-of-data error |
| Messages.SkipItem | modules/capability/types/capability.pb.go:616-693 | skipping passes over exactly one encoded item of any wire type, nested groups included, and comes out at the same depth |
| Messages.Skip | modules/capability/types/capability.pb.go:616-693 | where an item of any wire type is encoded, the loop returns its length |
| Messages.ReadEncoded | modules/capability/types/capability.pb.go:352-410 | one turn of an `Unmarshal` loop gives back a known field that was written there and passes over an unknown item of any wire type |
| Messages.ReadRefuses | modules/capability/types/capability.pb.go:369-380 | which tags an `Unmarshal` loop refuses and with which error |
| Messages.ItemLayout | modules/capability/types/capability.pb.go:616-693 | the tag bytes of fixed-width fields and groups |
| Messages.ScanOfEncoded | modules/capability/types/capability.pb.go:349-417 | reading an encoded list of items gives back the known fields in order; unknown items of every wire type are passed over |
| Messages.EncodeInjective | modules/capability/types/capability.pb.go:201-286 | two lists of known fields with the same encoding are the same |
| Messages.PutVarintField | modules/capability/types/capability.pb.go:206-210 | value and tag written backwards are the field's encoding, the rest of the buffer untouched |
| Messages.PutBytesField | modules/capability/types/capability.pb.go:234-240 | content, length and tag written backwards are the field's encoding, the rest of the buffer untouched |
| CapabilityTypes.CapabilitySizeIsLength | modules/capability/types/capability.pb.go:299-309 | `Capability.Size` is the length of the encoding |
| CapabilityTypes.OwnerSizeIsLength | modules/capability/types/capability.pb.go:311-326 | `Owner.Size` is the length of the encoding |
| CapabilityTypes.OwnersSize | modules/capability/types/capability.pb.go:328-341 | the size loop of `CapabilityOwners` gives the length of the encoding |
| CapabilityTypes.CapabilityLayout | modules/capability/types/capability.pb.go:201-212 | the bytes of a capability, tag 0x08 |
| CapabilityTypes.OwnerLayout | modules/capability/types/capability.pb.go:229-249 | the bytes of an owner, tags 0x0a and 0x12 in this order |
| CapabilityTypes.OwnersLayout | modules/capability/types/capability.pb.go:266-286 | the bytes of an owner list, each owner under tag 0x0a |
| CapabilityTypes.MarshalCapability | modules/capability/types/capability.pb.go:201-212 | fills exactly `Size()` bytes before the end, nothing else |
| CapabilityTypes.MarshalOwner | modules/capability/types/capability.pb.go:229-249 | fills exactly `Size()` bytes before the end, nothing else |
| CapabilityTypes.MarshalOwners | modules/capability/types/capability.pb.go:266-286 | fills exactly the encoding's bytes before the end, with no gap or overrun |
| CapabilityTypes.MarshalOwnersToBytes | modules/capability/types/capability.pb.go:251-259 | a buffer of `Size()` bytes, completely filled, that decodes to the owners again |
| CapabilityTypes.UnmarshalCapability | modules/capability/types/capability.pb.go:349-417 | the loop computes the decoding, errors included |
| CapabilityTypes.UnmarshalOwner | modules/capability/types/capability.pb.go:418-531 | the loop computes the decoding, errors included |
| CapabilityTypes.UnmarshalOwners | modules/capability/types/capability.pb.go:532-615 | the loop computes the decoding; a bad owner stops it before later errors |
| CapabilityTypes.CapabilityRoundTrip | modules/capability/types/capability.pb.go:201-417 | decoding undoes encoding for every capability |
| CapabilityTypes.OwnerRoundTrip | modules/capability/types/capability.pb.go:229-531 | decoding undoes encoding for every owner |
| CapabilityTypes.OwnersRoundTrip | modules/capability/types/capability.pb.go:266-615 | decoding undoes encoding for every list of owners |
| CapabilityOwners.KeyInjectiveIff | modules/capability/types/types.go:29-31 | keys of the owners that can be stored are injective over a set of module names if and only if none extends another by a separator |
| CapabilityOwners.KeyMeansOwnerIff | modules/capability/types/types.go:45-58 | a key in use means that the owner is listed, for every sorted list and owner, if and only if no module name extends another by a separator |
| CapabilityOwners.Owners.Get | modules/capability/types/types.go:77-86 | bisection finds the insertion point and says whether a linear search would find the key |
| CapabilityOwners.Owners.Set | modules/capability/types/types.go:45-58 | refuses exactly a taken key; otherwise the list stays sorted and gains exactly the owner |
| CapabilityOwners.Owners.Remove | modules/capability/types/types.go:62-72 | the list stays sorted and loses exactly the owner with that key |
| CapabilityOwners.SortedUnique | modules/capability/types/types.go:41-58 | a sorted owner list is determined by its members |
| CapabilityState.RenderInjectiveIff | modules/capability/types/keys.go:33-43 | reverse, forward and flag keys that can be written are injective over a set of module names if and only if none begins like a reverse key of another |
| CapabilityState.ReadsOwnNamesIff | modules/capability/keeper/keeper.go:369-382 | after every sequence of owner writes and deletions a module finds under a name exactly its own entry if and only if no module name begins like a reverse key of another |
| CapabilityState.SafeForMemory | modules/capability/types/keys.go:33-43 | module names that keep owner keys apart keep memory keys apart |
| CapabilityState.KeyTexts | modules/capability/types/keys.go:20-43 | the texts of the keys of both stores |
| CapabilityState.PointerTextSpells | modules/capability/types/keys.go:39-43 | an address is written in lower-case hexadecimal, padded to sixteen digits |
| CapabilityState.PersistentKeysDetermineIndex | modules/capability/types/keys.go:20-54 | owner keys determine their index and never equal the counter's key |
| CapabilityState.ThreeWayAgreement | modules/capability/keeper/keeper.go:233-407 | reverse entry, forward entry and stored owner list are equivalent for every module, name and mapped index |
| CapabilityState.ClaimKeepsAgreementIff | modules/capability/keeper/keeper.go:295-322 | a claim's writes keep the structures in agreement if and only if the reference is live, the name is unused and the module owns nothing else at that index |
| CapabilityState.RollbackKeepsAgreement | modules/capability/keeper/keeper.go:379-387 | restoring both stores but not the Go map leaves everything in agreement under the same references |
| CapabilityKeeper.Keeper.ScopeToModule | modules/capability/keeper/keeper.go:70-91 | refuses exactly a sealed keeper, a blank name or a repeated name; otherwise the module is added, and agreement lives on under any name that keeps memory keys apart |
| CapabilityKeeper.Keeper.GetCapability | modules/capability/keeper/keeper.go:369-396 | returns the mapped reference exactly for owned names; the panic is unreachable |
| CapabilityKeeper.Keeper.GetCapabilityName | modules/capability/keeper/keeper.go:400-407 | returns a name exactly when the module owns that reference under it |
| CapabilityKeeper.Keeper.AuthenticateCapability | modules/capability/keeper/keeper.go:283-288 | true exactly for an owned name and its own reference |
| CapabilityKeeper.Keeper.LookupModules | modules/capability/keeper/keeper.go:439-459 | the reference and the modules of the stored owner list in order, with the exact error cases |
| CapabilityKeeper.Keeper.NewCapability | modules/capability/keeper/keeper.go:233-273 | a fresh index and reference owned by the caller alone, the exact error cases; agreement kept if and only if the counter does not wrap |
| CapabilityKeeper.Keeper.ClaimCapability | modules/capability/keeper/keeper.go:295-322 | the caller becomes an owner; refused as claimed exactly when its key is in use at that index; agreement kept if and only if the reference is live, the name free and the only one |
| CapabilityKeeper.Keeper.ReleaseCapability | modules/capability/keeper/keeper.go:327-364 | the caller's ownership of that reference ends; the last release removes it from the map |
| CapabilityKeeper.Keeper.InitializeCapability | modules/capability/keeper/keeper.go:204-222 | for any list: one new reference, mapped if there is an owner, and the entries of every owner in order; agreement grows when the owners are new and of different modules |
| CapabilityKeeper.Keeper.InitMemStore | modules/capability/keeper/keeper.go:113-145 | rebuilds agreement and an exact map from the persistent store; a second call changes nothing |
| CapabilityRuns.Restart | modules/capability/keeper/keeper.go:113-145 | losing memory store and map and initializing again keeps every name, index and owner list |
| CapabilityRuns.LookupSurvivesRestart | modules/capability/keeper/keeper.go:439-459 | the same modules are found across a restart, and the new reference authenticates |
| CapabilityRuns.FailedTransaction | modules/capability/keeper/keeper.go:379-387 | after any failed transaction all structures agree again and every owned reference is the same; the map is exact if and only if it was and no operation created a capability |
| CapabilityRuns.ExactIff | modules/capability/keeper/keeper.go:379-387 | in every valid state the map holds exactly the owned indices if and only if it holds nothing at or above the counter |
| CapabilityRuns.FailedCreationIsLeftover | modules/capability/keeper/keeper.go:379-387 | the first creation of a module, in a transaction that fails, leaves an index that nobody owns in the map |
| CapabilityRuns.CommittedSurvivesFailure | modules/capability/keeper/keeper.go:369-396 | a committed capability is returned as the same reference after a failed transaction and still authenticates |
| CapabilityRuns.Run | modules/capability/keeper/keeper.go:233-407 | over every run of operations, releases, failed transactions and restarts the structures agree and the map holds the owned indices and leftovers at or above the counter, none without failures |
| CapabilityRuns.ExportGenesis | modules/capability/genesis.go:27-48 | exports counter and every owner list once, ascending, and the export passes `Validate` |
| CapabilityRuns.InitGenesis | modules/capability/genesis.go:12-24 | on an empty keeper any genesis state with a counter is loaded, and the structures agree if and only if its owner lists are consistent and of known modules |
| CapabilityRuns.ConsistentIff | modules/capability/genesis.go:12-24 | owner lists agree with an ownership, and then with one only, if and only if they are sorted, not empty, below the counter, without a module twice or a shared owner |
| CapabilityRuns.GenesisRoundTrip | modules/capability/genesis.go:12-48 | export and import reproduce the counter, every owner list and every name-to-index lookup |
| CapabilityRuns.ListedValidates | modules/capability/types/genesis.go:21-49 | every stored owner list passes the per-owner checks of `Validate` |
| CapabilityRuns.ValidateIff | modules/capability/types/genesis.go:21-49 | for one list an index, passing `Validate` and being tidy (sorted, no module twice, no shared owner, known modules) is exactly what a loadable state needs |
| CapabilityRuns.ValidateAcceptsInconsistent | modules/capability/types/genesis.go:21-49 | `Validate` passes a state that lists a module twice for one capability, which no ownership agrees with |
| CapabilityRuns.StrangerIsRefused | modules/capability/keeper/keeper.go:461-475 | whenever a module name followed by a separator begins another, a claim by the first can be refused as a repetition although it owns nothing |
| SignBytesCodec.SizeIsLength | modules/light-clients/06-solomachine/solomachine.pb.go:943-968 | `SignBytes.Size` is the length of the encoding |
| SignBytesCodec.Layout | modules/light-clients/06-solomachine/solomachine.pb.go:728-765 | the signed bytes: sequence, timestamp, diversifier, path and data under tags 0x08, 0x10, 0x1a, 0x22 and 0x2a |
| SignBytesCodec.HeaderLayout | modules/light-clients/06-solomachine/solomachine.pb.go:782-807 | the bytes of a header's data: key unless nil, then diversifier, under tags 0x0a and 0x12 |
| SignBytesCodec.HeaderDataInjective | modules/light-clients/06-solomachine/solomachine.pb.go:782-807 | the header's data determine the new key and diversifier |
| SignBytesCodec.MarshalHeaderData | modules/light-clients/06-solomachine/solomachine.pb.go:767-807 | a buffer of the precomputed size is filled with exactly that encoding |
| SignBytesCodec.MarshalToSizedBuffer | modules/light-clients/06-solomachine/solomachine.pb.go:728-765 | the five fields fill exactly `Size()` bytes before the end, nothing else |
| SignBytesCodec.Marshal | modules/light-clients/06-solomachine/solomachine.pb.go:713-721 | a completely filled buffer that decodes to the message again |
| SignBytesCodec.Unmarshal | modules/light-clients/06-solomachine/solomachine.pb.go:1841-2028 | the loop computes the decoding, errors included |
| SignBytesCodec.RoundTrip | modules/light-clients/06-solomachine/solomachine.pb.go:728-2028 | decoding undoes encoding for every message |
| SignBytesCodec.Injective | modules/light-clients/06-solomachine/solomachine.pb.go:728-765 | different messages have different encodings |
| SoloMachine.Client.VerifyMembership | modules/light-clients/06-solomachine/client_state.go:109-242 | accepted exactly when every check passes and the message is signed; then sequence and timestamp advance, otherwise nothing changes |
| SoloMachine.Client.VerifyNonMembership | modules/light-clients/06-solomachine/client_state.go:160-202 | the same with empty data |
| SoloMachine.Client.UpdateClient | modules/light-clients/06-solomachine/update.go:29-100 | an accepted header installs key, diversifier and timestamp and advances the sequence; otherwise nothing changes |
| SoloMachine.Client.UpdateStateOnMisbehaviour | modules/light-clients/06-solomachine/update.go:102-108 | freezes the client and changes nothing else |
| SoloMachine.SequenceCountsAcceptances | modules/light-clients/06-solomachine/client_state.go:151-153 | over every run the sequence rises by exactly one per acceptance (modulo 2^64) and the timestamp never decreases |
| SoloMachine.NoRepeat | modules/light-clients/06-solomachine/client_state.go:109-202 | over every run, any two accepted messages less than 2^64 requests apart are signed as different bytes |
| SoloMachine.HeadersAreNotProofs | modules/light-clients/06-solomachine/header.go:14-15 | the bytes signed for a header are never those signed for a membership or non-membership proof |
| SoloMachine.ProofsCover | modules/light-clients/06-solomachine/client_state.go:134-140 | proofs signed as the same bytes, in any two states, are about the same value, path, timestamp, diversifier and sequence; with escaped keys apart, about the same key path |
| SoloMachine.HeadersCover | modules/light-clients/06-solomachine/update.go:38-56 | headers signed as the same bytes install the same key and diversifier, with the same timestamp, current diversifier and sequence |
| SoloMachine.AbsenceIsEmptyValue | modules/light-clients/06-solomachine/client_state.go:134-186 | a signature over absence is one over a value at that path if and only if the value is empty |
| SoloMachine.AcceptedIffSigned | modules/light-clients/06-solomachine/client_state.go:109-242 | a request of a run is accepted if and only if the key in force has signed path and value, or the new key, with the sequence number of that point |
| SoloMachine.StepExact | modules/light-clients/06-solomachine/update.go:79-108 | what each request of a run changes in the whole state, and that everything else changes nothing |
| SoloMachine.KeyProvenance | modules/light-clients/06-solomachine/update.go:29-100 | after a run, key and diversifier are the initial ones or those of the last accepted header, signed by the key before it |
| SoloMachine.FrozenIsFinal | modules/light-clients/06-solomachine/update.go:102-108 | misbehaviour freezes the client for the rest of the run, all else unchanged |

## Left out

- Handshakes, packets, transfer, fee and interchain-account applications: other modules of the repository, not modelled.
- `light.Verify`, `VerifyCommitLightTrusting`, Merkle and signature verification, and the `Any` codec: foreign code, arbitrary inputs here.
- `ClientState.Validate`, `Header.ValidateBasic`, `Misbehaviour.ValidateBasic` and the 02-client list of allowed client types: plain checks before the modelled code.
- Error texts, telemetry, events, gas and logging: only which error, where it matters.
- `time.Time` beyond nanoseconds since the epoch (time zones, monotonic readings, values outside `int64`), and `reflect.DeepEqual` beyond equality of values.
- Non-ASCII white space in `strings.TrimSpace`: `Blank` knows the ASCII characters only.
- CheckTx interleaved with DeliverTx, what follows once agreement is lost, rollback of `ReleaseCapability`: outside the runs considered.
- The remaining generated messages: same template, no new content.
- The difference between `nil` and an empty slice in decoded `bytes` fields: both are the empty string of bytes.
- The solo machine's substitution and misbehaviour verification: no effect on sequence numbers in the runs considered.
- The 09-localhost client, queries, module registration and tests.
- CapabilityKeeper.Keeper.NewCapability: the persistent store holds owner lists decoded and by index; that the encoding loses nothing and keys determine indices is proved separately (`CapabilityTypes.OwnersRoundTrip`, `CapabilityState.PersistentKeysDetermineIndex`).
