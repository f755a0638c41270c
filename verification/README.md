# PathForge in Dafny

A verified model of the core of PathForge, a BGP-4 daemon: its routing information base with
incremental best-path selection, flap damping and graceful restart; its wire codec and stream
deframer; route reflection; prefix containment with the three algorithms built on it; and the
session state machine.

`dafny verify dfyconfig.toml` checks everything.

## How the model is laid out

| file | part of PathForge |
|---|---|
| `Wire`, `Attr`, `AttrCodec`, `AttrRoundTrip`, `AttrFormat` | octets and path attributes |
| `Framing`, `Updates`, `UpdateRoundTrip`, `Capabilities`, `Opens`, `ParamBlocks`, `WireFormat` | message framing, UPDATE, capabilities and OPEN |
| `Prefixes`, `Lookup`, `Rpki`, `Policy` | containment tests, longest match, origin validation, prefix lists |
| `Dampening`, `Decision`, `MedRule`, `RibModel`, `UpdateOutcome`, `BothListed`, `OriginValidation`, `RibTheorems`, `StaleFlags`, `GracefulRestart`, `DampedRib`, `Rib` | the RIB |
| `Reflection` | route reflection |
| `Session`, `OwnRoutes`, `OutOfTurn`, `Streams`, `Exchanges` | the session loop, what it leaves of its peer, and the loop fed with octets |

Code that changes state is a class or a method with loops (`Rib.Rib`, `Dampening.DampeningTable`,
`Rpki.RpkiValidator`, `Framing.ReadBuffer`, `Session.Peer`, `Streams.ServeStream`, the
`Read…`/`Write…` methods of the codec). Each method is proved equal to, or one step of, a specification in the module beside it, and
the theorems are about those specifications.

The main results:

- **Loc-RIB agreement.** Each operation re-runs the decision process only for the keys it affects.
  `RibModel.RunInvariant` shows that in every state of every run the Loc-RIB is nevertheless what a
  full recomputation may select, up to the stale flag; `StaleFlags.ExactIff` says when the flag differs,
  `RibTheorems.LocDetermined` that without full ties the selection depends on the tables alone.
- **Damping.** The decaying accumulator refines a history of flaps (`Dampening.RunFaithful`), the
  RIB's table is the one its own trace builds (`DampedRib.DampingIsTrace`), and a route the history
  suppresses is neither held nor selected (`DampedRib.FlappingRouteNotSelected`).
- **Graceful restart.** Mark, refresh and sweep equals replay from an empty table
  (`GracefulRestart.RestartIsReplay`).
- **Codec.** Attribute, UPDATE, OPEN and capability round trips are proved as equivalences: they hold
  exactly on the values that pass a test the sender can make. Deframing does not depend on how the
  stream is cut, and a list of updates arrives intact through any cutting. `WireFormat` and `AttrFormat`
  tie parsers and printers to the octets themselves: which are accepted, as what, and how each other input
  is refused.
- **Reflection** goes along a chain exactly when no cluster repeats and the route never returns to its
  originator, hence ends.
- **Sessions** move through their phases once. After the hold timer, the end of the stream or a
  NOTIFICATION nothing of the peer is left in the RIB, whatever other sessions did meanwhile; no other
  exit removes anything (`Session.ExitLeavesNothingIff`). At every moment a peer's table and damping
  state are what its own events since the last removal build from nothing, whatever other sessions do
  (`OwnRoutes.NonInterference`, `OwnRoutes.SinceRemoval`).
- **From octets to routes.** A session reading octets, with other tasks at work between its messages and
  any of its endings, does to the RIB what the events of the whole stream prescribe
  (`Streams.ServeStream`), so how the stream is cut into reads has no influence on
  the tables, nor, without full ties, on the selected routes (`Streams.SameStreamSameRib`).
  `Exchanges.SessionHolds` follows an OPEN, a KEEPALIVE and any UPDATE from their octets to the routes
  held afterwards.
- **Longest match** depends on hash order exactly when two keys of one length are the longest that
  cover the address (`Lookup.OrderIndependentIff`).
- **Origin validation.** For a given origin `validate` differs from section 2 of RFC 6811 in exactly
  three situations (`Rpki.ValidateAgainstRfc`). The RIB hands it the peer's AS instead of the route's
  origin; `OriginValidation.InstalledState` gives the exact condition for the installed state to be the
  RFC's nevertheless, and `OriginValidation.JudgedRightIff` shows that, those three situations aside, it is
  right for every ROA table exactly for routes that originate at the peer.
- **UPDATEs out of turn** are processed too; `OutOfTurn.EarlyUpdatesHarmlessIff` says exactly when they make
  no difference.

## Choices

- Octets and words are integers with explicit ranges; truncating casts are written as remainders.
  A shift right by one halves, a shift left by one doubles modulo 2^32, and the bitwise conjunction is
  defined bit by bit. Shift amounts follow a release build, where `32 - len` wraps and is taken modulo
  32, so the containment tests are total; that they test containment is proved for lengths up to 32
  (1 to 32 for a ROA, whose length 0 is treated by `Rpki.DefaultRoaCoversOneAddress`). The theorems
  about longest match and its order are for keys of every length.
- `Prefix` and `PrefixKey` have the same two fields and are one datatype.
- Peer addresses are pairs of a host number and a port; only equality is used.
- Clocks are parameters. In an UPDATE every prefix carries the clock reading when its turn comes, and
  one reading serves all uses of the clock inside one damping call. Damping theorems ask for
  non-decreasing times; the RIB theorems do not.
- Penalties are reals, and `0.5^(t / half_life)` is any function with its three laws: value 1 at 0,
  sums of times to products, values in (0, 1].
- Hash-map order is arbitrary: methods pick keys nondeterministically and `Lookup` quantifies over
  every enumeration. The library's stable sort appears as the choice of its head, the first of the
  best candidates; `Decision.SortedHeadIsBest` ties this to any sorted rearrangement.
- Reading past the end of a buffer, which panics, is the outcome `BufferUnderflow`. Serializing a
  prefix longer than 32 bits panics, so `Serializable` is a precondition there.
- The hold timer, the end of the stream, a read error, a malformed message and other tasks' RIB
  operations are events that may come at any turn of a session; each RIB call is atomic under its lock.
  A panic while a message is parsed and a failed write (src/peer.rs:140, 254) also return without
  cleanup and count as the same event as a parse error.
- In `Streams` a chunk is what one read brings, empty when the read timed out. The clock is a function
  of the message and the prefix within it, and other tasks' operations are given by the message they
  precede, so two cuttings are compared at the same clock readings and the same interleaving. The hold
  timer and the outcome of a read matter only between reads, when the buffer holds no complete message.
- The route origin of section 2 of RFC 6811 is NONE for a final AS_SEQUENCE without any AS, which the
  parser lets through and the RFC does not mention.
- `OutOfTurn` asks for a positive penalty per flap and for a session whose peer no other task touches.

## Where the code departs from its documentation

The model follows the code.

- A prefix both announced and withdrawn in one UPDATE ends up withdrawn (src/rib.rs:146-155), against
  the advice of section 4.3 of RFC 4271: `BothListed.WithdrawalWinsIff` gives the exact condition for the
  two readings to agree, `BothListed.BothListedExample` an UPDATE on which they do not.
- `mark_peer_stale` does not touch the Loc-RIB copies, so agreement is stated up to the stale flag.
  `StaleFlags.ExactIff` says exactly when a copy lags behind, `StaleFlags.MarkedExample` shows one.
- MED is compared between all neighbours, although src/rib.rs:167-175 names section 9.1 of RFC 4271, which
  compares it within one neighbour AS. `MedRule.MedSelectionIff` gives the exact condition for the
  selection to be the same, `MedRule.MedExample` two routes for which it is not.
- README.md:144 and src/peer.rs:178-179 promise graceful restart on disconnect, but both exits of the
  session loop have already left Established when `handle_disconnect` asks for it, so the peer's routes
  always go at once: `Session.ExitLeavesNothing`.
- A read error or a message that does not parse ends a session without cleanup (src/peer.rs:159-163,
  172-173), so the peer's routes stay selected: `Session.MalformedLeavesRoute` shows it on a run,
  `Session.ExitLeavesNothingIff` says exactly which exits clean up.
- A route longer than the ROA's maximum length is NotFound, although src/rpki.rs:12-13 says Invalid
  (`Rpki.TooLongExample`); a ROA for AS 0 makes a route from AS 0 Valid (`Rpki.ZeroOriginExample`); a
  ROA of length 0 covers one address only (`Rpki.DefaultRoaExample`). `Rpki.ValidateAgainstRfc` gives
  the exact difference from section 2 of RFC 6811 for ROAs of lengths 0 to 32.
- The origin that is validated is the AS number of the peer (src/rib.rs:139-141), not the last AS of the
  AS_PATH that section 2 of RFC 6811 names. `OriginValidation.InstalledState`,
  `OriginValidation.StrictOutcome` and `OriginValidation.JudgedRightIff` say exactly when this matters,
  `OriginValidation.TransitExample` shows a Valid transit route that is dropped.
- An unknown attribute received with a two-octet length and a short value is corrupted when passed on
  (`AttrRoundTrip.PassThroughCorrupts`); `AttrRoundTrip.RoundTrip` gives the exact condition.
- The length of a capability is checked against the whole parameter block and not against its parameter, so
  its value may be taken from the parameters that follow: `ParamBlocks.OverrunExample`, with the exact
  condition in `ParamBlocks.SeparateIff`.
- The UPDATE parser keeps host bits, so two Loc-RIB keys may denote one network and longest match then
  depends on hash order: `Lookup.ParsedTwinsAmbiguous` shows it on two parsed prefixes, and
  `Lookup.OrderIndependentIff` gives the exact condition.
- The attribute-length read of an UPDATE has no guard: `UpdateRoundTrip.UnderflowIff` says exactly when
  it reads past the body, `UpdateRoundTrip.UnderflowExample` shows a body on which it does.
- UPDATEs are processed in every session state, not only in Established (src/peer.rs:269-324):
  `OutOfTurn.EarlyExample`, with the exact condition in `OutOfTurn.EarlyUpdatesHarmlessIff`.

## Model

| member | source | states |
|---|---|---|
| `RibModel.RunInvariant` | src/rib.rs:116-267 | in every state of every run of updates, withdrawals, peer removal, marking, sweeping and ROA changes: Loc-RIB keys are the union of the tables' keys, each entry is up to the stale flag a peer's current route that no candidate beats, routes are filed under their own peer and prefix, and no suppressed route is held |
| `RibModel.InvariantStep` | src/rib.rs:116-267 | each single operation keeps that invariant although it recomputes only its affected keys |
| `RibModel.UnaffectedCandidates` | src/rib.rs:157-164 | outside the affected keys an operation changes no peer's candidate (marking, which only sets the flag, apart) |
| `RibModel.AgreesStep` | src/rib.rs:157-164 | incremental recomputation carries Loc-RIB agreement from one state to the next |
| `RibModel.MarkedCandidates` | src/rib.rs:233-239 | marking a peer stale keeps Loc-RIB agreement without touching the Loc-RIB |
| `RibModel.NoneHeldSuppressedStep` | src/rib.rs:124-155 | no operation leaves a suppressed route in a table |
| `RibModel.FiledStep` | src/rib.rs:146-149 | every held route belongs to the peer and prefix it is filed under |
| `RibTheorems.LocEntry` | src/rib.rs:176-215 | a reachable Loc-RIB has a key exactly if some peer offers it; the entry names the peer whose current route it is, and that route is best |
| `RibTheorems.SuppressedNotSelected` | src/rib.rs:134-144 | a route marked suppressed is absent from its peer's table and not the selected route |
| `RibTheorems.RemovedPeerGone` | src/rib.rs:218-230 | removing a peer leaves no table, no selected route and no damping entry of it |
| `RibTheorems.LocDetermined` | src/rib.rs:176-215 | without full ties two reachable RIBs with equal tables select the same routes, whatever their histories |
| `RibTheorems.IncumbentKept` | src/rib.rs:188-214 | a later announcement from another peer that ties on the first four levels never displaces the selected route |
| `RibTheorems.TablesAfter` | src/rib.rs:116-267 | which peers have a table after an operation: an UPDATE creates one even if empty, removal drops it, a sweep drops it exactly if nothing fresh is left |
| `RibTheorems.SummaryBounded` | src/rib.rs:313-316 | a reachable Loc-RIB has at most as many entries as the tables have routes |
| `UpdateOutcome.UpdatedRoute` | src/rib.rs:124-155 | closed form of one UPDATE at every key: withdrawn keys are gone, accepted ones hold exactly the new route with the last stamp, the rest is unchanged |
| `UpdateOutcome.AnnounceOutcome` | src/rib.rs:132-150 | the announcement loop installs a key exactly if it is announced, not rejected by origin validation and not suppressed afterwards |
| `BothListed.WithdrawalWinsIff` | src/rib.rs:124-155 | at every key the UPDATE leaves what it leaves when the announced prefixes are struck from its withdrawn routes, unless the key is in both lists and was held or is accepted |
| `BothListed.BothListedExample` | src/rib.rs:152-155 | a first announcement that the same UPDATE withdraws: nothing is held, against one route in the RFC's reading |
| `OriginValidation.InstalledState` | src/rib.rs:138-149 | the state an accepted route is installed with is the RFC's for its AS_PATH origin if and only if some ROA counts, unless none covers, and one that counts backs the peer's AS exactly when one matches the origin |
| `OriginValidation.StrictOutcome` | src/rib.rs:138-144 | under Strict a route that is not suppressed is dropped, what was held staying, exactly when ROAs count and none backs the peer's AS; otherwise it is installed |
| `OriginValidation.LooseOutcome` | src/rib.rs:138-149 | under Loose a route that is not suppressed is always installed, as Invalid exactly when ROAs count and none backs the peer's AS, as NotFound exactly when none counts |
| `OriginValidation.DisabledOutcome` | src/rpki.rs:123-125 | under Disabled it is always installed as NotFound, whatever the ROAs |
| `OriginValidation.JudgedRightIff` | src/rib.rs:138-141 | with ROAs of length 0 and too short maximum lengths set aside, the verdict is right for every ROA table if and only if the route originates at the peer, with a nonzero AS, or is the default route |
| `OriginValidation.TransitExample` | src/rib.rs:138-144 | a transit route, Valid by the RFC, is Invalid in the code and dropped under Strict |
| `StaleFlags.ExactIff` | src/rib.rs:233-239 | at every point of every run a Loc-RIB entry equals its table's route, flag included, unless the selected peer was marked since the key was last redecided |
| `StaleFlags.ExactStep` | src/rib.rs:233-239 | the same for one operation, as an equivalence |
| `StaleFlags.MarkedExample` | src/rib.rs:233-239 | a run after which the table's route is stale and the selected copy is not |
| `GracefulRestart.RestartIsReplay` | src/rib.rs:233-267 | mark, any operations in between, sweep: the peer's table is what the operations build from an empty one with the same damping, and nothing else is affected |
| `GracefulRestart.RestartSelectsSame` | src/rib.rs:233-267 | without full ties the restarted RIB selects the routes the replaying one selects |
| `GracefulRestart.CoupledStep` | src/rib.rs:116-165 | every operation keeps the replayed table equal to the unmarked part of the marked one |
| `DampedRib.DampingIsTrace` | src/rib.rs:124-136 | in every run of the RIB the damping table is the one built by the trace of its withdrawals, checks and removals |
| `DampedRib.FlappingRouteNotSelected` | src/rib.rs:124-164 | at every point of every run, suppression is what the flap history says, and a suppressed route is neither held nor selected |
| `Decision.CompareIsTotalPreorder` | src/rib.rs:189-211 | the five-level comparison is reflexive, antisymmetric in its sign, transitive and total |
| `Decision.CompareByRules` | src/rib.rs:189-211 | the comparison, in the raw fields: highest LOCAL_PREF (100 if absent), then shortest AS_PATH, then ORIGIN (IGP, EGP, INCOMPLETE or absent), then lowest MED (0 if absent), then the oldest; better, worse and equal each by an equivalence |
| `Decision.BestByRules` | src/rib.rs:167-175 | a route may be selected exactly if no candidate is preferred to it by those rules |
| `Decision.OriginOrder` | src/rib.rs:197-201 | routes that differ in ORIGIN only rank IGP, EGP, INCOMPLETE, an absent ORIGIN like the last |
| `Decision.AbsentDefaults` | src/rib.rs:190-209 | an absent LOCAL_PREF ties with 100 and an absent MED with 0 |
| `Decision.SelectBest` | src/rib.rs:188-213 | selects the first of the best candidates |
| `Decision.SortedHeadIsBest` | src/rib.rs:189-213 | the head of any sorted rearrangement of the candidates is a best one |
| `Decision.SelectionUnique` | src/rib.rs:177-213 | two selections tie on all levels, and are equal when no two candidates tie |
| `Decision.AsPathLenAdds` | src/attr.rs:377-385 | path length adds over segments, one per AS_SET |
| `MedRule.MedSelectionIff` | src/rib.rs:204-211 | the selection is never outdone on MED within its neighbour, and is also the one of the per-neighbour rule if and only if every older, level route of another neighbour with a higher MED is outdone within that neighbour |
| `MedRule.MedExample` | src/rib.rs:204-211 | two routes of different neighbours between which the two rules choose differently |
| `Rib.Rib.ProcessUpdate` | src/rib.rs:116-165 | one step of the state machine for an UPDATE, keeping the invariant |
| `Rib.Rib.InstallRoutes` | src/rib.rs:132-150 | the announcement loop computes the specified table, damping state and affected keys |
| `Rib.Rib.RunDecisionProcess` | src/rib.rs:176-215 | leaves a best candidate at the key, or nothing if there is none, and touches no other key |
| `Rib.Rib.RemovePeer` | src/rib.rs:218-230 | one removal step, keeping the invariant, and returns the removed keys |
| `Rib.Rib.MarkPeerStale` | src/rib.rs:233-239 | one marking step, keeping the invariant |
| `Rib.Rib.RemoveStaleForPeer` | src/rib.rs:242-267 | one sweeping step, keeping the invariant, and returns the stale keys |
| `Dampening.RunFaithful` | src/dampening.rs:47-161 | over every run at non-decreasing times: penalty is the sum over recorded withdrawals of the flap penalty decayed since then, suppression and its start are what that history prescribes, `suppressed` holds exactly when `suppressed_at` is set, and the count is the number of entries into suppression |
| `Dampening.PenaltyIsHistory` | src/dampening.rs:153-161 | a penalty reading is the history's value at that moment |
| `Dampening.OnlyFlapsMatter` | src/dampening.rs:125-161 | reads, checks and other routes never influence a penalty |
| `Dampening.HistoryFades` | src/dampening.rs:44-54 | without further flaps a penalty never rises |
| `Dampening.Hysteresis` | src/dampening.rs:103-150 | suppression starts exactly at a withdrawal reaching the limit and ends exactly at peer removal or at an advertisement past the maximum time or below the reuse limit |
| `Dampening.DampeningTable.RecordWithdrawal` | src/dampening.rs:103-120 | decays, adds the flap penalty, suppresses at the limit, and returns the suppression state |
| `Dampening.DampeningTable.CheckAdvertisement` | src/dampening.rs:125-150 | decays, lifts suppression after the maximum time or below the reuse limit, and returns what remains |
| `Dampening.DampeningTable.CurrentPenalty` | src/dampening.rs:153-161 | decays, creating the entry if needed, and returns the penalty |
| `Dampening.DampeningTable.RemovePeer` | src/dampening.rs:177-179 | forgets exactly the peer's entries |
| `AttrRoundTrip.RoundTrip` | src/attr.rs:172-399 | parsing the serialized form returns the attribute set exactly if it is well formed: segments of at most 255 ASNs, values of at most 65535 octets, unknown codes outside 1 to 10 with the extended-length flag set exactly above 255 octets |
| `AttrRoundTrip.ParseWritten` | src/attr.rs:172-290 | the TLV loop over concatenated attributes files them one by one |
| `AttrRoundTrip.ParseCost` | src/attr.rs:172-292 | whatever parses to a set is at least as long as the set's cost, and no result has an over-long segment, a known code among the unknown, or a length its flag cannot carry |
| `AttrRoundTrip.PassThroughCorrupts` | src/attr.rs:367-370 | a legal received attribute set that no longer parses after being passed on |
| `AttrFormat.AttributesOctets` | src/attr.rs:172-290 | an attribute list is refused unless it can be cut into flags, type, one or two length octets and value, and is otherwise stored attribute by attribute |
| `AttrFormat.TlvOctets` | src/attr.rs:174-192 | one attribute by position, the length field chosen by flag bit 16 |
| `AttrFormat.StoredValue` | src/attr.rs:190-262 | ORIGIN, NEXT_HOP, MULTI_EXIT_DISC, LOCAL_PREF, ATOMIC_AGGREGATE, AGGREGATOR and ORIGINATOR_ID: type code, octets of the value, and each error |
| `AttrFormat.StoredList` | src/attr.rs:200-290 | AS_PATH, COMMUNITIES and CLUSTER_LIST append what they carry, every other type code is kept as it came |
| `AttrFormat.PathOctets` | src/attr.rs:200-222 | an AS_PATH is accepted exactly if it can be cut into segments of type 1 or 2 with their counts, as these segments; an error is that of the first bad segment |
| `AttrFormat.SegmentOctets` | src/attr.rs:201-221 | one segment by position, and its two errors in their order |
| `AttrFormat.AttributesPrinted` | src/attr.rs:296-373 | the octets written: type codes in order, each with its flags, length and value |
| `AttrCodec.ParseAttributes` | src/attr.rs:172-292 | the buffer loop computes the specified parse, errors included |
| `AttrCodec.ReadSegments` | src/attr.rs:201-221 | the nested AS_PATH loops compute the specified segments or error |
| `AttrCodec.SerializeAttributes` | src/attr.rs:296-373 | the appending printer produces the specified octets |
| `AttrCodec.AppendAttr` | src/attr.rs:387-399 | one attribute with its one- or two-octet length |
| `WireFormat.HeaderOctets` | src/message/mod.rs:58-123 | a header is accepted exactly if octets 0 to 15 are 255, octets 16 and 17 are a length from 19 to 4096 and octet 18 a type from 1 to 5; what is delivered then, and the error otherwise |
| `WireFormat.FrameOctets` | src/message/mod.rs:92-97 | the octets of a framed message |
| `WireFormat.PrefixOctets` | src/message/update.rs:29-53 | a prefix by position: its bits, the octets they need, zeros for those not sent, and each error |
| `WireFormat.PrefixPrinted` | src/message/update.rs:55-61 | a prefix as written: its bits and the leading octets of its address |
| `WireFormat.PrefixListOctets` | src/message/update.rs:105-108 | a prefix list is accepted exactly if it can be cut, as what it is cut into; an error is that of a prefix in it |
| `WireFormat.UpdateOctets` | src/message/update.rs:90-135 | the three sections of an UPDATE body by position, and each error in its order |
| `WireFormat.OpenOctets` | src/message/open.rs:63-105 | version, AS number, hold time, identifier and parameters of an OPEN body by position, and its errors |
| `WireFormat.ParamsOctets` | src/message/open.rs:80-96 | a parameter block is accepted exactly if it can be cut, as what it is cut into |
| `WireFormat.NewOpenOctets` | src/message/open.rs:42-60 | an OPEN with capabilities carries version 4, the AS number, hold time and identifier at their places, and the block `build_capabilities` builds |
| `WireFormat.CapabilityOctets` | src/capabilities.rs:102-124 | a capability from its code and value octets, and when it stays unknown |
| `WireFormat.CapabilityPrinted` | src/capabilities.rs:33-60 | the octets of each capability |
| `Framing.FrameRoundTrip` | src/message/mod.rs:63-123 | a framed message is returned with exactly the following octets left, if and only if it is within 4096 octets |
| `Framing.AcceptedIsFrame` | src/message/mod.rs:71-123 | every accepted message is the frame of its body: nothing else parses to it |
| `Framing.ParseExtend` | src/message/mod.rs:109-123 | more data never changes a delivered message or a reported error |
| `Framing.ChunkingIrrelevant` | src/peer.rs:146-174 | any split of the stream into reads delivers the same messages, the same error and the same leftover as the whole stream |
| `Framing.DrainConserves` | src/peer.rs:171-174 | delivered frames and leftover make up the input, at least 19 octets per message |
| `Framing.ReadBuffer.NextMessage` | src/message/mod.rs:109-123 | consumes exactly one complete message, or nothing |
| `Framing.ReadBuffer.ReadAll` | src/peer.rs:146-174 | the read loop delivers what the specification says for its chunks |
| `UpdateRoundTrip.RoundTrip` | src/message/update.rs:90-161 | an UPDATE comes back through framing as a message of type UPDATE with exactly the suffix left, if and only if it fits, its attributes are well formed and its prefixes have zero octets beyond those sent |
| `UpdateRoundTrip.ParsedIsCanonical` | src/message/update.rs:29-53 | octets beyond the encoded length of a parsed prefix are zero |
| `UpdateRoundTrip.StreamDelivered` | src/peer.rs:146-174 | any list of such updates, written back to back and read in any chunks, arrives complete, in order and as messages of type UPDATE, with nothing left |
| `UpdateRoundTrip.UnderflowIff` | src/message/update.rs:98-113 | exactly when the attribute-length read runs past the body |
| `UpdateRoundTrip.UnderflowExample` | src/message/update.rs:109-113 | a four-octet body on which it does |
| `Updates.ReadUpdate` | src/message/update.rs:90-135 | the buffer-driven parser computes the specified result, errors included |
| `Updates.ReadPrefixes` | src/message/update.rs:29-53 | the prefix loop computes the specified list, four octets at most per prefix |
| `Updates.WriteUpdate` | src/message/update.rs:139-161 | the printer produces the specified frame |
| `Capabilities.ReparsedIff` | src/capabilities.rs:33-124 | a capability parses back to itself exactly if its bits fit and an unknown one does not look like a known one |
| `Capabilities.CapsParsed` | src/capabilities.rs:80-96 | the inner loop inverts the list encoding |
| `Capabilities.ParseOptionalParams` | src/capabilities.rs:72-100 | the two position-driven loops compute the specified list |
| `Capabilities.BuildCapabilities` | src/capabilities.rs:143-161 | the block, with its truncated lengths, that `EncodersAgree` shows to be what an OPEN carries |
| `ParamBlocks.ManyParameters` | src/capabilities.rs:72-100 | an OPEN with any number of parameters yields the capability lists of those of type 2, one after the other, and nothing for the others |
| `ParamBlocks.CapabilitiesCollected` | src/capabilities.rs:72-100 | for every parameter list: the capabilities of each type-2 parameter read on its own, with at most one more where a value runs into what follows |
| `ParamBlocks.SeparateIff` | src/capabilities.rs:80-93 | the parameters are read each on its own exactly if no capability runs from its parameter into the next |
| `ParamBlocks.OverrunExample` | src/capabilities.rs:86-89 | a capability whose value is taken from the following parameters |
| `Opens.CapabilityRoundTrip` | src/message/open.rs:42-129 | a capability list arrives in order through a message of type OPEN with exactly the suffix left, if and only if every capability is well formed and the block has at most 253 octets |
| `Opens.OpenRoundTrip` | src/message/open.rs:63-129 | an OPEN parses back to itself exactly when its parameters fit their one-octet length |
| `Opens.EncodersAgree` | src/capabilities.rs:143-161 | for every capability list, the empty one included, the OPEN printer writes the block `build_capabilities` builds |
| `Opens.ReadOpen` | src/message/open.rs:63-105 | the counting loop computes the specified result, errors included |
| `Opens.WriteOpen` | src/message/open.rs:108-129 | the printer produces the specified frame |
| `Reflection.ChainAcceptedIff` | src/rr.rs:89-123 | a route goes along a chain of reflectors if and only if the cluster IDs are pairwise distinct and new and it never meets its originator |
| `Reflection.ChainResult` | src/rr.rs:89-105 | the visited clusters are prepended, ORIGINATOR_ID is fixed by the first hop, all else is unchanged |
| `Reflection.ChainBounded` | src/rr.rs:107-123 | a chain is no longer than the number of cluster IDs not initially listed |
| `Prefixes.TestsAgree` | src/rpki.rs:46-54 | the shift, mask and double-shift tests all are equality of the address quotients by 2^(32-len) |
| `Prefixes.ShiftIsNetwork` | src/rib.rs:302-308 | the shift test is membership, also at length 0 |
| `Prefixes.MaskIsNetwork` | src/policy.rs:108-119 | the mask test is containment, also at length 0 |
| `Prefixes.Overlong` | src/rib.rs:302-308 | a length above 32 acts in all three tests like the length from 1 to 32 that differs by a multiple of 32 |
| `Prefixes.ContainsTransitive` | src/policy.rs:108-119 | containment is transitive |
| `Prefixes.NestedOrDisjoint` | src/policy.rs:108-119 | two prefixes with a common address are nested |
| `Prefixes.ContainsIsInclusion` | src/policy.rs:107-119 | containment is exactly inclusion of the address sets |
| `Lookup.LongestMatchIsLongest` | src/rib.rs:298-310 | for keys of every length and in any iteration order the answer passes the code's test, is at least as long as every key that does, and is absent exactly when none does; up to length 32 the test is membership of the address |
| `Lookup.OrderIndependentIff` | src/rib.rs:298-310 | the answer is the same in every iteration order if and only if no two keys of one length are the longest that cover the address; for all tables and lengths |
| `Lookup.LongestMatchUnique` | src/rib.rs:298-310 | with clear host bits no table is ambiguous |
| `Lookup.ParsedTwinsAmbiguous` | src/message/update.rs:29-53 | the parser yields 10.0.0.0/31 and 10.0.0.1/31 as two keys, and on a table of the two longest match depends on the iteration order |
| `Rpki.ValidateAgainstRfc` | src/rpki.rs:122-143 | for ROAs of lengths 0 to 32 the code differs from section 2 of RFC 6811 exactly when ROAs cover the route but none counts (too short a maximum length, or length 0 at another address), when AS 0 originates and a ROA for AS 0 counts, or when a length-0 ROA would match but only other origins' ROAs count; the outcome on both sides in each case |
| `Rpki.ValidateAgainstOrigin` | src/rpki.rs:122-143 | judging one AS number gives the RFC's state for another origin, or none, if and only if some ROA counts, unless none covers, and one backs the judged AS exactly when one matches the origin |
| `Rpki.ValidateWithoutDefaultRoas` | src/rpki.rs:122-143 | without ROAs of length 0 only the first two remain, Valid coincides for nonzero origins and coded Invalid implies Invalid |
| `Rpki.TooLongExample` | src/rpki.rs:46-49 | 10.1.2.0/25 against 10.0.0.0/8 with maximum length 24: NotFound, Invalid by the RFC |
| `Rpki.ZeroOriginExample` | src/rpki.rs:137-142 | AS 0 against a ROA for AS 0: Valid, Invalid by the RFC |
| `Rpki.DefaultRoaExample` | src/rpki.rs:46-54 | a matching ROA of length 0 beside another AS's ROA: Invalid, Valid by the RFC |
| `Rpki.AddRoaRaises` | src/rpki.rs:117-143 | adding a ROA never lowers a state in the order NotFound, Invalid, Valid |
| `Rpki.CoversIsAddressCover` | src/rpki.rs:46-54 | for lengths 1 to 32 the test is containment within the maximum length |
| `Rpki.DefaultRoaCoversOneAddress` | src/rpki.rs:50-53 | a ROA of length 0 covers its own address only |
| `Rpki.RpkiValidator.AddRoa` | src/rpki.rs:117-119 | appends the ROA and lowers no route's state |
| `Policy.EvaluatePrefixList` | src/policy.rs:37-50 | permits exactly if the first matching entry permits |
| `Policy.ApplyFirstNamed` | src/policy.rs:23-35 | the first list of the name decides, an unknown name permits |
| `Policy.MatchesIsInterval` | src/policy.rs:52-75 | an entry matches exactly the members of its network within its interval of lengths, and nothing if its text does not parse |
| `Policy.SubsumedIffShadowed` | src/policy.rs:52-75 | an entry is subsumed by another exactly if its network and its interval are contained |
| `Policy.DeadEntry` | src/policy.rs:37-75 | deleting an entry that an earlier one shadows changes the verdict for no prefix |
| `Policy.DeadEntryInPolicy` | src/policy.rs:23-75 | nor any verdict of the whole policy |
| `Session.StateCharacterized` | src/peer.rs:58-76 | the state from the events alone: OpenSent, OpenConfirm and Established each by an equivalence; Established exactly when a KEEPALIVE answered an OPEN before any hold-timer expiry and nothing closed the session since |
| `Session.Entering` | src/peer.rs:58-76 | from which state and by which event each state is entered or kept |
| `Session.SessionMovesForward` | src/peer.rs:58-76 | a session never returns to Connect or Active and never goes back a phase, so Established is entered at most once |
| `Session.ExitLeavesNothing` | src/peer.rs:123-176 | right after the hold timer, the end of the stream or a NOTIFICATION nothing of the peer is left in the RIB, whatever other tasks did meanwhile |
| `Session.ExitLeavesNothingIff` | src/peer.rs:123-176 | an exit leaves nothing of the peer if and only if it is the hold timer or the end of the stream, or there was nothing to leave |
| `Session.MalformedLeavesRoute` | src/peer.rs:172-173 | one announcement and a malformed message, both in OpenSent: the route is still selected after the session |
| `Session.SessionKeepsInvariant` | src/peer.rs:232-342 | every session keeps the RIB invariant |
| `Session.Peer.HandleMessage` | src/peer.rs:232-342 | each message changes the state as specified and has exactly its effect on the RIB |
| `Session.Peer.HandleDisconnect` | src/peer.rs:180-229 | marks stale if restart was negotiated and the state is Established, removes the peer otherwise |
| `Session.Peer.RunSession` | src/peer.rs:123-176 | the loop stops at the first exit, in the specified state and with the specified effects on the RIB |
| `Session.Peer.HandleIncoming` | src/peer.rs:80-93 | an accepted connection starts in OpenSent |
| `Session.Peer.HandleExit` | src/peer.rs:125-163 | the ends of the loop: which state each leaves and whether the peer is removed |
| `OwnRoutes.NonInterference` | src/peer.rs:232-342 | whatever other peers' sessions do meanwhile, a session leaves for its peer the table and damping state its own events leave in any RIB that agrees on that peer at the start |
| `OwnRoutes.SinceRemoval` | src/peer.rs:123-176 | at every moment, so also after a read error or a malformed message, the peer's table and damping state are what its own events since the last NOTIFICATION or clean exit build from nothing |
| `OwnRoutes.OthersStep` | src/rib.rs:116-267 | an operation on one peer leaves every other peer's table and damping entries alone |
| `OwnRoutes.SameForStep` | src/rib.rs:116-267 | what an operation does for a peer depends only on that peer's table, its damping entries and the ROAs |
| `OutOfTurn.EarlyUpdatesHarmlessIff` | src/peer.rs:269-324 | a session leaves the tables, damping state and ROAs it would leave with UPDATEs outside Established ignored, if and only if since the last removal none of these withdrew a prefix and every route they installed was withdrawn by a later UPDATE or is held without them too |
| `OutOfTurn.EarlyOutcome` | src/peer.rs:269-324 | the same for the session's own peer, from a RIB with nothing of it |
| `OutOfTurn.SplitExists` | src/peer.rs:58-76 | until something closes a session, the events before and in the Established state are a prefix and a suffix |
| `OutOfTurn.SelectsSame` | src/rib.rs:176-215 | RIBs that agree for every peer select the same routes, without full ties |
| `OutOfTurn.EarlyExample` | src/peer.rs:269-324 | an announcement in OpenSent is held and selected |
| `Streams.ServeStream` | src/peer.rs:121-176 | the loop on octets, whatever the reads, with other tasks' operations between messages and any ending: the final state and the effects on the RIB are those of the events of the whole stream |
| `Exchanges.SessionHolds` | src/peer.rs:232-324 | OPEN, KEEPALIVE and any transmissible UPDATE with some content, from their octets: the session is Established, withdrawn prefixes are gone, announced ones are held with the UPDATE's attributes, the OPEN's AS number and their clock reading unless damping or Strict validation keeps them out, all else is unchanged |
| `Exchanges.UpdateFrame` | src/peer.rs:269-296 | the frame of a transmissible UPDATE anywhere in a stream announces its NLRI and withdraws its withdrawn routes, in order |
| `Exchanges.OpenFrame` | src/peer.rs:234-257 | the frame of an OPEN is met as that OPEN |
| `Exchanges.KeepaliveFrame` | src/peer.rs:258-268 | the frame of a KEEPALIVE is met as a KEEPALIVE |
| `Exchanges.RefreshFrame` | src/peer.rs:337-339 | a ROUTE-REFRESH is met as such, whatever its body |
| `Exchanges.NotificationFrame` | src/peer.rs:325-336 | a NOTIFICATION is met as such, or as malformed if it has fewer than two octets |
| `Exchanges.NotificationEnds` | src/peer.rs:325-336 | its frame takes an Established session to Idle and leaves nothing of the peer |
| `Exchanges.EndOfRibSweeps` | src/peer.rs:276-310 | the 23 octets of an empty UPDATE sweep exactly the peer's stale routes and touch nothing else of it |
| `Exchanges.BadBody` | src/peer.rs:235-271 | an OPEN or UPDATE whose body does not parse ends the session, whatever follows |
| `Streams.CuttingIrrelevant` | src/peer.rs:146-174 | deframing in portions and parsing gives the events of the whole stream |
| `Streams.SameStreamSameRib` | src/peer.rs:146-174 | two sessions that read the same octets in different portions leave equal tables, damping state and ROA table and, without full ties, the same selected routes |
| `Streams.RunDetermined` | src/peer.rs:232-342 | the events of a session determine the tables, the damping state and the ROA table |
| `Streams.StreamMessage` | src/peer.rs:171-174 | a message complete in the buffer is the next event, whatever is yet to be read |
| `Streams.ParseBody` | src/peer.rs:232-340 | dispatches on the message type and parses the body as the session does |

## Left out

- Streams.ServeStream: a KEEPALIVE that cannot be sent in answer to an OPEN ends a session before the rest of the buffer is handled (src/peer.rs:254); here a failed write ends it only between reads, and `Session.Peer.RunSession` has it at any event.
- Session.Peer.HandleMessage: timers, the negotiated hold time, metrics and what is sent back are not modelled; the hold timer is an event.
- Dampening.RunFaithful: floating-point rounding and the 32-bit width of `suppress_count` are not modelled.
- Rib.Rib.ProcessUpdate: the lock around the RIB is atomicity of each call; poisoned locks are not modelled.
- The stale-route timer task of src/peer.rs:207-222, which the session exits never start; a sweep by another task is an event.
- `should_reflect` (src/rr.rs:61-81): the table of role pairs.
- `stale_route_count`, `prefix_count` and the community lists of src/policy.rs: counters and membership tests.
- `adj_rib_out` (src/rib.rs:84-86), which is never written.
- src/mp.rs: the IPv6 prefix codec, the IPv4 one at another width.
- What KEEPALIVE, NOTIFICATION and ROUTE-REFRESH bodies contain; a NOTIFICATION body of fewer than two octets is malformed.
- Configuration loading and the text parsing of prefixes and communities; entries are already parsed.
- The management socket, metrics, server loop, logging and display text.
