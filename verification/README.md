# peat-mesh: a verified model

peat-mesh connects tactical nodes: it places them on a geohash grid, exchanges
deletions and certificates as bytes, decides which peers to trust, shares a link
among traffic classes, evicts stored documents under pressure, elects leaders and
keeps the transport in step with discovery. This project models the parts of that
logic with the most state and arithmetic, and proves what they promise for all
inputs and over whole runs. Where the code does not keep a promise, the code is
modelled as it is, a lemma or a method at a concrete input shows the failure, and
the exact condition under which the promise holds is proved.

`dafny verify dfyconfig.toml` checks everything.

## How the files fit together

- `Wrappers`, `Collections`, `Arithmetic`, `Bytes`: options and results; elements of
  sequences and sizes of sets; powers of two and shifts; fixed-width integers, UTF-8
  text and byte strings at a position.
- `Morton`, `Geohash`, `GeohashCells`, `GeohashLaws`, `Observer`: the bit tricks are
  proved equal to Morton codes over the naturals, the codec to cells of a grid on a
  torus, and neighbours, prefixes and the beacon cache are then laws about cells.
- `TombstoneCodec`, `TombstoneBatch`, `CertificateCodec`: cursor loops proved against
  readers over positions, then against the layout of the encoder.
- `CertificateBundles` (in `CertificateBundle.dfy`): the trust store as a state
  machine over add, trust and expire, with the history of what was admitted.
- `Qos`, `Bandwidth`, `Preemption`: quotas, token bucket and transfers, as classes
  that refine pure states, with laws over every sequence of calls.
- `Retention`, `Storage`, `Audit`, `Eviction`, `EvictionLaws`: the eviction cycle with
  its storage and audit log, and what holds of each cycle and of every run.
- `Election`: scoring from a profile and from a beacon, and who leads.
- `Discovery`, `Connector`: poll differences as events, and the connector they drive,
  asking a certificate bundle when there is one.
- `BlobPeerIndexes` (in `BlobPeerIndex.dfy`): which peers have which blobs, from either
  side.

Each class keeps its state in fields, and each of its methods is proved to do what a
function on pure states says (`View`, `Observe`, `Acquire`, `Handle` and so on). The
laws are about those functions.

## What the code does not promise

- A point at latitude 90 or longitude 180 is encoded at the opposite end of its axis
  (`EncodedPointInBoxIff`; `EndsCoincide`), and a step over a pole arrives at the other
  pole (`NeighborIsAdjacentIff`; `StepOverPole`).
- A beacon that leaves the neighbourhood stays in the observer's cache
  (`ExactIffNoDeparture`; `DepartureLeavesStaleBeacon`).
- Strings of 65536 bytes or more, and identifiers of 256 bytes or more, are written
  with a truncated length (`RoundTripIff` in both codecs; `LongNameIsLost`,
  `LongNodeIdIsLost`).
- One signature can cover two certificates when both have an identifier of 256 bytes or
  more (`SignableInjective`; `LongIdsCollide`).
- A frame of a batch may be longer than its message, and the slack is ignored
  (`ReencodeBatchIff`; `PaddedFrame`).
- The two indexes of a certificate bundle part when a node id moves to another key or
  a key to another node id (`StoreAgreesIff`; `SharedNodeIdPartsIndexes`). Purging also
  drops certificates that are not valid yet (`ExpiryKeepsValidPeers`;
  `PurgeDropsFutureCertificate`).
- The documentation of `validate_peer` asks for a certificate signed by a trusted
  authority; the code asks only for a valid signature inside the window. The issuer of a
  validated peer may be long gone (`IssuerTrustedIff`; `PeerOutlivesDelegate`).
- A class too full for a request is refused it for ever, because usage is recorded only
  after admission (`RefusedForeverIff`, `RequestStarvesIff`; `FirstBulkRequestStarves`,
  `SmallBulkRequestStarves`).
- The paused counter drifts when a pause meets a paused transfer and when a clean-up
  drops one (`DriftLaw`, `ExactAfterIff`; `PausingTwiceDrifts`, `CleaningUpDrifts`). It
  does not follow a transfer paused or resumed by itself, and can wrap around
  (`InvKeptIff`; `PausingHandleWraps`).
- `pause_transfers_below` pauses for any incoming class, although the module
  documentation and `should_preempt` let only Critical and High traffic preempt
  (`BreaksRuleIff`; `NormalStopsLow`).
- Re-registering a document clears its stored protection flag while the operator's
  protection remains. It is never evicted, but it is selected and can use up a cycle
  (`CycleProgressesIff`, `EvictsAllIff`; `StaleFlagRun`).
- An eviction priority above 6, set through the public field, wraps around and comes
  before all others (`ClassDominatesIff`; `HighBeforeBulk`).
- An audit log created with no capacity holds one entry (`EvictionAuditLog.Record`;
  `ZeroCapacityKeepsOne`).
- A compressed size above the old one leaves the byte counter behind (`UpdateCompressed`,
  `CounterLagsByGrowth`; `GrownDocument`).
- Twins both lead when hysteresis times their score is not positive
  (`TwinsBothLeadIff`, `NeverTwoLeadersIff`; `TwinsWithoutHysteresis`).
- A peer refused when found and trusted on a later update can be looked up but is no
  formation member (`LookupMatchesIff`; `LateTrustOnlyLooksUp`). A member whose
  certificate expires stays one until the next event about it (`StandsUntilEvent`;
  `MemberOutlivesCertificate`). A poll says nothing when only a peer's relay changes
  (`ReplayIsExactIff`; `RelayChangeIsSilent`).

## Model

| member | source | states |
|---|---|---|
| `Morton.DeinterleaveInterleave` | src/geohash.rs:163-192 | on every pair of 32-bit words the squash cascade undoes the spread cascade |
| `Morton.InterleaveDeinterleave` | src/geohash.rs:163-192 | on every 64-bit word interleaving restores what deinterleaving split |
| `Morton.InterleaveIsMorton` | src/geohash.rs:163-176 | the mask cascade yields the Morton code of the two numbers, defined bit by bit over the naturals |
| `Morton.DeinterleaveIsBits` | src/geohash.rs:179-192 | deinterleaving yields the even and the odd bits of the number the word holds |
| `Morton.MortonShift` | src/geohash.rs:163-176 | the top of a Morton code is the Morton code of the tops: dropping 2k bits drops k from each half |
| `Geohash.EncodeDigits` | src/geohash.rs:208-215 | the shifting loop emits the base-32 digits of the 64-bit word, most significant first |
| `Geohash.EncodeHash` | src/geohash.rs:197-216 | the method computes the encoding, with its two errors, that the laws below are about |
| `Geohash.DecodeHash` | src/geohash.rs:233-262 | the loop with its early return computes the decoding, naming the first bad character |
| `GeohashCells.HashCellBijection` | src/geohash.rs:197-262 | valid hashes of a length and cells of its grid correspond one to one |
| `GeohashCells.EncodeFindsCell` | src/geohash.rs:197-216 | encoding succeeds exactly in range and at lengths 1 to 12, and names the cell that holds the point |
| `GeohashLaws.EncodeErrors` | src/geohash.rs:197-203 | a point off the map is refused before a bad length is looked at, and each error names its fault |
| `GeohashLaws.KnownPoint` | src/geohash.rs:292-295 | longitude -120.6623, latitude 35.3003 is "9q60y" at five digits |
| `GeohashCells.DecodeIsCentre` | src/geohash.rs:218-262 | decoding succeeds exactly on at most 12 digits, and yields the centre and half-widths of the cell |
| `GeohashLaws.DecodeErrors` | src/geohash.rs:233-248 | a hash is refused for its length first, and otherwise for its first character outside the alphabet |
| `GeohashLaws.NeighborTranslates` | src/geohash.rs:265-271 | decode, shift, wrap and re-encode moves exactly one cell on the torus; it fails exactly on what names no cell |
| `GeohashLaws.NeighborsByName` | src/geohash.rs:88-99 | direction by direction, with literal offsets: north adds a row, east adds a column, and so on around the torus, for all eight |
| `GeohashLaws.NeighborsOnMap` | src/geohash.rs:265-271 | away from the edges the centre moves one full cell height north or south, one full cell width east or west, and not otherwise |
| `GeohashLaws.EastOfS` | src/geohash.rs:88-99 | east of "s" is "t" |
| `GeohashLaws.NeighborTwice` | src/geohash.rs:265-271 | two steps in any directions add up to the sum of their offsets |
| `GeohashLaws.NeighborOpposite` | src/geohash.rs:88-99 | opposite directions undo each other, at every cell including edges and poles |
| `GeohashLaws.DiagonalIsComposition` | src/geohash.rs:88-99 | a diagonal neighbour is its two straight steps in either order |
| `GeohashLaws.NeighborsDistinct` | src/geohash.rs:274-285 | the eight neighbours are eight different cells, none of them the cell itself |
| `GeohashLaws.NeighborIsAdjacentIff` | src/geohash.rs:265-271 | the neighbour's centre is one cell away on the map if and only if the step stays on the grid, axis by axis |
| `GeohashLaws.StepOverPole` | src/geohash.rs:265-271 | a step north from "u" arrives at "h", in the southernmost row |
| `GeohashLaws.ReencodeCentre` | src/geohash.rs:197-262 | encoding the decoded centre at the same length gives the hash back |
| `GeohashLaws.EncodeNests` | src/geohash.rs:197-216 | a shorter encoding of a point is a prefix of a longer one |
| `GeohashLaws.PrefixIffInBox` | src/geohash.rs:197-262 | the encoding of any accepted point starts with a hash if and only if the point, wrapped, lies in the box decoded from it |
| `GeohashLaws.BoxesNest` | src/geohash.rs:233-262 | the box of a hash lies inside the box of each of its prefixes |
| `GeohashLaws.EncodedPointInBoxIff` | src/geohash.rs:197-262 | a point lies in the box its encoding decodes to if and only if it is off latitude 90 and off longitude 180 |
| `GeohashLaws.EndsCoincide` | src/geohash.rs:197-216 | at every length the north pole has the hash of the south pole, and longitude 180 that of -180 |
| `Observer.IsNearbyGeohash` | src/beacon/observer.rs:108-136 | the loop over the eight directions decides the relation the next two laws are about |
| `Observer.NearbyIffTouching` | src/beacon/observer.rs:108-136 | two hashes are nearby if and only if they are equal or name cells of one grid that touch on the torus |
| `Observer.NearbySymmetric` | src/beacon/observer.rs:108-136 | being nearby is mutual, for any two strings |
| `Observer.BeaconObserver.HandleEvent` | src/beacon/observer.rs:66-92 | the cache moves as the pure step says, for inserts, updates and removals |
| `Observer.CacheIsLastNearby` | src/beacon/observer.rs:66-92 | after any events the cache holds, node by node, the last beacon that was nearby when reported |
| `Observer.ExactIffNoDeparture` | src/beacon/observer.rs:69-85 | an exact cache stays exact if and only if the event is not a cached node reporting from out of range |
| `Observer.DepartureLeavesStaleBeacon` | src/beacon/observer.rs:69-85 | a node that moves from "s" to "2" is still cached where it was |
| `TombstoneCodec.EncodeMessage` | src/qos/deletion.rs:153-201 | appending field by field lays out the message as the specification of the format does |
| `TombstoneCodec.KnownMessage` | src/qos/deletion.rs:153-201 | one message with every field, byte by byte, in each of the four directions |
| `TombstoneCodec.DecodeMessage` | src/qos/deletion.rs:204-325 | the cursor with its checks and early returns computes the decoding, error by error |
| `TombstoneCodec.DecodePrefix` | src/qos/deletion.rs:153-325 | an input that starts with the encoding of a short message decodes to its normal form, whatever follows |
| `TombstoneCodec.EncodeDecoded` | src/qos/deletion.rs:153-325 | what decodes is canonical, and the input starts with its encoding |
| `TombstoneCodec.RoundTripIff` | src/qos/deletion.rs:153-325 | the round trip yields the normal form (whole milliseconds, no empty reason) if and only if the four strings fit a two-byte length |
| `TombstoneCodec.LongNameIsLost` | src/qos/deletion.rs:153-325 | a collection name of 65536 letters does not come back |
| `TombstoneCodec.DecodesIff` | src/qos/deletion.rs:204-325 | the inputs that decode are exactly those that start with the encoding of a canonical message |
| `TombstoneCodec.TruncationIsTooShort` | src/qos/deletion.rs:204-325 | every strict prefix of an encoding is rejected as too short, never as malformed |
| `TombstoneCodec.WrongDirection` | src/qos/deletion.rs:306-318 | an encoding with a direction byte above 3 is refused for its direction |
| `TombstoneCodec.WrongText` | src/qos/deletion.rs:204-225 | a first string that is not UTF-8 is refused as such, whatever follows |
| `TombstoneBatch.EncodeMessages` | src/qos/deletion.rs:404-418 | the loop writes the count and the length-prefixed frames in order |
| `TombstoneBatch.DecodeMessages` | src/qos/deletion.rs:421-448 | the loop reads the announced number of frames or stops at the first error |
| `TombstoneBatch.BatchRoundTripIff` | src/qos/deletion.rs:404-448 | a batch round-trips to normal forms if and only if its count fits four bytes and every message is short |
| `TombstoneBatch.DecodedLength` | src/qos/deletion.rs:153-325 | what decodes re-encodes to as many bytes as the four length fields of the input come to |
| `TombstoneBatch.ReencodeBatchIff` | src/qos/deletion.rs:404-448 | re-encoding what a batch decodes to gives the start of the input if and only if every announced length equals 25 plus the four length fields found by walking the raw frame |
| `TombstoneBatch.PaddedFrame` | src/qos/deletion.rs:421-448 | a frame padded by one byte decodes to its message and does not re-encode to its own start |
| `CertificateCodec.EncodeCertificate` | src/security/certificate.rs:237-257 | growing the buffer field by field yields the layout, with lengths cut to one byte, that the laws below are about |
| `CertificateCodec.KnownCertificate` | src/security/certificate.rs:237-257 | one certificate with every field, byte by byte, at each of the four tiers |
| `CertificateCodec.DecodeCertificate` | src/security/certificate.rs:260-332 | the cursor with its early returns computes the decoding, error by error |
| `CertificateCodec.LaidIffPrefix` | src/security/certificate.rs:237-257 | every field stands at its place if and only if the data starts with the encoding, whose length is fixed by the two identifiers |
| `CertificateCodec.DecodeIffPrefix` | src/security/certificate.rs:253-332 | data decodes to a certificate if and only if the identifiers fit one byte and the data starts with its encoding |
| `CertificateCodec.RoundTripIff` | src/security/certificate.rs:253-332 | a certificate round-trips if and only if its identifiers are shorter than 256 bytes |
| `CertificateCodec.LongNodeIdIsLost` | src/security/certificate.rs:237-332 | a node id of 256 letters does not come back |
| `CertificateCodec.TruncationFails` | src/security/certificate.rs:260-332 | no strict prefix of an encoding decodes |
| `CertificateCodec.WrongTier` | src/security/certificate.rs:260-332 | an encoding with a tier byte above 3 is refused for its tier |
| `CertificateCodec.MayEnrollIff` | src/security/certificate.rs:94-107 | of the eight permission bits the third alone decides whether a certificate may enroll others |
| `CertificateCodec.SignableInjective` | src/security/certificate.rs:237-250 | the signed bytes of a certificate with identifiers below 256 bytes belong to no other certificate of any size: they determine every field but the signature |
| `CertificateCodec.LongIdsCollide` | src/security/certificate.rs:237-250 | a mesh id of a zero byte and 255 letters with no node id has the signed bytes of no mesh id with a node id of 255 letters and a zero byte |
| `CertificateCodec.DecodedVerifiesIff` | src/security/certificate.rs:204-211 | what decodes verifies if and only if the last 64 bytes of its encoding sign the rest under its issuer |
| `CertificateBundles.CertificateBundle.TrustAuthority` | src/security/certificate.rs:356-360 | the listed authorities become the old ones and this one, in the old order, and stay free of repetition |
| `CertificateBundles.CertificateBundle.Admit` | src/security/certificate.rs:371-393 | a certificate is stored and indexed when it verifies and is a root or its issuer is trusted; otherwise the named error and no change |
| `CertificateBundles.CertificateBundle.IsTrustedIssuer` | src/security/certificate.rs:400-417 | the method decides the trust that the next law reads off the history |
| `CertificateBundles.TrustedIffVouched` | src/security/certificate.rs:400-417 | in every run a key is trusted if and only if it was listed, or a certificate of its own with the third permission bit set was admitted, neither replaced nor purged since, and is in its window |
| `CertificateBundles.AdmittedIff` | src/security/certificate.rs:371-393 | in every run a certificate offered is admitted if and only if its signature is good and it is a root or its issuer is trusted in that sense, and a bad signature is the error named first |
| `CertificateBundles.StandardMemberMayNotEnroll` | src/security/certificate.rs:400-417 | a stored member with RELAY and EMERGENCY signs a certificate that is refused for its issuer |
| `CertificateBundles.CertificateBundle.PurgeExpired` | src/security/certificate.rs:522-532 | in any visiting order exactly the certificates outside their window and their index entries go, and the count says how many |
| `CertificateBundles.CertificateBundle.IsValidPeer` | src/security/certificate.rs:432-453 | a peer is valid with a stored certificate that is in its window and carries a good signature of its issuer, whoever that is |
| `CertificateBundles.CertificateBundle.IsValidNodeId` | src/security/certificate.rs:484-499 | a node id is validated through the index |
| `CertificateBundles.RunIsSound` | src/security/certificate.rs:356-417 | in every run authorities are distinct and only grow, each stored certificate is the last admitted for its key and verifies, and each admission was a root, issued by an authority listed then, or relied on the certificate its issuer had stored then |
| `CertificateBundles.ChainTo` | src/security/certificate.rs:371-417 | from any admission a finite, strictly backward chain of delegations leads to a root or to an authority listed at the time |
| `CertificateBundles.StoredHaveLineage` | src/security/certificate.rs:371-417 | in every run each stored certificate verifies and its last admission heads such a chain |
| `CertificateBundles.StoredIff` | src/security/certificate.rs:371-532 | in every run a certificate is stored if and only if it was admitted, none was admitted for its subject since, and every purge since found it in its window |
| `CertificateBundles.IssuerTrustedIff` | src/security/certificate.rs:400-453 | in every run a stored peer validates if and only if the time is from its issue on and before its expiry, if it has one, while its issuer is trusted if and only if it is the peer itself or trusted as above |
| `CertificateBundles.PeerOutlivesDelegate` | src/security/certificate.rs:427-453 | a delegate enrolls a peer, expires and is purged: the peer still validates and its issuer is not trusted |
| `CertificateBundles.StoreAgreesIff` | src/security/certificate.rs:371-393 | storing keeps the two indexes inverse to each other if and only if neither the key nor the node id is taken by another |
| `CertificateBundles.SharedNodeIdPartsIndexes` | src/security/certificate.rs:371-393 | two admitted roots with one node id part the indexes |
| `CertificateBundles.RemoveExpiredAgrees` | src/security/certificate.rs:522-532 | purging keeps the two indexes inverse to each other |
| `CertificateBundles.RunAgrees` | src/security/certificate.rs:356-532 | in every run whose admitted certificates bind keys and node ids one to one, whatever else was offered and refused, the index is exactly the inverse of the store |
| `CertificateBundles.ValidateNodeIdIsScan` | src/security/certificate.rs:484-499 | with agreeing indexes, looking up a node id equals scanning all certificates for it |
| `CertificateBundles.ExpiryKeepsValidPeers` | src/security/certificate.rs:522-532 | purging changes no verdict at its own time, and later exactly those of certificates outside their window at the purge |
| `CertificateBundles.PurgeDropsFutureCertificate` | src/security/certificate.rs:522-532 | a certificate valid from 100 on is gone at 150 after a purge at 50 |
| `Bandwidth.TokenBucket.Refill` | src/qos/bandwidth.rs:116-123 | tokens grow by elapsed time times rate up to the capacity, and the clock is read twice |
| `Bandwidth.TokenBucket.TryConsume` | src/qos/bandwidth.rs:125-134 | a request is granted when the refilled tokens cover it, and only then taken off |
| `Bandwidth.BandwidthQuota.RecordUsage` | src/qos/bandwidth.rs:156-183 | the fields move as the pure window does, at a restart and before one |
| `Bandwidth.ExtrapolateIsRate` | src/qos/bandwidth.rs:172-179 | before a restart the usage recorded is the largest whole rate that, over the time passed and at least a millisecond, does not exceed the bits |
| `Bandwidth.HalfSecondLeavesRoom` | src/qos/bandwidth.rs:156-192 | a thousand bulk bytes half a second into the window count sixteen kilobits, and a thousand more are admitted |
| `Bandwidth.FreshQuotas` | src/qos/bandwidth.rs:247-307 | each class has its own quota object at its share of the link |
| `Bandwidth.BurstShares` | src/qos/bandwidth.rs:247-307 | of every hundred bits of the link the classes may burst to 80, 60, 40, 30 and 20 |
| `Bandwidth.BandwidthAllocation.AcquireAsync` | src/qos/bandwidth.rs:377-408 | an admitted request is charged to its class even when the bucket refuses it, and a permit is counted when granted |
| `Bandwidth.PermitsCountHeld` | src/qos/bandwidth.rs:239-243 | in every run of acquiring and dropping held permits the count equals the permits held, granted less dropped, so the wrapping subtraction never wraps |
| `Bandwidth.ConsumeSpendsBudget` | src/qos/bandwidth.rs:116-134 | a consumption never spends more than it takes off the budget of an interval |
| `Bandwidth.GrantedWithinRate` | src/qos/bandwidth.rs:377-408 | in every run, the bits granted between any two instants are at most one bucketful plus what refills in between |
| `Bandwidth.GrantedAfterWaiting` | src/qos/bandwidth.rs:125-134 | a request above the capacity is never granted, and any other is once the missing bits have flowed in |
| `Bandwidth.WindowWithinBurst` | src/qos/bandwidth.rs:156-192 | in every run a window restarts at the second clock reading of an admitted request a second or more after its start, and the bits charged in it never exceed the burst |
| `Bandwidth.FreshAllocation` | src/qos/bandwidth.rs:247-307 | a new allocation meets what the laws of runs start from, and no class may burst beyond the link |
| `Bandwidth.RunKeepsSized` | src/qos/bandwidth.rs:377-408 | in every run the bucket stays within its capacity and refills it in a second, and no burst exceeds it |
| `Bandwidth.RefusedForeverIff` | src/qos/bandwidth.rs:156-192 | for every m, a class is refused requests of m bytes or more in every later run of such requests if and only if m bytes do not fit its recorded usage now |
| `Bandwidth.RequestStarvesIff` | src/qos/bandwidth.rs:156-192 | an admitted request closes its class to m bytes or more for ever if and only if the bits of its window, as they are after a second and otherwise per second of at least a millisecond passed, leave no room for them |
| `Bandwidth.FullStaysFull` | src/qos/bandwidth.rs:377-408 | a class with no room for m bytes keeps its recorded usage unchanged in every run that asks it for m bytes or more |
| `Bandwidth.FirstBulkRequestStarves` | src/qos/bandwidth.rs:377-408 | on a one-megabit link, one thousand bulk bytes at the start are granted and close the class for good |
| `Bandwidth.SmallBulkRequestStarves` | src/qos/bandwidth.rs:377-408 | twenty-five bulk bytes at the start are granted and close the class to every request that is not empty |
| `Preemption.PreemptionController.RegisterTransfer` | src/qos/preemption.rs:186-199 | a transfer is added, running and with nothing sent, under the freshly minted id that is returned; all else stays |
| `Preemption.PreemptionController.UnregisterTransfer` | src/qos/preemption.rs:202-209 | the transfer goes, and one that was paused takes one off the paused count |
| `Preemption.PreemptionController.PauseTransfersBelow` | src/qos/preemption.rs:240-257 | in any visiting order exactly the preemptable transfers are paused, counted and returned, each once |
| `Preemption.PreemptionController.ResumeTransfers` | src/qos/preemption.rs:260-271 | the listed transfers that are paused resume, one after the other, each taking one off the count |
| `Preemption.PreemptionController.ResumeAllTransfers` | src/qos/preemption.rs:274-284 | in any visiting order the loop leaves every transfer running and otherwise as it was, and the paused count zero |
| `Preemption.PreemptionController.PauseTransfer` | src/qos/preemption.rs:134-139 | a transfer paused by itself pauses only if it may, and the count does not follow |
| `Preemption.PreemptionController.ResumeTransfer` | src/qos/preemption.rs:142-145 | a transfer resumed by itself runs, and the count does not follow |
| `Preemption.PreemptionController.CleanupCompleted` | src/qos/preemption.rs:332-339 | exactly the completed transfers go, the paused count stays, and the result says how many went |
| `Preemption.PreemptionController.BandwidthUsedBelow` | src/qos/preemption.rs:322-329 | the sum is what the running transfers below the class still have to send |
| `Preemption.DriftLaw` | src/qos/preemption.rs:134-339 | how much each operation, a transfer paused or resumed by itself included, adds to the gap between the paused count and the paused transfers |
| `Preemption.RunDrift` | src/qos/preemption.rs:129-339 | in every run no unpausable transfer is paused, and the gap is the sum of what the operations added |
| `Preemption.InvKeptIff` | src/qos/preemption.rs:134-339 | no Critical transfer paused and a count no lower than the paused transfers are kept by an operation if and only if it does not pause, by itself, a transfer that is Critical or that the count has no room for |
| `Preemption.PausingHandleWraps` | src/qos/preemption.rs:134-209 | a transfer paused by itself and then unregistered wraps the count around |
| `Preemption.RunKeepsInv` | src/qos/preemption.rs:129-339 | in every run that pauses through the controller no Critical or unpausable transfer is paused, and the paused count never falls below the paused transfers |
| `Preemption.ExactAfterIff` | src/qos/preemption.rs:134-339 | exactly when the count is exact after an operation: all were resumed; or it was exact and no paused transfer is met by a pause, dropped by a clean-up or resumed by itself; or it was one too high and a running transfer is paused by itself |
| `Preemption.PausingTwiceDrifts` | src/qos/preemption.rs:240-257 | one transfer paused twice is counted twice |
| `Preemption.CleaningUpDrifts` | src/qos/preemption.rs:332-339 | cleaning up a paused transfer leaves a count of one and no transfer |
| `Preemption.BreaksRuleIff` | src/qos/preemption.rs:220-257 | a pause stops a running transfer that should_preempt would spare if and only if the incoming class is below High and some running transfer is preemptable by it |
| `Preemption.NormalStopsLow` | src/qos/preemption.rs:220-257 | Normal traffic stops a running Low transfer while should_preempt is false |
| `Preemption.PauseSilences` | src/qos/preemption.rs:220-257 | after a pause nothing is left to preempt, and the bandwidth used below the class is that of unpausable transfers |
| `Preemption.SendingLowersRest` | src/qos/preemption.rs:113-126 | sending lowers what is left by the bytes sent, down to nothing, and a transfer is complete when nothing is left |
| `Preemption.PreemptionsAreCounted` | src/qos/preemption.rs:240-257 | in every run the preemption count is the number of pauses that found something to pause |
| `Preemption.ResumeUndoesPause` | src/qos/preemption.rs:240-271 | resuming what a pause returned restores the count always, and the transfers if and only if the pause met no paused one |
| `Retention.PresetsAreRanked` | src/qos/retention.rs:179-231 | both presets give more urgent classes a later eviction priority |
| `Retention.DefaultRules` | src/qos/retention.rs:53-137 | the default policies in ages and pressures: when each class may be evicted and compressed |
| `Retention.ConstrainedRules` | src/qos/retention.rs:192-231 | the storage-constrained policies in ages and pressures |
| `Retention.EvictMonotone` | src/qos/retention.rs:117-144 | what may be evicted stays so as it ages and as the pressure rises, under any policy |
| `Retention.CustomIsClamped` | src/qos/retention.rs:94-108 | a custom policy keeps its times, and its priority brought between one and five |
| `Storage.QoSAwareStorage.RegisterDocument` | src/qos/storage.rs:232-246 | a document replaces any of the same id, and the byte counter keeps its distance to the sum of the sizes |
| `Storage.QoSAwareStorage.UnregisterDocument` | src/qos/storage.rs:249-258 | exactly that document goes, and the byte counter keeps its distance to the sum of the sizes |
| `Storage.QoSAwareStorage.TouchDocument` | src/qos/storage.rs:261-266 | only the access time of a tracked document changes |
| `Storage.QoSAwareStorage.SetProtected` | src/qos/storage.rs:269-288 | only the protection flag of a tracked document changes, and the result says whether there is one |
| `Storage.QoSAwareStorage.UpdateCompressed` | src/qos/storage.rs:291-306 | size and flag change, and the byte counter falls behind the sum of the sizes by exactly what the document grew |
| `Storage.GrownDocument` | src/qos/storage.rs:291-306 | a document of 10 bytes compressed to 20 leaves the counter at 10 with 20 bytes stored |
| `Storage.TotalSplit` | src/qos/storage.rs:232-258 | the sum of the sizes does not depend on the order in which documents are added up |
| `Storage.ClassDominatesIff` | src/qos/storage.rs:387-416 | whatever ages, idleness and sizes, the document of the earlier eviction priority outscores the other if and only if the eight-bit subtraction does not wrap between the two |
| `Storage.ScoreWithinClass` | src/qos/storage.rs:387-416 | within a class the older, idler and larger document scores at least as high, and higher where the difference is below its cap |
| `Storage.ScoreWeights` | src/qos/storage.rs:387-416 | at the caps full age weighs five, an hour idle three and a megabyte one |
| `Storage.ScoreWithoutMaximum` | src/qos/storage.rs:394-399 | with no maximum retention age weighs nothing, with a maximum of zero it weighs five at once, on top of class and pressure |
| `Storage.HighBeforeBulk` | src/qos/storage.rs:390-392 | with priority 7 set for High, a High document outscores every Bulk one |
| `Storage.SortByScore` | src/qos/storage.rs:358-363 | sorting yields a permutation with scores in falling order |
| `Storage.TakePrefix` | src/qos/storage.rs:365-377 | the loop takes the shortest prefix that covers the bytes, or everything |
| `Storage.QoSAwareStorage.GetEvictionCandidates` | src/qos/storage.rs:327-378 | the result lists evictable documents only, each once, best scores first, and stops as soon as the bytes are covered |
| `Storage.DefaultEvictableIff` | src/qos/storage.rs:327-345 | under the default policies, exactly which documents may be evicted and compressed, in ages, pressures and flags |
| `Storage.PressureIsShare` | src/qos/storage.rs:309-316 | the pressure is the share of the capacity in use, and zero without capacity |
| `Storage.QoSAwareStorage.GetCompressionCandidates` | src/qos/storage.rs:419-436 | exactly the compressible documents, each once |
| `Audit.EvictionAuditLog.Record` | src/qos/audit.rs:211-217 | the log keeps the most recent entries of all ever recorded, within its capacity if and only if that is not zero |
| `Audit.ZeroCapacityKeepsOne` | src/qos/audit.rs:211-217 | a log made for no entries keeps one |
| `Audit.EvictionAuditLog.GetRecent` | src/qos/audit.rs:310-321 | the last entries ever recorded, oldest first |
| `Audit.EvictionAuditLog.Summary` | src/qos/audit.rs:345-374 | one pass counts each action, each class and the bytes as their definitions do |
| `Audit.ClassesAddUp` | src/qos/audit.rs:345-374 | the per-class counts of any log add up to its evictions |
| `Eviction.EvictionController.MarkProtected` | src/qos/eviction.rs:394-405 | the operator's set grows by the id, and a tracked document is flagged and logged |
| `Eviction.EvictionController.UnmarkProtected` | src/qos/eviction.rs:408-423 | the operator's set loses the id, and a tracked document is unflagged and logged |
| `Eviction.EvictionController.EvictDocument` | src/qos/eviction.rs:355-380 | a document goes if and only if the callback succeeds, and the bytes reported, the counter and the audit entry agree |
| `Eviction.EvictionController.EvictCandidates` | src/qos/eviction.rs:249-288 | documents, counter, figures and log all follow from the candidates seen, and the loop stops at a limit, at the target or at the end |
| `Eviction.EvictionController.CompressEligibleDocuments` | src/qos/eviction.rs:307-352 | in any visiting order exactly the documents that shrink take their new size, the savings leave the counter, and each log entry is true |
| `Eviction.CompressedIff` | src/qos/eviction.rs:307-352 | a document changes if and only if it may be compressed and its callback reports a smaller size, which it then takes |
| `Eviction.EvictionController.ExecuteEvictionCycle` | src/qos/eviction.rs:212-304 | a cycle is lawful, with candidates judged at the pressure left after compression; bytes before equal bytes after plus bytes freed plus savings, and the evictions logged are exactly those made, in order |
| `Eviction.EvictionController.RunEvictionCycle` | src/qos/eviction.rs:194-225 | there is no result if and only if the pressure is below the threshold, and then nothing changes; otherwise a lawful, conserving, audited cycle for the smallest number of bytes that brings the use down to the target share of the capacity |
| `EvictionLaws.RunReachesTarget` | src/qos/eviction.rs:194-304 | with flags that follow the operator and an exact counter, an unhindered cycle ends at or below the target pressure, or with everything evictable after compression gone |
| `Eviction.EvictionController.ForceEviction` | src/qos/eviction.rs:207-209 | a lawful, conserving, audited cycle for the bytes asked for, whatever the pressure |
| `Eviction.EvictionController.StoreStats` | src/qos/eviction.rs:296-301 | the last ten results are kept |
| `Eviction.TrailNamesGone` | src/qos/eviction.rs:249-288 | the evictions in a cycle's log entries are its evicted candidates, in order, with their sizes |
| `EvictionLaws.CycleIsSafe` | src/qos/eviction.rs:212-304 | nothing Critical, flagged as protected or under operator protection is evicted |
| `EvictionLaws.ClassesSumToEvictions` | src/qos/eviction.rs:249-288 | the per-class counts of a result add up to its evictions, with none Critical |
| `EvictionLaws.LessUrgentFirst` | src/qos/storage.rs:327-416 | with ranked policies a candidate comes up only after every evictable document of a less urgent class |
| `EvictionLaws.CycleProgressesIff` | src/qos/eviction.rs:212-304 | an unhindered cycle frees what was asked for or evicts everything evictable after compression, if and only if nothing evictable is under operator protection or the bytes compressed away and the unprotected part of the selection cover the target |
| `EvictionLaws.EvictsAllIff` | src/qos/eviction.rs:212-304 | asked for more than is stored, an unhindered cycle evicts everything evictable if and only if none of it is under operator protection |
| `EvictionLaws.CycleProgresses` | src/qos/eviction.rs:212-304 | as long as stored flags follow the operator, every unhindered cycle frees what was asked for or evicts everything evictable |
| `EvictionLaws.CycleDoesNotOvershoot` | src/qos/eviction.rs:249-288 | without its last eviction a cycle would have missed its target |
| `EvictionLaws.StaleFlagBlocks` | src/qos/eviction.rs:249-288 | a protected document whose flag was cleared, on top of the order and large enough alone, makes the cycle free nothing |
| `EvictionLaws.StaleFlagRun` | src/qos/eviction.rs:207-304 | mark "big", register it again, force 50 bytes: nothing is freed while "small", evictable and large enough, stays |
| `EvictionLaws.RunRemembers` | src/qos/eviction.rs:394-423 | in every run of storage and controller calls the operator's set is exactly what was marked and not unmarked since, and each tracked document has its last registered class |
| `EvictionLaws.RunsAreSafe` | src/qos/eviction.rs:212-304 | in every run, whatever a cycle evicts was last registered below Critical and not under protection, also after registering again |
| `EvictionLaws.CounterLagsByGrowth` | src/qos/storage.rs:232-306 | in every run the byte counter is the sum of the sizes less all that documents grew when compressed, so it is exact if and only if none ever grew |
| `Election.BeaconScoreIsProfileScore` | src/hierarchy/dynamic_strategy.rs:103-180 | a node is scored from its beacon as it scores itself |
| `Election.ScoreIsPositive` | src/hierarchy/dynamic_strategy.rs:103-138 | with a positive mobility weight, the other weights not negative and usage at most 100 percent, every score is positive |
| `Election.LeaderIff` | src/hierarchy/dynamic_strategy.rs:190-224 | at any hysteresis a node leads if and only if it reaches the score of a best peer at its level times the hysteresis factor; it stands alone if and only if it has no peer there |
| `Election.LeaderReachesAllIff` | src/hierarchy/dynamic_strategy.rs:190-224 | at a hysteresis of -1 or more, that is reaching every such peer's score times the factor |
| `Election.ScoreFollowsReadings` | src/hierarchy/dynamic_strategy.rs:103-138 | a node no better in mobility, load, battery, parenting and priority scores no higher, and strictly lower when worse in any of them |
| `Election.NoBetterDoesNotLead` | src/hierarchy/dynamic_strategy.rs:190-224 | with positive hysteresis a node no better in any reading than a peer it sees at its level does not lead |
| `Election.DefaultScores` | src/hierarchy/dynamic_strategy.rs:103-138 | the default scores of five profiles, in numbers |
| `Election.SilentBeaconScore` | src/hierarchy/dynamic_strategy.rs:141-180 | a beacon that names neither mobility nor resources scores one half by default |
| `Election.StaticLeadsMobile` | src/hierarchy/dynamic_strategy.rs:190-224 | by default, of two idle nodes on mains power the static one leads and the mobile one follows |
| `Election.MutualLeadersHaveNoScore` | src/hierarchy/dynamic_strategy.rs:190-224 | with positive hysteresis, two nodes that see each other both lead only if neither score is positive |
| `Election.AtMostOneOfTwoLeads` | src/hierarchy/dynamic_strategy.rs:190-224 | with positive hysteresis and such weights and readings, no two nodes that see each other both lead, whatever else they see |
| `Election.ConnectedGroupHasOneLeader` | src/hierarchy/dynamic_strategy.rs:190-224 | a group that sees itself has at most one leader, who beats every other by the hysteresis factor |
| `Election.NeverTwoLeadersIff` | src/hierarchy/dynamic_strategy.rs:190-224 | with such weights, no two sane nodes that see each other ever both lead if and only if the hysteresis is positive |
| `Election.TwinsBothLeadIff` | src/hierarchy/dynamic_strategy.rs:190-224 | at any hysteresis two identical nodes that see only each other both lead if and only if hysteresis times score is not positive |
| `Election.TwinsWithoutHysteresis` | src/hierarchy/dynamic_strategy.rs:190-224 | without hysteresis any two identical nodes that see only each other both lead |
| `Discovery.KubernetesDiscovery.ReportPresent` | src/discovery/kubernetes.rs:271-295 | in any visiting order each listed peer gets the event it is owed, or none when neither addresses nor metadata changed |
| `Discovery.KubernetesDiscovery.ReportLost` | src/discovery/kubernetes.rs:297-311 | in any visiting order each peer no longer listed is reported lost once |
| `Discovery.KubernetesDiscovery.Poll` | src/discovery/kubernetes.rs:258-313 | a poll keeps the last listing of each node and sends exactly the difference to the previous list, each node once |
| `Discovery.ReplayDiff` | src/discovery/kubernetes.rs:271-313 | replaying a difference gives a node its new entry where an event was owed and leaves it alone elsewhere |
| `Discovery.StreamRebuildsPeers` | src/discovery/kubernetes.rs:258-313 | after any number of polls, replaying their events rebuilds the discovered nodes, addresses and metadata |
| `Discovery.ReplayIsExactIff` | src/discovery/kubernetes.rs:273-284 | a poll's events carry over whole entries if and only if no known peer changed only its relay or time |
| `Discovery.RelayChangeIsSilent` | src/discovery/kubernetes.rs:273-284 | a peer that only gets a relay is not reported, and a replay keeps it without one |
| `BlobPeerIndexes.BlobPeerIndex.Advertise` | src/storage/iroh_blob_store.rs:612-619 | exactly one pair is added, and the two maps stay inverse to each other with no empty blob entry |
| `BlobPeerIndexes.BlobPeerIndex.RemovePeer` | src/storage/iroh_blob_store.rs:621-634 | in any visiting order exactly the pairs of the peer go, and the two maps stay inverse to each other with no empty blob entry |
| `Connector.PeerConnector.RemovePeer` | src/storage/iroh_blob_store.rs:947-954 | every occurrence of the peer leaves the list, the rest keep their order, and no blob is known at the peer any more |
| `Connector.PeerConnector.Disconnect` | src/peer_connector.rs:150-164 | the endpoint leaves the lookup, the peer list and the formation set |
| `Connector.PeerConnector.HandleEvent` | src/peer_connector.rs:90-218 | the three collections and the blob index move as the pure step says, the node's own id apart, with the verdict asked of the bundle at the time of the event |
| `Connector.RunIsConsistent` | src/peer_connector.rs:90-218 | in every run the peer list is the formation set without repetition, its members can be looked up, and the node is not its own peer |
| `Connector.HistoryDecides` | src/peer_connector.rs:90-218 | after any run an endpoint is a member if and only if a trusted PeerFound admitted it and nothing expelled it since, and can be looked up if and only if a trusted PeerFound or PeerUpdated did |
| `Connector.AddressesFromHistory` | src/peer_connector.rs:90-218 | after any run an address is looked up if and only if a trusted event named it and no update or loss came since: sightings add up, updates replace |
| `Connector.LookupMatchesIff` | src/peer_connector.rs:165-217 | lookup and formation stay equal if and only if the event is not a trusted update for an endpoint that is no member |
| `Connector.LateTrustOnlyLooksUp` | src/peer_connector.rs:92-217 | a peer refused when found and trusted when updated can be looked up and is no member |
| `Connector.StandsUntilEvent` | src/peer_connector.rs:90-218 | whatever events concern others, and whatever becomes of its certificate, an endpoint keeps membership, lookup and addresses until an event about it |
| `Connector.MemberOutlivesCertificate` | src/peer_connector.rs:92-217 | a peer found at 5 is a member at 20 with a certificate that expired at 10, and leaves when it is next updated |
| `Connector.PollsReachConnector` | src/peer_connector.rs:90-218 | after any number of polls, lookup, peer list and formation set name exactly the discovered peers other than the node itself, each at its discovered addresses |

## Left out

- Rounding: coordinates, scores, pressures and token counts are exact reals. The geohash encoder reads the top 32 fraction bits of an IEEE 754 binary64 number, which the model takes from the exact value, with the two scaling constants as 1/180 and 1/360.
- Integer width: the byte counter of the storage and the paused count are kept as unwrapped integers, and read modulo 2^64. Other `usize` and `u64` sums do not overflow in the model. Widths are explicit where bytes or bits are written.
- Interleaving: each call is atomic, in the order of the locks it takes; two tasks inside one call are not modelled.
- Time: each call takes the instants it reads as parameters. A clock that goes back is handled where the code saturates; `GrantedWithinRate` needs an ordered clock.
- Visiting order of hash maps is arbitrary. The scan that validates a node id, and sums over maps, are proved independent of it.
- Geohash.DecodeHash: the empty string decodes to the whole world, as the shift by 64 does in release builds; a debug build stops there.
- A hash string is the sequence of its UTF-8 bytes, one character each, as the decoder's 256-entry table and its length check see it; outside ASCII no byte is a digit.
- Signatures: the verifier is an arbitrary predicate over key, message and signature; Ed25519 (section 5.1.7 of RFC 8032) is not modelled.
- Key derivation: `PollsReachConnector` takes the derived endpoint ids to be different for different node ids; HKDF is not modelled.
- `BandwidthAllocation::acquire`, the synchronous form, which skips charging when a lock is taken, and `preempt_lower`.
- `CertificateBundle::add_certificate_unchecked` and loading from directories.
- Transfer ids: the id drawn for a transfer is a parameter, taken to be new, as a random UUID is.
- Pause timestamps, audit timestamps and reasons, eviction reasons and cycle durations in results.
- `metrics`, `utilization`, `all_utilizations`, `stats`, `transfers_by_class` and similar accessors, which read the modelled state without changing it, and the builders and validators of configurations.
- The `Neighbors` record: eight calls of `neighbor`.
- Extracting peers from endpoint slices, failed listings (which change nothing), and the other discovery sources.
- Deletion policies, garbage collection, time-to-live, sync modes, the broker, routing, topology, transports and blob storage.
