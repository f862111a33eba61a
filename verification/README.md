# Harpocrates backend: a verified model

This project models the algorithmic core of the Harpocrates backend in Dafny and proves what it is meant
to guarantee. `dafny verify dfyconfig.toml` checks everything.

| file | models |
|---|---|
| `Bits.dfy`, `Numerals.dfy`, `Outcomes.dfy` | bit strings, decimal numerals, optional and failing results |
| `StrKey.dfy`, `CrcOrder.dfy`, `CrcDistance.dfy` | `strkey.py`: base32 through a bit buffer, CRC16-XMODEM, key validity, polynomial division, the order of x and least distance |
| `Envelope.dfy` | `envelope.py`: the metadata envelope |
| `Border.dfy`, `Frames.dfy`, `Limits.dfy`, `Stego.dfy` | `stego.py`: border blocks, low bits, whole clips, noise |
| `Transparency.dfy`, `KeyHistory.dfy`, `ManifestHistory.dfy` | `issuer_key_transparency.py`: the event log, manifests, checkpoints, key validity, and what key table and manifests say about the events that led to them |
| `Lineage.dfy`, `LineageRaces.dfy` | `lineage.py` and its use in `app.py` and `db.py`: the acyclic parent graph, one request at a time and interleaved |
| `Admission.dfy` | `admission.py`: lock, queue and semaphore under every interleaving |
| `VerifierCache.dfy`, `CacheHistory.dfy`, `CacheIndex.dfy` | `verifier_cache.py`: key framing, the cache object, whole runs, the index and what is certain to be hit |
| `VerifierInputs.dfy`, `InputCodes.dfy` | `verifier_inputs.py`: hexadecimal and field codec, three schemas, classification, reject codes |
| `Webhook.dfy`, `DeliveryHistory.dfy` | `webhook.py`: leasing and retrying deliveries, and what a row says about the run that led to it |
| `ChainIndexer.dfy` | `chain_indexer.py` and the tables of `db.py`: idempotent indexing with crashes |
| `Reconcile.dfy` | `tx_verification.py`, `registration_reconcile.py`, `update_tx_status` of `db.py` |

Code that updates objects or arrays is a class or a method with loops, tied by its postcondition to a function
on values; the laws are lemmas about those functions and about whole runs. Concurrent protocols are state
machines whose steps are the locked sections or committed transactions of the source.

Libraries are parameters. JSON, zlib, SHA-256, upper-casing, trimming and the clock are function or value
parameters, and each theorem names what it needs of them: JSON and zlib are undone by their inverses on the metadata
that is packed, digests have their fixed length, and the finite set of texts that were actually hashed contains no
collision. No digest is ever taken to be injective on all inputs.

## Results that differ from what the code's comments or guards suggest

- The border channel recovers every bit on all frames whose sides are at least 8, and 8 is the least side of which
  that holds: on 7 x 7 clips no payload at all is read from the borders. The greatest noise it stands is 24 when
  received values are bytes, and 21 when values may leave the byte range (`Limits.SideBound`,
  `Stego.SevenNeverReads`, `Limits.NoiseBound`).
- The capacity check at `backend/stego.py:66-74` counts the borders and the low bits of as many frames as the input
  file reports, but every frame repeats the low bits from the beginning, and extraction reads as many frames as its
  own file reports, or 240. Whatever the two files report, a payload passes the check and cannot be read back over a
  lossless channel exactly when it is beyond the borders of the frames that are read, beyond one frame's low bits,
  and within what the check counts (`Stego.AcceptedAndLostIff`). It happens when both report all frames
  (`Stego.KnownCountsLostIff`, `Stego.EightByEightLost`) and when only extraction finds no count
  (`Stego.LongClipLost`), and never to a payload accepted on the strength of one frame (`Stego.OneFrameNeverLost`).
- `backend/stego.py:141` defines `embed_metadata` again and so replaces the loop at lines 84-98; the loop is
  what is modelled.
- Publishing a manifest stores its predecessor with a successor link under the old digest. The comment says the
  digest does not change; it changes unless the link was already there (`Transparency.LinkedDigest`).
- An event that ends a key again replaces the earlier end of validity, so retiring a rotated key later widens
  its window (`Transparency.ValidityAfter`, `Transparency.RetirementWidensWindow`).
- A cache lookup that names the proof identifier of the entry it hits drops that entry from the identifier's
  index, and `invalidate_proof` then misses it (`CacheHistory.InvalidateProofExact`, `CacheHistory.NamedLookupLeaks`).
  A key stored under one proof and again under another stays listed under the first, whose invalidation then removes
  the live entry of the second (`CacheIndex.IndexExact`, `CacheIndex.StaleListLosesEntry`,
  `CacheIndex.StoredTwiceIsStale`).
- Lineage validation, duplicate check and insertion are separate transactions. Any number of requests in flight close
  a cycle exactly when they lead to one another in a ring (`Lineage.InsertAllAcyclicIff`, `LineageRaces.InFlightExact`);
  three can do so when no two can (`LineageRaces.ThreeCanCycle`). Only the manifest digest is a key, so two racing
  requests can leave two records of one output, after which even a request that runs alone is validated against an
  incomplete graph (`LineageRaces.SameOutputHidesCycle`).
- The endpoint validates every record at depth one, so the depth limit of four never refuses anything: chains of any
  length are registered (`Lineage.AnyDepthRegisters`).
- A webhook lease that runs out is handed out again without being counted, so attempts are unbounded and several
  workers can hold one delivery. In every run there are at most six attempts and one more for each lease of a
  delivery that somebody holds, and that many are reached (`Webhook.AttemptsBounded`, `Webhook.BoundReached`,
  `Webhook.AttemptsUnbounded`). A settled delivery is settled for good exactly when no worker still holds it with a
  count below the maximum (`Webhook.SettledForGoodIff`).
- A crash between the commit of an indexed event and the queueing of its webhooks loses them for good
  (`ChainIndexer.MissedForGood`).
- Until a first cursor is saved, every poll starts from the newest ledger (`backend/chain_indexer.py:505-510`). The
  events of an abandoned first page are passed over: the cursor moves beyond them, and they never get a row
  (`ChainIndexer.AbandonedFirstPage`). An event has a row exactly when an event with its key was ingested, which is
  certain only from the first page whose cursor was saved (`ChainIndexer.RowIffIngested`, `ChainIndexer.LostForGood`).

## Model

| member | source | states |
|---|---|---|
| `Crc16.BurstInjective` | backend/strkey.py:77-89 | from one register, two different bursts of at most 16 bits never lead to the same register |
| `Crc16.BurstDetected` | backend/strkey.py:77-89 | streams with equal residues that agree outside a window of at most 16 bits are equal |
| `Crc16.ZeroResidue` | backend/strkey.py:77-122 | sixteen further bits bring the register to zero exactly when they repeat it |
| `Crc16.AbsorbParity` | backend/strkey.py:77-89 | the register carries the parity of the whole stream |
| `Crc16.Crc16Xmodem` | backend/strkey.py:77-89 | the shift-and-xor loop computes the register that the message bits lead to one by one |
| `CrcDistance.Division` | backend/strkey.py:77-89 | that register is the remainder of the message times x^16 divided by the polynomial, with its quotient, over GF(2) |
| `CrcDistance.OnlyRemainder` | backend/strkey.py:77-89 | quotient and remainder of degree below sixteen are unique |
| `CrcOrder.MulPower` | backend/strkey.py:77-89 | shifting the register n times multiplies it with the n-th power of x modulo the polynomial |
| `CrcOrder.OrderExact` | backend/strkey.py:77-89 | n shifts bring the register round exactly when n is a multiple of 32767, the order of x modulo the polynomial |
| `CrcDistance.TwoFlipsIff` | backend/strkey.py:77-89 | two flipped bits leave the register unchanged exactly when they are a multiple of 32767 places apart |
| `CrcDistance.FourApart` | backend/strkey.py:77-122 | streams of at most 32767 bits with one residue are equal or differ in at least four bits |
| `CrcDistance.FourEverywhereIff` | backend/strkey.py:77-89 | that holds of all streams of a length exactly when the length is at most 32767 |
| `CrcDistance.FourReached` | backend/strkey.py:77-89 | around every stream another with the same residue differs from it by the four terms of the polynomial |
| `StrKey.AlphabetTable` | backend/strkey.py:19-36 | the alphabet string and its reverse table are one numbering of 32 symbols |
| `StrKey.DecodeBase32` | backend/strkey.py:42-70 | the bit-buffer loop regroups the 5-bit stream into bytes, or reports a wrong length or the first foreign character |
| `StrKey.EncodeBase32` | backend/strkey.py:180-198 | the bit-buffer loop regroups any byte string into 5-bit symbols, the last filled up with zero bits |
| `StrKey.DecodeEncode` | backend/strkey.py:42-70 | decoding the encoding of any 35 bytes gives them back |
| `StrKey.EncodeDecode` | backend/strkey.py:180-198 | encoding the decoding of any 56 alphabet characters gives them back |
| `StrKey.ChecksumIffNoResidue` | backend/strkey.py:117-122 | the stored checksum matches exactly when all 280 bits leave residue zero |
| `StrKey.IsValidStrKey` | backend/strkey.py:96-122 | length, prefix, alphabet, version and checksum are all checked, for any upper-casing |
| `StrKey.ValidIff` | backend/strkey.py:96-122 | a string is valid exactly when it has 56 characters and its upper-cased form has 56 symbols, the version byte and residue zero; the prefix check adds nothing |
| `StrKey.CaseIrrelevant` | backend/strkey.py:96-122 | where upper-casing settles after one pass, a string of 56 characters is valid exactly when its upper-cased form is |
| `StrKey.BitBurstDetected` | backend/strkey.py:77-122 | the upper-cased forms of two valid keys that agree outside any window of 16 bits, straddling ones included, are equal |
| `StrKey.CharacterBurstDetected` | backend/strkey.py:77-122 | the upper-cased forms of two valid keys that differ only inside three consecutive characters are equal |
| `StrKey.OddFlipsDetected` | backend/strkey.py:77-122 | the upper-cased forms of two valid keys differ in an even number of bits |
| `StrKey.KeysDifferInFourBits` | backend/strkey.py:77-122 | the upper-cased forms of two valid keys are equal or differ in at least four of their 280 bits |
| `StrKey.MakeStrKey` | backend/strkey.py:161-177 | the key of a 32-byte payload is the encoding of version, payload and checksum; other lengths are refused |
| `StrKey.MadeIsValid` | backend/strkey.py:161-177 | every made key is valid for its version |
| `StrKey.ValidIsMade` | backend/strkey.py:96-177 | the upper-cased form of every valid key is made from exactly one payload |
| `Envelope.ReadU32OfU32` | backend/envelope.py:184-228 | the big-endian length field reads back as written |
| `Envelope.ValidationStable` | backend/envelope.py:79-151 | validating validated metadata at any later time succeeds and changes nothing |
| `Envelope.CanonicalKeepsFields` | backend/envelope.py:118-151 | validation keeps every field but the version, which is 1 for version one and raised to at least 2 for version two |
| `Envelope.AcceptedIff` | backend/envelope.py:79-151 | metadata is accepted exactly when all six fields are there, protocol and tier are allowed, both digests are 64 hexadecimal digits, the timestamp is well formed and not too far ahead, and the version is a number, 1 in version one |
| `Envelope.MissingReported` | backend/envelope.py:79-116 | of missing fields the alphabetically first is reported |
| `Envelope.InvalidReported` | backend/envelope.py:79-116 | of invalid fields the first is reported in the order protocol, tier, source hash, proof id, timestamp, version |
| `Envelope.PackedBytes` | backend/envelope.py:154-214 | what packs, with which error the rest is refused, and each byte range of the envelope: HRPSTG and the version digit, the length in four bytes, the digest, the body |
| `Envelope.UnpackIff` | backend/envelope.py:217-264 | bytes unpack to m exactly when they are magic, length, digest of the body, body and any rest, for a body that inflates within bounds to metadata validated as m |
| `Envelope.UnpackOfPack` | backend/envelope.py:154-264 | what packs unpacks, now or later, to the validated and upgraded metadata, provided the serialisers invert on that metadata alone |
| `Envelope.HeaderPinsMetadata` | backend/envelope.py:217-264 | accepted envelopes with the same 43 header bytes mean the same, whatever follows the body |
| `Border.BorderPositions` | backend/stego.py:216-226 | the four loops list the top, right, bottom and left block centres in painting order |
| `Border.PositionsExact` | backend/stego.py:216-226 | for every width, height and index, the number of blocks on each side and the place of the i-th block by arithmetic |
| `Border.PatchExact` | backend/stego.py:233-246 | a block covers exactly the pixels of the frame within two of its centre each way |
| `Border.CoresSurvive` | backend/stego.py:216-246 | with both sides at least 8, three fifths of every block is clear of all later blocks |
| `Border.PositionsAreSpots` | backend/stego.py:216-226 | every listed position lies on one of the four sides |
| `Frames.PaintRect` | backend/stego.py:240-244 | painting a clipped block sets every channel inside it and nothing else |
| `Frames.EmbedBorderBits` | backend/stego.py:233-246 | blocks are painted in order from the cursor on, and the returned cursor is the first bit not painted |
| `Frames.EmbedLsbBits` | backend/stego.py:249-255 | the leading channel values get the payload bits as low bits, up to the frame size |
| `Frames.BlockAfterPainting` | backend/stego.py:233-246 | after all painting each block is two-toned and its core shows its own bit |
| `Frames.BlockReads` | backend/stego.py:258-266 | a block reads by three fifths of its core's range and two fifths of its whole range against 128 |
| `Frames.SumMoves` | backend/stego.py:258-268 | every channel value of every pixel of a block counts once in its sum and nothing else does |
| `Frames.BitSurvives` | backend/stego.py:216-268 | every painted bit is read back after the low bits are written and every value has moved by a tolerable amount |
| `Limits.SideBound` | backend/stego.py:216-268 | recovery on all frames with sides at least n holds exactly when n is at least 8 |
| `Limits.NoiseBound` | backend/stego.py:233-268 | recovery through noise d holds exactly when d is at most 24 for byte values, 21 for unbounded ones |
| `Stego.BytesToBitsAt` | backend/stego.py:202-203 | bit 8i+j of the stream is bit 7-j of byte i |
| `Stego.BitsToBytesLoop` | backend/stego.py:206-213 | the loop reads the complete groups of eight bits as bytes and drops the rest |
| `Stego.BytesSurvive` | backend/stego.py:202-213 | bytes turned into bits come back, whatever bits follow |
| `Stego.BitsSurvive` | backend/stego.py:202-213 | bits in whole groups of eight come back |
| `Stego.ClipCarries` | backend/stego.py:84-98 | the borders of a noisy clip carry the payload stream from the cursor on, across frames |
| `Stego.StreamExact` | backend/stego.py:281-299 | a stream that starts like a payload yields it exactly when it is long enough, and nothing before |
| `Stego.BorderExact` | backend/stego.py:258-299 | border extraction from a noisy clip succeeds exactly when the clip has a slot for every bit |
| `Stego.BorderAttempts` | backend/stego.py:119-131 | frame by frame, border extraction succeeds at the first long enough prefix and otherwise falls back to low bits |
| `Stego.LsbExact` | backend/stego.py:249-278 | one frame's low bits carry the payload exactly when it fits into that frame |
| `Stego.LsbClipExact` | backend/stego.py:271-278 | low-bit extraction from a clip succeeds exactly when the payload fits into one frame |
| `Stego.BorderRoundTrip` | backend/stego.py:84-98 | packed metadata sent through the borders comes back validated and upgraded exactly when the clip has room, and not from a shorter clip |
| `Stego.LsbRoundTrip` | backend/stego.py:271-299 | packed metadata comes back from the low bits of the first frame exactly when it fits |
| `Stego.NoisyRoundTrip` | backend/stego.py:114-137 | through tolerable noise the whole extraction returns the metadata whenever the borders of the frames it reads have room |
| `Stego.LosslessExact` | backend/stego.py:114-137 | without loss, extraction succeeds exactly when the borders of the frames it reads or the low bits of one frame hold the payload |
| `Stego.AcceptedAndLostIff` | backend/stego.py:66-137 | whatever frame counts are found for embedding and for extraction, a payload passes the capacity check and is lost exactly when the borders of the frames read and one frame's low bits cannot hold it and the check finds room |
| `Stego.KnownCountsLostIff` | backend/stego.py:66-137 | with both counts right, these are the payloads between one frame's and all frames' low bits that the borders cannot hold |
| `Stego.OneFrameNeverLost` | backend/stego.py:66-137 | a payload accepted on the strength of one frame is never lost |
| `Stego.LongClipLost` | backend/stego.py:66-137 | with the count known only for embedding, a payload that needs the borders of more than 240 frames and more than one frame's low bits is accepted and lost |
| `Stego.EightByEightLost` | backend/stego.py:66-137 | on 8 x 8 clips with both counts right every payload that needs all the frames' low bits passes the check and is lost |
| `Stego.SevenNeverReads` | backend/stego.py:216-299 | from the borders of a 7 x 7 clip no payload is ever read |
| `Stego.EmbedFrames` | backend/stego.py:84-98 | the frame loop embeds into every frame and hands the cursor on |
| `Stego.ReadBorders` | backend/stego.py:258-268 | the nested loops read the bits of all frames in position order |
| `Stego.ExtractMetadata` | backend/stego.py:114-137 | up to the reported number of frames, or 240, the growing prefix is tried after each frame, low bits last |
| `Stego.ExtractLsbLoop` | backend/stego.py:271-278 | low bits accumulate frame by frame until the stream unpacks |
| `Transparency.ComputeTreeHead` | backend/issuer_key_transparency.py:334-339 | the loop folds event hashes into the chain head |
| `Transparency.HeadSteps` | backend/issuer_key_transparency.py:268-339 | the head of the empty log is 64 zeros, and each event's hash is hashed onto the head before it |
| `Transparency.HeadPinsLog` | backend/issuer_key_transparency.py:334-339 | equal heads of logs of one length pin every event, up to empty optional fields |
| `Transparency.IssuerDirectory.AppendEvent` | backend/issuer_key_transparency.py:352-432 | an accepted event extends log and key table, a refused one changes nothing and names the first failed check; which events those are is `KeyHistory.AcceptedIff` and `KeyHistory.RefusedWith` |
| `Transparency.IssuerDirectory.PublishManifest` | backend/issuer_key_transparency.py:434-459 | a manifest is stored under its digest and linked from its predecessor, or nothing changes; which manifests those are is `ManifestHistory.PublishIff` |
| `Transparency.AcceptedIsChained` | backend/issuer_key_transparency.py:352-432 | in every accepted log sequence numbers are positions, each event carries its predecessor's hash, and a key is active exactly while it has no end |
| `Transparency.LastEventPinsLog` | backend/issuer_key_transparency.py:352-366 | accepted logs that end in the same event are the same log with the same keys |
| `Transparency.SameCanonSameKeys` | backend/issuer_key_transparency.py:221-238 | the key table depends on events only through their serialised form |
| `Transparency.LinkedDigest` | backend/issuer_key_transparency.py:443-456 | recording the successor keeps the stored manifest's digest exactly when it already named that successor |
| `Transparency.RebuildDirectory` | backend/issuer_key_transparency.py:478-489 | replaying events and manifests succeeds exactly when every one is accepted in turn |
| `Transparency.RunKeepsReachable` | backend/issuer_key_transparency.py:352-459 | over every run the log only grows and the directory stays what its log and manifests determine |
| `Transparency.RunRebuilds` | backend/issuer_key_transparency.py:478-489 | however appends and publications interleave, rebuilding gives the same directory |
| `Transparency.ConsistentIff` | backend/issuer_key_transparency.py:464-515 | for any two directories, A finds a checkpoint of B consistent exactly when the organisations agree, B's log is a prefix of A's, and at equal length A has no manifest or one with B's hash |
| `Transparency.ConsistencyFindings` | backend/issuer_key_transparency.py:464-515 | each finding against a checkpoint of a log no longer than its own is raised exactly when its reason holds of the two directories |
| `Transparency.LongerLogFound` | backend/issuer_key_transparency.py:464-515 | a checkpoint of a longer log is reported as such, and no other is |
| `Transparency.ConsistentMeansPrefix` | backend/issuer_key_transparency.py:464-515 | a checkpoint of B that A finds consistent proves B's log a prefix of A's, with B's keys |
| `Transparency.OwnCheckpointStays` | backend/issuer_key_transparency.py:464-515 | after any run a directory's own checkpoint is consistent exactly when an event was accepted since or the manifest hash is unchanged |
| `Transparency.HonestRollback` | backend/issuer_key_transparency.py:518-538 | after any run of a directory there is no rollback finding exactly when an event was accepted since or the manifest hash is unchanged |
| `Transparency.RollbackFindings` | backend/issuer_key_transparency.py:518-538 | of any two directories, each rollback finding is raised exactly when its reason holds: another organisation, a shorter log, or, at equal length, a log that serialises otherwise or a manifest with another hash |
| `Transparency.NoRollbackIff` | backend/issuer_key_transparency.py:518-538 | of any two directories, there is no finding exactly when the organisations agree, the log is no shorter and, at equal length, the logs serialise alike and the manifests have one hash |
| `Transparency.ValidityAfter` | backend/issuer_key_transparency.py:574-593 | exactly which signature times one event leaves valid for a key it does not reintroduce |
| `Transparency.StartedValidity` | backend/issuer_key_transparency.py:370-402 | a key that an event starts is valid exactly from then on |
| `Transparency.CompromisedAfter` | backend/issuer_key_transparency.py:370-430 | exactly which times one event leaves compromised: from a compromise on, and as before while it neither starts nor ends the key |
| `Transparency.ValidityStays` | backend/issuer_key_transparency.py:574-593 | an accepted signature time stays accepted through any later events that do not reintroduce the key |
| `Transparency.CompromisedOrValid` | backend/issuer_key_transparency.py:574-601 | in any key table, from its start a compromised key is at each time either valid or compromised, never both |
| `Transparency.RetirementWidensWindow` | backend/issuer_key_transparency.py:415-428 | a time refused after a rotation is accepted again after a later retirement |
| `KeyHistory.TableFromLog` | backend/issuer_key_transparency.py:370-430 | in every accepted log a key is in the table exactly when some event started it, with the start, key material, status and end that its last start and the last end since then give |
| `KeyHistory.StatusFromLog` | backend/issuer_key_transparency.py:370-430 | in every accepted log the status is active when the last event about the key started it, and otherwise what that last event made it, with its time as end |
| `KeyHistory.CompromisedFromLog` | backend/issuer_key_transparency.py:596-601 | in every accepted log a key is compromised at t exactly when the last event about it is a compromise no later than t |
| `KeyHistory.ValidFromLog` | backend/issuer_key_transparency.py:574-593 | in every accepted log a key is valid at t exactly when its last start is no later than t and the last end since then, if any, is later |
| `KeyHistory.AcceptedIff` | backend/issuer_key_transparency.py:352-432 | after every accepted log, an event is accepted exactly when there is room for it, organisation, sequence number and link fit, and the log permits it: no activation of a key in force, rotation only from a known key whose compromise was not the last word, an end only of a known key |
| `KeyHistory.KeysRefusedWith` | backend/issuer_key_transparency.py:370-430 | each refusal of the key table is given only for its own reason, said of the log |
| `KeyHistory.RefusedWith` | backend/issuer_key_transparency.py:352-368 | each other refusal is given only for its own reason and when the checks before it passed |
| `ManifestHistory.EventHashIff` | backend/issuer_key_transparency.py:221-269 | two events hash alike exactly when all ten fields agree, an absent optional text counting as an empty one |
| `ManifestHistory.CanonAllIff` | backend/issuer_key_transparency.py:221-238 | two logs serialise alike exactly when they have one length and such events |
| `ManifestHistory.HasDigestIff` | backend/issuer_key_transparency.py:187-203 | a manifest has a digest exactly when it has at most 8192 bytes and eight keys and an address; the first that fails is reported |
| `ManifestHistory.ManifestHashIff` | backend/issuer_key_transparency.py:187-203 | two manifests hash alike exactly when they agree in every field but the signature |
| `ManifestHistory.PublishIff` | backend/issuer_key_transparency.py:434-459 | after any publications a manifest is published exactly when the organisation fits, it has a digest and, unless it is the first, it names the digest of the last one; otherwise the first failed check is reported |
| `ManifestHistory.ShelfFromRun` | backend/issuer_key_transparency.py:434-459 | after every run the current manifest is the last one published, and every one published is stored under its digest as it was, with its successor's digest if there is one |
| `Lineage.SearchAncestry` | backend/lineage.py:113-151 | the search with a shared visited set terminates; a failed search leaves everything it visited finished |
| `Lineage.ContainsInAncestry` | backend/lineage.py:113-151 | the answer is reachability through parent links, on every finite store, cyclic ones included |
| `Lineage.ValidateLineageGraph` | backend/lineage.py:76-110 | the first violated limit is reported, and a cycle exactly when some parent reaches the output |
| `Lineage.ValidatedIff` | backend/lineage.py:76-110 | a record is valid exactly when it is at most four deep, has at most four parents and an actor and, where output and store are given, no parent is or descends from the output; each error is given only for its own reason |
| `Lineage.InsertAllAcyclicIff` | backend/lineage.py:100-110 | adding any number of records, for new, old or equal outputs, keeps an acyclic graph acyclic exactly when no requests lead to one another in a ring |
| `Lineage.InsertAcyclicIff` | backend/lineage.py:100-110 | one record keeps the graph acyclic exactly when no parent leads to the output |
| `Lineage.RacingExact` | backend/app.py:1264-1288 | two requests that pass against the same graph, for different outputs or one, keep it acyclic exactly when they do not lead to each other |
| `Lineage.Registry.Register` | backend/app.py:1254-1288 | a request is recorded exactly when its output is given and new, it has one to four parents and an actor, and no parent leads to the output; the store stays acyclic |
| `Lineage.AnyDepthRegisters` | backend/app.py:1264-1272 | chains of every length are registered, so the depth limit refuses nothing |
| `Lineage.RunAcyclic` | backend/app.py:1254-1288 | every store reached by registrations is acyclic and only grows |
| `LineageRaces.RunExact` | backend/app.py:1254-1288 | over every interleaving of every number of requests the graph ends acyclic exactly when each row, at the moment it is added, does not lead to its own output |
| `LineageRaces.EveryTable` | backend/db.py:324-393 | in every interleaving rows are only added, never two with one digest, and each names an output, an actor and one to four parents other than the output |
| `LineageRaces.InFlightExact` | backend/app.py:1264-1288 | whatever requests are in flight, inserting them keeps the graph acyclic exactly when they form no ring in the graph as it is |
| `LineageRaces.UndisturbedAcyclic` | backend/app.py:1254-1288 | in every interleaving that adds no row between a request's validation and insertion the graph stays acyclic with one record per output |
| `LineageRaces.ViewIsGraph` | backend/db.py:368-393 | with one record per output lookups see the whole graph |
| `LineageRaces.ThreeCanCycle` | backend/app.py:1264-1288 | three requests that each pass and of which any two can be inserted close a cycle together |
| `LineageRaces.SameOutputHidesCycle` | backend/db.py:324-393 | after a race that leaves two records of one output, a request that runs alone is validated and closes a cycle |
| `Admission.AdmissionController.Enter` | backend/admission.py:35-56 | the first locked section: identity limit, free slot, queue limit, join |
| `Admission.AdmissionController.Leave` | backend/admission.py:61-68 | the second locked section leaves the queue and, on a timeout, gives the identity count back |
| `Admission.AdmissionController.ReleaseCount` | backend/admission.py:76-79 | the locked section of release takes one off the identity count and drops an empty entry |
| `Admission.StepKeepsInv` | backend/admission.py:30-81 | every atomic section of every caller keeps the counters equal to the populations they count |
| `Admission.EveryInterleaving` | backend/admission.py:30-81 | in every interleaving permits are conserved, the queue and identity counters are exact, and all limits hold |
| `Admission.CountersDecide` | backend/admission.py:30-81 | every interleaving moves the callers exactly as a protocol without counters does, which looks only at where the callers stand |
| `Admission.EntryDecision` | backend/admission.py:35-56 | after every interleaving entry is refused for the identity limit exactly when that many of its callers are inside, else a slot is given exactly when one is free, with or without a queue, else it queues exactly when the queue has room |
| `Admission.NeverStuck` | backend/admission.py:61-81 | in every reachable state the next section of an unfinished caller can run, so its entry is found |
| `Admission.AllReturned` | backend/admission.py:72-81 | when all callers have finished every counter and permit is back to its initial value |
| `CacheKey.FieldSplit` | backend/verifier_cache.py:21-29 | a length-prefixed field can be split off the front in only one way, whatever it contains |
| `CacheKey.PayloadInjective` | backend/verifier_cache.py:82-94 | different field lists never frame to the same payload |
| `CacheKey.FieldsIff` | backend/verifier_cache.py:67-94 | two queries have the same fields exactly when domain, network, circuit and verifier agree and proof and inputs agree once normalised |
| `CacheKey.KeyIff` | backend/verifier_cache.py:67-94 | two queries share a key exactly when these six agree |
| `CacheKey.PayloadTagged` | backend/verifier_cache.py:67-94 | every payload begins with the framed domain tag harpocrates:verifier-cache:v1 |
| `VerifierCache.VerifierCacheObject.Lookup` | backend/verifier_cache.py:96-129 | a live entry is returned and moved to the end, an expired one removed |
| `VerifierCache.VerifierCacheObject.Store` | backend/verifier_cache.py:131-161 | the entry goes to the end with its own expiry; a full cache loses its first entry |
| `VerifierCache.VerifierCacheObject.Remove` | backend/verifier_cache.py:163-185 | one entry and its index membership are removed |
| `CacheHistory.RunKeepsInv` | backend/verifier_cache.py:96-191 | over every run the size bound holds, entries stand in order of last touch, and a cached key is listed under its current proof exactly when no lookup has dropped it |
| `CacheHistory.HitIsLatest` | backend/verifier_cache.py:96-161 | in every run a hit returns the verdict last stored for exactly these fields, before its own expiry; it differs from the reference only if a lookup dropped the entry and its proof was invalidated since |
| `CacheIndex.IndexExact` | backend/verifier_cache.py:112-191 | after every run a key is listed under a proof exactly when some store put it there and no operation since took it off, whoever stored it later |
| `CacheIndex.InvalidateProofRemoves` | backend/verifier_cache.py:187-191 | invalidating a proof removes exactly the entries listed under it, its own and those since stored under other proofs |
| `CacheIndex.StaleListLosesEntry` | backend/verifier_cache.py:151-191 | an entry of another proof that is still listed is lost with it, although the reference keeps the verdict |
| `CacheIndex.StoredTwiceIsStale` | backend/verifier_cache.py:151-161 | storing a key under one proof and then another leaves such an entry |
| `CacheIndex.StoredIsHit` | backend/verifier_cache.py:96-161 | a stored verdict is hit for as long as it lives while nothing invalidates it and fewer other keys are touched than the cache has places |
| `CacheHistory.EvictsColdest` | backend/verifier_cache.py:147-161 | storing a new key evicts only from a full cache, and then the least recently touched entry |
| `CacheHistory.InvalidateProofExact` | backend/verifier_cache.py:187-191 | what survives of a proof's entries is exactly what lookups naming the proof had dropped |
| `CacheHistory.InvalidateProofComplete` | backend/verifier_cache.py:187-191 | in runs whose lookups name no proof, nothing of an invalidated proof survives |
| `CacheHistory.NamedLookupLeaks` | backend/verifier_cache.py:112-122 | store, look up and invalidate under one proof: the verdict is still served |
| `CacheHistory.CacheRefinesReference` | backend/verifier_cache.py:67-191 | in every run, with hashed keys, a hit is the verdict of the last store whose query agrees in the six fields, within the lifetime of its verdict, positive or negative; in runs whose lookups name no proof, nothing has invalidated that store since, and the reference map has the same |
| `CacheHistory.LastStoredMeans` | backend/verifier_cache.py:131-161 | what the reference map keeps for a query is the last store whose query agrees in the six fields, with its owner and expiry, and is gone exactly as that store is invalidated |
| `BigEndian.FromOfTo` | backend/verifier_inputs.py:221-231 | a number below 256^k survives its k-byte form |
| `BigEndian.ToOfFrom` | backend/verifier_inputs.py:244-249 | bytes are the fixed-length form of the number they denote |
| `BigEndian.FromHexInjective` | backend/verifier_inputs.py:182-204 | two texts decode alike exactly when they agree digit for digit up to case |
| `VerifierInputs.SplitOfJoin` | backend/verifier_inputs.py:260-266 | splitting joined fields gives them back |
| `VerifierInputs.JoinOfSplit` | backend/verifier_inputs.py:260-266 | joining split fields gives the input back |
| `VerifierInputs.VectorRoundTrip` | backend/verifier_inputs.py:182-241 | every vector of field elements encodes, and decodes back when within the hexadecimal bound, else is refused as oversized |
| `VerifierInputs.VersionField` | backend/verifier_inputs.py:287-295 | exactly one 32-byte field reads as the expected circuit version |
| `VerifierInputs.ParseOfSilent` | backend/verifier_inputs.py:327-360 | parsing the serialisation of a well-formed v1 witness returns it |
| `VerifierInputs.SilentOfParse` | backend/verifier_inputs.py:327-360 | an accepted v1 input is the serialisation of a well-formed witness |
| `VerifierInputs.ParseOfSilentV2` | backend/verifier_inputs.py:363-410 | parsing the serialisation of a well-formed v2 witness returns it |
| `VerifierInputs.SilentV2OfParse` | backend/verifier_inputs.py:363-410 | an accepted v2 input is the serialisation of a well-formed witness |
| `VerifierInputs.ParseOfRevocation` | backend/verifier_inputs.py:413-433 | parsing the serialisation of a well-formed revocation witness returns it |
| `VerifierInputs.RevocationOfParse` | backend/verifier_inputs.py:413-433 | an accepted revocation input is the serialisation of a well-formed witness |
| `VerifierInputs.ParseOfSerialise` | backend/verifier_inputs.py:436-446 | for all schemas, parsing undoes serialising |
| `VerifierInputs.SerialiseOfParse` | backend/verifier_inputs.py:436-446 | for all schemas, serialising undoes parsing |
| `VerifierInputs.ClassifyExact` | backend/verifier_inputs.py:452-470 | classification accepts exactly the spellings of well-formed values with a proof of 64 to 65536 bytes |
| `VerifierInputs.AcceptedTextUnique` | backend/verifier_inputs.py:182-446 | accepted texts that parse to one value differ at most in the case of digits |
| `InputCodes.HexTable` | backend/verifier_inputs.py:182-204 | a digit counts n exactly when it is at place n of either alphabet |
| `InputCodes.DecimalDenotes` | backend/verifier_inputs.py:234-241 | the numeral of n denotes n in base ten, without leading zeros |
| `InputCodes.FieldEncoded` | backend/verifier_inputs.py:207-231 | text is read in base sixteen behind 0x in either case and in base ten otherwise; what cannot be read is malformed, a number outside the field not canonical, and any other is 64 lower-case digits that denote it |
| `InputCodes.VectorRefused` | backend/verifier_inputs.py:234-241 | a vector is refused for its first value that cannot be encoded, under its name or its place |
| `InputCodes.SilentByOffset` | backend/verifier_inputs.py:327-360 | the first failing check of a v1 input, in order and by byte offset, gives the code and field named; else each part of the witness is a byte range of the input |
| `InputCodes.SilentV2ByOffset` | backend/verifier_inputs.py:363-410 | the same for v2, where the version is checked between padding and canonicity |
| `InputCodes.RevocationByOffset` | backend/verifier_inputs.py:413-433 | the same for revocation inputs, with the domain separator spelt out as text |
| `InputCodes.ClassifyCodes` | backend/verifier_inputs.py:452-470 | the verdict is the code of the first failing check: length and digits of the inputs, the schema's refusal, length and digits of the proof, its size |
| `Webhook.DeliveryTable.UpdateDeliveryStatus` | backend/webhook.py:187-215 | the report settles the row or schedules the next retry, and frees the lease |
| `Webhook.StepUpdatesRows` | backend/webhook.py:113-215 | the steps of a run do to the rows what the lease query and the status update do |
| `Webhook.StepKeepsInv` | backend/webhook.py:113-215 | every lease and report, however late, keeps counts bounded and retry times equal to the last failure plus its delay |
| `Webhook.EveryRun` | backend/webhook.py:113-215 | in every run retry counts stay within five, in the table and with workers, and every retried failure finds its delay |
| `Webhook.AttemptSpacing` | backend/webhook.py:113-215 | in every run a lease picks no settled delivery and none before its last failure plus the delay |
| `Webhook.ReopensIff` | backend/webhook.py:187-215 | a settled delivery is reopened exactly by a failure report from a worker that was told a count below five |
| `Webhook.SettledForGoodIff` | backend/webhook.py:113-215 | a settled delivery stays settled in every continuation exactly when no worker still holds it with a count below five |
| `Webhook.AttemptsBounded` | backend/webhook.py:113-215 | in every run a delivery is attempted at most six times, and once more for each lease that took it while somebody held it |
| `Webhook.BoundReached` | backend/webhook.py:113-215 | for every k some run has exactly k such leases and six plus k attempts |
| `Webhook.NeverSharedIff` | backend/webhook.py:113-215 | a delivery never has two holders in a run exactly when the run has no such lease |
| `Webhook.UnsharedRuns` | backend/webhook.py:113-215 | without such leases, however late the reports, there are at most six attempts, never two holders, and what is settled stays settled in every continuation |
| `Webhook.LeasePicksFree` | backend/webhook.py:122-140 | with timely reports a lease picks only deliveries nobody holds |
| `Webhook.LeasedAgainIff` | backend/webhook.py:122-140 | with timely reports an outstanding delivery can be leased again exactly when its lease has run out and its retry time has come |
| `Webhook.TimelyRuns` | backend/webhook.py:113-215 | timely reports are enough for that: at most six attempts, never two holders, and what is settled stays settled in every continuation, timely or not |
| `Webhook.AttemptsUnbounded` | backend/webhook.py:113-140 | without, for every n some run attempts a delivery n times and leaves n workers holding it |
| `Webhook.LateReportReopens` | backend/webhook.py:187-215 | of two workers that hold a delivery, one settles it and the other's failure reopens it |
| `Webhook.SomeRunReopens` | backend/webhook.py:113-215 | some run settles a delivery and then reopens it |
| `DeliveryHistory.RowFromRun` | backend/webhook.py:113-215 | in every run the row of a delivery is what the last report about it and the lease open since then say: status, count, retry time, lease |
| `DeliveryHistory.SuccessIff` | backend/webhook.py:187-215 | in every run a delivery has succeeded exactly when the last report about it was a success |
| `DeliveryHistory.TicketFromRun` | backend/webhook.py:113-215 | in every run a worker holds a delivery with a count exactly when some lease it has not reported yet told it that count |
| `DeliveryHistory.LeaseTakes` | backend/webhook.py:122-140 | a lease takes only deliveries that are due and not locked, no more than its limit, and leaves none of them out below its limit |
| `DeliveryHistory.SelectableIff` | backend/webhook.py:122-140 | what the lease query may pick is exactly what ordering the eligible unlocked rows by retry time and cutting off at the limit can give |
| `ChainIndexer.EventStore.InsertIndexed` | backend/db.py:1387-1527 | an event is inserted exactly when its key is new, and an existing row keeps its content |
| `ChainIndexer.EventStore.ProcessEventsBatch` | backend/chain_indexer.py:354-401 | a page is ingested in order, every event is counted once, and webhooks are queued once per new row |
| `ChainIndexer.AddAllUnique` | backend/db.py:1387-1527 | a page keeps keys unique and identifiers growing; the database uses up one identifier per recognised event, the in-memory table one per new row |
| `ChainIndexer.AddAllRecords` | backend/chain_indexer.py:354-401 | after a page every recognised event of it has a row and earlier rows are untouched |
| `ChainIndexer.ReplayAddsNothing` | backend/chain_indexer.py:354-401 | ingesting a page again, after any other pages, adds and changes no row |
| `ChainIndexer.CompleteIsBatch` | backend/chain_indexer.py:489-537 | a poll that does not crash does to the table what the batch does, with the same counts |
| `ChainIndexer.PollOnce` | backend/chain_indexer.py:489-537 | between polls every page from the cursor on, an empty one included, can be polled: it is ingested as a batch and counted, and the cursor moves to its end |
| `ChainIndexer.StepKeepsInv` | backend/chain_indexer.py:489-537 | every commit, crash, webhook failure and cursor save keeps the tables consistent, rows fixed and the cursor moving forward |
| `ChainIndexer.EveryRun` | backend/chain_indexer.py:489-537 | however polls fail, each recognised event from the first page whose cursor was saved up to the cursor has exactly one row, rows hold the first content ingested under their key, and webhooks are queued at most once per row |
| `ChainIndexer.CursorFromRun` | backend/chain_indexer.py:489-537 | in every run the cursor is where the page of the last saved poll ended, none before the first, and a poll fetches from there |
| `ChainIndexer.RowIffIngested` | backend/chain_indexer.py:489-537 | in every run a recognised event has a row exactly when an event with its key was ingested, and from the first saved page up to the cursor all were |
| `ChainIndexer.LostForGood` | backend/chain_indexer.py:489-537 | once a cursor is saved, an event without a row never gets one unless its key comes again at or after the cursor |
| `ChainIndexer.AbandonedFirstPage` | backend/chain_indexer.py:504-537 | a first page whose poll dies before ingesting it is passed over by the cursor, and its event never gets a row |
| `ChainIndexer.MissedForGood` | backend/chain_indexer.py:390-397 | between polls the rows without webhooks are exactly those whose queueing raised or was cut off by a crash, and they stay so |
| `ChainIndexer.ContentExact` | backend/db.py:1387-1527 | if the chain never reuses a key with other content, a row holds exactly its event |
| `Reconcile.VerifyTransaction` | backend/tx_verification.py:89-197 | the failover loop returns the judgement of the first usable source, else missing or error |
| `Reconcile.AnswerByAnswer` | backend/tx_verification.py:89-197 | what each answer does to the verdict of the ones after it, field by field, with confirmations as latest ledger minus ledger plus one |
| `Reconcile.VerdictMeaning` | backend/tx_verification.py:89-197 | missing exactly when every source says 404; the first usable answer decides otherwise: confirmed exactly when it reports success with the latest ledger at least the required number less one beyond its own, pending when short of that, failed when it reports failure; error exactly when none is usable and one is not 404 |
| `Reconcile.EvidenceIffTerminal` | backend/tx_verification.py:89-197 | the verdict is final exactly when every source says 404 or the first usable answer reports a failure or a success at sufficient depth |
| `Reconcile.NoEvidenceIff` | backend/tx_verification.py:89-197 | answers settle nothing exactly after a dependency failure or a success that is too shallow |
| `Reconcile.NoEvidenceNoWrite` | backend/registration_reconcile.py:150-180 | in those two cases every row is as it was, forced or not |
| `Reconcile.ProofEvents.ReconcileRegistration` | backend/registration_reconcile.py:96-191 | a call reports its outcome and writes only a terminal verdict |
| `Reconcile.ProofEvents.ReconcilePending` | backend/registration_reconcile.py:194-245 | the batch reconciles every row and counts each once under its status, and the writes exactly |
| `Reconcile.CallEffect` | backend/db.py:1048-1087 | an unforced call changes a row only from open to the terminal verdict of its own hash |
| `Reconcile.RowAfter` | backend/db.py:1048-1087 | after a call every row is settled by the sources' answers exactly when the call asks, the hash is the row's and the row is open or the call forced; all other rows stay |
| `Reconcile.Reported` | backend/registration_reconcile.py:96-191 | the outcome a call reports, from the answers alone |
| `Reconcile.UpdatedIff` | backend/db.py:1048-1087 | a call counts as an update exactly when the answers settle the transaction and some row with its hash is open, or there at all when forced |
| `Reconcile.SettledOnce` | backend/registration_reconcile.py:96-191 | without force a row changes at most once in any run, and a settled row never |
| `Reconcile.SettledOnEvidence` | backend/registration_reconcile.py:96-191 | a row that settles does so on the verdict of one call for its hash |
| `Reconcile.RowFromRun` | backend/registration_reconcile.py:96-191 | in every unforced run an open row ends with the status of the first call whose answers settle its hash, and stays open exactly when there is none |
| `Reconcile.BatchAsks` | backend/registration_reconcile.py:194-245 | the batch asks about a row, unforced, exactly when its hash is well formed and its status is not final, an empty one counting as open |
| `Reconcile.CountIs` | backend/registration_reconcile.py:194-245 | each counter of the batch is the number of its calls that report that status |
| `Reconcile.WritesAre` | backend/registration_reconcile.py:194-245 | the update counter is the number of calls that find a row to write in the table as the calls before left it |

## Left out

- ffmpeg and ffprobe processes, worker pools, timers, progress callbacks and real codec loss; the channel is lossless or has bounded noise, and a partial frame ends the clip.
- Internals of SHA-256, zlib and JSON, ISO-8601 parsing, Unicode upper-casing and trimming: all are parameters.
- Float rounding of the block mean; the threshold test is modelled as the exact comparison of the sum.
- Envelope.Pack: a tier that cannot be hashed, such as a list, raises a type error in the source; here it is an invalid tier.
- Protocol and version constants of manifests and checkpoints, signature hashes of checkpoints, checkpoint freshness and the JSON readers of `issuer_key_transparency.py`.
- Hexadecimal checks on lineage identifiers and the manifest text of lineage records; identifiers are strings.
- CacheHistory.CacheRefinesReference: says what a hit means. A miss can come from eviction, expiry, or the invalidation of a proof under which the key is still listed; `StoredIsHit` says when a hit is certain.
- VerifierCache.VerifierCacheObject.Lookup: takes the derived key; metrics are left out.
- The rows that the lease query picks are a parameter constrained by the query; the join with subscriptions and events and the dispatch are left out.
- Webhook.TimelyRuns: assumes that every lease is reported before it expires, because the code gives no such guarantee; `AttemptsBounded`, `UnsharedRuns`, `ReopensIff` and `SettledForGoodIff` hold of every run.
- LineageRaces.UndisturbedAcyclic: a validation reads the table as of one moment; the source makes one query per ancestor, between which rows may be added. `RunExact` and `InFlightExact` do not depend on what validation saw.
- Cursor tokens and ledger numbers of the chain indexer are positions in the chain; decoding of contract events is a parameter.
- Configurations without a database URL, where the updates of `webhook.py` and `update_tx_status` do nothing.
- Normalisation of transaction hashes and the list of Horizon addresses; a call carries the normalised hash, if any, and the answers of its sources.
- Keyset pagination, the job queue and idempotency records of `db.py` and `idempotency.py`: easier state than what is modelled.
- HTTP routes, authentication, configuration, tracing, metrics, retention, storage, capture and time attestation, C2PA and RFC 3161 handling, the command line and developer tooling.
