# Tamper-evident audit log: a Dafny model

The audit logger keeps an append-only index of events, links each row to the one before it by a SHA-256 hash, stores
payloads in a write-once object store, signs the chain's root from time to time, and can re-verify everything. This
project models those parts and proves what they guarantee together.

| file | what it models |
|---|---|
| `ByteStrings.dfy`, `Store.dfy` | byte strings and their order; events, filters, cursors, anchors |
| `Encoding.dfy`, `Reading.dfy` | canonical encoding, and a reader of the documented layout |
| `Chain.dfy`, `Merkle.dfy` | the chain verifier, the binary Merkle root |
| `Tables.dfy` | the store as a value: what each operation does to the sorted rows, and runs of operations |
| `Sorting.dfy`, `Memstore.dfy` | the in-memory event store: an id map and an ordered list of shared row objects |
| `Arrival.dfy`, `Tampering.dfy` | when the verifier accepts what `InsertChained` built, and what else it accepts in its place |
| `Paging.dfy` | filtered keyset paging, with and without rows arriving between pages |
| `Anchoring.dfy`, `AnchorRuns.dfy` | anchor store, anchor job, sweep; anchor jobs interleaved with ingest |
| `AnchorProofs.dfy` | which anchored rows an anchored root is linked to |
| `Postgres.dfy` | the begin / lock / read head / insert / commit protocol, and its listing rule |
| `Envelopes.dfy`, `Redaction.dfy`, `ObjectStore.dfy` | envelope checks, redaction policy, the WORM store with a clock |
| `Ingest.dfy`, `IngestRuns.dfy` | one message through the pipeline; whole runs over index and object store |
| `IngestInterleaved.dfy` | deliveries side by side, other calls falling between an object put and its insert |
| `Export.dfy` | the regulator export job |
| `Guarantees.dfy` | results across components |

## How to read it

SHA-256 is a parameter `sha`, any function from byte strings to 32 bytes. Nothing is assumed of it; where a result
needs collision resistance, it either exhibits two different encodings *present in the lists at hand* with equal
hashes, or assumes that the finitely many encodings in the store do not collide. Results that do not care how a row is
encoded take any `RowHash` (a function of the nine hashed fields); the original's is `CanonicalHash(sha)`.

A Go `string` or `[]byte` is a `seq` of bytes, so the model's order on ids is Go's. An instant is an integer of
nanoseconds since 1970; `ZERO_TIME` is the one instant for which `IsZero` holds (year 1, outside the int64 range). The
encoding sees of an instant what `UnixNano` leaves, an int64 that wraps (`WrapInt64`, `WrapAll`); in the int64 range
that is all of it. The clock, the id generator, the JSON library, Unicode lower-casing, the signer and the artifact
renderer are parameters.

Objects that the code updates in place are classes with those fields; each method is tied to a function on values
(`Tables`, `Paging`, `ObjectStore`, `Ingest`), and the run results are about those functions. What the functions mean
is stated without them, by lemmas named `...Meaning` or `...Iff` and by `Reading.ReadCanonical`. Runs are sequences of
steps, so interleavings are explicit. One step is one call under a store's mutex (`Tables`, `AnchorRuns`, `ObjectStore`),
one statement of a transaction (`Postgres`), or one page read (`Paging`); in `IngestRuns` it is a whole delivery, and
`IngestInterleaved` splits a delivery into its put and its insert.

Where the code and its comments or documents disagree, the model follows the code:

- `VerifyChain` says it checks the genesis `prev_hash`; it does not (`internal/chain/chain.go:156-160`). Dropping the
  oldest rows of any chain leaves a chain that verifies with the same root (`SuffixVerifies`), and the tails are
  exactly what does (`VerifiesIffSuffix`, `RemovalPassesIff`). With the missing check only the whole history passes,
  nothing shorter or longer (`GenesisRootBindsWholeHistory`).
- `InsertChained` links to the row with the largest (ts, id), while the documented chain order is (ts, id) order. A
  late event makes an untampered store verify as a gap (`VerifiesIffInOrder`, `UntamperedNeverBroken`), and the next
  anchor marks it although the anchored root says nothing about it (`LateRowIsMarkedUnproven`). An anchored row is
  linked to an anchored root exactly when it was not late (`AnchoredRowProvenIff`), and a store from which the late
  rows have been deleted verifies again, with the same root (`PassesIffOnTimeTail`).
- `AnchorJob.EventCount` is documented as the number of unanchored events when unset; it is 1
  (`internal/chain/chain.go:183-213`), which is that number exactly when all rows but one are anchored
  (`DefaultCountIff`).
- `Sweep` documents a window [from, to]; events use an exclusive `to`, anchors an inclusive one. It reads the
  documented window exactly when no row of the window lies at `to` (`SweptWindowIff`).
- A redelivered event with a payload is documented as deduplicated; while its object is retained the pipeline reports
  a failed put instead (`RedeliveryAgainstObject`). Without retention the object is overwritten under the old row.
- Retention of more than 106751 days overflows a `time.Duration` and ends early (`RetentionHonouredIff`).
- If the index insert fails after the payload was written, a redelivery gets the event into the index exactly when
  the object is no longer locked by then (`RedeliveryAfterFailedInsert`). The redelivery result needs, and states,
  that inserts do not fail.
- `maskString` keeps the first and last *byte* as characters, so masking is idempotent exactly for values with ASCII
  ends (`MaskTwice`, `RedactTwice`).

## Model

| member | source | states |
|---|---|---|
| ByteStrings.LessIff | internal/store/memstore/memstore.go:101-106 | ids are compared at their first difference, byte by byte, a proper prefix coming first |
| Store.KeyLtIff | internal/store/memstore/memstore.go:101-106 | rows are ordered by instant, and at one instant by the first difference of their ids |
| Store.ZeroTimeIsYearOne | internal/event/event.go:61-63 | the instant for which IsZero holds is 1969 calendar years before 1970 |
| Reading.ReadCanonical | internal/chain/chain.go:34-101 | what is hashed reads back, by length prefixes and place value, as id, ts, source_service, actor_id, action, target_type, target_id, payload_hash and prev_hash of the row, in this order |
| Encoding.CanonicalEqualIff | internal/chain/chain.go:34-101 | with texts under 2^32 bytes, two tuples have the same encoding exactly when the eight texts are equal and the instants are the same int64 of nanoseconds |
| Encoding.CanonicalInjective | internal/chain/chain.go:34-101 | with instants in the int64 range too, exactly when all nine fields are equal |
| Encoding.CanonicalAmbiguousAt4GiB | internal/chain/chain.go:80-94 | the length bound is needed: a field of 2^32 bytes can be moved to another field without changing the encoding |
| Encoding.TimeBytesEqualIff | internal/chain/chain.go:97-101 | two instants are encoded alike exactly when they wrap to the same int64, that is, agree modulo 2^64 nanoseconds |
| Encoding.ClashIsCollision | internal/chain/chain.go:34-51 | two tuples that the encoding tells apart and that have one this_hash are exactly a collision of SHA-256 on their encodings |
| Chain.VerifyChain | internal/chain/chain.go:153-171 | ok with the last this_hash exactly for intact lists; otherwise the smallest failing row, a bad hash taking precedence over a bad link |
| Chain.FirstFailureMeaning | internal/chain/chain.go:132-165 | the failing row's hash is not its this_hash or its prev_hash not the one before, and no earlier row fails |
| Chain.RootBindsHistory | internal/chain/chain.go:132-171 | two verified lists with equal roots: the shorter agrees with the tail of the longer on all hashed fields, or two rows clash |
| Chain.SuffixVerifies | internal/chain/chain.go:153-171 | dropping any number of the oldest rows of an intact chain goes unnoticed |
| Chain.VerifiesIffSuffix | internal/chain/chain.go:132-171 | without clashes a list no longer than an intact one verifies with its root exactly when it agrees with its tail |
| Chain.CanonicalVerifiesIffSuffix | internal/chain/chain.go:132-171 | the same for the canonical hash, with no two encodings of the lists colliding, whatever the instants are |
| Chain.RootBindsHistoryOrCollision | internal/chain/chain.go:132-171 | two verified lists with equal roots: the shorter agrees with the tail of the longer, or two encodings of their rows collide under SHA-256 |
| Chain.GenesisRootBindsWholeHistory | internal/chain/chain.go:153-171 | with the documented check of the first prev_hash, and no row hashing to the genesis value, exactly the whole history passes, if it starts at genesis itself: no shorter and no longer list |
| Merkle.MerkleRoot | internal/chain/chain.go:343-366 | the level-by-level loop computes the recursive tree split at the largest power of two below the length; zero hash for no leaves |
| Merkle.NextLevel | internal/chain/chain.go:352-363 | one pass pairs neighbours and promotes an odd last element |
| Merkle.SplitPointIsPowerOfTwo | internal/chain/chain.go:338-366 | the split point is a power of two (with k < n <= 2k: the largest below n) |
| Merkle.TreeMeaning | internal/chain/chain.go:338-366 | a leaf is its own root; otherwise the root hashes the left root followed by the right one, split at the largest power of two below the length |
| Merkle.LevelKeepsRoot | internal/chain/chain.go:350-364 | a pass shortens the list and keeps the root, so a root does not determine the number of leaves |
| Merkle.RootBindsLeaves | internal/chain/chain.go:343-366 | equally long lists of 32-byte leaves with equal roots are equal, or two strings hashed on the way collide |
| Tables.InsertSortedWellFormed | internal/store/memstore/memstore.go:97-106 | adding a row with a new id keeps the table sorted with unique ids and adds exactly that row |
| Tables.FreshRowStored | internal/store/memstore/memstore.go:83-108 | a fresh event is stored with every column and flag as given, but prev_hash, which is the last row's this_hash or 32 zero bytes, and this_hash, which is the hash of that |
| Tables.RowsInTimeOrder | internal/store/memstore/memstore.go:101-106 | rows stand in the order of time, and at one instant in that of their ids |
| Tables.RunIsAppendOnly | internal/store/store.go:105-146 | over every run of chained inserts, holds and marks the rows stay sorted with unique ids and no column of an earlier row changes |
| Tables.CallsAreAppendOnly | internal/store/memstore/memstore.go:58-108 | the same with plain inserts among the calls |
| Tables.MarkCounts | internal/store/memstore/memstore.go:198-211 | marking raises the number of anchored rows by exactly the number returned |
| Tables.NewlyCounts | internal/store/memstore/memstore.go:198-211 | the number returned is that of the unanchored rows at or below the key |
| Sorting.SliceStable | internal/store/memstore/memstore.go:100-106 | the stable sort of the list |
| Sorting.StableSortOrders | internal/store/memstore/memstore.go:100-106 | its result is ordered, for every strict weak order |
| Sorting.StableSortPermutes | internal/store/memstore/memstore.go:100-106 | its result has the same elements |
| Sorting.StableSortKeeps | internal/store/memstore/memstore.go:265-267 | elements of which none is less than another keep their order |
| Sorting.AppendAndSort | internal/store/memstore/memstore.go:99-106 | appending to a sorted list and sorting again moves only the new element, to its place |
| Memstore.AppendedRowMoves | internal/store/memstore/memstore.go:99-106 | the same for the store's ordered list: the place is the number of rows with a smaller key |
| Memstore.EventStore.ValidContents | internal/store/memstore/memstore.go:42-47 | the id map and the ordered list describe one table, sorted with unique ids, whose ids are the map's keys |
| Memstore.EventStore.Place | internal/store/memstore/memstore.go:97-106 | mapping, appending and sorting inserts the row at its key and keeps map and list in step |
| Memstore.EventStore.Insert | internal/store/memstore/memstore.go:58-75 | a fresh id is inserted, a known one changes nothing |
| Memstore.EventStore.InsertChained | internal/store/memstore/memstore.go:83-108 | a fresh event is stored with prev_hash of the current head and this_hash from it; a re-delivery changes nothing |
| Memstore.EventStore.Get | internal/store/memstore/memstore.go:111-120 | the row with the id, if any |
| Memstore.EventStore.List | internal/store/memstore/memstore.go:124-172 | the first rows passing all conditions up to the clamped limit, with a cursor exactly when the page is full |
| Memstore.Skips | internal/store/memstore/memstore.go:134-160 | the chain of tests skips exactly the rows that fail a condition or are not after the cursor |
| Memstore.EventStore.ChainHead | internal/store/memstore/memstore.go:175-183 | the row with the largest key |
| Memstore.EventStore.SetLegalHold | internal/store/memstore/memstore.go:186-195 | only the hold flag of the row with the id changes |
| Memstore.EventStore.MarkAnchored | internal/store/memstore/memstore.go:198-211 | exactly the rows at or below the key become anchored, and the newly anchored ones are counted |
| Arrival.InOrderVerifies | internal/store/memstore/memstore.go:83-108 | if every accepted event arrives above the head, the chain verifies, whatever the hash function |
| Arrival.VerifiesIffInOrder | internal/store/memstore/memstore.go:83-108 | without clashes, the verifier accepts a run's result exactly when every accepted event arrived above the then head |
| Arrival.UntamperedNeverBroken | internal/chain/chain.go:123-147 | over any run the first failure is never a broken hash, only a gap |
| Paging.SelectCounts | internal/store/memstore/memstore.go:132-165 | the selection holds one row for each selected position |
| Paging.ListedIff | internal/store/memstore/memstore.go:132-161 | a row is listed exactly when it is stored, meets each of the seven conditions that is set, and comes after the cursor |
| Paging.PageMeaning | internal/store/memstore/memstore.go:128-171 | page sizes between 1 and 1000, and exactly when each store announces a further page |
| Paging.CursorDrops | internal/store/memstore/memstore.go:155-160 | the cursor of the k-th selected row drops exactly the first k rows |
| Paging.FollowSelectsAllIff | internal/chain/chain.go:267-287 | in a quiet store, for every limit and either cursor rule, the pages concatenate to all rows passing the seven conditions exactly when no row that closes a full page, with more to come, has the zero time |
| Paging.FollowSelectsAll | internal/chain/chain.go:267-287 | in a store without zero times they always do |
| Paging.RulesAgree | internal/store/postgres/postgres.go:248-275 | the full-page rule and the limit-plus-one rule lead to the same rows, in every store |
| Paging.ZeroTimeEndsPagingEarly | internal/chain/chain.go:283-286 | a store whose zero time ends the paging loop early |
| Paging.ScanIsSound | internal/chain/chain.go:267-287 | with rows arriving between pages, a scan has strictly increasing keys, only matching rows and only stored ones |
| Paging.ScanIsComplete | internal/chain/chain.go:267-287 | a scan that ends has seen every matching row that was stored when it began |
| Paging.SeenOnce | internal/chain/chain.go:280-282 | no row occurs twice in a scan |
| Paging.ScanIsPrefix | internal/chain/chain.go:267-287 | if rows arrive only at the end while a scan reads, it reads a first part of what is selected in the end |
| Paging.ArrivalBehindCursorUnseen | internal/store/memstore/memstore.go:155-160 | a row that arrives at or below the cursor of a scan is never read by it |
| Paging.ReadsOfARunGrow | internal/chain/chain.go:267-287 | the stores seen by successive page reads, any calls falling between them, do grow, as the scan results assume, and have no zero time if no call stores one |
| Postgres.FreshInsertIsSerialIff | internal/store/postgres/postgres.go:154-181 | a new row does to the table what sequential InsertChained does exactly when it was linked to the present head |
| Postgres.SerialIffCommitsCurrent | internal/store/postgres/postgres.go:126-185 | any concurrent run leaves in the end, and at every moment, the table of sequential InsertChained calls in commit order, exactly when no row is committed under a head other than the one its transaction read |
| Postgres.ForkIsForever | internal/store/postgres/postgres.go:140-185 | once a row differs from that of the sequential calls, the table is never again theirs |
| Postgres.LockMakesCommitsCurrent | internal/store/postgres/postgres.go:150-165 | the exclusive lock makes every commit current, if each transaction that has its snapshot when it gets the lock finds the head it saw still in place |
| Postgres.LockedCallsAreSerial | internal/store/postgres/postgres.go:140-185 | hence the table is that of sequential calls, at every moment |
| Postgres.SnapshotsUnderLockFindHeads | internal/store/postgres/postgres.go:150-165 | head reads that see every row committed before the lock was taken are enough |
| Postgres.StaleSnapshotForks | internal/store/postgres/postgres.go:147-168 | with a snapshot older than the lock and no other check, two in-order calls both link to the genesis hash |
| Postgres.CallAlone | internal/store/postgres/postgres.go:140-185 | begin, lock, look, insert and commit, undisturbed, do what InsertChained does, for a known id too, and leave neither lock nor transaction behind |
| Postgres.RollbackLeaves | internal/store/postgres/postgres.go:145 | a rolled-back call changes no row and lets the lock go |
| Postgres.List | internal/store/postgres/postgres.go:248-275 | the page and cursor of the limit-plus-one rule |
| Anchoring.AnchorStore.InsertAnchor | internal/store/memstore/memstore.go:239-250 | appends the anchor with its id and time |
| Anchoring.AnchorStore.ListAnchors | internal/store/memstore/memstore.go:253-269 | the stable sort of the anchors in the window, both ends included |
| Anchoring.ListedIsOrdered | internal/store/memstore/memstore.go:252-269 | the listing is oldest first, has exactly the window's anchors, and those of one instant in the order they were stored |
| Anchoring.ListedAnchorIff | internal/store/memstore/memstore.go:253-269 | an anchor is listed exactly when it is stored and in the window, both ends included |
| Anchoring.AnchorJob.SignHead | internal/chain/chain.go:196-224 | the record for the head, or why there is none |
| Anchoring.OutcomeMeaning | internal/chain/chain.go:196-224 | the anchor has the this_hash, id and time of the row with the largest key and a signature over that hash; exactly when there is no row, no 32-byte hash or no signature, there is no anchor |
| Anchoring.AnchorJob.Run | internal/chain/chain.go:196-236 | anchors the head's hash, with a signature over it, under the head's key and marks exactly the rows up to it; earlier failures change neither store |
| Anchoring.DefaultCountIff | internal/chain/chain.go:180-213 | the default count is the number of events newly covered exactly when all rows but one are anchored already |
| Anchoring.CollectWindow | internal/chain/chain.go:265-287 | the paged loop reads exactly the events of the window |
| Anchoring.SweptWindowIff | internal/chain/chain.go:258-278 | that is the documented window, both ends included, exactly when no row of it lies at its end |
| Anchoring.PositionOf | internal/chain/chain.go:295-300 | the one-based position of the first event with the id |
| Anchoring.VerifyWindow | internal/chain/chain.go:288-305 | the report names the smallest failing row by id, position and kind, or gives the root |
| Anchoring.DescribesMeaning | internal/chain/chain.go:288-305 | what the report says: the count, and either the root as text or id, one-based position and kind of the first failing row |
| Anchoring.CheckAnchors | internal/chain/chain.go:307-323 | counts the anchors whose event is missing or has another hash |
| Anchoring.AcceptedIff | internal/chain/chain.go:313-321 | an anchor with a 32-byte root is accepted exactly when some row has its event's id and its root |
| Anchoring.MismatchesCount | internal/chain/chain.go:312-323 | the count is the number of listed anchors that are not accepted |
| Anchoring.ForgedRowIsCounted | internal/chain/chain.go:307-323 | a sweep whose window has an anchor that names a row with another hash reports a mismatch |
| Anchoring.SignRoot | internal/chain/chain.go:325-332 | exactly a verified root is signed, if the signer signs |
| Anchoring.Sweep | internal/chain/chain.go:263-334 | the report over the window's events and anchors together |
| Anchoring.AnchorWithoutEventMismatches | internal/chain/chain.go:314-317 | an anchor without a last event is counted as a mismatch in a store without the empty id |
| AnchorRuns.EveryRunIsSound | internal/chain/chain.go:196-236 | under every interleaving with ingest: each anchored row lies at or below a persisted anchor's last event, each anchor names a stored row with its root, and the marking results sum to the number of anchored rows |
| AnchorRuns.JobAnchorsNeverMismatch | internal/chain/chain.go:307-323 | an anchor written by a job is not a mismatch in any later state |
| AnchorProofs.AnchoredRowProvenIff | internal/chain/chain.go:191-236 | under every interleaving, without clashes, an anchored row is reached along prev_hash links from a row carrying a persisted root exactly when it arrived above the head it found |
| AnchorProofs.OrphanIffLate | internal/store/memstore/memstore.go:83-108 | the rows that no row continues, the last one apart, are exactly those that arrived late |
| AnchorProofs.AnchoredRowIsProven | internal/chain/chain.go:191-195 | in in-order runs, whatever the hash function, the links lead through every row between |
| AnchorProofs.LateRowIsMarkedUnproven | internal/chain/chain.go:227-234 | a run in which a late row is marked by an anchor whose history ends at the genesis hash without it |
| AnchorRuns.OneRound | internal/chain/chain.go:196-236 | undisturbed, the sub-steps leave the outcome of one Run call: the same record, the same marks, the same count, and nothing after a failure |
| Envelopes.Validate | internal/event/event.go:54-83 | accepts exactly envelopes with all required fields and a non-zero time |
| Envelopes.FirstMissing | internal/event/event.go:54-83 | the field reported is the first missing one in the order of the envelope |
| Envelopes.HashTextMeaning | internal/event/event.go:107-113 | a hash is written as sha256: and 64 lower-case digits, two a byte, the high one first |
| Envelopes.HashRoundTrip | internal/event/event.go:157-175 | decoding an encoded hash gives it back |
| Envelopes.DecodeHashAccepts | internal/event/event.go:157-167 | exactly 64 hex digits of either case, with or without prefix, are read as a hash |
| Envelopes.HashCanonical | internal/event/event.go:157-175 | reading any accepted hash text and writing it again gives the prefixed lower-case form of its digits |
| Envelopes.ProducerHashPasses | internal/ingest/ingest.go:119-124 | a producer's hash passes exactly as the lower-case text with or without prefix |
| Redaction.Apply | internal/redaction/redaction.go:65-109 | for every visiting order of the keys the result is the pointwise one, and unchanged bodies come back as they were |
| Redaction.ApplyRules | internal/redaction/redaction.go:79-99 | one key: the first rule naming it decides, the rest are not looked at |
| Redaction.Matching | internal/redaction/redaction.go:113-125 | the rules for the pair, wildcards included, in policy order |
| Redaction.DecidingIsFirst | internal/redaction/redaction.go:80-98 | the deciding transform is that of the first rule naming the field, and exists exactly when some rule does |
| Redaction.FirstRuleDecides | internal/redaction/redaction.go:80-152 | a field is removed exactly under drop, and otherwise hashed, masked or kept as its first rule says |
| Redaction.MatchingIff | internal/redaction/redaction.go:113-125 | the rules for a pair are those that name it or the wildcard on either side |
| Redaction.PolicyOrderDecides | internal/redaction/redaction.go:80-98 | of the rules for the pair, the first in policy order that names a field decides it |
| Redaction.ApplyOutcomeIff | internal/redaction/redaction.go:65-109 | the body is re-encoded exactly when it decodes and some field of it changes, and comes back as it was otherwise; only an undecodable body with rules for the pair is an error |
| Redaction.MaskShows | internal/redaction/redaction.go:168-173 | masking shows first and last byte as characters with a star for each byte between, and nothing of values up to two bytes |
| Redaction.OtherFieldsUntouched | internal/redaction/redaction.go:61-64 | a field no rule names is untouched, and none is invented |
| Redaction.MaskTwice | internal/redaction/redaction.go:168-173 | masking is idempotent on a value exactly when it is short or has ASCII ends |
| Redaction.RedactTwice | internal/redaction/redaction.go:78-152 | a mask-and-drop policy is idempotent on an object exactly when all its masked values are such |
| ObjectStore.Fake.Put | internal/s3/s3.go:91-117 | refused exactly while an object under the path is retained, otherwise stored |
| ObjectStore.Fake.Get | internal/s3/s3.go:120-128 | the stored bytes, if any |
| ObjectStore.Fake.Delete | internal/s3/s3.go:156-166 | removes exactly an existing unretained object |
| ObjectStore.Fake.ApplyTransition | internal/s3/s3.go:182-196 | changes exactly the storage class of the old enough objects of the class, and counts them |
| ObjectStore.WriteOnce | internal/s3/s3.go:69-72 | no sequence of operations changes a locked object beyond its storage class: for ever under hold, until creation plus days otherwise |
| ObjectStore.PutMeaning | internal/s3/s3.go:91-117 | a put leaves the object with its options and time, or what was there while that is retained, and no other object changes |
| ObjectStore.DeleteMeaning | internal/s3/s3.go:156-166 | after a delete the object is there exactly if it was and is retained, and no other object changes |
| ObjectStore.TransitionMeaning | internal/s3/s3.go:182-196 | an object of the class moves exactly when its age has reached the given days |
| ObjectStore.RetainedIff | internal/s3/s3.go:168-177 | retained means on hold, or within a positive number of whole days from creation |
| ObjectStore.RetentionHonouredIff | internal/s3/s3.go:168-177 | the lock lasts the documented period exactly for at most 106751 days |
| Ingest.Pipeline.IngestMessage | internal/ingest/ingest.go:103-208 | outcome, index, objects and dead letters after one message |
| Ingest.RefusedIff | internal/ingest/ingest.go:103-156 | exactly when a message is turned away before anything is written, for each of the four reasons |
| Ingest.ReadyMeaning | internal/ingest/ingest.go:115-149 | an accepted message is redacted exactly when the redactor answers with a change for its service, action and payload, and then that is its body |
| Ingest.RowMeaning | internal/ingest/ingest.go:178-191 | the row submitted, column by column |
| Ingest.ObjectMeaning | internal/ingest/ingest.go:160-176 | the put is refused exactly while an object is retained under the id; otherwise that object has the body and the configured class, period and hold |
| Ingest.InsertMeaning | internal/ingest/ingest.go:194-207 | after the object exactly one of insert failure, duplicate and a new linked row |
| Ingest.Pipeline.StoreMessage | internal/ingest/ingest.go:160-207 | object first, then the chained insert; a refused put leaves the index alone |
| Ingest.Pipeline.PutPayload | internal/ingest/ingest.go:160-176 | the payload is written under the event id exactly when a store, a bucket and a body are there |
| Ingest.Pipeline.Reject | internal/ingest/ingest.go:221-234 | the message and its reason reach the sink, if one is configured |
| IngestRuns.Conservation | internal/ingest/ingest.go:103-234 | over any run the index has one row per inserted message, and the sink exactly the messages turned away for decoding, hash mismatch, redaction or hash format, in order |
| IngestRuns.NewRowCommits | internal/ingest/ingest.go:178-196 | a new row hashes the envelope's fields, the payload hash and the head it found |
| IngestRuns.IndexIsBacked | internal/ingest/ingest.go:160-191 | with retention in force and any policy changes, each row with a payload_ref has an object written by the delivery that inserted the row |
| IngestRuns.WrittenBody | internal/ingest/ingest.go:115-149 | what is written is the payload, or its redaction, and the recorded hash is the payload's |
| IngestRuns.PayloadsAreBound | internal/ingest/ingest.go:115-191 | each such object is the redaction, under the policy of the delivery that inserted the row, of a body hashing to payload_hash; an unredacted object itself hashes to it |
| IngestInterleaved.ArriveAndFinish | internal/ingest/ingest.go:160-207 | undisturbed, the put and the insert of a delivery do what the whole delivery does |
| IngestInterleaved.InterleavedIngestIsARun | internal/ingest/ingest.go:194-207 | however deliveries interleave, the index is the result of their InsertChained calls in the order made |
| IngestInterleaved.InterleavedPayloadsAreBound | internal/ingest/ingest.go:115-191 | however they interleave, with retention in force, each payload_ref leads to an object bound to the row's payload_hash under the policy of the delivery that inserted the row |
| IngestRuns.RedeliveryAgainstObject | internal/ingest/ingest.go:160-205 | an indexed event delivered again keeps its object's bytes exactly when the object is retained or the bytes are the same, with the outcome given |
| IngestRuns.IndexDependsOnValues | internal/ingest/ingest.go:160-205 | for one policy and no insert failures the index is a function of the message bytes, and an object under an id implies the id is indexed |
| IngestRuns.RedeliveryIsHarmless | internal/ingest/ingest.go:8-11 | a stream and the same stream without repeated messages end in the same index and chain |
| IngestRuns.OnceEach | internal/ingest/ingest.go:8-11 | the stream without repeats has every message once and no other |
| IngestRuns.FailedDelivery | internal/ingest/ingest.go:194-201 | a delivery whose insert fails adds no row and is rejected |
| IngestRuns.RedeliveryAfterFailedInsert | internal/ingest/ingest.go:164-201 | after a failed insert a redelivery is inserted exactly when the object is no longer locked, and is otherwise refused without effect |
| IngestRuns.IngestIsARun | internal/ingest/ingest.go:194-207 | the index is the result of a run of chained inserts, so the chain results apply to it |
| IngestRuns.RowsAreValid | internal/event/event.go:54-83 | no ingested row has the zero time or the empty id |
| IngestRuns.IngestedTableIsValid | internal/event/event.go:54-83 | as paging and the mismatch of anchors without event need |
| Export.ExportJobStore.UpdateJob | internal/store/memstore/memstore.go:323-339 | an existing job gets the result, keeping its completion time if none is given; a missing one is reported |
| Export.FailureMeaning | internal/export/export.go:64-149 | after a failure the job's record is failed with nothing counted or stored, and other jobs keep theirs |
| Export.Runner.Collect | internal/export/export.go:68-93 | the paging loop reads exactly the matching rows, its oversized limit notwithstanding |
| Export.Runner.ChainRoot | internal/export/export.go:110-115 | the verified root of the rows, or the zero hash when they do not chain |
| Export.Runner.AnchorRoot | internal/export/export.go:117-133 | one anchor without last event if the signer signs, none otherwise |
| Export.Runner.Publish | internal/export/export.go:142-154 | artifact and COMPLETE record, or, exactly while a retained object is under the key, neither and FAILED |
| Export.Runner.Finish | internal/export/export.go:110-154 | root, anchor and publication of the rows in hand |
| Export.Runner.RunJob | internal/export/export.go:50-155 | fails exactly on a malformed query, an unsupported format or a retained object under its key, leaving no artifact; otherwise a COMPLETE record counts the matching rows and has their root; a job without a record is reported missing although its artifact is written; a signed root is anchored even if the put then fails |
| Export.Runner.CompletedMeaning | internal/export/export.go:110-155 | key, bytes, lock and record of a completed export |
| Export.Runner.AnchorsAddedMeaning | internal/export/export.go:117-133 | the anchor of an export has a signature over its root, the row count and no event |
| Guarantees.SweepAcceptsIffInOrder | internal/chain/chain.go:258-305 | a full sweep of an untampered store finds it intact exactly when no accepted event was late, and otherwise a gap |
| Guarantees.OnTimeIsSpine | internal/store/memstore/memstore.go:83-108 | whatever arrives late, the rows that were on time form an intact chain from genesis to the head |
| Guarantees.PassesIffOnTimeTail | internal/chain/chain.go:149-171 | without clashes, the verifier accepts in the place of an untampered store exactly the tails of that chain |
| Guarantees.DeletionPassesIff | internal/chain/chain.go:149-171 | rows deleted from an untampered store, or rearranged, are missed exactly when those that remain are the newest that were on time; in a store filled in order, the newest rows |
| Guarantees.SweepReadsIntactPart | internal/chain/chain.go:263-288 | if rows only arrive at the end while a sweep reads, it gathers a first part of the window, intact if the window is |
| Guarantees.SweepBesideIngestAccepts | internal/chain/chain.go:263-288 | a full sweep beside in-order ingest gathers an intact first part of the chain, with every row present at its start if it ends |
| Guarantees.AnchorBindsHistory | internal/chain/chain.go:307-323 | a table that verifies in the place of an intact one, and that an anchor does not contradict, agrees with it below the anchored row on all of the shorter list, or two rows clash |
| Tampering.ReplacementPassesIff | internal/chain/chain.go:132-171 | without clashes, any list in the place of an intact one passes exactly when it is a tail of it or extends it at its old end by rows that chain up |
| Tampering.TamperingPassesIff | internal/chain/chain.go:132-171 | the same for the canonical hash |
| Tampering.TamperingIsDetected | internal/chain/chain.go:149-171 | changing a hashed column of an intact chain breaks it, changes its root, or needs a SHA-256 collision |
| Tampering.RemovalPassesIff | internal/chain/chain.go:153-171 | removing rows, or putting some in another order, goes unnoticed exactly when the newest remain in their old order |

## Left out

- HTTP, JWT, metrics, tracing, configuration, CLI and `main`: plumbing without invariants of its own.
- `handleVerifyEvent` in internal/api: one page of the listing with an exclusive bound; adds little to the paging results.
- AWS, Kafka, KMS and pgx adapters: foreign code. Signatures are opaque, and `Sweep` does not check them, so nothing is claimed of what they prove.
- JSON, CSV and RFC 3339 text: abstract codecs. Re-encoding a decoded value cannot fail here, so the marshalling error branches are absent; cursor strings are not parsed.
- The redaction policy parser and file reload: rules are given parsed; a reload appears as a different policy from one message to the next.
- SQL: the query answer and the visibility of committed rows are stated assumptions. Whether the database rejects a transaction with a stale snapshot (serializable conflict detection) is its business; both cases are stated.
- `TamperForTest`: rows are constants of their object here; tampering is two different lists in the binding results.
- Context cancellation and read errors of object bodies.
- Postgres column types: `ts` is TIMESTAMPTZ, in microseconds, while this_hash covers nanoseconds. Rows are stored exactly here; in the database a row whose time is not whole microseconds reads back changed.
- Anchoring.Sweep: does not model the reason text, one fixed sentence for each failing status, nor calls that fall between its page reads; those are ScanIsSound, ScanIsComplete, SweepReadsIntactPart and SweepBesideIngestAccepts.
- Anchoring.CollectWindow: does not model calls that fall between its page reads; see the scan results.
- Guarantees.SweepAcceptsIffInOrder: is about a store at rest; beside ingest a late row behind the cursor is not read (ArrivalBehindCursorUnseen).
- Export.Runner.Collect: does not model calls that fall between its page reads; see the scan results.
- Postgres.StaleSnapshotForks: shows the fork for a run without conflict detection; it does not say that Postgres permits that run.
- Export.Runner.RunJob: does not model reads by other calls between its pages; the interleaved case is ScanIsSound and ScanIsComplete.
- Ingest.Pipeline.IngestMessage: is over the in-memory store, whose insert cannot fail; failing inserts appear in the run results as a flag of the delivery.
- ObjectStore objects are values in a map: no other reference to them exists in the original.
