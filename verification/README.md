# Verified model of mod_auth_openidc's caches, cookies, metrics and logging

mod_auth_openidc is an Apache module that makes a web server an OpenID Connect relying party. This
project models, in Dafny, the parts of it that carry state of their own, and proves what they keep:

| files | what they model |
|---|---|
| `ShmSpec`, `ShmTable`, `ShmCache`, `ShmLru`, `ShmTraces`, `ShmLayout` | the shared-memory cache: slots threaded by indexes into hash chains and a free list, expiry, LRU eviction, the validator, the segment's 64-bit layout |
| `FileFormat`, `FileStore`, `FileStoreSafety`, `FileStoreReads`, `FileStoreFailures` | the file cache as a protocol of interleaving writers, readers and cleaners |
| `RedisIdle`, `RedisPool`, `RedisExec` | Redis connections: the idle pool and its owners, and the retry loop of the serialized mode |
| `CacheKeys`, `CacheFrontend` | key hashing, encryption and passphrase rotation in front of any backend |
| `CookieHeader`, `ChunkedCookies`, `ChunkedCookieRuns` | reading one cookie, and values split over several cookies |
| `StatePruning`, `StateCookies` | cleaning up state cookies: a header scan that builds and prunes a linked list |
| `SessionInactivity` | the throttled extension of a session's inactivity timeout |
| `UrlCodec`, `LogRedaction`, `QuotedPieces`, `MemberRedaction`, `JsonTexts`, `JsonRedaction`, `FormRedaction`, `FormSecrets` | percent-encoding; masking secrets in JSON text and form bodies for the log |
| `MetricsInts`, `MetricsCounters`, `MetricsRuns`, `MetricsTimings` | counters and timing histograms, merged from all processes into one document |
| `Options`, `Arithmetic`, `FiniteSets`, `CStrings`, `Decimal`, `Splitting` | what the others share |

How to read it. Code that updates a structure in place is a class or an array method whose
postcondition ties the new state to a specification on values; protocols are state machines over
their steps; the results about whole runs are lemmas about those specifications. Locks, clocks,
random strings, I/O errors and the answers of other programs are parameters, so the results hold for
all of them ("Left out" names the exceptions). C strings are sequences of one-byte characters without
the terminator. Cell 0 of the slot array stands for no slot, as index 0 does in the segment.

To check the whole project: `dafny verify dfyconfig.toml`.

## Main results

- Shared memory: every operation refines a bounded map and keeps each slot on exactly one list
  (`Segment.Get`, `Segment.Set`); traces of calls are exactly LRU (`ShmTraces.Trace`, `ShmLru.ExactLru`);
  the validator decides soundness of arbitrary links (`Segment.Validate`); the 64-bit layout is exact
  (`SegmentSizeIsExact`, `SlotsFitSegment`, `SlotsDisjoint`).
- Files: in every interleaving reads are right and hits are whole (`ReadsAreRight`, `ReadsFromTheLog`,
  `HitsAreWhole`), a failure is never made up (`FailuresAreSteps`), and what was stored is found
  (`StoredIsRead`) until it is removed (`DeleteRemoves`, `UnlinkRemoves`).
- Redis: connections have one owner and none leaks (`ConnectionsAreOwned`, `NothingLeaks`) or is given up
  without need (`FreedIff`, `HealthyIsReused`); the retry loop keeps the mutex and all replies straight and
  brings the string that the server holds (`Context.Get`, `Context.Set`).
- Cookies: any header is read as its parts say (`CookieFoundIff`); chunked values survive any sequence of
  stores (`ChunkedCookieRoundTrip`); cleaning deletes exactly the dead state cookies (`StaleIff`,
  `UnexpiredAreKept`) and pruning keeps exactly the youngest (`CleanExpired`, `PruningKeepsTheYoungest`).
- Sessions: activity within interval - slack keeps a session alive, and writes are rare
  (`NewSession`, `WritesAreApart`).
- The cache front end gives back what was last set, without encryption (`PlainReadsBack`) and with it, where
  a rotation is an overlay of two layers (`RotationIsOverlay`).
- Encoding and logs: decoding undoes encoding (`DecodeEncode`). For every JSON text, with any white space and
  any escapes, the log is given exactly (`JsonIsLogged`): it is the text with the string values of exactly the
  sensitive members starred out if and only if each member is spelled as `FieldOk` says
  (`JsonIsCensoredIff`), and then texts are logged alike exactly if they are the same but for these values
  (`JsonSecretsDoNotShow`). Two form bodies are logged alike exactly if they are the same but for the values
  of listed parameters (`BodySecretsDoNotShow`). The scanners stay within their buffers.
- Metrics: counts are conserved (`CountsAreConserved`), histograms are exact (`SharedHistogramIsExact`).

Where the code does less than one may expect, the failing input is given and the exact condition proved:

- a short value or a clear, stored in the same response after a long value for which the request carried
  no counter, does not take effect - and in no other case is a second store lost
  (`SecondStoreIsLost`, `TwoStoresInOneResponse`);
- a counter used both with and without a value loses counts, exactly when a flush finds or makes a node of
  the other kind (`MixedUseLosesACount`, `FlushShowsIff`, `NothingIsLostIff`);
- a cleaner can unlink an entry that has not expired in three ways only: reading its header failed, the inode
  number of the file it inspected was given to that entry's file, or the entry was stored between the
  cleaner's last look at the name and the removal (`ReadErrorCondemnsTheLiving`, `ReuseCondemnsTheLiving`,
  `LateStoreCondemnsTheLiving`, `CleanerSparesTheLiving`); it condemns the entry it inspects exactly if that
  has expired or could not be read (`CondemnedIff`);
- a temporary file stays behind exactly when its removal fails (`TempStaysBehind`, `TempsThatRemain`);
- a state-cookie limit of 0, documented as unlimited, deletes all state cookies with delete-oldest on, exactly
  if there are any (`ZeroIsNotUnlimited`);
- a delete after a passphrase rotation leaves the value of the previous passphrase, if there is one
  (`DeleteAfterRotation`, `DeletedValueReappears`);
- the string value of a sensitive JSON member is starred out completely if and only if it contains no escaped
  quote, no line break stands between the name and the value, and the name is spelled without escapes;
  otherwise all of it shows, or what is behind its first escaped quote (`SecretIsHiddenIff`,
  `EscapedQuoteShowsTheRest`, `LineBreakShowsTheValue`, `EscapedNameShowsTheValue`);
- a JSON member is masked although it is not sensitive exactly if its name ends, behind an escaped quote, in a
  sensitive name (`FieldOkIff`, `EndOfNameMasksTheValue`);
- the value of a form parameter whose decoded name is sensitive is masked if and only if the name is not
  percent-encoded (`SecretParamIff`, `EncodedNameShowsTheValue`);
- in text that is not JSON the passes one after the other can miss a value that a single one would mask: they
  mask exactly what each member's pass takes for a value if and only if none of these is called like a member whose pass comes later and followed by what
  may follow that member's name (`ValueCalledLikeAMember`, `LoggedIff`).

## Model

| member | source | states |
|---|---|---|
| ShmCache.Segment.Get | src/cache/shm.c:413-449 | a hit iff the key is stored and unexpired, and it touches only that entry; an expired entry, and nothing else, is removed; ownership of all slots is kept; failures change nothing |
| ShmCache.Segment.Set | src/cache/shm.c:544-614 | a store is refused exactly if the key has 512 characters or more, the value does not fit an entry less 576 bytes, or locking fails; otherwise it is a bounded-map update: into a full table exactly one entry goes, an expired one if any, else a least recently used one; a delete removes only its key; a value that fits is never refused for want of a slot |
| ShmSpec.LookupMeans | src/cache/shm.c:413-449 | what the map specification of a lookup comes to: a live entry is found and touched, the key is gone otherwise, and nothing else changes |
| ShmSpec.StoreMeans | src/cache/shm.c:473-614 | what that of a store comes to: the entry is in, no other changes, and at most one goes, when the key is new and the cache full: an expired one if there is any, else one used longest ago |
| ShmCache.Segment.WarningIsDueIff | src/cache/shm.c:495-504 | a pressure warning is due exactly if the victim was used within the hour and none was given within the minute; the age is in whole seconds |
| ShmCache.Segment.Find | src/cache/shm.c:399-408 | searching the one bucket chain finds a key exactly if it is stored anywhere, with its predecessor |
| ShmCache.Segment.Evict | src/cache/shm.c:473-510 | a table with entries always yields a victim and unlinks it: the first expired slot, else the first with minimal access; the pressure age is reported only for LRU victims and throttled |
| ShmCache.Segment.ChooseVictim | src/cache/shm.c:475-492 | one pass finds the first expired and the first least recently used slot, and reports none only if no slot is occupied |
| ShmCache.Segment.Unlink | src/cache/shm.c:454-470 | unlinking an occupied slot by its index always succeeds and drops exactly its key |
| ShmCache.Segment.SlotFree | src/cache/shm.c:207-212 | an unlinked slot returns to the free list and the ownership invariant is whole again |
| ShmCache.Segment.EntryInsert | src/cache/shm.c:520-529 | an owned slot becomes the head of its key's bucket chain and the map gains exactly that entry |
| ShmCache.Segment.Walk | src/cache/shm.c:399-408 | following links visits the chain's slots in order and stops at the first with the key |
| ShmCache.Segment.WalkTo | src/cache/shm.c:454-470 | a slot is found by index exactly if it is on the chain, with its predecessor |
| ShmCache.Segment.Validate | src/cache/shm.c:214-280 | on arbitrary link contents, cyclic or out of range, the validator ends and returns TRUE exactly if the locks work and the lists partition all slots with correct membership |
| ShmCache.Segment.ValidateChain | src/cache/shm.c:214-247 | one list is walked in at most as many steps as there are unvisited slots; a refusal means that no partition exists |
| ShmCache.Segment.ValidateOwnership | src/cache/shm.c:249-259 | TRUE exactly if no slot is orphaned |
| ShmCache.Segment.constructor | src/cache/shm.c:340-347 | the fresh segment owns every slot through the free list and stores nothing |
| ShmCache.PostConfig | src/cache/shm.c:294-362 | a segment is made exactly if its exact size fits and the system provides memory, random key and mutex; it has one slot per configured entry and the smallest power of two of buckets |
| ShmTable.UnlinkKeepsPartition | src/cache/shm.c:434-443 | taking a slot off any list at any position leaves every other slot on exactly one list |
| ShmTable.PushKeepsPartition | src/cache/shm.c:520-529 | pushing an unowned slot on the list where it belongs restores the partition |
| ShmTable.FullIffNoFreeSlot | src/cache/shm.c:576-609 | the map never outgrows the table, and is full exactly if the free list is empty |
| ShmTable.NextStepIsSound | src/cache/shm.c:214-247 | if any partition exists, the walk's next slot is in range, unvisited and belongs to this list |
| ShmTable.SoundIffNoOrphan | src/cache/shm.c:249-259 | once all lists were walked without complaint, the segment is sound exactly if no slot was missed |
| ShmLru.ExactLru | src/cache/shm.c:413-614 | over every run with increasing times and no expiry: a key is resident iff it was used and fewer than nslots distinct other keys were used since; it holds its last stored value; the size is the smaller of nslots and the number of used keys |
| ShmTraces.Trace | src/cache/shm.c:413-614 | carrying out any trace of stores and lookups on a fresh segment makes such a run: its final contents are exactly what LRU prescribes |
| ShmLayout.BucketCount | src/cache/shm.c:303-310 | doubling stops at the smallest power of two that is at least the number of slots, without wrapping |
| ShmLayout.MaskIsMod | src/cache/shm.c:425 | masking with a power of two minus one is the remainder modulo it |
| ShmLayout.SegmentSizeIsExact | src/cache/shm.c:120-135 | the 64-bit computation with its checks equals the size over the integers, or refuses, exactly when that does not fit |
| ShmLayout.SizeInNumbers | src/cache/shm.c:101-135 | the size and its limit in numbers |
| ShmLayout.SlotsFitSegment | src/cache/shm.c:101-118 | wherever the segment is mapped, header, buckets and every slot lie inside it, slots 64-byte aligned |
| ShmLayout.SlotsDisjoint | src/cache/shm.c:105-118 | no two slots overlap |
| ShmLayout.AdmittedValueFits | src/cache/shm.c:556-567 | values are admitted exactly if they are shorter than an entry less its 576 bytes, and then they and admitted keys fit their fields with the terminating NUL |
| FileStoreSafety.ReadsAreRight | src/cache/file.c:160-259 | in every interleaving a read's outcome is what the cache held under its key when it looked up (or opened) the file, judged at its expiry check, or a reported I/O error, or a miss because looking up or opening the file failed |
| FileStoreSafety.HitsAreWhole | src/cache/file.c:160-259 | a hit is the complete value of the latest rename for that very key, with no removal since, unexpired at the header check |
| FileStoreSafety.ReadsFromTheLog | src/cache/file.c:160-259 | a read without errors, from the events alone: the value last stored under the name if it has not expired and is no longer than 16 MiB with its NUL; a failure exactly if it is too long; else a miss |
| FileStoreReads.FailuresAreSteps | src/cache/file.c:160-259 | a read is marked as failed only if a look-up, an open or a read of it failed |
| FileStoreReads.FailuresEndTheRead | src/cache/file.c:160-259 | a failed look-up or open is a miss at once, a failed read an error |
| FileStoreReads.StoredIsRead | src/cache/file.c:160-259 | after any run, a read of its own of a stored, fitting and unexpired entry comes to its end and finds the value |
| FileStoreSafety.DeleteRemoves | src/cache/file.c:453-459 | a delete removes the entry of its key, from the directory and from what the cache holds, and no other |
| FileStoreSafety.UnlinkRemoves | src/cache/file.c:386-390 | so does a cleaner with the name it comes to unlink |
| FileStoreSafety.RemovesIff | src/cache/file.c:380-384 | a cleaner that has condemned a file comes to unlink its name exactly if that still stands for a file with the same number, or files cannot be told apart |
| FileStoreSafety.StoredIffReported | src/cache/file.c:436-514 | a set that reports success has put its entry in place exactly once, any other one not at all |
| FileStoreSafety.CondemnedIff | src/cache/file.c:358-378 | in every run, a cleaner that inspects a complete cache file condemns it exactly if its entry has expired or reading the header failed |
| FileStoreSafety.CleanerSparesTheLiving | src/cache/file.c:316-391 | what a cleaner is about to unlink has expired, or could not be read, or was stored after its last look at the name, or lies in a later file to which the system gave the number of the inspected one |
| FileStoreFailures.ReadErrorCondemnsTheLiving | src/cache/file.c:358-390 | a run in which a failed read of the header leads a cleaner to an entry that lives on |
| FileStoreFailures.LateStoreCondemnsTheLiving | src/cache/file.c:380-390 | a run in which an entry is stored between the comparison and the removal, and is about to be unlinked |
| FileStoreFailures.ReuseCondemnsTheLiving | src/cache/file.c:316-391 | a run in which a number is reused and an entry that lives on is about to be unlinked |
| FileStoreSafety.TempsThatRemain | src/cache/file.c:436-514 | a temporary file is there exactly if its writer is at work, or ended with a failed removal, and nobody else removed it; all else in the directory is exactly the entries of the cache |
| FileStoreFailures.TempStaysBehind | src/cache/file.c:436-514 | a run in which a write fails and then the removal of the temporary file, which stays |
| FileStoreSafety.StepKeeps | src/cache/file.c:160-514 | every step of every writer, reader and cleaner keeps the invariant that files under cache names are complete and never written again |
| FileFormat.FileNameInjective | src/cache/file.c:84-94 | distinct keys have distinct cache files, within a section and across them |
| FileFormat.FileNameIsPlain | src/cache/file.c:84-94 | a cache file's name contains no slash |
| FileFormat.RecordReadsBack | src/cache/file.c:477-492 | header and value written for an entry are read back as that length, expiry and value |
| UrlCodec.UrlEncode | src/http.c:72-100 | the encoder writes the encoding and its NUL into a buffer of three times the input plus one |
| UrlCodec.UrlDecode | src/http.c:102-155 | the decoder writes the decoding into a buffer no longer than its input, for malformed input too |
| UrlCodec.DecodeEncode | src/http.c:72-155 | decoding undoes encoding for every NUL-free byte string, with at most threefold growth |
| UrlCodec.EncodeInjective | src/http.c:72-100 | distinct strings have distinct encodings |
| UrlCodec.EncodedAlphabet | src/http.c:72-100 | an encoded string has only unreserved characters and '%' |
| UrlCodec.EncodedBytes | src/http.c:72-100 | which bytes are kept, and how each other one is written |
| UrlCodec.EncodedIsFileName | src/http.c:72-100 | an encoded string contains neither slash nor NUL |
| UrlCodec.EscapesDecode | src/http.c:102-155 | every escape is decoded, with digits in either case |
| UrlCodec.OthersAreCopied | src/http.c:102-155 | a malformed escape is copied, a plus sign is a space, all else is kept |
| RedisPool.ConnectionsAreOwned | src/cache/redis.c:353-503 | in every interleaving of requests each open connection is owned by the idle pool or by exactly one request, the pool holds at most 16, and none is used or freed after being freed |
| RedisPool.NothingLeaks | src/cache/redis.c:353-719 | after all requests have ended and destroy has run every connection ever opened was freed, once |
| RedisPool.StepKeeps | src/cache/redis.c:353-503 | every step keeps ownership |
| RedisPool.FreedIff | src/cache/redis.c:353-503 | a connection is freed exactly if it broke, could not be set up, was idle when another one broke or at the end, or could not be put back |
| RedisPool.IdleAfter | src/cache/redis.c:353-503 | the idle ones change only when the last is taken, a healthy one is put back for which there is room, or all are dropped |
| RedisPool.HealthyIsReused | src/cache/redis.c:430-503 | a request keeps its own healthy connection and opens no other |
| RedisPool.NoneIsReplaced | src/cache/redis.c:430-503 | without a usable one it looks for an idle one and then opens one, which is its own |
| RedisIdle.IdlePool.CheckOut | src/cache/redis.c:447-452 | the connection put back last is taken out |
| RedisIdle.IdlePool.PutBack | src/cache/redis.c:360-366 | a connection is kept exactly if there is room |
| RedisIdle.IdlePool.Drain | src/cache/redis.c:465-473 | exactly the idle connections are freed |
| RedisExec.Context.Exec | src/cache/redis.c:538-589 | at most max-tries connects and commands; only NULL or a non-error reply is returned, every other reply is freed once; it gives up only when tries are used up or the mutex is not regained, and the caller learns whether it still holds it; a shared connection that failed last is closed |
| RedisExec.Context.Get | src/cache/redis.c:594-650 | never returns with the mutex held nor unlocks it when not held; of the first command that got through a NIL reply is a miss, a string of the right length the value, and any other a failure; all replies are freed once |
| RedisExec.Context.Set | src/cache/redis.c:655-698 | the same for stores and deletes: TRUE exactly if a command got through |
| RedisExec.Context.Backoff | src/cache/redis.c:524-532 | the serialized mutex is given up and taken again, and held afterwards exactly if that succeeded |
| CacheFrontend.Cache.Get | src/cache/common.c:339-407 | a read is the two-layer lookup, with its failures |
| CacheFrontend.Cache.Set | src/cache/common.c:412-457 | a store or delete updates one backend entry under the current passphrase, unless the key, the encryption or the backend fails |
| CacheFrontend.PlainReadsBack | src/cache/common.c:339-457 | without encryption, after any run on an empty cache, a read of any key, short or of 512 characters and more, gives what was last set |
| CacheFrontend.KeysInUse | src/cache/common.c:309-325 | without encryption keys below 512 characters are used as they are and others hashed; with it all are hashed behind the passphrase and a colon |
| CacheFrontend.LookupSucceedsIff | src/cache/common.c:339-407 | exactly when a read reports success: the passphrase is there, the backend works on the tries that are made, and what is found opens |
| CacheFrontend.UpdateSucceedsIff | src/cache/common.c:412-457 | exactly when a store or delete does; otherwise nothing changes |
| CacheFrontend.LayersApart | src/cache/common.c:290-324 | with ':'-free passphrases the keys of two layers never coincide |
| CacheFrontend.UpdateTouchesOneEntry | src/cache/common.c:412-457 | a store or delete changes only the current layer's entry for its key |
| CacheFrontend.RotationIsOverlay | src/cache/common.c:339-457 | for any runs before and after a rotation a read gives the value last set under the new passphrase, else the one last set under the old |
| CacheFrontend.DeleteAfterRotation | src/cache/common.c:412-457 | after a rotation a deleted key reads as absent exactly if the previous layer held nothing under it |
| CacheFrontend.DeletedValueReappears | src/cache/common.c:412-457 | a concrete run in which a deleted value is read again |
| CookieHeader.GetCookie | src/http.c:1393-1433 | the value of the first token that is this cookie |
| CookieHeader.CookieFoundIff | src/http.c:1393-1433 | for any header: the value of the first part between semicolons that is, behind leading spaces, the name, '=' and a value; none exactly if there is no such part |
| CookieHeader.CookieRoundTrip | src/http.c:1393-1433 | whatever order the browser sends its jar in, reading a cookie gives exactly what the jar holds |
| Decimal.ParseDec | src/const.h:117-134 | parsing a formatted number gives it back |
| Decimal.ParseIff | src/const.h:117-134 | any text: behind white space and one sign it is parsed exactly if there are only digits, at least one, and the number fits an int; else the default |
| ChunkedCookies.Request.GetChunkedCookie | src/http.c:1470-1494 | the plain cookie without a counter, nothing for a bad counter or a missing chunk, else all chunks joined |
| ChunkedCookies.Request.SetChunkedCookie | src/http.c:1512-1557 | the exact Set-Cookie headers of a store; a refused store adds none |
| ChunkedCookies.Request.ClearChunkedCookie | src/http.c:1499-1507 | every chunk counted by the request and then the counter are cleared |
| ChunkedCookies.PieceCount | src/http.c:1531-1550 | ceiling division counts the pieces, with no empty last one |
| ChunkedCookies.ShortHeaders | src/http.c:1499-1530 | the headers of a short or empty value one by one: the cookie with its expiry, then each chunk the request counted and the counter cleared |
| ChunkedCookies.LongHeaders | src/http.c:1531-1557 | those of a long value: each piece by position with the expiry asked for, their number, the plain cookie cleared; refused exactly for more than 99 |
| ChunkedCookies.ReadMeans | src/http.c:1470-1494 | for any cookies: the plain one, nothing, or all counted chunks in order |
| ChunkedCookieRuns.RefusedIffTooLong | src/http.c:1531-1544 | a store is refused exactly if the value exceeds 99 chunks |
| ChunkedCookieRuns.StoreThenRead | src/http.c:1470-1557 | one store, then a read: exactly what was stored, or what was there if the store was refused, despite stale higher chunks |
| ChunkedCookieRuns.ChunkedCookieRoundTrip | src/http.c:1393-1557 | over any sequence of stores, one per request, the next request's Cookie header reads as the last value whose store returned TRUE, none after a clear |
| ChunkedCookieRuns.OthersUntouched | src/http.c:1499-1557 | a store never touches cookies with other names |
| ChunkedCookieRuns.SecondStoreIsLost | src/http.c:1499-1507 | two stores in one response: a short or empty value after a long one, with no counter in the request, is not what is read next |
| ChunkedCookieRuns.TwoStoresInOneResponse | src/http.c:1499-1557 | for any two accepted stores in one response the second takes effect exactly if it is not that case |
| StateCookies.CleanExpired | src/state.c:235-260 | scanning the header, with a clock reading per token, deletes stale state cookies and then the pruned ones and returns the count |
| StateCookies.StaleIff | src/state.c:173-228 | deleted as stale are exactly the prefixed "name=value" tokens other than the current cookie that cannot be decoded or, when reached, are past their issue plus the timeout |
| StateCookies.FreshInOrder | src/state.c:173-228 | kept are exactly those that are not past it, in header order |
| StateCookies.UnexpiredAreKept | src/state.c:235-260 | with delete-oldest off a name is deleted exactly if such a dead token has it, and the others are counted |
| StateCookies.DeletionsClear | src/state.c:173-196 | a deletion is a cookie with an empty value and an expiry in the past |
| StateCookies.ParseToken | src/state.c:173-228 | a token is ignored, deleted or appended to the list, by prefix, name, decoding and age |
| StateCookies.ListAppend | src/state.c:155-167 | the list grows by one entry at its end |
| StateCookies.FindOldest | src/state.c:125-138 | the first node with the smallest timestamp and its predecessor |
| StateCookies.Unlink | src/state.c:143-146 | the list without that node |
| StateCookies.DeleteOldestCookies | src/state.c:117-150 | deleting oldest-first until fewer than max are counted |
| StateCookies.OnlyOtherStateCookiesAreDeleted | src/state.c:173-228 | the current cookie and cookies that are no state cookies are never deleted |
| StatePruning.PruningKeepsTheYoungest | src/state.c:117-150 | the survivors are exactly the youngest, in header order; the number deleted and the returned min(n, max - 1) |
| StatePruning.DeletedInOrderOfAge | src/state.c:117-150 | the k-th deletion is that of the k-th oldest, ties going to the earliest in the header |
| StatePruning.NothingIsPrunedIff | src/state.c:235-260 | no valid state cookie is given up exactly if delete-oldest is off, there is none, or there are fewer than max |
| StatePruning.ZeroIsNotUnlimited | src/state.c:117-150 | with a limit of 0 and delete-oldest all valid state cookies are deleted; none is exactly if that is off or there are none |
| SessionInactivity.Session.PassTokens | src/mod_auth_openidc.c:575-589 | the extension is made exactly if it gains more than the slack |
| SessionInactivity.Slack | src/mod_auth_openidc.c:575-589 | a tenth of the interval, at most 60 seconds |
| SessionInactivity.Session.Extract | src/session.c:428-465 | the stored expiry is taken over; a corrupted or expired session is killed |
| SessionInactivity.Session.SetTimestamp | src/session.c:512-520 | stored in whole seconds; negative values are not stored |
| SessionInactivity.Session.Request | src/mod_auth_openidc.c:1228-1241 | one request's load, check, extension at a later clock reading, and save, which may fail, as a function of what was stored |
| SessionInactivity.WritesIff | src/mod_auth_openidc.c:575-589 | a request finds the session expired exactly if its clock is past the stored expiry, and otherwise writes exactly an extension that gains more than the slack |
| SessionInactivity.ActiveSessionLives | src/mod_auth_openidc.c:575-589 | sessions whose requests come within interval - slack of the last activity never expire, whatever is truncated or not written |
| SessionInactivity.IdleSessionExpires | src/mod_auth_openidc.c:575-589 | a request more than the full interval after the last activity finds the session expired |
| SessionInactivity.WritesAreApart | src/mod_auth_openidc.c:575-589 | consecutive written extensions are more than the slack less one second apart |
| SessionInactivity.RunTracks | src/session.c:418-520 | after every request the stored expiry is within the slack below last activity + interval |
| SessionInactivity.NewSession | src/handle/response.c:238 | both bounds hold for a session from its creation on |
| LogRedaction.RedactJsonMember | src/http.c:672-724 | the one-pass scanner fills its pre-sized buffer without overrun and equals the copy-or-mask specification |
| LogRedaction.RedactReplaces | src/http.c:672-724 | every value found is replaced by the mask and all other text is kept |
| LogRedaction.SecretsDoNotShow | src/http.c:672-724 | exchanging all masked values for any others leaves the output unchanged |
| LogRedaction.RedactIdempotent | src/http.c:672-724 | redacting twice is redacting once |
| LogRedaction.RedactJsonForLog | src/http.c:726-743 | with masking on, one pass per sensitive member, each over the result of the one before |
| QuotedPieces.RewriteBehind | src/http.c:672-724 | a pass over any text masks, between its double quotes, exactly the pieces that follow the member's name and a colon, scanning left to right |
| MemberRedaction.RedactAllMasks | src/http.c:726-743 | the logged text is the original with some of these pieces starred out and all others kept |
| MemberRedaction.LoggedIff | src/http.c:726-743 | for any text: these are exactly what each member's single pass takes for a value if and only if none of that is misread as the name of a member whose pass comes later |
| MemberRedaction.MemberSecretsDoNotShow | src/http.c:726-743 | for any two texts in which nothing is misread like that: they are logged alike exactly if they are the same but for what the passes take for values |
| MemberRedaction.ExchangeDoesNotShow | src/http.c:726-743 | exchanging in such a text all that one member's pass takes for values, for any texts that are no names, leaves the log unchanged |
| MemberRedaction.ValueCalledLikeAMember | src/http.c:726-743 | a family of texts in which a member's value is called like a later member, so that the value behind it is shown |
| LogRedaction.SensitiveMembers | src/http.c:658-660 | the members whose values are not to be logged |
| JsonRedaction.JsonValuesOk | src/http.c:726-743 | in no JSON text is a value misread as another member's name |
| JsonRedaction.JsonIsLogged | src/http.c:672-743 | the log of any JSON text is that text with, for each member whose name ends in a sensitive one and whose value is a string on the same line, the value masked up to its first escaped quote, and all else as it was |
| JsonRedaction.SecretIsHiddenIff | src/http.c:672-724 | a sensitive member's string value is starred out completely exactly if it has no escaped quote, no line break stands around the colon and the name is spelled without escapes (or it is three stars); otherwise which part shows |
| JsonRedaction.FieldOkIff | src/http.c:672-724 | for each member with a string value, sensitive or not, exactly when the log shows it as it should |
| JsonRedaction.JsonIsCensoredIff | src/http.c:726-743 | the log of a JSON text has the values of exactly the sensitive members starred out if and only if all its members are as that says |
| JsonRedaction.JsonSecretsDoNotShow | src/http.c:726-743 | two such JSON texts are logged alike exactly if they are the same but for values of sensitive members |
| JsonRedaction.LineBreakShowsTheValue | src/http.c:691-709 | with a line break behind the colon the log shows the token, whatever it is |
| JsonRedaction.EscapedNameShowsTheValue | src/http.c:684 | with a character of the name escaped the log shows the token |
| JsonRedaction.EscapedQuoteShowsTheRest | src/http.c:713-714 | the log shows what stands behind an escaped quote of the token |
| JsonRedaction.EndOfNameMasksTheValue | src/http.c:684 | a name that only ends in a sensitive one, behind an escaped quote, has its value masked |
| FormRedaction.RedactBody | src/http.c:604-655 | the one-pass rewrite fits its buffer, which is sized by the number of parameters, and equals the parameter-wise specification |
| FormRedaction.RedactBodyForLog | src/http.c:604-655 | with masking on the redacted body, with masking off the body itself |
| FormRedaction.CountParams | src/http.c:623-625 | counting '&'s counts the parameters |
| FormRedaction.ShownOf | src/http.c:590-642 | exactly the values of the listed parameter names are masked, split at the first '=' |
| FormRedaction.SensitiveParams | src/http.c:573-578 | the parameters whose values are not to be logged |
| FormRedaction.NoValueIsShown | src/http.c:629-642 | a parameter without '=' is kept |
| FormSecrets.SecretParamIff | src/http.c:590-642 | the value of a parameter whose decoded name is sensitive is masked exactly if that name is not percent-encoded |
| FormSecrets.EncodedNameShowsTheValue | src/http.c:590-642 | a body with an encoded name, whose value shows |
| FormRedaction.ParamsAreShown | src/http.c:629-653 | the redacted body has the same parameters in the same order, each shown or masked |
| FormRedaction.BodySecretsDoNotShow | src/http.c:604-655 | two bodies are redacted alike exactly if they differ in values of sensitive parameters only |
| MetricsCounters.Process.Inc | src/metrics.c:956-979 | one counter and value grows by one (restarting after the maximum) and no other count changes |
| MetricsCounters.CounterNew | src/metrics.c:479-494 | for any table: the node holds all its counts by value, or its count without a value alone if it has one |
| MetricsCounters.CounterUpdate | src/metrics.c:499-520 | for any table: every count of the node's kind grows by the local one, all others are lost, and the node keeps its kind |
| MetricsCounters.StoreCounterEntry | src/metrics.c:555-589 | merging one local counter, nested by class and name or not, changes that counter only |
| MetricsCounters.StoreCounters | src/metrics.c:525-609 | one flush merges every local table into its node of the document and changes nothing else |
| MetricsCounters.ResetIntegerTree | src/metrics.c:355-365 | all integers of a tree become 0 and its shape stays |
| MetricsCounters.StorageReset | src/metrics.c:380-426 | afterwards every count reads 0 and every node is still there with its kind |
| MetricsCounters.TypeNameKeyInjective | src/metrics.c:539-541 | distinct counters have distinct keys |
| MetricsCounters.ValueKeyInjective | src/metrics.c:472-474 | distinct values are counted apart, but none, the empty one and "_" together |
| MetricsCounters.FlushShowsIff | src/metrics.c:479-520 | a flushed count shows in the document exactly if the counter's node, there already or made by this flush, is of its kind |
| MetricsRuns.CountsAreConserved | src/metrics.c:355-741 | over every interleaving of increments, flushes and resets and however counters are used: shown + unflushed + reset + lost = number of increments, per virtual host, counter and value |
| MetricsRuns.NothingIsLostIff | src/metrics.c:201-212 | nothing is lost of a count within the maximum exactly if each flush with some of it fits the document and finds or makes a node of its kind |
| MetricsRuns.UniformUseLosesNothing | src/metrics.c:355-741 | shown + unflushed + reset = number of increments for a counter that is itself used uniformly, whatever the others are, when documents fit and the count stays within the maximum |
| MetricsRuns.MixedUseLosesACount | src/metrics.c:485-520 | a claim counted with a value and flushed, then with an empty value and flushed: the second count is lost |
| MetricsRuns.MixedUse | src/metrics.c:485-520 | carrying that out leaves a count of 1 and a count of 0 |
| MetricsRuns.Execute | src/metrics.c:699-741 | any steps of any number of processes, carried out by the methods, make such a run |
| MetricsTimings.Timing.BucketsInc | src/metrics.c:995-1003 | exactly the buckets whose threshold covers the sample are incremented |
| MetricsTimings.BucketBounds | src/metrics.c:156-168 | the buckets' bounds in microseconds |
| MetricsTimings.Timing.Add | src/metrics.c:1008-1034 | a sample is added; negative ones are dropped and an overflowing sum starts afresh |
| MetricsTimings.Timing.Update | src/metrics.c:443-465 | a local histogram is merged into a shared one, its sum in milliseconds |
| MetricsTimings.Timing.New | src/metrics.c:431-438 | the shared entry made of the first one merged |
| MetricsTimings.Timing.Clear | src/metrics.c:370-375 | every bucket, the sum and the count become 0 |
| MetricsTimings.StoreTiming | src/metrics.c:614-635 | the stored entry with the timing merged into it, or one made of it; neither of the two is changed |
| MetricsTimings.Execute | src/metrics.c:699-741 | any steps of any number of processes, carried out by the methods, end in the state of such a run |
| MetricsTimings.SharedHistogramIsExact | src/metrics.c:431-741 | over every interleaving: bucket j counts exactly the samples flushed since the last reset that are below threshold j, buckets do not decrease, the last equals the count; the sum is that of the merges since it last restarted, up to less than a millisecond per merge |
| MetricsTimings.NeverRestartsIff | src/metrics.c:458-461 | the shared sum covers all merges exactly if no sum of at least two of them exceeded the maximum |
| MetricsTimings.LocalHistogramIsExact | src/metrics.c:995-1034 | the same for a process's own histogram, with an exact sum |
| MetricsTimings.RoundingLoss | src/metrics.c:457-461 | rounding each merged sum down to milliseconds loses less than one per merge |

## Left out

- The SipHash computation and its key: the model takes any hash function, so nothing depends on its strength.
- Real locks, clocks, sleeping and randomness: lock results, times and random strings are parameters. Logged text, warnings and error strings are not modelled.
- The shared-memory validator's error message, and destroying and re-attaching the segment.
- The file cache's reliance on locks: none is assumed to work, so the model allows more interleavings than the system does.
- The file cache's names: random temporary names are assumed not to repeat or to coincide with the file name of a cache key that is asked for; section names have no '-' (the module's own are single letters; a cache prefix set in the environment is assumed to have none, too).
- The file cache's timestamp file and its cleaning interval, the check that a file is regular, and failures to create a temporary file: a cleaner may run at any time on any name; the file header is laid out little-endian.
- FileStoreSafety.CleanerSparesTheLiving: numbers of files that are open but no longer named may be reused too, which the system does not do; on platforms that cannot tell files apart the cleaner unlinks whatever has the name.
- The computation of a Redis SET's timeout, authentication and database selection (their failure is), and the hiredis library: its answers are arbitrary. An unlock that fails is taken to have released the mutex.
- RedisPool: handles are numbered and never reused, which is what makes a double free visible.
- CacheFrontend.Cache.Get: encryption and hashing are ideal (no collisions, no failure of the hash; a value opens only with the passphrase that sealed it), and one section of one backend is modelled.
- CacheFrontend.Cache.Set: the same, and the expiry, which is handed to the backend.
- ChunkedCookies.Request.SetChunkedCookie: cookie attributes other than name, value and expiry, the warning about large cookies, and a browser that refuses or drops cookies.
- ChunkedCookieRuns.ChunkedCookieRoundTrip: starts from a jar without a chunk counter, keeps the chunk size fixed, and takes one store per request; TwoStoresInOneResponse says what two do.
- Decoding a state cookie (its signature and JSON): an arbitrary partial function to the time of issue.
- SessionInactivity.ActiveSessionLives: requests on one session do not overlap; two concurrent ones may save in the opposite order and leave an expiry earlier than the later activity calls for.
- SessionInactivity.Session.Request: a session whose claims are corrupted (Extract covers it), a request that is refused for another reason, and the other members of the session.
- FormRedaction.RedactBodyForLog: a missing request, which also turns masking off.
- NULL arguments, and strings longer than an int can count.
- MemberRedaction.MemberSecretsDoNotShow: is about any text, so a value is what the passes take for one, the piece up to the next double quote, and none is misread as another member's name; for JSON texts `JsonSecretsDoNotShow` speaks of their members.
- JsonRedaction.JsonIsCensoredIff: a sensitive member whose value is no string, a number or an object, is not among those to be starred out; the code leaves it alone on purpose. The grammar admits more than JSON does: any escaped character, and any word as a number or literal.
- MetricsRuns.Execute: the locks around flushes, resets and increments (src/metrics.c:655, 716, 960), whose results the code ignores, are taken to succeed, so each of these is atomic; after a failed lock two flushes could interleave and lose counts beyond `Lost`.
- The Prometheus and JSON rendering of metrics, the flush thread's timing, and the parsing and size of the document: whether it fits is a parameter of each flush.
- MetricsRuns.CountsAreConserved: each class of counters always or never comes with a name, as the module's counter types determine.
- MetricsTimings.SharedHistogramIsExact: overflow of buckets and counts, which the code does not check.
- The configuration directives, OAuth introspection, token validation, provider requests and HTML output: each is mostly calls into other libraries or a one-branch fact.
