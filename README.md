# ivip-ipc: the notification file and the replicated cache, in Dafny

ivip-ipc lets the processes of a Node.js cluster exchange notifications through
one shared text file, `notification.ipc`, and builds a replicated TTL cache on top
of that bus. This project models the core of both, in the two builds the
repository ships: the TypeScript sources under `src/` and the esm build under
`dist/esm/`. The esm build differs from the sources in several ways. It folds the
whole file into base64 lines, sorts messages by time, keeps poison messages
instead of throwing, and bounds the cache.

The modules follow the program's layers:

- `Utf8`, `Base64`: `Buffer.from(v).toString("base64")` and its inverse,
  written out byte by byte. The UTF-8 decoder replaces each maximal ill-formed
  subsequence by U+FFFD. The base64 decoder is as lenient as Node's.
- `Text`: the JavaScript primitives the bus relies on. These are `split`/`join`
  with a string separator, `replaceAll`, `filter`, the first-occurrence
  de-duplication idiom, `trim() !== ""`, `parseInt` and `toString`.
- `Codec`: `prepareLine` and `readLine`, and how a file is split into records.
- `Fold`: the esm `breakLimitString` and `inverseBreakLimitString`.
- `Merge`: one pass of `observerEvents` as pure functions of what it reads. The
  pass does these steps in order:
  - the header steps (stale-epoch reset, adopting the file's epoch, the
    fresh header);
  - the stability windows and `ipcList`;
  - `filterLines` in both builds (delivery, acknowledgement, pruning);
  - draining the pending queue;
  - and writing the new file.
- `Bus`: the module-level state of `IPC` (`timestamp`, `ipcList`, `pending`,
  `notifyCallbackMap`) as the fields of a `Runtime` class. Its methods are the
  constructor, `notify`, `destroy` and `observerEvents`, the last with its loops.
  Each method is proved equal to the pure pass of `Merge`. Callback calls are
  recorded in a delivery log.
- `TtlCache`: the cache map as an insertion-ordered store inside a `Cache`
  class. It covers `set` (with the esm eviction loop), `get`, `has`, `delete`,
  `cleanUp`, `size`, `memoize`, the last-write-wins `joinCache` and the
  `cache:*` event handlers. Events sent to the bus go into an outbox.

The clock is a parameter: every pass or call reads one integer millisecond `now`.
`JSON.parse` is a parameter as well, the set `parses` of texts it accepts.

## Model

| member | source | states |
|---|---|---|
| `Utf8.DecodeStepEncodeChar` | src/IPC.ts:65 | the decoder reads the bytes of any one character back as that character, using exactly its 1 to 4 bytes, whatever follows |
| `Utf8.DecodeEncode` | src/IPC.ts:59-66 | `toString("utf-8")` of `Buffer.from(s)` is `s` for every string of Unicode scalar values |
| `Base64.Encode` | src/IPC.ts:60 | the encoding has 4 symbols per started group of 3 bytes and uses only the standard alphabet and `=` |
| `Base64.SextetsOfEncode` | src/IPC.ts:65 | the lenient decoder reads exactly the 6-bit values the encoder wrote, padding included |
| `Base64.DecodeEncode` | src/IPC.ts:59-66 | base64 decoding inverts encoding on every byte sequence |
| `Codec.EncodeField` | src/IPC.ts:60 | an encoded field holds only base64 symbols and `=`, and a non-empty field never encodes to the empty text |
| `Codec.DecodeEncodeField` | src/IPC.ts:59-66 | every field reads back as itself |
| `Codec.ReadLine` | src/IPC.ts:64-66 | `readLine` yields one field per separator-delimited piece, so always at least one |
| `Codec.ReadPrepare` | src/IPC.ts:58-66 | `readLine(prepareLine(r)) == r` for every record with at least one field |
| `Codec.EmptyRecordReadsAsOneEmptyField` | src/IPC.ts:58-66 | the empty record is the empty line and reads back as `[""]`: the round trip fails there and only there |
| `Codec.ParseFile` | src/IPC.ts:122-125 | every record read from a file has at least one field |
| `Codec.LineHasNoNewline` | src/IPC.ts:184 | an encoded line never contains a newline, so joining lines with `\n` cannot merge or split records |
| `Codec.WritableLineNotBlank` | src/IPC.ts:124 | the line of a record with two fields, or one non-empty field, survives the blank-line filter |
| `Codec.ParseSerialize` | src/IPC.ts:122-125 | a file written from such records parses back to the same records in the same order |
| `Text.IndexOf` | src/IPC.ts:65 | the result is the first match at or after `from`, and `None` exactly when there is no match there |
| `Text.Split` | src/IPC.ts:123 | `split` with a non-empty separator always yields at least one piece |
| `Text.SplitJoin` | src/IPC.ts:65 | splitting joined pieces gives them back when no piece holds the separator's first character |
| `Text.JoinSplit` | dist/esm/IPC.js:102 | joining the pieces of a split with the same separator restores the text |
| `Text.SplitJoinBorderless` | dist/esm/IPC.js:102 | the same when the separator cannot overlap itself and no piece contains it |
| `Text.ReplaceAllInverse` | dist/esm/IPC.js:93-103 | replacing `pat` by `rep` and back restores any text free of `rep`, for a self-non-overlapping `rep` |
| `Text.Filter` | src/IPC.ts:172 | an element is kept exactly when it was present and passes the predicate |
| `Text.FilterAppend` | src/IPC.ts:155 | filtering distributes over concatenation, so order is kept |
| `Text.Dedup` | src/IPC.ts:184 | `filter((v, i, l) => l.indexOf(v) === i)` keeps the same elements, none twice |
| `Text.DedupOfNoDup` | src/IPC.ts:163 | de-duplicating a sequence without repetitions changes nothing |
| `Text.DedupPrefix` | src/IPC.ts:163 | the first occurrences of a prefix stay first, in order, whatever follows |
| `Text.Remove` | src/IPC.ts:261 | removing a key keeps every other key and no copy of it |
| `Text.RemoveLength` | src/IPC.ts:261 | on a sequence without repetitions, removal keeps it repetition-free and shortens it by one exactly when the key was present |
| `Text.InConcat` | src/IPC.ts:165-170 | an element is in the concatenation exactly when it is in one of the parts |
| `Text.DigitPrefix` | src/IPC.ts:129 | `parseInt` reads the longest prefix of digits of the radix, and stops at the first other character |
| `Text.NotANumber` | src/IPC.ts:129 | a text starting with anything but white space, a sign or a decimal digit parses as NaN |
| `Text.ParseIntToString` | src/IPC.ts:135-140 | `parseInt(n.toString()) === n` for every integer written in plain decimal, which `toString` does below 10^21 |
| `Fold.MarkerBorderless` | dist/esm/IPC.js:94 | two occurrences of `<<break-limit-string>>` can never overlap |
| `Fold.Encoded` | dist/esm/IPC.js:94 | the text `breakLimitString` slices is base64 only, so it holds no newline |
| `Fold.Chunks` | dist/esm/IPC.js:95-98 | every slice is non-empty and at most `maxLineLength` long, all but the last are exactly that long, and the slices concatenate to the text |
| `Fold.BreakLimitString` | dist/esm/IPC.js:93-100 | the counted loop returns the slices of the encoded text joined by newlines |
| `Fold.FoldRoundTrip` | dist/esm/IPC.js:93-103 | `inverseBreakLimitString(breakLimitString(s, n)) == s` for every `n > 0` and every text free of the marker |
| `Merge.Broadcast` | src/IPC.ts:75-77 | one delivery of the same text per registered callback, in registration order |
| `Merge.HeaderStep` | src/IPC.ts:129-147 | after the header steps the header is non-empty and lists this process |
| `Merge.HeaderInProcessIff` | src/IPC.ts:127-147 | a pass is out of process exactly when the local epoch is at least 5 s old and the file's header already lists this process |
| `Merge.HeaderStaleReset` | src/IPC.ts:129-134 | a foreign header more than 5 s off the local epoch is dropped with every line; a fresh header under the local epoch with this process replaces it |
| `Merge.HeaderAdopt` | src/IPC.ts:129-147 | otherwise the header and the lines are kept, the local epoch becomes the header's, and this process is appended only when absent |
| `Merge.HeaderFresh` | src/IPC.ts:139-147 | an empty file starts a header `[epoch, ipcId]` under the local epoch, in process |
| `Merge.LastN` | src/IPC.ts:155 | `slice(-n)` is the suffix of length `min(n, length)` |
| `Merge.Joined` | src/IPC.ts:157-161 | every window but the last is kept as it was; the last holds this process, either the newest window joined or a new one started now |
| `Merge.StabilityStep` | src/IPC.ts:155-170 | there are 1 to 6 windows, the newest lists this process without repetition, and `ipcList` has no repetition |
| `Merge.NewestWindow` | src/IPC.ts:163 | the newest written window is the joined newest window, de-duplicated, and no window is added or lost |
| `Merge.StabilityCarried` | src/IPC.ts:155 | every window but the newest is one of the file's stability records |
| `Merge.StabilityNewest` | src/IPC.ts:157-163 | the newest window is the newest kept one plus this process when it started under 25 s ago, else `[tag, now, ipcId]` |
| `Merge.IpcListMembers` | src/IPC.ts:165-170 | an id is in `ipcList` exactly when it is a member of some written window |
| `Merge.OwnIdListed` | src/IPC.ts:155-170 | after every pass this process is in `ipcList` |
| `Merge.ProcessIdsAreNotNumbers` | src/IPC.ts:23 | both shapes of process id, `[pid]` and `[MASTER]`, parse as NaN (the premise `OwnIdListed` and `StabilityNewest` need) |
| `Merge.Known` | src/IPC.ts:84 | the ids kept are exactly those present in both lists |
| `Merge.AcknowledgedIff` | src/IPC.ts:84 | when every required id is known, a record counts as acknowledged exactly when it carries every required id |
| `Merge.Prune` | src/IPC.ts:83-85 | pruning never lengthens the records |
| `Merge.PruneMembers` | src/IPC.ts:83-85 | a record survives exactly when the pass is in process or some required process has not acknowledged it |
| `Merge.PruneAppend` | src/IPC.ts:83-85 | pruning distributes over concatenation, so survivors keep their order |
| `Merge.PruneInProcess` | src/IPC.ts:84 | in process every record survives |
| `Merge.MapSrcOk` | src/IPC.ts:71-82 | src's `.map` completes exactly when every line not yet acknowledged by this process has a first field that parses |
| `Merge.MapSrcStops` | src/IPC.ts:73 | once a `JSON.parse` has thrown, later lines make no deliveries and change nothing |
| `Merge.MapSrcLines` | src/IPC.ts:71-82 | when the `.map` completes, each line is the acknowledged form of the input line at its index |
| `Merge.MapSrcInProcess` | src/IPC.ts:72 | in process the `.map` changes no line and calls no callback |
| `Merge.FilterSrcInProcess` | src/IPC.ts:69-86 | in process `filterLines` returns its lines unchanged and calls no callback |
| `Merge.SrcSurvivesIff` | src/IPC.ts:83-85 | out of process a line survives exactly when some process of `header.slice(1)` is missing from it |
| `Merge.Insert` | dist/esm/IPC.js:65-67 | inserting a record gives a permutation of the records plus it |
| `Merge.SortBySequence` | dist/esm/IPC.js:65-67 | the sort is a permutation of its input |
| `Merge.InsertAscending` | dist/esm/IPC.js:65-67 | inserting a record into an ascending sequence keeps it ascending |
| `Merge.SortAscending` | dist/esm/IPC.js:65-67 | of any two records whose sequence fields parse, the one with the smaller `parseInt(a[0])` comes first |
| `Merge.InsertStable` | dist/esm/IPC.js:65-67 | an inserted record goes after every record already placed with the same sequence field |
| `Merge.SortStable` | dist/esm/IPC.js:65-67 | the sort is stable: records with the same sequence field, NaN included, keep their input order |
| `Merge.MapEsm` | dist/esm/IPC.js:68-80 | the esm `.map` returns one record per input record |
| `Merge.MapEsmAcknowledges` | dist/esm/IPC.js:68-80 | out of process every record comes out acknowledged by this process, and only payloads that parse are delivered |
| `Merge.AckEsmIdempotent` | dist/esm/IPC.js:69 | an acknowledged record is never delivered again |
| `Merge.MapEsmInProcess` | dist/esm/IPC.js:69 | in process the esm `.map` changes nothing and calls no callback |
| `Merge.EsmLines` | dist/esm/IPC.js:158-160 | lines, when produced, number one per surviving record |
| `Merge.EsmLinesSpec` | dist/esm/IPC.js:158-160 | the lines are produced exactly when every survivor has a time and a content, and then line `i` is `prepareLine` of survivor `i` |
| `Merge.EsmDroppedIff` | dist/esm/IPC.js:81-83 | out of process a record leaves the file exactly when every process of `ipcList` is among its acknowledgements |
| `Merge.EsmOneFieldRecordAborts` | dist/esm/IPC.js:158-159 | a one-field message record makes every in-process esm pass throw, because `prepareLine` meets `undefined` |
| `Merge.SrcOwnRecordNotRedelivered` | src/IPC.ts:241 | the record `notify` queues is never delivered back to the process that wrote it |
| `Merge.EsmOwnRecordNotRedelivered` | dist/esm/IPC.js:216 | the same for the esm record `[time, json, ipcId]` |
| `Merge.PassIsFinish` | src/IPC.ts:120-188 | a pass is its first half (the text, the header steps, the stability steps) followed by the filter and its end |
| `Merge.FinishPending` | src/IPC.ts:178-182 | with writing and unlocking taken to succeed, the end of a pass aborts exactly when the filter throws; the pending queue is emptied into the new lines exactly when the pass is out of process and did not abort, and otherwise stays as it was |
| `Merge.PassPending` | src/IPC.ts:120-188 | over a whole pass, the pending queue is drained into the written lines exactly when the exchange is settled and the pass does not abort |
| `Merge.FinishWrites` | src/IPC.ts:184-188 | a pass that did not abort writes the header, then the windows, then message lines without duplicates, and writes exactly when the new text differs from what it read |
| `Merge.PassWrites` | dist/esm/IPC.js:166-169 | the same over a whole pass, with the esm build writing the folded text |
| `Merge.SerializeFoldRoundTrip` | dist/esm/IPC.js:166-168 | folding and unfolding lines that hold no `<` restores their joined text |
| `Merge.FilterEsmMarkerFree` | dist/esm/IPC.js:158-160 | every line the esm filter hands back is free of the fold marker |
| `Merge.FinishReadBack` | dist/esm/IPC.js:166-168 | what the end of an esm pass writes unfolds to the lines of the new file |
| `Merge.EsmReadBack` | dist/esm/IPC.js:119-168 | what an esm pass writes is exactly what the next pass reads after unfolding |
| `Bus.PruneRecords` | src/IPC.ts:83-85 | the `.filter` loop keeps exactly the records `Prune` keeps, in order |
| `Bus.PrepareAll` | src/IPC.ts:174-176 | the `forEach` pushes `prepareLine` of every record, in order |
| `Bus.WriteLinesEsm` | dist/esm/IPC.js:158-160 | the esm `forEach` yields the survivors' lines, or stops at the first record without time or content |
| `Bus.Runtime.constructor` | src/IPC.ts:20-31 | the initial state: the local epoch is the load time, `ipcList == [ipcId]`, nothing pending, no callback, no delivery |
| `Bus.Runtime.Register` | src/IPC.ts:219-224 | `notifyCallbackMap.set` appends a new id and keeps an existing one in place; the ids stay distinct |
| `Bus.Runtime.Destroy` | src/IPC.ts:260-262 | `destroy` removes exactly this id, shortening the registry by one when it was present |
| `Bus.Runtime.Dispatch` | src/IPC.ts:245-247 | the `forEach` delivers the payload to every callback in order |
| `Bus.Runtime.DispatchExcept` | dist/esm/IPC.js:218-224 | the esm `forEach` delivers to every callback but the sender's |
| `Bus.Runtime.Notify` | dist/esm/IPC.js:207-233 | `notify` queues the build's record line and calls the callbacks unless `justOut`; an esm instance already destroyed does nothing; the pending lines stay free of the fold marker |
| `Bus.Runtime.ReadHeader` | src/IPC.ts:127-147 | the statement-by-statement header steps compute `HeaderStep`, including the new local epoch |
| `Bus.Runtime.UpdateStability` | src/IPC.ts:155-170 | the stability statements compute `StabilityStep`, including the new `ipcList` |
| `Bus.Runtime.MapLinesSrc` | src/IPC.ts:71-82 | the loop's lines, completion and callback calls are those of `MapSrc`, stopping at the first throw |
| `Bus.Runtime.MapLinesEsm` | dist/esm/IPC.js:68-80 | the loop's records and callback calls are those of `MapEsm` |
| `Bus.Runtime.FilterLines` | dist/esm/IPC.js:63-84 | the build's `filterLines` plus `prepareLine` returns the lines, completion and deliveries of `FilterMessages` |
| `Bus.Runtime.Complete` | src/IPC.ts:178-188 | the drain and the write compute `Conclude`: the outcome and the pending queue left behind |
| `Bus.Runtime.ReadFile` | dist/esm/IPC.js:119-156 | the first half of a pass computes the text, header and windows of `ReadOf`, and sets the epoch and `ipcList` |
| `Bus.Runtime.FilterAndComplete` | src/IPC.ts:172-188 | the second half computes `Finish`: it aborts when the filter throws, and otherwise drains and writes |
| `Bus.Runtime.RunPass` | src/IPC.ts:120-188 | a pass leaves the epoch, `ipcList`, pending queue, deliveries and outcome that `Pass` gives |
| `Bus.Runtime.ObserverEvents` | dist/esm/IPC.js:104-181 | nothing changes while the lock is held elsewhere; otherwise the state is that of `Pass`, and what the esm build writes unfolds to the new file's lines |
| `TtlCache.ExpiryReached` | src/Cache.ts:17-22 | an expiry computed at `now` is reached at `t` exactly when the seconds were positive and `t >= now + 1000 * seconds`; `Infinity` is never reached |
| `TtlCache.JsonUnquoteQuote` | src/Cache.ts:92 | `JSON.parse(JSON.stringify(s)) === s` for every string |
| `TtlCache.UpdateStoresQuotedText` | src/Cache.ts:59-61 | re-stringifying received JSON text stores a different text, which reads back as the sender's text, not its value |
| `TtlCache.PutWellFormed` | src/Cache.ts:79 | `Map.set` keeps every key once in insertion order, and grows the map exactly when the key is new |
| `TtlCache.DelWellFormed` | src/Cache.ts:100 | `Map.delete` keeps the key order well formed, and shrinks it exactly when the key was present |
| `TtlCache.SizeIsOrderLength` | src/Cache.ts:72-74 | `size` is the number of entries |
| `TtlCache.TouchKeeps` | src/Cache.ts:85-93 | `get` changes at most the expiry and access time of the entry read: order, value and `added` are kept, and so are other entries |
| `TtlCache.SweepStep` | src/Cache.ts:21-25 | the `forEach` reaches each key with its entry untouched and deletes it exactly when it has expired |
| `TtlCache.CleanUpExact` | src/Cache.ts:19-26 | `cleanUp` removes exactly the expired entries, leaves the others as they were, and keeps their order |
| `TtlCache.ScanKeys` | dist/esm/Cache.js:80-89 | the scan stops at an index of the map, or tracks an index only when the map is non-empty |
| `TtlCache.ScanFirstExpired` | dist/esm/Cache.js:81-85 | the scan stops at the first expired entry in insertion order; if it does not stop, nothing has expired |
| `TtlCache.ScanOldest` | dist/esm/Cache.js:86-88 | with nothing expired the scan picks the least recently accessed entry, the first one on ties |
| `TtlCache.ScanStops` | dist/esm/Cache.js:84 | after the `break`, later keys change nothing |
| `TtlCache.VictimChoice` | dist/esm/Cache.js:77-93 | the evicted entry is the first expired one, or with none expired the least recently accessed, the first on ties |
| `TtlCache.SetStores` | dist/esm/Cache.js:76-100 | after `set` the key holds the new entry; other keys are unchanged or evicted; an existing key keeps the order |
| `TtlCache.AdmitEvicts` | dist/esm/Cache.js:77-93 | eviction happens exactly when enabled, the map is full and the key is new, and then removes exactly the victim |
| `TtlCache.SetBounded` | dist/esm/Cache.js:77-96 | `set` never takes a map within `maxEntries` beyond it |
| `TtlCache.JoinWinner` | src/Cache.ts:34-39 | after a join each key of the data holds the winner: the incoming entry unless the local one is strictly younger |
| `TtlCache.JoinUntouched` | src/Cache.ts:34-39 | a key the data does not name keeps its entry, or its absence |
| `TtlCache.JoinOrder` | src/Cache.ts:37 | keys new to the map follow the old ones, in the order of the data |
| `TtlCache.JoinWins` | src/Cache.ts:32-43 | last write wins: every key of the data holds the winner, others are untouched, new keys are appended in data order, and the map stays well formed |
| `TtlCache.WinnerAdded` | src/Cache.ts:36 | the winner is one of the two entries and has the larger `added` |
| `TtlCache.ObjectOrder` | src/Cache.ts:42 | an object lists the same keys as the entries it was built from |
| `TtlCache.ObjectOrderNoDup` | src/Cache.ts:42 | keys without repetition stay without repetition in object order |
| `TtlCache.ObjectOrderRules` | src/Cache.ts:42 | object key order: the same keys; no array index after another kind of key; array indices in ascending numeric order; the other keys in creation order |
| `TtlCache.ObjectOrderNamed` | src/Cache.ts:42 | without array-index keys, an object lists its keys in creation order |
| `TtlCache.ObjectOrderExample` | src/Cache.ts:42 | an object built from `"b"` then `"7"` lists `"7"` first |
| `TtlCache.Snapshot` | src/Cache.ts:42 | `Object.fromEntries([...cache])` holds every entry of the map once, keyed in object key order |
| `TtlCache.JoinSnapshot` | src/Cache.ts:32-51 | an empty peer joining a snapshot ends with the sender's entries, its map ordered in object key order |
| `TtlCache.JoinSnapshotNamed` | src/Cache.ts:32-51 | when no key is an array index, the empty peer ends with the sender's map, order included |
| `TtlCache.JoinSnapshotIndexFirst` | src/Cache.ts:32-51 | a sender whose map lists `"b"` then `"7"` leaves the peer's map listing `"7"` first, so the esm eviction scan meets the keys in another order |
| `TtlCache.FromWireToWire` | src/Cache.ts:45-51 | reading `null` as `Infinity` brings every entry across unchanged |
| `TtlCache.SyncedNeverEntrySwept` | src/Cache.ts:45-51 | as written, an entry that never expires, once synced to a peer, is deleted by the peer's next `cleanUp` |
| `TtlCache.SyncedSnapshotExact` | src/Cache.ts:45-51 | with the intended reading, an empty peer that joins a synced snapshot holds exactly the sender's entries, in object key order |
| `TtlCache.MemoKeyInjective` | src/Cache.ts:113 | for one memoized name, different argument texts give different keys |
| `TtlCache.Cache.constructor` | dist/esm/Cache.js:58-62 | an empty cache with a 60 s default expiry, bounded by 5000 entries in esm and unbounded in src |
| `TtlCache.Cache.SetEntry` | src/Cache.ts:79 | `Map.set` on the store |
| `TtlCache.Cache.DeleteEntry` | src/Cache.ts:100 | `Map.delete` on the store |
| `TtlCache.Cache.Size` | src/Cache.ts:72-74 | `size` is the number of entries |
| `TtlCache.Cache.Has` | src/Cache.ts:95-97 | `has` holds exactly for present keys |
| `TtlCache.Cache.Get` | src/Cache.ts:85-93 | `get` returns the stored text of a present key and `None` otherwise, and refreshes only that entry |
| `TtlCache.ScanVictim` | dist/esm/Cache.js:78-89 | the `for...of` loop with its `break` ends at the index `ScanKeys` gives for the whole map: the first expired key, or else the oldest-accessed one |
| `TtlCache.Cache.FindVictim` | dist/esm/Cache.js:78-89 | the loop run over the cache's map returns the index of the victim `VictimChoice` characterises |
| `TtlCache.Cache.EvictOne` | dist/esm/Cache.js:77-93 | the eviction pass deletes exactly the victim |
| `TtlCache.Cache.Set` | dist/esm/Cache.js:76-100 | `set` evicts when needed, stores the stringified value with fresh timestamps, and broadcasts `cache:update` when asked |
| `TtlCache.Cache.Delete` | src/Cache.ts:99-104 | `delete` removes the key and broadcasts `cache:delete` when asked |
| `TtlCache.Cache.CleanUp` | src/Cache.ts:106-108 | the sweep loop leaves the store of `cleanUp`, so exactly the unexpired entries |
| `TtlCache.Cache.JoinCache` | src/Cache.ts:32-43 | the join loop leaves the store of `JoinAll` and returns its snapshot |
| `TtlCache.Cache.RequestSync` | src/Cache.ts:67-69 | the delayed sync request sends the whole map |
| `TtlCache.Cache.OnSyncRequest` | src/Cache.ts:49-51 | with the intended reading of `null` expiries as `Infinity`, a sync request is joined and answered with the merged map |
| `TtlCache.Cache.OnSyncRequestAsWritten` | src/Cache.ts:49-51 | as written, a sync request is joined with `null` expiries and answered with the merged map |
| `TtlCache.Cache.OnSyncResponse` | src/Cache.ts:45-47 | a sync response is joined, reading `null` expiries as `Infinity` |
| `TtlCache.Cache.OnSyncResponseAsWritten` | src/Cache.ts:45-47 | as written, a sync response is joined with `null` expiries |
| `TtlCache.Cache.OnUpdate` | src/Cache.ts:59-61 | the update handler, storing the text it receives, holds the sender's text and broadcasts nothing |
| `TtlCache.Cache.OnUpdateAsWritten` | src/Cache.ts:59-61 | as written, the handler stores the received text stringified again, never the sender's text |
| `TtlCache.Cache.OnDelete` | src/Cache.ts:63-65 | the delete handler removes the key and broadcasts nothing |
| `TtlCache.Cache.Memoize` | src/Cache.ts:110-122 | a hit whose text is not `null` returns it without calling `fn`; otherwise `fn`'s result is stored under the memo key and broadcast |

## Left out

- File I/O: creating `notification.ipc`, reading it and writing it become the `raw` parameter and the `Write` outcome. The chokidar watcher that triggers passes is outside the model too.
- `Merge.FinishPending` and `Merge.PassPending` state the queue only under successful writes: write and unlock failures are not modelled, and `Write` always succeeds. In both builds the queue is emptied by `pending.splice(0)` before `writeFileSync` and `unlockSync` (src/IPC.ts:179-190, dist/esm/IPC.js:162-170). When either throws, the `catch` retries, and the drained lines are lost from both the queue and the file.
- The lock: `proper-lockfile`'s check, lock and unlock are the `locked` parameter of `ObserverEvents`. The unlock in the `catch` path is not modelled.
- Timers: the 100 ms debounce (`timeDelay`, `running`), the retry after a throw (200-700 ms), the 60 s `setInterval` of `cleanUp` and the random 2-4 s delay of the sync request are not modelled. `RequestSync` and `CleanUp` can be called at any time instead. The concurrency of several processes is not modelled; a pass is one atomic step.
- Randomness and ids: instance ids (`Math.random() * Date.now()`) and `process.pid` are parameters.
- The clock: `Date.now()` and `new Date()` are one integer `now` per pass or call. Float milliseconds, the `Date` range limit (a `parseInt` beyond it gives NaN) and float seconds are not modelled. `differenceInSeconds(a, b) < 5` is modelled as `|a - b| < 5000` on integers, which is the same test.
- `JSON.parse` is the set `parses` of texts it accepts. A callback receives that text, not the parsed object. `SimpleEventEmitter.emit` is not modelled: a delivery is recorded in the log.
- `JSONStringify` of ivip-utils is not part of this model. A value is given by the text it produces (`Value.Json`), and strings by `JSON.stringify`'s escaping (`Value.Str`).
- `Merge.SortBySequence`: JavaScript's `sort` with the esm comparator is modelled as a stable insertion sort. Comparisons involving NaN are inconsistent, so engines may order such records differently.
- `Merge.SortAscending` and `Merge.SortStable` are facts about the insertion sort of the model. With NaN sequence fields the comparator is inconsistent and the engine's order is not fixed by the language.
- `Codec.ReadPrepare` needs at least one field; `Codec.EmptyRecordReadsAsOneEmptyField` states what happens to the empty record instead.
- `Fold.FoldRoundTrip` holds for texts free of the marker. Lines made by `prepareLine` always are (`Merge.SerializeFoldRoundTrip`).
- `Merge.OwnIdListed` and `Merge.StabilityNewest` need an id that is neither a number nor the stability tag, which both real id shapes satisfy (`Merge.ProcessIdsAreNotNumbers`).
- `TtlCache.JoinWins` requires the data's keys to be distinct. JavaScript object keys always are.
- `TtlCache.Cache.Get` returns the stored JSON text rather than `JSON.parse` of it. `memoize` compares that text with `null`.
- Cache keys of type `number` are not modelled: keys are strings. Values are the JSON text stored. String keys that are array indices, such as `"7"`, are modelled: the objects of a sync list them first (`TtlCache.ObjectOrder`). A received object is given as its keys in that enumeration order.
- `Utf8.DecodeEncode` holds for strings of Unicode scalar values. A JavaScript string may hold a lone surrogate, which `Buffer.from` writes as U+FFFD; such strings are not modelled. The bus's fields are `JSON.stringify` output, which escapes lone surrogates, or ASCII ids.
- `Text.ParseIntToString` uses plain decimal `toString` for every integer. JavaScript writes 10^21 and above in exponent form and is exact only below 2^53. The header's epochs are `Date.now()` values, far below both.
- `TtlCache.Cache.Memoize` is one synchronous call in which `fn`'s result is a parameter. The `async` wrapper, `fn`'s side effects and its failures are not modelled.
- The cache's `notify` calls go to an outbox of events; how the bus carries them is modelled by `Bus.Runtime.Notify` separately.
- Convergence of several caches or buses over many passes is not stated.
- The `cjs` build and the type declarations are not part of this model.

## Findings

| source | as written | input that shows it | evidently intended | confidence | as-written member | corrected member |
|---|---|---|---|---|---|---|
| src/Cache.ts:59-61 | the `cache:update` handler passes the received `value` to `set`, which was already `JSONStringify`'d by the sender (line 78), and `set` stringifies it again | `set("k", "a")`: the sender stores the text `"a"` and sends it; the peer stores `"\"a\""`, so its `get("k")` returns the three-character string `"a"`, quotes included, instead of `a` | the handler stores the received JSON text as it is | high (not executed) | `TtlCache.Cache.OnUpdateAsWritten` | `TtlCache.Cache.OnUpdate` |
| src/Cache.ts:45-51 | an entry that never expires has `expires: Infinity`; the sync event is sent through `JSON.stringify` (src/IPC.ts:241), which writes `null`; the peer's join stores `null`, and its `cleanUp` tests `null <= now`, which is true | `set("k", v, 0)` followed by a sync request to a peer that lacks `k`: the peer deletes `k` at its next `cleanUp` | `null` is read back as `Infinity`, so the entry survives every sweep | medium (not executed) | `TtlCache.SyncedNeverEntrySwept` | `TtlCache.SyncedSnapshotExact` |
