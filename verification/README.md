# Verified models of PrivMX Endpoint

Dafny models of the parts of PrivMX Endpoint where correctness is hardest to see, with machine-checked proofs.
`dafny verify dfyconfig.toml` checks everything, within its default limits.

## What is modelled

**The Store's encrypted random-access files.** A file is a plain byte string cut into chunks. Each chunk is
encrypted on its own, and the server keeps the concatenation and a list of checksums. Clients read and write at any
position, extend with zeros and truncate, through a cache of raw bytes and a cache of plain text.
`EncryptedFiles` says what it means for server bytes to hold a plain file and proves what rewriting a run of chunks
does; `Squashing`, `FileWrites` and `ServerRequests` treat the operations and requests of one write; `HashList`,
`ChunkDataProvider`, `ChunkReader` and `FileHandler` are the classes with their fields; `FileRuns` states the result for
whole runs of reads, writes, syncs and other clients' writes, with requests or their answers lost and other clients'
files of any kind: the engine is a view of a plain byte array on the server, and a write succeeds only if the view was
up to date, so that no write of another client is overwritten unseen. `StoreServer` is the server as a versioned file whose history is remembered in ghost
state, so that the handler's invariant speaks of the version it works on, also while other clients write.

The engine is not faithful for all writes, and the exact condition is proved. Every server operation but the last
truncates, so a write that needs several operations, does not truncate and does not reach the last chunk loses what
follows it (`FileWrites.KeepsTail` is the condition, `FileWrites.TailLostExample` an instance). A write that needs more
than two operations takes several requests. The first is carried out, and cuts the file off while giving it the metadata
of the whole write; the second names the version before the first, and is refused. The client sees a failure, and the
server keeps a file that its metadata does not describe (`ServerRequests.ShortRequest`, `ServerRequests.CutOff`,
`FileWrites.ThreeOperationsExample`). A write is faithful exactly if it keeps the tail and needs at most two operations
(`FileWrites.Faithful`, `ServerRequests.RequestOutcome`).
A write of no bytes at a chunk boundary leaves an empty chunk, and the file cannot be opened again
(`FileHandler.Reopens`, `FileHandler.TrailingChunkAfterWrite`).

A file that is uploaded anew under the same id gets a new key. A handle for writing that syncs to it takes the new key
to its list of checksums, but not to its chunk encryptor. It is right afterwards exactly if the key and the chunk size
are still its own (`FileHandler.Handler.Sync`). If the file has been emptied, the handle goes on writing and reading its
own chunks, and nobody else can read them (`KeyChange.SyncAndWrite`, `KeyChange.KeyChangeExample`). A handle for reading
takes the key along (`FileHandle.FileReadHandle.Sync`).

**Uploads and downloads.** `ChunkBufferedStream`, `ChunkStreamer`, `FileHandle` and `FileReader`: the pieces sent do
not depend on how the data was segmented, have exactly the sizes declared up front, and read back as the data. After
a failed request a write handle keeps the chunk that was being sent, listed already and not counted: whatever is done
with it later, an upload that it completes has a chunk under a wrong number (`FileHandle.UseAfterFailure`).

**The keys of a container.** `EndpointUtils`, `UsersKeysResolver` and `KeyProvider` decide who gets which keys;
`StoreKeys` and `StoreRuns` follow a Store over its whole life, with updates prepared concurrently and accepted or
rejected later. The result is an exact account of who holds what: those who were members at some time since the key was
generated. It supposes users known by one public key each whose ids and keys are told apart when run together, fresh
random ids, and callers who know no version from the future. The server takes a forced update even if others have been
accepted since it was prepared. Such an update may break the account, and does so exactly if it is not harmless: it has a
member who lacks a key and is not given it, or it goes on with a key that someone who has left holds
(`StoreKeys.AcceptIff`; `StoreRuns.OvertakenForcedExample` is an instance). The runs admit every harmless one.

**Codecs.** `Bip39` (bits of bytes repacked to words), `CryptoEnvelope` and `CryptoPrivmx` (tagged ciphers and block
sizes), `SrpLogic` (the shared secret), `Subscriber` and `Utils` (query texts).

## How it is modelled

Classes of the source are classes here, with the same fields; loops are loops, proved against specification functions
and predicates. Byte strings are sequences of 8-bit vectors, other strings are `string`. Digests and the block cipher
are parameters of `CbcCipher.CryptoService`, of which only lengths and invertibility are used; CBC and padding are
defined as in section 6.2 of NIST SP 800-38A and section 6.3 of RFC 5652. Sealing a key for a user is a constructor that
only the holder of the matching private key can open. Randomness, time and failures of requests are arbitrary.
Multiples of a size are written `Start(i, size)`, quotients and remainders `PieceOf` and `PosInPiece`; they are the
usual ones (`ByteStrings.StartIsProduct`, `ByteStrings.PieceIsQuotient`). Large invariants are carried by methods in a
guarded form (`EncryptedFiles.Holds`) that says the same as the plain one and is looked into only where needed.
`std::sort`, `std::map` and `std::set` are modelled by what the standard says of them; hash maps are gone through in any
order.

## Model

| member | source | states |
|---|---|---|
| FileRuns.FileHandlerImpl.ExecuteAll | endpoint/store/src/FileHandler.cpp:48-281 | Every run of size, seek, read, write, sync and other clients' writes (of any file, under any key, also between the two requests of a sync), with any request or answer lost, is a run of a view of the plain byte array on the server; writes succeed only on an up-to-date view; it goes on to the end, or up to the first write that is accepted without being faithful or sync that is accepted although the file is not one under the handle's own key and chunk size. |
| FileRuns.OpenAndExecuteAll | endpoint/store/src/FileHandle.cpp:172-208 | The same for a handle that is opened first. |
| FileRuns.FileHandlerImpl.Execute | endpoint/store/src/FileHandler.cpp:252-281 | One command is one step of view and server, and keeps the invariant. |
| FileRuns.FileHandlerImpl.SeekG | endpoint/store/src/FileHandler.cpp:258-263 | Moves the read position exactly when it is not past the end; otherwise nothing changes. |
| FileRuns.FileHandlerImpl.SeekP | endpoint/store/src/FileHandler.cpp:265-270 | The same for the write position. |
| FileRuns.FileHandlerImpl.Read | endpoint/store/src/FileHandler.cpp:272-276 | Returns the bytes from the read position, clipped at the end, and moves by as many as were returned; a failed read moves nothing. |
| FileRuns.FileHandlerImpl.Write | endpoint/store/src/FileHandler.cpp:278-281 | Writes at the write position, zero-filled up to it, and moves it, if the view is up to date; a failed write changes nothing of the view, and leaves the server with its file, with the written one if only the answer was lost, or with none if it takes several requests. |
| FileRuns.FileHandlerImpl.Sync | endpoint/store/src/StoreApiImpl.cpp:509-524 | Takes the view to the server's file and keeps both positions, even past a new end; a sync that fails, because of a request or because the checksums do not match, changes nothing. |
| FileHandler.Handler.Write | endpoint/store/src/FileHandler.cpp:48-118 | A failed write leaves handler, hashes, sizes and version as they were, and the server untouched or with the first request applied to the handler's version; what that leaves is told by `ServerRequests.LeftBehind`. An accepted one was made on the current version with at most two squashed operations, and leaves a file that decrypts to the plain file with the data written exactly when the write keeps the tail; otherwise the server has less than the handler believes. |
| FileHandler.Handler.Read | endpoint/store/src/FileHandler.cpp:120-131 | The window of the plain file, for every offset and size; fails only if a request does. |
| FileHandler.Handler.CreateUpdateChunk | endpoint/store/src/FileHandler.cpp:137-174 | The new chunk is an encryption of the old text with the data put in; the two signed size changes are those of the file; data that does not fit is refused. |
| FileHandler.Handler.PrepareChunks | endpoint/store/src/FileHandler.cpp:58-76 | The loop over touched chunks re-encrypts each to its text in the file after the write, the first at its offset, the last with truncation. |
| FileHandler.Handler.RecordHashes | endpoint/store/src/FileHandler.cpp:79-85 | Setting the entries one by one is one patch of the checksum list; the size changes are summed. |
| FileHandler.Handler.UpdateOnServer | endpoint/store/src/FileHandler.cpp:176-209 | Succeeds only if all changes fit one request. Whether it succeeds or not, the server is untouched or has applied the first request, of at most two changes, to the handler's version; every operation but the write's last truncates. |
| FileHandler.Handler.SendUpdates | endpoint/store/src/FileHandler.cpp:77-107 | After a failed request the hash list is what it was before the write, and the server untouched or past the first request; after success hashes, sizes and metadata fit what the server applied. |
| FileHandler.Handler.RefreshCaches | endpoint/store/src/FileHandler.cpp:113-116 | Reporting the chunks one after the other leaves the raw cache equal to the server chunk of the file after the write, and drops exactly the rewritten plain chunk. |
| FileHandler.Handler.Adopt | endpoint/store/src/FileHandler.cpp:108-116 | The assignments after an accepted write establish the invariant at the new version, if the write keeps the tail. |
| FileHandler.Handler.Sync | endpoint/store/src/FileHandler.cpp:211-220 | Accepted exactly if the checksums match the top hash under the new key (and no request fails); otherwise nothing changes. The handler goes on with any file that its own encryptor reads, and is all right exactly if key and chunk size are its own, although the data provider is told the old version. |
| KeyChange.SyncAndWrite | endpoint/store/src/FileHandler.cpp:211-220 | A sync to an emptied file under another key and a write of one chunk fail only if a request does; the handle then reads what it wrote, and unless the chunk opens under the file's key nobody with that key can read the file. |
| KeyChange.AppendedUnreadable | endpoint/store/src/encryptors/fileData/ChunkEncryptor.cpp:36-49 | A file of whole chunks with a chunk appended that does not open under its key holds no plain text under that key. |
| KeyChange.RefusedElsewhere | endpoint/store/src/encryptors/fileData/ChunkEncryptor.cpp:36-45 | A chunk is refused under another key or number exactly if the two chunk keys give it different digests. |
| KeyChange.KeyChangeExample | endpoint/store/src/FileHandler.cpp:211-220 | A concrete service and two keys for which such a file can be opened and not read. |
| ServerRequests.WriteOutcome | endpoint/store/src/FileHandler.cpp:176-250 | For all writes of one request: the server's file and checksums after the squashed operations hold the plain file after the write if the write truncates, reaches the last chunk or needs one operation; else the file is shorter than computed. |
| ServerRequests.RequestOutcome | endpoint/store/src/FileHandler.cpp:176-250 | For all writes, once any request has been applied: the server holds the new file under fitting metadata exactly if the write needs at most two operations and keeps the tail; after more than two its file is cut off. |
| ServerRequests.ShortRequest | endpoint/store/src/FileHandler.cpp:178-206 | The first of several requests leaves the file and the checksums cut off at the first chunk it did not reach. |
| ServerRequests.FirstRequestLeaves | endpoint/store/src/FileHandler.cpp:91-107 | The same in terms of what a caller knows: offset, data and sizes. |
| ServerRequests.OperationsOutcome | endpoint/store/src/FileHandler.cpp:176-209 | A request that can be applied patches file and checksums as the squashed changes say. |
| ServerRequests.KeepsTailMeans | endpoint/store/src/FileHandler.cpp:186-192 | The condition a caller can check (chunk sizes and lengths only) is the one on squashed operations. |
| ServerRequests.OperationCountIs | endpoint/store/src/FileHandler.cpp:222-250 | The number of squashed operations, computed from offset and lengths. |
| FileWrites.TailLostExample | endpoint/store/src/FileHandler.cpp:180-193 | A concrete write that is accepted and loses data: four of ten 128 KiB chunks rewritten without truncation. |
| FileWrites.ThreeOperationsExample | endpoint/store/src/FileHandler.cpp:178-206 | A concrete write that keeps the tail and still fails: one byte at 0xE_0000 of an empty file of 128 KiB chunks takes three operations. |
| FileWrites.OperationCountClosed | endpoint/store/src/FileHandler.cpp:222-250 | The number of operations from the number of touched chunks and the length of the last one only. |
| Squashing.FullGroups | endpoint/store/src/FileHandler.cpp:235-247 | Full chunks are squashed to operations of as many as fit, and a last one with the rest. |
| FileHandler.Reopens | endpoint/store/src/ChunkReader.cpp:30-32 | A file can be opened again exactly when it has no empty last chunk after whole ones. |
| FileHandler.TrailingChunkAfterWrite | endpoint/store/src/FileHandler.cpp:58-76 | Which writes leave such a chunk: exactly those of no bytes at a chunk boundary where the file ends (or they keep one that was there). |
| FileHandler.TrailingChunkExample | endpoint/store/src/FileHandler.cpp:58-58 | A concrete file that cannot be opened after a write of no bytes. |
| FileHandler.FreshAfterWrite | endpoint/store/src/ChunkReader.cpp:57-62 | A cached plain chunk left alone by a write is still right, or lies wholly past the end. |
| FileHandler.NextReached | endpoint/store/src/ChunkDataProvider.cpp:85-99 | One reported chunk keeps the raw cache in step with the file rewritten so far, for truncating and other writes. |
| FileHandler.Open | endpoint/store/src/ChunkReader.cpp:17-33 | Opening is refused only if a request fails or the sizes disagree. |
| FileWrites.WriteAtIsPatch | endpoint/store/src/FileHandler.cpp:50-55 | Filling the gap with zeros and patching is writing into a zero-extended byte array. |
| FileWrites.WriteTouches | endpoint/store/src/FileHandler.cpp:57-58 | The first and last chunk index bound exactly the touched range, for empty writes too. |
| FileWrites.GivenText | endpoint/store/src/FileHandler.cpp:64-76 | Cutting the data over the touched chunks gives every chunk its text in the file after the write. |
| FileWrites.PlainTotal | endpoint/store/src/FileHandler.cpp:168-173 | The summed plain changes give the size of the plain file after the write. |
| FileWrites.EncryptedTotal | endpoint/store/src/FileHandler.cpp:168-173 | The summed encrypted changes give the size of the encrypted file after the write. |
| FileWrites.SizesTelescope | endpoint/store/src/FileHandler.cpp:79-85 | Signed per-chunk changes of consecutive chunks telescope, for truncating and other writes. |
| FileWrites.SquashedOutcome | endpoint/store/src/FileHandler.cpp:222-250 | Applying the squashed operations, all but the last truncating, is one patch of the whole run. |
| FileWrites.TruncationOutcome | endpoint/store/src/FileHandler.cpp:186-186 | When that patch keeps what follows the run, and that it otherwise drops some of it. |
| Squashing.CreateListOfUpdateChanges | endpoint/store/src/FileHandler.cpp:222-250 | The loop computes the squashed operations. |
| Squashing.SquashPartitions | endpoint/store/src/FileHandler.cpp:222-250 | The operations partition the updates: same bytes and checksums in the same order, each at its first chunk's position; an operation of several chunks stays below the size limit. |
| Squashing.SquashContiguous | endpoint/store/src/FileHandler.cpp:235-247 | Each operation starts where the one before ended, in the file and in the checksums. |
| Squashing.PatchAllOutcome | endpoint/store/src/FileHandler.cpp:176-209 | Contiguous patches, all but the last truncating, are one patch of their concatenation. |
| Squashing.SquashGroups | endpoint/store/src/FileHandler.cpp:235-247 | The sizes of the operations, in terms of chunk lengths only. |
| Squashing.SingleGroup | endpoint/store/src/FileHandler.cpp:236-236 | One operation suffices exactly for one chunk or less than the size limit in all. |
| EncryptedFiles.RewriteRun | endpoint/store/src/FileHandler.cpp:48-118 | Patching re-encrypted chunks and their checksums over the old ones gives an encryption of the patched plain file, for every run of touched chunks. |
| EncryptedFiles.RepresentsUnique | endpoint/store/src/encryptors/fileData/ChunkEncryptor.cpp:36-49 | Server bytes and checksums determine plain text and number of chunks. |
| EncryptedFiles.LayoutAfter | endpoint/store/src/FileHandler.cpp:168-173 | The sizes of plain and encrypted file after a write are again those of a chunked file. |
| ChunkEncryption.ChunkEncryptor.RoundTrip | endpoint/store/src/encryptors/fileData/ChunkEncryptor.cpp:24-49 | Chunk decryption undoes encryption under the same number, and all checks pass. |
| ChunkEncryption.ChunkEncryptor.EncryptedFileSizeIs | endpoint/store/src/encryptors/fileData/ChunkEncryptor.cpp:60-74 | The closed formula is full chunks plus one last non-empty chunk. |
| CbcCipher.Aes256CbcPkcs7RoundTrip | endpoint/store/src/encryptors/fileData/ChunkEncryptor.cpp:27-47 | CBC decryption and unpadding undo padding and CBC encryption over any invertible block cipher. |
| HashList.HmacList.Set | endpoint/store/src/encryptors/fileData/HmacList.cpp:53-72 | Replacing or appending an entry is the patch that the server applies to its copy; the three refusals are exact. |
| HashList.HmacList.Sync | endpoint/store/src/encryptors/fileData/HmacList.cpp:29-41 | A list is accepted exactly if it matches the top hash and has whole entries; otherwise nothing changes. |
| HashList.HmacList.SetAll | endpoint/store/src/encryptors/fileData/HmacList.cpp:43-50 | Takes a list back, exactly if it has whole entries. |
| HashList.HmacList.GetHash | endpoint/store/src/encryptors/fileData/HmacList.cpp:74-79 | The entry of a chunk; index size is let through and gives the empty string. |
| HashList.HmacList.GetTopHash | endpoint/store/src/encryptors/fileData/HmacList.cpp:85-90 | The keyed digest of the current list, cached or not. |
| ChunkDataProvider.Provider.GetChunk | endpoint/store/src/ChunkDataProvider.cpp:59-75 | Exactly the bytes of the chunk in the server's file at the version asked for, from the cache or fetched; a mismatch error means the server has moved on. |
| ChunkDataProvider.Provider.Sync | endpoint/store/src/ChunkDataProvider.cpp:35-53 | The cache stays coherent for versions that do not decrease. |
| ChunkDataProvider.Provider.Update | endpoint/store/src/ChunkDataProvider.cpp:85-99 | Patches the cached server chunk exactly if the rewritten chunk lies in it. |
| ChunkDataProvider.ChunkOfServerChunk | endpoint/store/src/ChunkDataProvider.cpp:64-74 | Because the server chunk size is rounded up, a chunk is cut from one server chunk. |
| ChunkDataProvider.RoundedUp | endpoint/store/src/ChunkDataProvider.cpp:126-128 | The rounded size is a positive number of chunks and no less than asked for. |
| ChunkDataProvider.UpdateKeepsReached | endpoint/store/src/ChunkDataProvider.cpp:85-99 | Reporting a chunk keeps the cache right or still ahead of a truncating write. |
| ChunkReader.Reader.GetDecryptedChunk | endpoint/store/src/ChunkReader.cpp:43-50 | The plain chunk, whether cached or decrypted; no checksum is ever found wrong. |
| ChunkReader.Reader.ReadRange | endpoint/store/src/FileReader.cpp:35-41 | Appending chunks and cutting gives exactly the range asked for. |
| ByteStrings.PieceIsQuotient | endpoint/store/src/ChunkReader.cpp:35-41 | Chunk index and position in the chunk are quotient and remainder. |
| FileHandle.UploadAndRead | endpoint/store/src/FileHandle.cpp:96-147 | Data uploaded in any segments and read back from any position and length is the data from there on, clipped; only failed requests and a position past the end fail. |
| FileHandle.Upload | endpoint/store/src/FileHandle.cpp:132-147 | For every segmentation: the upload succeeds exactly when all declared bytes are there (unless a request fails), and the request then holds numbered pieces of an encryption of the data with exactly the declared sizes. |
| FileHandle.SegmentationInvisible | endpoint/store/src/ChunkStreamer.cpp:138-164 | Two uploads of equally long data give the same number of pieces with the same numbers and sizes, and the same declared sizes, however the data was segmented. |
| FileHandle.FileWriteHandle.Write | endpoint/store/src/FileHandle.cpp:132-138 | Processed and buffered bytes together are what was written; too much data is refused without effect; after a failed request the buffer still holds everything, also the chunks sent already, and the handle is spoiled. |
| FileHandle.UseAfterFailure | endpoint/store/src/FileHandle.cpp:132-147 | A spoiled handle stays so: an upload that is completed after any further writes and attempts lists some chunk at another place than its number. |
| FileHandle.FileWriteHandle.Finalize | endpoint/store/src/FileHandle.cpp:140-147 | Fails without effect unless all declared bytes have been written; else completes the upload. On a spoiled handle it commits a misnumbered list or nothing. |
| FileHandle.FileWriteHandle.CreateRequestData | endpoint/store/src/FileHandle.cpp:164-166 | Declares the sizes before anything is written. |
| FileHandle.FileReadHandle.Read | endpoint/store/src/FileHandle.cpp:96-103 | The window from the position, which moves by the length asked for even past the end. |
| FileHandle.FileReadHandle.Seek | endpoint/store/src/FileHandle.cpp:105-110 | Refused exactly for positions at or past the end. |
| FileHandle.FileReadHandle.Sync | endpoint/store/src/FileHandle.cpp:82-94 | Refused without effect exactly if the sizes disagree; otherwise takes the new key and chunk size to the encryptor, even if it then fails; is right exactly if the encrypted chunk size is still that of the data provider. |
| FileHandle.OpenForReading | endpoint/store/src/FileHandle.cpp:55-80 | Opening is refused only if a request fails or the sizes disagree. |
| FileReader.RangeReader.Read | endpoint/store/src/FileReader.cpp:31-42 | The window of the plain file, for every position and length. |
| ChunkStreamer.Streamer.Finalize | endpoint/store/src/ChunkStreamer.cpp:56-72 | After success all encrypted chunks have been sent and committed with their checksums. Unless a request fails it succeeds exactly if the total is no more than declared and the total with the last chunk counted twice no less. |
| ChunkStreamer.ShortDataExample | endpoint/store/src/ChunkStreamer.cpp:61-63 | Eighty bytes are accepted for a file of a hundred. |
| ChunkStreamer.Streamer.CommitFile | endpoint/store/src/ChunkStreamer.cpp:122-131 | Everything collected has been sent: full pieces, then a shorter non-empty one. |
| ChunkStreamer.Streamer.SendChunk | endpoint/store/src/ChunkStreamer.cpp:48-54 | Only full chunks are taken; others are refused without effect. |
| ChunkStreamer.Streamer.PrepareAndSendChunk | endpoint/store/src/ChunkStreamer.cpp:74-88 | One more chunk of plain text is held by what was encrypted, and less than a piece is left unsent; more than declared is refused without effect. If a request fails, the chunk is listed and its number is used again. |
| ChunkStreamer.Streamer.SendFullChunksWhileCollected | endpoint/store/src/ChunkStreamer.cpp:138-146 | All full pieces of the buffer are sent with consecutive numbers. |
| ChunkStreamer.PiecesConserve | endpoint/store/src/ChunkStreamer.cpp:138-164 | The pieces sent concatenate to the encrypted chunks. |
| ChunkStreamer.DeclaredSizes | endpoint/store/src/ChunkStreamer.cpp:90-109 | The sizes declared up front are the lengths of the encrypted file and of its checksums, and agree with the size checked on opening. |
| ChunkStreamer.ChunkCollected | endpoint/store/src/ChunkStreamer.cpp:110-120 | A chunk encrypted under the next number extends the encrypted file. |
| ChunkBufferedStream.Stream.Write | endpoint/store/src/ChunkBufferedStream.cpp:30-37 | Appends, unless that would exceed the declared length; then nothing changes. |
| ChunkBufferedStream.Stream.ReadChunk | endpoint/store/src/ChunkBufferedStream.cpp:22-28 | Takes up to one chunk off the front and loses nothing. |
| ChunkBufferedStream.Stream.FreeFullChunks | endpoint/store/src/ChunkBufferedStream.cpp:42-45 | Drops exactly the full chunks. |
| StoreRuns.WhoHoldsWhat | endpoint/store/src/StoreApiImpl.cpp:182-247 | At any time in any run whose forced updates are harmless when they arrive: a member holds every key generated so far; a user holds a key exactly if he was a member at some time since it was generated; the current key is held by exactly the members. |
| StoreRuns.RemovedUserLearnsNothing | endpoint/store/src/StoreApiImpl.cpp:182-247 | A user who is not a member from some time on holds no key generated later. |
| StoreRuns.NextKeeps | endpoint/store/src/StoreApiImpl.cpp:163-250 | Every step (preparing an update, its arrival at the server in any order, forced ones late as long as they are harmless) keeps the invariant. |
| StoreRuns.DeliveryIff | endpoint/store/src/StoreApiImpl.cpp:233-234 | After any delivery, however late, the keys are as they should be exactly if the update was not forced or is harmless. |
| StoreRuns.Bridge.Execute | endpoint/store/src/StoreApiImpl.cpp:163-250 | Preparing and delivering updates are steps of the state machine; users who are not members cannot prepare any. Every delivery is carried out, and leaves the keys as they should be exactly if it is not forced or is harmless. |
| StoreRuns.StoreCreate | endpoint/store/src/StoreApiImpl.cpp:103-152 | A new Store satisfies the invariant: one key, held by exactly its members. |
| StoreRuns.OvertakenForcedExample | endpoint/store/src/StoreApiImpl.cpp:233-234 | A forced update that was overtaken and does harm: it leaves a new member without the newest key. |
| StoreKeys.AcceptIff | endpoint/store/src/StoreApiImpl.cpp:182-247 | Any honest update, applied to whatever record it meets, keeps the invariant exactly if every later member holds each key or gets it, a new key reaches all of them, and an old key stays in use only if all its holders are later members. |
| StoreKeys.PreparedIsHarmless | endpoint/store/src/StoreApiImpl.cpp:182-247 | An update applied to the record it was prepared from meets that condition. |
| StoreKeys.UpdateStore | endpoint/store/src/StoreApiImpl.cpp:176-244 | Succeeds exactly for members; asks for a new key exactly when someone leaves or it is forced; gives a new key to everyone and all old ones to newcomers. |
| StoreKeys.GetAndValidateModuleKeys | endpoint/core/src/KeyProvider.cpp:214-262 | A user finds exactly the keys he holds, and no check of an honest container fails. |
| StoreKeys.PrepareKeys | endpoint/store/src/StoreApiImpl.cpp:194-216 | All entries are good ones for the new users; a new key reaches everyone, the old ones all newcomers. |
| StoreKeys.MembersHoldEveryKey | endpoint/store/src/StoreApiImpl.cpp:206-216 | Every member holds every key generated so far. |
| StoreKeys.CurrentKeyHolders | endpoint/store/src/StoreApiImpl.cpp:195-204 | The current key is held by exactly the members. |
| UsersKeysResolver.Resolver.constructor | endpoint/core/src/UsersKeysResolver.cpp:29-54 | A new key is needed exactly when an old user or manager is gone or it is forced; old keys go to exactly the users who are new, or to all if the key is of the first version. |
| UsersKeysResolver.Changes | endpoint/core/src/UsersKeysResolver.cpp:37-42 | Who left and who came, by ids. |
| KeyProvider.Provider.PrepareKeysList | endpoint/core/src/KeyProvider.cpp:138-150 | One entry for each user, sealed for his public key, with the key secret tied to the container secret. |
| KeyProvider.Provider.PrepareMissingKeysForNewUsers | endpoint/core/src/KeyProvider.cpp:152-174 | Every valid old key for every user and nothing else, with the key's own random id, in whatever order the hash map is gone through. |
| KeyProvider.Provider.VerifyKeysSecret | endpoint/core/src/KeyProvider.cpp:201-212 | True exactly if all keys are valid and those of the second version belong to the container's secret. |
| KeyProvider.Provider.DecryptAndVerifyKeys | endpoint/core/src/KeyProvider.cpp:214-262 | Each entry decrypted and checked for its container, then duplicates marked. |
| KeyProvider.VerifyForDuplication | endpoint/core/src/KeyProvider.cpp:277-291 | In every order of the map, marks exactly the valid keys with a creator that share random id and timestamp with another such key, and changes nothing else. |
| EndpointUtils.GetDifference | endpoint/core/src/EndpointUtils.cpp:37-54 | For a base list without repeats, exactly its elements absent from the other list; never leaves one out. |
| EndpointUtils.SkippingExact | endpoint/core/src/EndpointUtils.cpp:44-52 | Skipping the common beginning of sorted lists gives the set difference exactly when it does not split a run of repeats of the base list. |
| EndpointUtils.RepeatExample | endpoint/core/src/EndpointUtils.cpp:44-52 | A base list with a repeat for which an element is wrongly reported. |
| EndpointUtils.UniqueList | endpoint/core/src/EndpointUtils.cpp:56-67 | The elements of both lists, once each, in ascending order. |
| EndpointUtils.UniqueListUserWithPubKey | endpoint/core/src/EndpointUtils.cpp:21-34 | Keeps all users exactly when no two different ones have the same id and public key run together. |
| EndpointUtils.FixedLengthUnambiguous | endpoint/core/src/EndpointUtils.cpp:23-28 | Public keys of one length rule that out. |
| EndpointUtils.AmbiguousExample | endpoint/core/src/EndpointUtils.cpp:23-28 | Two users that are taken for one. |
| Bip39.EntropyRoundTrip | crypto/base/src/BIP39.cpp:51-112 | Every entropy of 16, 20, 24, 28 or 32 bytes comes back from its mnemonic; all others are refused. |
| Bip39.MnemonicRoundTrip | crypto/base/src/BIP39.cpp:51-112 | Every accepted mnemonic comes back from its entropy. |
| Bip39.MnemonicIffReads | crypto/base/src/BIP39.cpp:51-112 | A text is the mnemonic of an entropy exactly if it is read as that entropy. |
| Bip39.EntropyToMnemonic | crypto/base/src/BIP39.cpp:51-74 | The words numbered by the 11-bit groups of entropy and checksum. |
| Bip39.MnemonicToEntropy | crypto/base/src/BIP39.cpp:76-112 | Accepts exactly the readable mnemonics; unknown words and a wrong count are told apart from the rest. |
| Bip39.DeriveChecksumBits | crypto/base/src/BIP39.cpp:125-139 | The first bits of the digest, a quarter as many as the entropy has bytes, and zeros after them. |
| Bip39.IndexOfWord | crypto/base/src/BIP39.cpp:141-148 | The position of a word, or -1 exactly if it is not in the list. |
| Bip39.FillByte | crypto/base/src/BIP39.cpp:85-99 | The bits put into a byte are the next bits of the words, zeros after their end. |
| Bip39.AppendWords | crypto/base/src/BIP39.cpp:60-72 | The words appended are those of the whole 11-bit groups. |
| Bip39.PackUnpacks | crypto/base/src/BIP39.cpp:62-71 | Packing the bits of words gives the words back. |
| Bip39.Packed | crypto/base/src/BIP39.cpp:62-71 | Packing loses no bit. |
| CryptoEnvelope.EnvelopeRoundTrip | crypto/openssl/src/CryptoService.cpp:289-314 | For all data, keys and vectors: decryption undoes encryption exactly for tags of up to 32 bytes. |
| CryptoEnvelope.FirstBlockIsIv | crypto/openssl/src/CryptoService.cpp:295-297 | What is encrypted after a first block is encrypted with that block's cipher text as its vector. |
| CryptoEnvelope.ChangedTagRefused | crypto/openssl/src/CryptoService.cpp:289-314 | An encrypted text whose tag is replaced by any other of the same length is refused. |
| CryptoEnvelope.Kdf | crypto/openssl/src/CryptoService.cpp:263-278 | For every length, key and label the loop gives that many bytes of the chained key stream. |
| CryptoEnvelope.KeyStreamChained | crypto/openssl/src/CryptoService.cpp:268-276 | Every block of the stream is the digest of the block before, its own number, the label and the length. |
| CryptoEnvelope.NoIvRoundTrip | crypto/openssl/src/CryptoService.cpp:316-337 | Round trip of the first cipher type with the same vector; without one it is refused. |
| CryptoEnvelope.WithIvRoundTrip | crypto/openssl/src/CryptoService.cpp:320-339 | Round trip of the second type, whatever vector is passed along. |
| CryptoEnvelope.HmacRoundTrip | crypto/openssl/src/CryptoService.cpp:324-343 | Round trip of the fourth type, exactly for tags of up to 32 bytes. |
| CryptoPrivmx.PrivmxEncrypt | crypto/base/src/CryptoPrivmx.cpp:32-66 | Which options are refused and why, and the envelope for all others. |
| CryptoPrivmx.EncryptAndDecrypt | crypto/base/src/CryptoPrivmx.cpp:32-77 | Decrypting gives the data back exactly if the vector was attached or is passed, and the tag is short enough; unsigned data is not accepted as signed. |
| CryptoPrivmx.SealedLengthIs | crypto/base/src/CryptoPrivmx.cpp:32-58 | Encrypted lengths under all options. |
| CryptoPrivmx.BlockSizeIsExact | crypto/base/src/CryptoPrivmx.cpp:21-30 | The block size is the largest plain length that fits, for every block, exactly under options without a tag or with one no longer than a digest. |
| CryptoPrivmx.WithinBlockSizeFits | crypto/base/src/CryptoPrivmx.cpp:21-30 | With any tag what is within the block size fits. |
| CryptoPrivmx.LongTagTooSmall | crypto/base/src/CryptoPrivmx.cpp:26-28 | With every longer tag there is a block into which one byte fits and for which none is allowed. |
| SrpLogic.SecretsAgree | crypto/base/src/SrpLogic.cpp:71-77 | Client and server compute the same secret, for all values. |
| SrpLogic.ClientBase | crypto/base/src/SrpLogic.cpp:73-73 | The truncated remainder is congruent to the server's power of g, negative or not. |
| SrpLogic.NegativeBaseExample | crypto/base/src/SrpLogic.cpp:73-73 | The base can be negative. |
| Subscriber.ReadBackIffClean | endpoint/core/src/Subscriber.cpp:21-60 | A query with a path is read back from its text exactly when no part has a separator that would cut it, the last part of the path is not empty and no selector value is. |
| Subscriber.PrintAndParse | endpoint/core/src/Subscriber.cpp:21-60 | The same for the printing and parsing loops. |
| Subscriber.ToSubscriptionQueryString | endpoint/core/src/Subscriber.cpp:48-60 | Ending every part and taking the last character off twice is joining. |
| Subscriber.Parse | endpoint/core/src/Subscriber.cpp:21-46 | The loops read the text as specified, with both refusals. |
| Subscriber.LostPart | endpoint/core/src/Subscriber.cpp:28-28 | An empty last part of the path is lost. |
| Subscriber.LostValue | endpoint/core/src/Subscriber.cpp:34-37 | An empty selector value is refused. |
| Utils.Split | utils/src/Utils.cpp:259-268 | The loop reads lines: an empty last line is no line. |
| Utils.LinesOfJoined | utils/src/Utils.cpp:259-268 | Reading lines undoes joining, but for an empty last part. |
| Utils.SplitByString | utils/src/Utils.cpp:270-282 | Ends for every non-empty delimiter; the tokens put together are the data, and none contains the delimiter. |

## Left out

- Integer widths: lengths and versions are unbounded. The 32-bit chunk number of the data provider is kept as a precondition (below 0xFFFF_FFFF, which marks the empty cache); wrap-around of 64-bit sizes, of sums of positions and lengths, and of `int` block sizes is not modelled.
- FileHandler.Handler.Write: does not model failures while encrypting the metadata, which come after the hash list has been changed and outside the rollback; the metadata itself is reduced to checksum, size, key and chunk size.
- ChunkDataProvider.Provider.Sync: the optional new chunk sizes, which no caller gives.
- FileHandle.FileWriteHandle.Finalize: what a second attempt does after a request of the first one failed.
- Runs of files: other clients' writes between the requests of one read or write; they come before or after it.
- The server: its checks of versions, positions and declared sizes are a model; its code is not part of this repository. A read names its version and fails on any other.
- ChunkDataProvider.Provider.GetChunk: the second cache field, the file size on the server, is kept but never used, as in the source.
- StoreKeys.GetAndValidateModuleKeys: containers all of whose entries are of the second version and come from honest members.
- KeyProvider.Provider.DecryptAndVerifyKeys: entries of the first version, and decoding errors, which the source throws on.
- Keys of the first version: their entries are not modelled; where the source branches on the version, the branch is (UsersKeysResolver.Resolver.constructor, PrepareMissingKeysForNewUsers, VerifyKeysSecret).
- Users who change their public key: they are not taken for new ones, so they get no old keys under the new one; the run theorems suppose one key each.
- Verification of a key's author by an external user verifier; signatures and encryption of single entries are taken to work.
- StoreKeys.UpdateStore: the cached key list, policies and the encrypted metadata besides the secret are not modelled.
- Bip39.MnemonicToEntropy: that the built-in list has 2048 different words without spaces is supposed, not checked; the derivation of seeds is left out.
- Subscriber.ToSubscriptionQueryString: an empty path, for which the source takes a character off an empty string.
- Utils.SplitByString: the empty delimiter, for which the source does not end.
- CryptoEnvelope.EnvelopeRoundTrip: vectors of 1 to 15 bytes, for which the source reads beyond the string.
- SRP: padding, hashes and the messages M1 and M2 are not modelled; big integers are integers, and a power modulo N is never negative.
- The driver variant of the crypto service, which has the same envelopes; events, mappers, validators, serialization, remote calls, threads and user interfaces.
