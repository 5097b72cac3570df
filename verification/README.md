# A verified model of RUFS

RUFS is a peer-to-peer file share. A master keeps an index of who has which file, peers scan their
shares and serve them, and readers fetch fixed-size blocks by content hash. This project models the
parts of it that change state step by step and proves what they are for:

- **The master's file index**, three times: `InMemory` (a heap of mutable directories with child
  counts and a hash/owner count index), `Bolt` (nested buckets with pruning, and two secondary
  indices) and `Sqlite` (a table and a directory cache kept up incrementally). `FileIndex` is the one
  flat map from path to info and owner that all three refine, `DirTree` the tree that the first two
  share, `Paths` the joining and splitting of path strings, and `Backends` puts the three side by side.
- **Sessions** on the master (`Sessions`): which connection may publish what, and what the table
  holds after any run of connections, sign-ins, publications and disconnects.
- **The block-cached reader**, twice: `FetchProtocol` is a step machine with one step per lock section
  for any number of readers and fetches, `Handle` and `Stream` are classes over arrays for one reader.
  `Blocks` is the arithmetic that both use.
- **The scanner and the reverse index** (`Scanner`, `ReverseIndex`): the file cache in step with a
  filesystem, the listeners, and the index from hash to paths, serialised and interleaved.
- **Reconnection** (`Reconnect`): the client's `Call`, which redials and runs callbacks that `Call`.

Imperative code is a class or method proved against functions of the old state; what the code is for
is proved about those functions as lemmas.

## Where the code falls short of its intent

The literal code is modelled, the exact condition under which it is right is proved for all inputs,
and where the intended property needs it a minimal repair is modelled beside it. The word REPAIR in the
table marks the two repairs.

- `database_inmem.go:69-77`: the pruning loop runs in the wrong direction under the wrong guard.
  `SetFileLocked` takes a parameter `repaired`; `PruneRepaired` runs from the deepest directory up.
- `database_sqlite.go:125-133`: the loop ends after one ancestor level. `Database.SetFile` takes a
  parameter `repaired`; `UpdateRepaired` goes up until a child is already listed, as the rebuild does.
- `database_bolt.go:144-172` and `:222`: byHash can keep a stale owner, forget one, list one twice, and
  is read with another separator than it was written with. The literal code is modelled; see
  `HashesStayExactIff`, `NoneStaleKeptIff`, `AddOwnerRepeatsIff` and `Database.GetOwners`.
- `database_bolt.go:86-104` and `:127`: when two peers publish one path byOwner names it twice, the first
  to leave takes the file, and the second's departure panics (`OwnersStayExactIff`,
  `Database.PeerDisconnected`, `SharedPathPanics`).
- `database_inmem.go:61`: the decrement is charged to the caller (`CountsStayExactIff`).
- `fetch.go:107-222`: reads beyond the last block and empty reads at a block boundary panic, or end
  without bytes and without an error (`PfHandle.Read`, `StartPanicsIff`); one reader's purging can make
  another's read end that way (`StartKeepsHoldsIff`, `GrabDeliversIff`, `PurgedUnderReader`).
- `filescanner/filescanner.go:192-208`: an export can deliver an entry after a newer one was set
  (`StaysSettledIff`, `LateExportStays`).
- `master.go:192-200`: a late disconnect takes the rows of a newer connection of the same ident
  (`DisconnectMirrorsIff`, `LateDisconnectErases`).
- `types.go:56-76`: overlapping Calls can lose the reconnect callback (`CallbackSurvivesIff`). A redial
  after a callback's request was answered leaves that answer behind on a dead connection (`CallRuns`,
  `SecondCallbackMovesOn`); as server.go registers its callbacks this does not happen
  (`OneRequestIsSafe`).

## Assumptions

- A lock section, with the callbacks it leads to, is one step. SetFile requests of one connection
  reach the master in order.
- All peers return the same content for a hash, at exactly the requested range; an answer without
  bytes arrives as nil.
- User names, and so certificates' names, contain no `/`; share names and paths contain no NUL; idents
  are not empty and contain no NUL.
- Nothing is assumed about who publishes a path: the databases take any caller, and what depends on one
  publisher per path is stated with the condition `OneOwner`. The master's path prefix provides it
  across users but not within one: a user's connections at two addresses may publish the same path
  (`OnePeerIff`, `TwoAddressesOnePath`).
- The TLS checks are an input, the user that a connection proved; whether the master could connect back
  is an input of Signin.
- The filesystem is fixed during a pass, and `readable` says which files can be hashed.

## Model

| member | source | states |
|---|---|---|
| `Paths.RoundTripExactly` | database_bolt.go:97-206 | A component list survives being joined and split again exactly when it is non-empty and no component contains the separator (line 97 joins, line 206 splits). |
| `Paths.SplitOnOther` | database_bolt.go:158-222 | A list joined on one separator and split on another comes back right exactly when the string contains neither. |
| `Paths.JoinOfSplit` | master.go:159 | Splitting a request path loses nothing: joining gives the string back. |
| `Paths.NamesSplitOff` | master.go:159-164 | The components of a directory string contain no slash, so a component is valid exactly when it is neither empty nor begins with a dot. |
| `FileIndex.SurvivorsHaveAnotherOwner` | database_inmem.go:92-102 | After a disconnect every file left has another owner among the files left, and no other peer lost a file. |
| `FileIndex.SharedFileSurvives` | database_inmem.go:92-102 | A file whose hash another peer has stays, as it is. |
| `FileIndex.GoneExactly` | database_inmem.go:92-102 | The peer is gone from the index exactly when no other peer has one of its hashes; otherwise entries of the departed peer stay. |
| `DirTree.StoredDirs` | database_bolt.go:111-123 | In a tree that implements a flat map the stored directories are exactly those above some file, so none below the root is empty. |
| `DirTree.NodeIsListing` | database_bolt.go:250-257 | A directory node holds exactly the files and subdirectories that the flat map implies. |
| `DirTree.MakeDirsKeeps` | database_bolt.go:111-123 | Making missing directories adds exactly the prefixes of the path and stores no file. |
| `DirTree.PruneKeeps` | database_bolt.go:134-143 | After a file is gone, pruning upward leaves no empty directory at any depth and touches no file. |
| `DirTree.PutRefines` | database_bolt.go:106-149 | A put on the tree changes exactly that path of the flat map. |
| `DirTree.DeleteRefines` | database_bolt.go:124-143 | A delete of a stored path removes exactly that path of the flat map. |
| `DirTree.CrowdedExactly` | database_inmem.go:67-77 | After a delete the directory still has an entry exactly when another file lies below it. |
| `InMemory.CountsStayExactIff` | database_inmem.go:60-88 | owners[h][o] stays the positive number of live files of o with hash h, over any put or delete, exactly when the path is new or was published by the caller. |
| `InMemory.CountsPositive` | database_inmem.go:60-65 | With one owner per path no zero or negative count is stored. |
| `InMemory.OthersDeleteGoesNegative` | database_inmem.go:60-65 | A delete by another peer than the publisher stores the count -1 for the caller and keeps the publisher's count. |
| `InMemory.OwnersAreThoseListed` | database_inmem.go:123-131 | With exact counts the keys of owners[h] are exactly the peers with a live file of that hash. |
| `InMemory.HashesStayKnown` | database_inmem.go:60-88 | Every live file's hash keeps an inner map, whoever puts or deletes, so that the decrement never meets a nil map. |
| `InMemory.VictimsAreOwn` | database_inmem.go:95-100 | With exact counts the hashes whose inner map names only the peer are exactly those that only the peer has, and their files are its own. |
| `InMemory.Database.Descend` | database_inmem.go:42-58 | trace[i] is the directory at ex[0..i]; a put makes exactly the missing directories and keeps refs equal to the number of children everywhere; a delete changes nothing and stops when a directory is missing. |
| `InMemory.Database.PruneRepaired` | database_inmem.go:69-77 | REPAIR of the loop's direction, guard and root step: after it no directory below the root is empty, refs is exact again, and directories that left the tree are empty. |
| `InMemory.Database.PruneAsWritten` | database_inmem.go:69-77 | The loop as written changes no directory entry, and panics exactly for a one-component path or a two-component path whose directory became empty. |
| `InMemory.Database.SetFileLocked` | database_inmem.go:40-90 | For any path and caller the flat map changes at exactly that path, and exact counts stay exact exactly when the path is new or was published by the caller; with the repaired loop every tree invariant holds; as written they hold, without a panic, exactly for puts, for deletes of missing paths, and for two-component paths whose directory keeps another file. |
| `InMemory.OnlyFileDeletedAsWritten` | database_inmem.go:66-79 | As written, putting one file and deleting it panics or breaks the tree, for a path of any depth. |
| `InMemory.Database.SearchAndDestroy` | database_inmem.go:104-121 | The walk that deletes while it traverses terminates and removes exactly the victims below its directory (with the repaired loop). |
| `InMemory.Database.FindVictims` | database_inmem.go:95-100 | The loop finds exactly the hashes whose inner map names the peer and nobody else. |
| `InMemory.Database.PeerDisconnected` | database_inmem.go:92-102 | Exactly the files of the victims are removed and the tree stays exact (with the repaired loop); with exact counts these are exactly the files whose hash no other peer has, and the counts stay exact. |
| `InMemory.Database.GetOwners` | database_inmem.go:123-131 | Each peer in the hash's inner map, once; with exact counts exactly the peers with a live file of the hash. |
| `InMemory.Database.GetDir` | database_inmem.go:133-156 | A listing exactly for valid paths of existing directories: the files and subdirectories of the flat map, none twice; otherwise the error of the first component at which the walk stops, empty or hidden before missing. |
| `Bolt.Descend` | database_bolt.go:107-123 | The buckets on the way are opened or made; it fails exactly when a file lies on the way; parents are the ancestors, root first. |
| `Bolt.PruneUpward` | database_bolt.go:134-143 | Popping parents removes the emptied buckets from the bottom up to the first that is not empty, for any depth. |
| `Bolt.UpdateFiles` | database_bolt.go:106-149 | A put fails exactly on a file/directory clash, a delete of a missing path panics, and otherwise exactly that path of the flat map changes. |
| `Bolt.AddOwnerAppends` | database_bolt.go:165-172 | The stored list read back is the old list and the owner at its end, even when it is there already. |
| `Bolt.AddOwnerRepeatsIff` | database_bolt.go:165-172 | A list without repeats stays so exactly when the owner was not on it. |
| `Bolt.DropOwner` | database_bolt.go:155-164 | Every occurrence of the owner leaves the list, the others keep their order. |
| `Bolt.OthersInOrder` | database_bolt.go:155-164 | What leaves a list leaves it entry by entry; the rest keeps its order and repeats. |
| `Bolt.OthersOfOne` | database_bolt.go:158-162 | An entry stays exactly when it is not the owner. |
| `Bolt.UpdateByHash` | database_bolt.go:151-181 | The owner is added at the end of the one list even if it is on it, or all its occurrences go; every other list stays the same sequence; an empty hash cannot be put. |
| `Bolt.EntriesGiveLists` | database_bolt.go:151-181 | So the set of owners of the one hash gains or loses exactly the caller, and the others keep theirs. |
| `Bolt.HashesStayExactIff` | database_bolt.go:151-181 | For any caller byHash goes on naming exactly the publishers exactly when: a put finds another file of the old publisher with the old hash, or keeps hash and publisher; a publisher's delete finds none; another peer's delete finds one, and that peer is not listed. |
| `Bolt.NoneStaleKeptIff` | database_bolt.go:151-181 | Without stale owners before, a put or delete leaves none exactly when the old file's publisher has another file of its hash, was not listed, or itself deletes the file or keeps its hash. |
| `Bolt.ReputLeavesStaleOwner` | database_bolt.go:144-172 | A file put again under another hash leaves its owner on the old hash's list. |
| `Bolt.SharedHashIsForgotten` | database_bolt.go:154-164 | Of two files of one peer with one hash, deleting one takes the peer off the list. |
| `Bolt.UpdateByOwner` | database_bolt.go:86-104 | The path's name joins or leaves the caller's bucket, and nothing else moves. |
| `Bolt.OwnersStayExactIff` | database_bolt.go:86-104 | byOwner stays exactly the paths that each peer published last exactly when the path is new or was published by the caller, for puts and deletes. |
| `Bolt.EndingIs` | database_bolt.go:81-185 | A put commits exactly when its hash is not empty and no stored file lies above or below its path, a deletion exactly when its path is stored and none lies above; a deletion panics exactly when the path is not stored and no file lies above. |
| `Bolt.Database.SetFile` | database_bolt.go:81-185 | For any caller the outcome is decided by the flat map alone; a committed call changes exactly that path in the tree, exactly that name in the caller's bucket and one list, by the caller at its end or by all its occurrences, and keeps each secondary index exact under its exact condition; an error or panic changes nothing. |
| `Bolt.TurnEnds` | database_bolt.go:205-210 | When a claimed path has its turn its deletion commits exactly if it was stored at the start, and panics exactly if it was not and every file above it is claimed too. |
| `Bolt.Database.PeerDisconnected` | database_bolt.go:187-212 | Everything goes well exactly when all the peer's claimed paths are stored; it panics exactly when one is neither stored nor below a file that it does not claim; only claimed paths go and other buckets are untouched; without a panic exactly the claimed paths are gone, the bucket keeps exactly the names that were not stored, and the peer has left exactly the lists of the hashes it lost a file of. |
| `Bolt.OwnFilesGone` | database_bolt.go:187-212 | With an exact byOwner exactly the peer's own files are gone, nothing fails, byOwner is exact again and the peer's bucket empty; it has left exactly the lists of hashes it published, so it is on no list exactly when it was on no list of a hash it did not publish, and an exact byHash is exact again. |
| `Bolt.SharedPathPanics` | database_bolt.go:187-212 | A run in which two peers publish one path: the first to leave takes the file, and when the second leaves its deletion panics. |
| `Bolt.Database.GetOwners` | database_bolt.go:214-231 | The reply equals the stored owner list exactly when the list contains neither a NUL nor a slash; whatever it is, its parts contain no slash, and joined on slashes they are the owners joined on NULs. |
| `Bolt.Database.GetDir` | database_bolt.go:233-265 | A listing exactly for existing directories, with exactly the flat map's files and subdirectories. |
| `Sqlite.KeyAndPath` | database_sqlite.go:114-121 | Directory and file of a stored row give the path back. |
| `Sqlite.ThroughRow` | database_sqlite.go:114-203 | What comes back from a row has the size and hash that went in, and a time that is whole seconds and at most a second earlier. |
| `Sqlite.AddDirectory` | database_sqlite.go:231-242 | Entering one directory from the leaf up and stopping at the first known child loses nothing and lists no child twice: the partial cache is ancestor-closed. |
| `Sqlite.UpdateDirCache` | database_sqlite.go:218-245 | The rebuild names every directory's children exactly once, whatever the order of the rows, and makes no empty list. |
| `Sqlite.UpdateAsWritten` | database_sqlite.go:123-136 | The loop as written adds the directory to its parent's list and goes no further; the directory has a list of its own afterwards, and the cache is left alone if it had one before. |
| `Sqlite.UpdateRepaired` | database_sqlite.go:123-136 | REPAIR: going up until a child is already listed keeps the cache in agreement with the table and free of duplicates. |
| `Sqlite.AgreesAsWrittenIff` | database_sqlite.go:123-136 | As written the cache stays in agreement with the table exactly when the directory's parent was known before. |
| `Sqlite.NoneTwiceAsWrittenIff` | database_sqlite.go:124-134 | As written a child is listed twice exactly when its directory was known but had no list of its own. |
| `Sqlite.TwiceAfterRebuildIff` | database_sqlite.go:124-134 | After a rebuild that is exactly when the directory is stored and has no subdirectories. |
| `Sqlite.PutTwiceListsTwice` | database_sqlite.go:123-136 | A run as written: a put, a listing and the same put again list the directory twice. |
| `Sqlite.AsWrittenLosesAnAncestor` | database_sqlite.go:123-136 | The first put below a user, into an empty cache, leaves the user out of the root's list. |
| `Sqlite.StoredAfterPut` | database_sqlite.go:114-122 | A put adds its directory to those stored, and only that. |
| `Sqlite.DroppedPeerOwnsNothing` | database_sqlite.go:79-83 | After the rows of a peer are deleted each hash has exactly its other owners. |
| `Sqlite.Database.SetFile` | database_sqlite.go:107-141 | The row gets the published size and hash and the whole seconds of the time, or is deleted; a delete throws the cache away; a cache that is there has a list for the directory after a put; the cache agrees and has no duplicates afterwards, always with the repaired loop, as written under the exact conditions. |
| `Sqlite.Database.PeerDisconnected` | database_sqlite.go:143-149 | The other peers' rows stay as they are and the peer has none, so that each hash keeps exactly its other owners; the cache, now absent, agrees with the table. |
| `Sqlite.Database.GetOwners` | database_sqlite.go:151-173 | Each peer with a row of that hash, once. |
| `Sqlite.Database.GetDir` | database_sqlite.go:175-210 | From any cache: one info per name in the directory, with the size, the hash and the whole seconds of some peer's row, so of the published info when the path has one row; the subdirectories are exactly what the cache lists, after a rebuild if there is none; these are exactly the table's children when the cache agrees, and none twice when it has none twice. |
| `Backends.TableFollows` | database_sqlite.go:107-141 | One row per file of the flat map is kept by every put and delete of the publishing peer. |
| `Backends.OnlyTheFractionIsLost` | database_sqlite.go:199-203 | In a listing up to whole seconds each size and hash is the published one, and each time is whole seconds and less than a second early. |
| `Backends.RunInMemory` | database_inmem.go:40-90 | After any admissible changes the in-memory tree implements their outcome on the flat map. |
| `Backends.ListBolt` | database_bolt.go:233-265 | After any admissible changes the Bolt listing is the flat map's. |
| `Backends.ListSqlite` | database_sqlite.go:175-210 | After any admissible changes, with listings asked for in between, the SQLite listing has the flat map's names and subdirectories, the published sizes and hashes, and times that are multiples of 1_000_000_000 nanoseconds and less than that early. |
| `Backends.ListEverywhere` | database_sqlite.go:175-210 | All three databases (repaired in-memory and SQLite) list every directory alike after the same changes: same names, sizes and hashes, same subdirectories, none twice; the same times in two of them, and in SQLite those without their fraction of a second. |
| `Sessions.PrefixedIsValid` | master.go:159-164 | What passes the checks is a path of valid components below the user's own name. |
| `Sessions.SetFileKeeps` | master.go:154-166 | SetFile keeps the table equal to the union of what the live connections published. |
| `Sessions.SigninMirrorsIff` | master.go:147-150 | A sign-in keeps the table a mirror exactly when the connection has published nothing or keeps its ident. |
| `Sessions.SigninKeepsIff` | master.go:116-152 | A sign-in keeps the whole invariant exactly when it reuses no live ident and does not rename a connection that has published. |
| `Sessions.DisconnectMirrorsIff` | master.go:192-200 | Dropping a connection's rows leaves a mirror of the others exactly when no other live connection of the same ident has published. |
| `Sessions.LateDisconnectErases` | master.go:192-200 | A run in which a peer reconnects before its first connection is noticed as gone: the late disconnect erases the second connection's rows. |
| `Sessions.EveryRunMirrors` | master.go:79-200 | Over every run of connections, sign-ins, publications and disconnects the table is the union of the live connections' own net publications, below each owner's user name. |
| `Sessions.OwnersAreLive` | master.go:183-190 | GetOwners names exactly the live connections that now publish the hash. |
| `Sessions.RowIsOwn` | master.go:154-166 | A connection's row holds what that connection published last. |
| `Sessions.AddressedSignedIn` | master.go:116-152 | In every run a live connection with an address has an earlier sign-in of its own, with version 1, under its certificate's name, at an address where the master reached it, and no disconnect since. |
| `Sessions.OnePeerIff` | master.go:159-165 | A request's path has no other publisher in the table exactly when no other live connection publishes it, and one that does is a connection of the same user. |
| `Sessions.TwoAddressesOnePath` | master.go:147-165 | A run in which one user's two connections, at two addresses, publish one path while every invariant holds. |
| `Sessions.Master.Signin` | master.go:116-152 | Refused exactly when the version is not 1, the user is empty, the certificate is missing or another's, or an address is given that cannot be reached, and then no field of the peer changes; otherwise the user is set, and with an address it is completed with the remote host when it begins with a colon and becomes the ident after the user's name. |
| `Sessions.Master.SetFile` | master.go:154-166 | Refused exactly without an address or when the user's name or a component of the path is empty or begins with a dot, and then the table is unchanged; otherwise exactly the caller's row for that path below the user's name changes. |
| `Sessions.Master.Disconnected` | master.go:192-200 | Exactly the rows of the peer's ident go if it had an address, and nothing otherwise; the connection is gone. |
| `Sessions.Master.GetOwners` | master.go:183-190 | Refused before sign-in; otherwise the peers of the table with that hash, each once. |
| `Blocks.EndCovers` | fetch.go:180 | The block list ends with the least block that covers the end of the read. |
| `Blocks.ConcatOfBlocks` | fetch.go:220-249 | Consecutive blocks of the content joined are the content between their bounds. |
| `Blocks.AssembleExact` | fetch.go:229-254 | Cutting the last block, trimming the first and joining gives exactly the requested part, for every block size, also when first and last block are one. |
| `Blocks.WithinFileIff` | fetch.go:177-182 | Every block of a read starts inside the file exactly when the read ends within the file size rounded up to blocks; then every block has a cache slot. |
| `Blocks.SupportedRange` | fetch.go:107-182 | The reads that need at least one block and none beyond the last are exactly those ending within the rounded size and, if of no bytes, not at a block boundary. |
| `Blocks.OutOfRangeIs` | fetch.go:107-196 | A read indexes out of range exactly when it starts in the file and has no bytes at a block boundary, or ends beyond size / blockSize + 1 blocks. |
| `Blocks.EmptyReadIsEmpty` | fetch.go:229-254 | A read of no bytes from inside a block gives no bytes. |
| `Blocks.AlignedFits` | fetch.go:177-182 | When the buffer divides the block size and the offset, the read stays inside one block and the next offset is again a multiple. |
| `Handle.PfHandle.RealFetch` | fetch.go:153-168 | It succeeds exactly when some peer answers, with exactly the requested part of the content; otherwise the error says whether there was a peer to ask. |
| `Handle.PfHandle.Complete` | fetch.go:138-150 | The block is stored or that error kept, the channel closed, nothing else changed. |
| `Handle.PfHandle.RequestBlocks` | fetch.go:186-194 | Missing blocks without a channel get a fetch, the channels to wait for are collected, and a block without a slot panics. |
| `Handle.PfHandle.Purge` | fetch.go:195-199 | Only the block before the first is dropped, only if cached, and never block 0. |
| `Handle.PfHandle.Prefetch` | fetch.go:200-206 | Exactly the untouched blocks among the next ones that start inside the file get a fetch. |
| `Handle.PfHandle.Grab` | fetch.go:218-228 | All blocks of the range, or nothing as soon as one is missing. |
| `Handle.PfHandle.Read` | fetch.go:173-255 | A panic exactly when the read needs no block or one without a slot; bytes returned are exactly the requested part; while peers answer the read succeeds exactly when it is supported; without bytes inside the file it returns lastErr, which changes only when no peer answers; nil without an error inside the file only for unsupported reads. |
| `Stream.PfStream.Read` | fetch.go:269-281 | For any buffer what was delivered is the content from the start to the offset; it panics exactly when the read is out of range; at or past the end it returns nothing and EOF for a buffer that is not empty; an error is the last fetch error, only inside the file and with nothing read; otherwise it is EOF exactly when the buffer was not filled, which inside the file only an unsupported read does; a read that can be answered returns as many bytes as there are, with a buffer that divides the block size and the start it never panics, and the window is kept. |
| `Stream.PfStream.WindowIsSmall` | fetch.go:195-206 | At most prefetchBlocks + 2 blocks are cached or in flight, however long the file is. |
| `Stream.PfStream.NeverStraddles` | fetch.go:269-281 | Every read of an aligned stream is supported, lies in one block, and that block has a slot. |
| `FetchProtocol.EveryRunSafe` | fetch.go:134-254 | In every interleaving of any reads, fetch completions, cancellations, prefetches and purges, up to a panic: each block is untouched, in flight, failed, or holds exactly its slice; channels are closed at most once; every channel waited for is closed or has a fetch that closes it; without out-of-range reads there is no panic. |
| `FetchProtocol.StepPanicsIff` | fetch.go:134-254 | A step panics exactly when it starts a read that is out of range. |
| `FetchProtocol.OneFetchPerBlock` | fetch.go:187-205 | At most one fetch per block is in flight. |
| `FetchProtocol.NobodyWaitsForever` | fetch.go:209-216 | A waiting reader's next channel is closed, or a running fetch can complete and let it pass. |
| `FetchProtocol.WhateverReturnsIsExact` | fetch.go:173-255 | Any read that returns bytes, in any interleaving of any reads, returns exactly the requested part. |
| `FetchProtocol.StartHolds` | fetch.go:185-206 | Once a read has started, every block of its range has a channel that is closed or that it will wait for. |
| `FetchProtocol.StartAtEnd` | fetch.go:174-176 | A read from at or beyond the end returns nil at once, without an error. |
| `FetchProtocol.StartRequests` | fetch.go:186-206 | Once a read has started, the blocks with a channel are exactly those of its range, the prefetched ones inside the file, and those that had one and were not purged. |
| `FetchProtocol.StartAwaits` | fetch.go:184-216 | A read waits exactly for the fetches of its blocks that were not cached when it began; with all of them cached it waits for none and cannot be interrupted. |
| `FetchProtocol.CompleteStores` | fetch.go:138-150 | A completion stores exactly the bytes of its block, or nothing and the error, and closes its channel. |
| `FetchProtocol.CancelInterrupts` | fetch.go:211-213 | A cancelled read returns at once as interrupted, and its fetches go on. |
| `FetchProtocol.NilReportsAnyFailure` | fetch.go:220-225 | A read that has waited gets nil exactly when a block of it is not cached, and an error with it exactly when the handle remembers one. |
| `FetchProtocol.ErrorsAreRemembered` | fetch.go:142-144 | Over every run the handle remembers an error exactly when some fetch, of whatever block, failed. |
| `FetchProtocol.StartKeepsHoldsIff` | fetch.go:195-199 | Another read's start takes such a channel away exactly when the block before its first one is in the range, is not block 0 and is cached. |
| `FetchProtocol.StepKeepsHoldsIff` | fetch.go:134-254 | No other step takes one away. |
| `FetchProtocol.GrabDeliversIff` | fetch.go:217-254 | After its waiting a read returns exactly its bytes exactly when it still holds every block, no fetch of one failed, and it ends within the last block. |
| `FetchProtocol.UndisturbedReadDelivers` | fetch.go:173-255 | In every interleaving a read that ends within the last block and is never undercut returns exactly its bytes, or was interrupted, or reports the error of a failed fetch of one of its blocks. |
| `FetchProtocol.ReadsApartDeliver` | fetch.go:173-255 | The same whenever no read starts in the blocks after the range's first up to the one that follows the range, a condition on offsets alone. |
| `FetchProtocol.CanReturn` | fetch.go:209-255 | From every reachable state a waiting read can return without any further read, and does so with exactly its bytes if it holds its blocks and no fetch has failed. |
| `FetchProtocol.StartPanicsIff` | fetch.go:180-199 | Starting a read panics exactly when it needs no block or one that has no slot. |
| `FetchProtocol.FailureIsPermanent` | fetch.go:142-147 | A block whose fetch failed is never fetched again, whatever happens afterwards. |
| `FetchProtocol.PurgedUnderReader` | fetch.go:195-225 | An undercut read in a run of five steps: it returns nil without an error, as at the end of the file, although no fetch failed. |
| `Scanner.Scanner.Set` | filescanner/filescanner.go:83-103 | The cache changes at that path; every live listener is called exactly once, with the new info and the one cached before, or the zero value, and every cancelled one is dropped, despite the swap-remove. |
| `Scanner.Scanner.SwapRemove` | filescanner/filescanner.go:96-97 | Exactly that listener is gone, those before it stay in place. |
| `Scanner.Walk` | filescanner/filescanner.go:228-249 | Every regular file without a hidden path component is visited exactly once. |
| `Scanner.Scanner.NormalPass` | filescanner/filescanner.go:162-189 | A visible readable file whose cached size or time differs, or that is not cached, ends with exactly its own info; one that agrees in both, or cannot be read, keeps its entry; nothing else stays cached; exactly the paths whose entry changed were announced, once each, to every live listener. |
| `Scanner.Scanner.FastPass` | filescanner/filescanner.go:119-133 | A seed entry for a visible file enters the cache exactly when its size and time are both the file's, every other path keeps its entry, and at start-up each one is announced once. |
| `Scanner.NormalInPlainTerms` | filescanner/filescanner.go:162-189 | The cache that a normal pass defines, in the sizes, hashes and times of the files without a dot component, and of what was cached. |
| `Scanner.FastInPlainTerms` | filescanner/filescanner.go:126-130 | The cache that a fast pass defines, in the sizes and times of the files and the seed. |
| `Scanner.AnnouncementSays` | filescanner/filescanner.go:83-103 | Every call of a pass tells a live listener of a changed path, with what is cached for it now and what was before, and there is one call for every such pair. |
| `Scanner.NormalPassTrueIff` | filescanner/filescanner.go:162-189 | The pass ends with the truth exactly when the infos it trusts are faithful and the files it must hash can be hashed. |
| `Scanner.SecondPassSilent` | filescanner/filescanner.go:162-189 | A second pass over the same filesystem changes nothing, whatever failed in the first. |
| `Scanner.RepeatedPassCallsNobody` | filescanner/filescanner.go:162-189 | A second pass over the same filesystem calls no listener. |
| `Scanner.FastPassMakesNoDifference` | filescanner/filescanner.go:119-133 | With faithful infos and no hashing errors the cache is the truth whether or not the fast pass ran first. |
| `Scanner.Scanner.ContinuousExport` | filescanner/filescanner.go:192-208 | The listener is registered and, unless cancelled, called once for every cached file, with the cached info and no previous one. |
| `ReverseIndex.KeyInjective` | server.go:185 | Share and path joined on NUL identify the pair. |
| `ReverseIndex.ReindexMoves` | server.go:184-199 | The key leaves the previous hash and joins the new one, and nothing else moves. |
| `ReverseIndex.ReindexNoneEmpty` | server.go:187-198 | No empty inner set is kept. |
| `ReverseIndex.RegisterSnapshots` | filescanner/filescanner.go:192-199 | A registration puts exactly the share's cached infos up for export and starts its listener. |
| `ReverseIndex.SetAndExport` | filescanner/filescanner.go:83-103 | A set that is heard moves the key from the previous hash to the new one, one that is not leaves the index alone, and an export adds the key under the exported hash, once. |
| `ReverseIndex.CancelSilences` | filescanner/filescanner.go:93-98 | A cancellation ends the share's export, and the index hears nothing of what is set there afterwards. |
| `ReverseIndex.Server.SetFile` | server.go:184-199 | The map becomes exactly the specified reindexing of the old one. |
| `ReverseIndex.Server.Read` | server.go:212-251 | ENOENT exactly when no path has the hash; bytes exactly when some indexed file can be opened, and then that file's bytes at the offset. |
| `ReverseIndex.StepSound` | filescanner/filescanner.go:83-103 | In every interleaving no inner set is empty and only keys of shares and paths are indexed. |
| `ReverseIndex.StaysSettledIff` | filescanner/filescanner.go:192-208 | A step puts a path out of step exactly when it exports a hash that is no longer the cached one, or changes an indexed path while no listener hears it. |
| `ReverseIndex.QuietPathIsRight` | server.go:157-162 | In any interleaving a path that is not set between a snapshot and its export, nor unheard once indexed, is indexed under exactly its cached hash at the end. |
| `ReverseIndex.SerialRunIsInverse` | server.go:147-165 | With scanning and exports not overlapping, the index is the exact inverse of all the shares' caches, with no empty inner set. |
| `ReverseIndex.LateExportStays` | filescanner/filescanner.go:192-208 | A run in which a set overtakes the export of the same path: after the file is deleted the index still has it under the exported hash. |
| `Reconnect.RUFSMasterClient.AppendReconnectCallback` | types.go:46-54 | The callback runs after all those registered before. |
| `Reconnect.RUFSMasterClient.Call` | types.go:56-76 | The imperative code takes exactly the specified steps, terminates, and leaves reconnCb as it found it on every return path; the log has for every request and dial what the network said at that point, and unless the reconnect failed the answer is that of the request sent last. |
| `Reconnect.Calling` | types.go:56-76 | Whatever the network answers and the callbacks call, reconnCb and the number of reconnects in progress end as they began. |
| `Reconnect.CallbacksRun` | types.go:46-70 | The callbacks run in order of registration, once each, up to the first error. |
| `Reconnect.NestedCall` | types.go:58-73 | A Call made by a callback runs no callback and adds one level of reconnecting at most. |
| `Reconnect.CallRuns` | types.go:56-76 | At most two reconnects are nested; callbacks run only after a redial, in order and up to the first error; the request is sent at most twice, the second time on the newest connection; what the callbacks were answered was answered on that connection exactly when no redial came after an answer. |
| `Reconnect.OneRequestIsSafe` | server.go:128-162 | When only the callback registered first makes a Call, and one, as Setup and Run register them, its answer comes from the connection that the client ends on, whatever the network does. |
| `Reconnect.SigninRuns` | server.go:128-133 | A callback that makes one request and returns its outcome, as the sign-in does, ends well exactly when a sending of it was answered. |
| `Reconnect.SigninDecides` | types.go:56-76 | With such a callback first, after a redial the request is sent a second time exactly when the sign-in was answered, and the Call fails as a failed reconnect otherwise, whatever the network does. |
| `Reconnect.OneCallbackMovesAlong` | types.go:56-76 | A run of that kind: the callback meets a dead connection, is answered on the next one, and the request is sent again there. |
| `Reconnect.SecondCallbackMovesOn` | types.go:56-76 | A run with two callbacks that make a Call: the second redials, and the request is sent again on a connection on which the first was never answered. |
| `Reconnect.CallbackSurvivesIff` | types.go:65-69 | When several goroutines call on one client, the callback is there again at the end exactly when nobody finished reconnecting while it was in place. |
| `Reconnect.OverlapLoses` | types.go:65-69 | Two overlapping reconnects, neither inside the other, lose the callback for good. |

## Left out

- TLS, certificates, tokens, `Register`: foreign cryptography.
- RPC transport and the gob, gzip and JSON encodings: taken as faithful, except that no bytes arrive as nil.
- The engines of Bolt and SQLite, and transaction failures beyond "an error leaves the state unchanged".
- Bolt's limits on the length of keys, and names with a NUL in them.
- `fuse.go`, `ftp.go`, `felib.go`, `main.go`, `common.go`, `crypto.go`: mounting, flags, start-up, logging, and a small expiry cache.
- The overflow of int64 and the conversion of sizes to int: sizes, offsets and counters are unbounded.
- Handle.PfHandle.Read: does not model the cancellation of a read or other readers; both are steps of `FetchProtocol`, which has one content and one block size per handle.
- Handle.PfHandle.constructor: does not model connecting to the peers in `NewHandle`; which peers answer is a field.
- Slice aliasing: a read that needs one block returns a part of the cached slice itself in the source; here it is a value.
- Stream.PfStream.Read: says nothing about the window of a buffer that does not divide the block size.
- Sessions.EveryRunMirrors: is proved for the SQLite table, the only one keyed by peer; the master's GetDir and Register change nothing and are not steps.
- Bolt.Database.PeerDisconnected: does not say which of the claimed paths a panicking disconnect deleted before, which depends on the order of the keys.
- Backends.ListEverywhere: covers changes in which each path has one publisher, since the three databases differ otherwise.
- Sqlite.Database.GetDir: which peer's row answers for a file name that several peers publish is left open, as SQLite's GROUP BY leaves it.
- Sqlite.Database.GetDir: relates the listing to the table only for a directory string of valid components.
- ReverseIndex.Server.Read: opens files from a fixed map; seeking and short reads of the operating system are the slice at the offset.
- Reconnect.RUFSMasterClient.Call: callbacks are trees of Calls depending on each other's success; a callback that registers further callbacks is not modelled.
- Data races in Go's sense: `listeners` read outside its lock, the live map that the in-memory GetDir returns.
- The four SetFile goroutines of a peer, which may reorder requests.
- The lexical order of `filepath.Walk`, symbolic links, and comparing `time.Time` values with their locations.
- Clocks, latencies, the autosave timer and the hash cache file: the seed of the fast pass is an arbitrary map.
- Parsing of the share flag, and file names that `filepath.Join` would clean.
