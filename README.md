# DataFinder data adapters for SFTP and WebDAV

This project models the two data adapters that DataFinder's persistence layer uses to reach a remote file store:

- `SftpDataAdapter`, which talks to a server through a paramiko SFTP connection;
- `DataWebdavAdapter`, which talks to a server through the WebDAV library's resource and collection storers.

An adapter stands for one item of the store, addressed by its logical identifier. Each adapter offers the same operations:

- type queries (is it a collection, a leaf, a link?);
- `exists`;
- creating resources, collections and links;
- listing children;
- reading and writing content;
- `delete`, `move` and `copy`.

Every operation borrows a connection from a pool and gives it back. Any failure of the remote side is re-raised as a `PersistenceError`.

## How the model is built

The remote store is a finite tree: a map from paths to directories (collections) and files (resources). Each item carries backend-specific metadata:

- for SFTP, permission bits (`SftpRemote.Mode`);
- for WebDAV, the link target property (`WebdavRemote.LinkTarget`).

The generic tree, with the renamed tree (`Moved`) and the copied tree (`CopiedTree`), is in `Trees`. Paths are sequences of names, in `Paths`.

The servers are classes whose tree field the requests update:

- `SftpRemote.SftpServer` models `stat`, `listdir`, `listdir_attr`, `remove`, `rmdir`, `mkdir`, `chmod`, `rename`, `open` and `write`;
- `WebdavRemote.WebdavServer` models PROPFIND (Depth 0 and 1), MKCOL, PUT, PROPPATCH, GET, DELETE, MOVE and COPY.

A server fails a request with a native error. For SFTP this is an `IOError` errno, `EOFError` or `SSHException`; for WebDAV it is a status code. A server can be set up to refuse requests on chosen paths, to refuse all of them, or (WebDAV) to forbid property changes on chosen resources.

The SFTP server has five more faults, which strike after an earlier call on the same path has passed:

- listdir of a directory the user may not read fails with EACCES, although stat answers for it;
- mkdir and rmdir of a directory the user may not create or remove (its parent is not writable) fail with EACCES, so a missing ancestor can answer ENOENT to stat and still not be made, and a recursive delete can stop after emptying a directory;
- chmod fails with EPERM on paths whose mode the user may not change, so the directory mkdir made, or the empty file createResource wrote, stays behind with the server's mode;
- a write that would take a file past its byte quota fails with ENOSPC, leaving the blocks written so far;
- a read reaching past a damaged offset of a file fails with EIO.

The adapters are classes over a `ConnectionPools.ConnectionPool`, which counts checked-out connections and hands-outs:

- SFTP adapter: `SftpData.SftpDataAdapter`;
- WebDAV adapter: `WebdavData.DataWebdavAdapter`, plus the shared `WebdavData.ResourceTypeCache`.

Each method is proved against the server's reply functions and the tree functions. Each keeps the pool balanced. The loops of the source are `while` and `for` loops here:

- SFTP recursive delete: breadth-first emptying, then `rmdir` in reverse order;
- SFTP recursive copy;
- SFTP block-wise read and write;
- WebDAV `getChildren`.

Their invariants are stated over ghost walk state (`SftpWalks.Walk`, `SftpWalks.Finished`) and over specification functions of the listing (`WebdavData.Recorded`, `WebdavData.OthersThan`).

Abbreviations used below:
- *S*: the file `src/datafinder/persistence/adapters/sftp/data/adapter.py`;
- *W*: the file `src/datafinder/persistence/adapters/webdav_/data/adapter.py`.

The table cells give the full paths.

## Model

| member | source | states |
|---|---|---|
| SftpData.ExistenceFromStat | src/datafinder/persistence/adapters/sftp/data/adapter.py:183-199 | exists answers true exactly when `stat` succeeds and false exactly on ENOENT. Every other error (another errno, EOFError, SSHException) is re-raised as a PersistenceError |
| SftpData.SftpDataAdapter.Exists | src/datafinder/persistence/adapters/sftp/data/adapter.py:183-199 | the answer is ExistenceFromStat of the stat reply. When the server does not refuse the path, that is whether the item is in the tree. The connection is returned |
| SftpData.CollectionFromStat | src/datafinder/persistence/adapters/sftp/data/adapter.py:77-87 | isCollection is true exactly for a directory. A failed stat is re-raised |
| SftpData.SftpDataAdapter.IsCollection | src/datafinder/persistence/adapters/sftp/data/adapter.py:77-87 | the answer is CollectionFromStat of the stat reply, with the pool balanced |
| SftpData.Negated | src/datafinder/persistence/adapters/sftp/data/adapter.py:95-98 | isLeaf negates a successful answer and passes an error through unchanged |
| SftpData.SftpDataAdapter.IsLeaf | src/datafinder/persistence/adapters/sftp/data/adapter.py:95-98 | isLeaf is the negation of isCollection, error included |
| SftpData.SftpDataAdapter.CanAddChildren | src/datafinder/persistence/adapters/sftp/data/adapter.py:101-104 | canAddChildren answers exactly what isCollection answers |
| SftpData.Wrapped | src/datafinder/persistence/adapters/sftp/data/adapter.py:89-92 | a native error is re-raised once as a PersistenceError carrying it as the cause; success stays success |
| SftpData.SftpDataAdapter.SetPermissions | src/datafinder/persistence/adapters/sftp/data/adapter.py:142-153 | chmod changes only the mode of the item, keeps a file's content, and changes nothing on failure |
| SftpData.SftpDataAdapter.CreateSingleCollection | src/datafinder/persistence/adapters/sftp/data/adapter.py:128-140 | a failed mkdir changes nothing and is re-raised. A chmod refused after mkdir re-raises EPERM and leaves the new directory at the server's mode. Otherwise the new directory, and nothing else, carries the default directory permissions. Success holds exactly when both calls pass |
| SftpData.SftpDataAdapter.CreateCollection | src/datafinder/persistence/adapters/sftp/data/adapter.py:106-115 | existing items are kept and only prefixes of the identifier are added. A recursive success adds exactly the missing ancestors and the item, as directories with the default permissions. A non-recursive call ends as _createSingleCollection does |
| SftpData.SftpDataAdapter.CreateCollectionNested | src/datafinder/persistence/adapters/sftp/data/adapter.py:106-126 | the same as CreateCollection, with the depth of the parent-first recursion counted against a fixed limit |
| SftpData.SftpDataAdapter.CreateMissingParents | src/datafinder/persistence/adapters/sftp/data/adapter.py:117-126 | an existing parent changes nothing; a failed stat other than ENOENT is re-raised with nothing changed; a missing parent at the depth limit fails with TooDeeplyNested with nothing changed. On success the parent exists and exactly its missing prefixes were added |
| SftpData.SftpDataAdapter.CreateResource | src/datafinder/persistence/adapters/sftp/data/adapter.py:155-159 | a failed open changes nothing and is re-raised. A chmod refused after the write re-raises EPERM and leaves the empty file at its kept mode. Otherwise the item is an empty file with the default file permissions. Success holds exactly when both pass |
| SftpData.SftpDataAdapter.CreateLink | src/datafinder/persistence/adapters/sftp/data/adapter.py:161-164 | always fails with NotImplemented |
| SftpData.SftpDataAdapter.GetChildren | src/datafinder/persistence/adapters/sftp/data/adapter.py:166-181 | the result lists every child of the item exactly once and nothing else. A failed listdir is re-raised |
| SftpData.SftpDataAdapter.Delete | src/datafinder/persistence/adapters/sftp/data/adapter.py:201-219 | only items of the item's subtree disappear. It succeeds exactly when the item exists, no item of its subtree is refused, and every directory of it can be listed and removed; then the whole subtree is gone |
| SftpData.SftpDataAdapter.DeleteCollection | src/datafinder/persistence/adapters/sftp/data/adapter.py:221-223 | emptying and then removing the directories deletes exactly the subtree, or stops part-way inside it. It succeeds under the same condition as Delete, and a failure names a fault of an item of the subtree |
| SftpData.SftpDataAdapter.DeleteLeaf | src/datafinder/persistence/adapters/sftp/data/adapter.py:247-248 | removing a file deletes exactly that file, or changes nothing and names its refusal |
| SftpData.SftpDataAdapter.EmptyAllCollections | src/datafinder/persistence/adapters/sftp/data/adapter.py:225-239 | on success every file below the item is gone and nothing else, and every directory of the subtree could be listed. The emptied list covers every directory of the subtree, each once, in an order where parents come first. A failure names a refused item, or an unreadable directory, of the subtree |
| SftpData.SftpDataAdapter.EmptyCollection | src/datafinder/persistence/adapters/sftp/data/adapter.py:227-237 | one round of the emptying loop: the files directly inside are removed, and the child directories are returned, each once. A failure is the listing's or a file's fault |
| SftpData.SftpDataAdapter.RemoveLeaves | src/datafinder/persistence/adapters/sftp/data/adapter.py:229-235 | removes exactly the listed files and returns exactly the listed directories |
| SftpData.SftpDataAdapter.RemoveListedFiles | src/datafinder/persistence/adapters/sftp/data/adapter.py:229-235 | the inner loop: the files of the listing are removed in listing order, and the directories are collected in listing order |
| SftpData.SftpDataAdapter.RemoveListedFile | src/datafinder/persistence/adapters/sftp/data/adapter.py:232-234 | one file of the listing is removed, or the loop stops with that file's refusal |
| SftpData.SftpDataAdapter.RemoveListedItem | src/datafinder/persistence/adapters/sftp/data/adapter.py:231-236 | one record of the listing: a file is removed, or the loop stops with its refusal; a directory is appended to the collected ones |
| SftpData.SftpDataAdapter.DeleteEmptiedCollections | src/datafinder/persistence/adapters/sftp/data/adapter.py:242-245 | rmdir of the emptied directories in reverse order finds each one empty. It removes exactly the rest of the subtree unless one of them may not be removed; then it stops there with EACCES, having removed exactly the ones before it |
| SftpData.SftpDataAdapter.RemoveEmptiedCollection | src/datafinder/persistence/adapters/sftp/data/adapter.py:245 | the next emptied collection in reverse order is removed, or, when the user may not remove it, left in place with EACCES |
| SftpData.SftpDataAdapter.Copy | src/datafinder/persistence/adapters/sftp/data/adapter.py:250-270 | a failed type query changes nothing. A file is copied by readData and writeData, with every outcome of the two (see CopyLeaf). A collection copy ends in CopyOutcome: nothing kept is changed, new entries lie only at copy targets of subtree items, and on success every subtree item has its copy |
| SftpData.SftpDataAdapter.CopyCollection | src/datafinder/persistence/adapters/sftp/data/adapter.py:272-279 | the worklist loop over collections ends in CopyOutcome, including after a refused chmod or a write stopped part-way |
| SftpData.SftpDataAdapter.CopyCollectionRound | src/datafinder/persistence/adapters/sftp/data/adapter.py:274-279 | one round keeps the walk invariant, shrinks the set of unvisited directories, and extends the copied part by the visited collection and its files |
| SftpData.SftpDataAdapter.CreateDestinationCollection | src/datafinder/persistence/adapters/sftp/data/adapter.py:281-284 | createCollection() on the rebased identifier, ending as _createSingleCollection does |
| SftpData.SftpDataAdapter.CopyCollectionContent | src/datafinder/persistence/adapters/sftp/data/adapter.py:286-299 | copies every file directly inside to its rebased path and returns the child directories, each once |
| SftpData.SftpDataAdapter.CopyListedItems | src/datafinder/persistence/adapters/sftp/data/adapter.py:288-298 | the loop over listdir_attr: the files are copied and the directories are collected |
| SftpData.SftpDataAdapter.CopyListedFile | src/datafinder/persistence/adapters/sftp/data/adapter.py:294-298 | one file of the listing is copied to its rebased identifier; after a failure only copies of listed files were added |
| SftpData.SftpDataAdapter.CopyLeaf | src/datafinder/persistence/adapters/sftp/data/adapter.py:301-303 | a failed download (open or damaged read) changes nothing; a failed open of the destination changes nothing; a write stopped by the quota leaves a proper prefix of the content there; otherwise the destination holds the content and keeps its mode |
| SftpData.SftpDataAdapter.Move | src/datafinder/persistence/adapters/sftp/data/adapter.py:305-316 | on success the tree is the renamed tree; on failure it is unchanged |
| SftpData.SftpDataAdapter.ReadData | src/datafinder/persistence/adapters/sftp/data/adapter.py:318-336 | the returned stream is a fresh temporary file holding the whole remote content, positioned at 0. It fails exactly when the open fails or the content reaches a damaged part, and re-raises that error |
| SftpData.SftpDataAdapter.ReceiveBlocks | src/datafinder/persistence/adapters/sftp/data/adapter.py:326-329 | the block loop copies the remote file into the temporary file exactly, or fails with EIO exactly when the file reaches a damaged part |
| SftpData.SftpDataAdapter.WriteData | src/datafinder/persistence/adapters/sftp/data/adapter.py:338-353 | a failed open changes nothing. A write stopped by the quota leaves a proper prefix of the rest of the stream that fits the quota. Otherwise the content is the rest of the stream and an existing item keeps its mode. The error is re-raised, and the stream is closed in every case |
| SftpData.SftpDataAdapter.SendBlocks | src/datafinder/persistence/adapters/sftp/data/adapter.py:344-347 | the block loop appends exactly the rest of the stream to the freshly opened file, or stops at the first block beyond the quota, leaving a proper prefix |
| SftpRemote.SftpServer.Stat | src/datafinder/persistence/adapters/sftp/data/adapter.py:82 | stat answers the entry, or the refusal, or ENOENT |
| SftpRemote.SftpServer.ListdirAttr | src/datafinder/persistence/adapters/sftp/data/adapter.py:230 | listdir_attr lists every child exactly once with its type, or fails (ENOENT, ENOTDIR, an unreadable directory or a refusal) |
| SftpRemote.SftpServer.Listdir | src/datafinder/persistence/adapters/sftp/data/adapter.py:172 | listdir names every child exactly once |
| SftpRemote.SftpServer.Remove | src/datafinder/persistence/adapters/sftp/data/adapter.py:234 | remove deletes an existing file only |
| SftpRemote.SftpServer.Rmdir | src/datafinder/persistence/adapters/sftp/data/adapter.py:245 | rmdir deletes an empty directory only, and not one the user may not remove |
| SftpRemote.SftpServer.Mkdir | src/datafinder/persistence/adapters/sftp/data/adapter.py:131 | mkdir adds a new directory below an existing directory, unless the user may not create it there |
| SftpRemote.SftpServer.Chmod | src/datafinder/persistence/adapters/sftp/data/adapter.py:148 | chmod changes only the mode of an existing item; it fails on a refused path, a missing item, or a path whose mode is fixed |
| SftpRemote.SftpServer.Rename | src/datafinder/persistence/adapters/sftp/data/adapter.py:311 | rename moves the subtree to a new target outside it, below a directory |
| SftpRemote.SftpServer.OpenRead | src/datafinder/persistence/adapters/sftp/data/adapter.py:325 | open for reading gives a fresh stream over a file's content |
| SftpRemote.SftpServer.ReadBlock | src/datafinder/persistence/adapters/sftp/data/adapter.py:326 | read(n) on an opened file gives the next at most n bytes, or EIO without moving when they reach a damaged part |
| SftpRemote.SftpServer.OpenWrite | src/datafinder/persistence/adapters/sftp/data/adapter.py:343 | open with "w" truncates or creates the file |
| SftpRemote.SftpServer.WriteBlock | src/datafinder/persistence/adapters/sftp/data/adapter.py:346 | write appends the block to the opened file, or fails with ENOSPC and changes nothing when the file would outgrow its quota |
| SftpRemote.NamesOfListing | src/datafinder/persistence/adapters/sftp/data/adapter.py:172-174 | the names of an attribute listing name every child exactly once |
| SftpWalks.WalkStep | src/datafinder/persistence/adapters/sftp/data/adapter.py:227-237 | processing the head of the worklist and appending its child directories keeps the walk invariant |
| SftpWalks.WalkCovers | src/datafinder/persistence/adapters/sftp/data/adapter.py:226-239 | a finished walk has visited exactly the directories of the subtree |
| SftpWalks.WalkReaches | src/datafinder/persistence/adapters/sftp/data/adapter.py:226-239 | every directory of the subtree is visited, by induction on its depth |
| SftpWalks.FinishedWalk | src/datafinder/persistence/adapters/sftp/data/adapter.py:238-239 | the emptied list of a finished walk has no repeats, and children come after their parents |
| SftpWalks.ListedChildren | src/datafinder/persistence/adapters/sftp/data/adapter.py:230-235 | the directory records of a listing are the child directories, and its file records are the child files |
| SftpWalks.ReverseRemovalStep | src/datafinder/persistence/adapters/sftp/data/adapter.py:243-245 | the next directory in reverse order still exists, is a directory, and has no children left |
| SftpWalks.ReverseRemovalDone | src/datafinder/persistence/adapters/sftp/data/adapter.py:242-245 | removing all emptied directories after all files leaves the tree without the subtree |
| SftpWalks.EmptyWhenDeeperGone | src/datafinder/persistence/adapters/sftp/data/adapter.py:243-245 | a directory whose later-listed directories are gone has no children left |
| SftpCopies.CopyStep | src/datafinder/persistence/adapters/sftp/data/adapter.py:276-279 | one round of creating the destination collection and copying its files extends the copied part |
| SftpCopies.CopyFinished | src/datafinder/persistence/adapters/sftp/data/adapter.py:275-279 | a finished copy walk gives CopyOutcome with success |
| SftpCopies.CopyIsReplica | src/datafinder/persistence/adapters/sftp/data/adapter.py:272-299 | after a successful collection copy the source subtree is intact. Each of its items has a copy at the rebased path (directories with default permissions, files with their content). Every item below the destination is such a copy |
| SftpCopies.FileCopiesOutcome | src/datafinder/persistence/adapters/sftp/data/adapter.py:290-297 | the files written in one round are exactly copies of child files |
| Trees.MovedKeeps | src/datafinder/persistence/adapters/sftp/data/adapter.py:305-316 | a rename keeps items outside both subtrees, and each source item reappears at its rebased path with the same entry |
| Trees.MovedCases | src/datafinder/persistence/adapters/webdav_/data/adapter.py:293-309 | every item of a renamed tree is an untouched old item or the rebased image of a source item |
| Trees.MovedWellFormed | src/datafinder/persistence/adapters/webdav_/data/adapter.py:293-309 | moving to a new target below a collection keeps the tree well formed |
| Trees.CopiedTreeKeeps | src/datafinder/persistence/adapters/webdav_/data/adapter.py:311-325 | a server-side copy keeps every old item outside the target and adds each source item at its rebased path |
| Trees.CopiedTreeCases | src/datafinder/persistence/adapters/webdav_/data/adapter.py:311-325 | every item of a copied tree is an old item or the rebased image of a source item |
| Trees.CopiedTreeWellFormed | src/datafinder/persistence/adapters/webdav_/data/adapter.py:311-325 | copying to a new target below a collection keeps the tree well formed |
| Trees.WithDirsChild | src/datafinder/persistence/adapters/webdav_/data/adapter.py:193-206 | creating the item after its missing ancestors adds exactly its missing prefixes |
| Trees.WithDirsPresent | src/datafinder/persistence/adapters/webdav_/data/adapter.py:195-196 | an existing parent needs no new collections |
| Paths.Rebase | src/datafinder/persistence/adapters/sftp/data/adapter.py:281-284 | the copy target of an item: the source root prefix replaced by the destination, the rest kept |
| Paths.RebaseInverse | src/datafinder/persistence/adapters/sftp/data/adapter.py:281-297 | rebasing back recovers the source item, so distinct items get distinct targets |
| Replace.AsWrittenTarget | src/datafinder/persistence/adapters/sftp/data/adapter.py:282 | the target identifier as written: Python's replace-all of the source identifier by the destination identifier |
| Replace.AsWrittenMisplaces | src/datafinder/persistence/adapters/sftp/data/adapter.py:282 | copying "/a" to "/c" sends the sub-collection "/a/a" to "/c/c", where "/c/a" is meant |
| Replace.IntendedTarget | src/datafinder/persistence/adapters/sftp/data/adapter.py:295 | the intended target: the leading source identifier, and only that, replaced by the destination identifier |
| Replace.AsWrittenAgrees | src/datafinder/persistence/adapters/sftp/data/adapter.py:282 | the two agree whenever the source identifier does not occur again below the copied root |
| Replace.ReplaceAbsent | src/datafinder/persistence/adapters/sftp/data/adapter.py:295 | str.replace leaves a string without the pattern unchanged |
| WebdavData.Lifted | src/datafinder/persistence/adapters/webdav_/data/adapter.py:130-134 | a WebdavError is re-raised as a PersistenceError carrying its status code; a value passes unchanged |
| WebdavData.LiftedOutcome | src/datafinder/persistence/adapters/webdav_/data/adapter.py:172-175 | the same for requests without a result |
| WebdavData.CachedOrAsked | src/datafinder/persistence/adapters/webdav_/data/adapter.py:121-137 | _determineResourceType answers a cached type if there is one, else the server's answer |
| WebdavData.DataWebdavAdapter.DetermineResourceType | src/datafinder/persistence/adapters/webdav_/data/adapter.py:121-137 | a cache hit takes no connection; a miss takes exactly one PROPFIND. The cache is not filled here |
| WebdavData.DataWebdavAdapter.LinkTarget | src/datafinder/persistence/adapters/webdav_/data/adapter.py:87-91 | linkTarget is the link target of the known type, or its error |
| WebdavData.DataWebdavAdapter.IsLink | src/datafinder/persistence/adapters/webdav_/data/adapter.py:93-101 | isLink holds exactly when a link target is set |
| WebdavData.DataWebdavAdapter.IsLeaf | src/datafinder/persistence/adapters/webdav_/data/adapter.py:103-111 | isLeaf holds exactly for an item that is neither a link nor a collection |
| WebdavData.DataWebdavAdapter.IsCollection | src/datafinder/persistence/adapters/webdav_/data/adapter.py:139-147 | isCollection holds exactly for a collection that is not a link |
| WebdavData.DataWebdavAdapter.CanAddChildren | src/datafinder/persistence/adapters/webdav_/data/adapter.py:113-118 | canAddChildren answers what isCollection answers |
| WebdavData.KindsOfResource | src/datafinder/persistence/adapters/webdav_/data/adapter.py:93-147 | every stored item is exactly one of link, leaf and collection |
| WebdavData.DataWebdavAdapter.CreateResource | src/datafinder/persistence/adapters/webdav_/data/adapter.py:163-178 | an empty name fails before any connection is taken. Otherwise the answer is that of the PUT, and on success the item is an empty resource that keeps its former properties |
| WebdavData.DataWebdavAdapter.CreateLink | src/datafinder/persistence/adapters/webdav_/data/adapter.py:149-161 | succeeds exactly when the resource is created and its link property may be written; then the item is an empty resource linking to the destination. When the PROPPATCH is refused, the empty resource is left behind without a link |
| WebdavData.DataWebdavAdapter.CreateCollection | src/datafinder/persistence/adapters/webdav_/data/adapter.py:187-212 | an empty name fails before any connection is taken and changes nothing. Only missing prefixes of the identifier are ever added, as plain collections. A recursive success creates exactly the missing ancestors and the item. A non-recursive call is one MKCOL |
| WebdavData.DataWebdavAdapter.GetChildren | src/datafinder/persistence/adapters/webdav_/data/adapter.py:214-235 | the result lists every child exactly once and nothing else. The cache then holds the current types of the item and its children, every other entry is kept, and a failure leaves the cache alone |
| WebdavData.RecordedEntries | src/datafinder/persistence/adapters/webdav_/data/adapter.py:226-232 | recording a listing with distinct paths adds exactly its paths, each with its listed type, and keeps the other entries |
| WebdavData.OthersThanElems | src/datafinder/persistence/adapters/webdav_/data/adapter.py:226-232 | the appended identifiers are exactly the listed ones other than the item, without repeats |
| WebdavData.RecordedAnswer | src/datafinder/persistence/adapters/webdav_/data/adapter.py:214-235 | recording a Depth 1 answer refreshes the cache for the item and its children |
| WebdavData.ChildrenAnswer | src/datafinder/persistence/adapters/webdav_/data/adapter.py:214-235 | a Depth 1 answer without the item's own entry is exactly the children |
| WebdavData.RefreshedCoherent | src/datafinder/persistence/adapters/webdav_/data/adapter.py:226-230 | getChildren keeps a cache that agrees with the server in agreement |
| WebdavData.CoherentCacheAgrees | src/datafinder/persistence/adapters/webdav_/data/adapter.py:121-137 | while the cache agrees with the server, a cached answer is the server's answer |
| WebdavData.ForgetCoherent | src/datafinder/persistence/adapters/webdav_/data/adapter.py:283-285 | dropping the own entry after DELETE keeps the cache in agreement when nothing below the item is cached |
| WebdavData.DeleteLeavesChildEntry | src/datafinder/persistence/adapters/webdav_/data/adapter.py:283-285 | after getChildren on a collection and its deletion, the cache still holds its child's type: the cache no longer agrees with the server |
| WebdavData.DataWebdavAdapter.WriteData | src/datafinder/persistence/adapters/webdav_/data/adapter.py:237-259 | the answer is that of the PUT. On success the content is the rest of the stream and the properties are kept. The stream is closed in every case |
| WebdavData.DataWebdavAdapter.ReadData | src/datafinder/persistence/adapters/webdav_/data/adapter.py:261-274 | a fresh stream over the resource's content, or the GET's status code |
| WebdavData.DataWebdavAdapter.Delete | src/datafinder/persistence/adapters/webdav_/data/adapter.py:276-291 | on success the subtree is gone and only the item's own cache entry is dropped; on failure nothing changes |
| WebdavData.DataWebdavAdapter.Move | src/datafinder/persistence/adapters/webdav_/data/adapter.py:293-309 | on success the tree is the renamed tree and the item's own cache entry is dropped; on failure nothing changes |
| WebdavData.DataWebdavAdapter.Copy | src/datafinder/persistence/adapters/webdav_/data/adapter.py:311-325 | on success the tree is the copied tree; the cache is untouched |
| WebdavData.ExistsAnswer | src/datafinder/persistence/adapters/webdav_/data/adapter.py:327-343 | exists is true exactly when PROPFIND succeeds and false exactly on 404. Every other status is re-raised |
| WebdavData.DataWebdavAdapter.Exists | src/datafinder/persistence/adapters/webdav_/data/adapter.py:327-343 | exists always asks the server and ignores the cache |
| WebdavData.ExistsAgrees | src/datafinder/persistence/adapters/webdav_/data/adapter.py:327-343 | when the server does not refuse the path, exists answers whether the item is there; a refusal is an error |
| WebdavData.ResourceTypeCache.Store | src/datafinder/persistence/adapters/webdav_/data/adapter.py:230 | records one type |
| WebdavData.ResourceTypeCache.Forget | src/datafinder/persistence/adapters/webdav_/data/adapter.py:284-285 | drops one entry if present |
| WebdavRemote.TypeOf | src/datafinder/persistence/adapters/webdav_/data/adapter.py:131 | the resource type of a stored item: the collection flag is set exactly for a collection, and the link target is its property |
| WebdavRemote.WebdavServer.PropfindChildren | src/datafinder/persistence/adapters/webdav_/data/adapter.py:222 | a Depth 1 answer lists the item and each child exactly once with their current types, or fails like Depth 0 |
| WebdavRemote.WebdavServer.Mkcol | src/datafinder/persistence/adapters/webdav_/data/adapter.py:201 | MKCOL adds a new collection below a collection |
| WebdavRemote.WebdavServer.Put | src/datafinder/persistence/adapters/webdav_/data/adapter.py:249 | PUT replaces or creates a resource (not a collection), and keeps its properties |
| WebdavRemote.WebdavServer.SetLinkTarget | src/datafinder/persistence/adapters/webdav_/data/adapter.py:157 | PROPPATCH sets the link target of an existing item with writable properties |
| WebdavRemote.WebdavServer.Get | src/datafinder/persistence/adapters/webdav_/data/adapter.py:268 | GET gives a fresh stream over a resource's content |
| WebdavRemote.WebdavServer.Delete | src/datafinder/persistence/adapters/webdav_/data/adapter.py:283 | DELETE removes the whole subtree |
| WebdavRemote.WebdavServer.Move | src/datafinder/persistence/adapters/webdav_/data/adapter.py:301 | MOVE renames the subtree to a new target outside it, below a collection |
| WebdavRemote.WebdavServer.Copy | src/datafinder/persistence/adapters/webdav_/data/adapter.py:319 | COPY duplicates the subtree at a new target outside it, below a collection |

## Left out

- The identifier mapper is taken to be the identity: a logical identifier is its persistence identifier. Name decoding with "replace" is not modelled.
- The `constants` and `util` modules, paramiko and the WebDAV library are not part of this model. The servers' replies and their faults are modelling choices. So are the block size (16384) and the three permission modes (opaque values).
- Error messages, tracebacks and string formatting are not modelled; only the cause (errno, native exception or status code) travels in the PersistenceError.
- Concurrency, blocking in the connection pool, its size limit and connection failures on acquire are left out. The pool only counts checked-out connections.
- SftpData.SftpDataAdapter.Copy: requires a collection's destination to lie outside its own subtree. Otherwise each round of the source's copy loop creates a deeper directory that the next listing finds, so the loop ends only when the server refuses a too long path, or never in an unbounded tree.
- SftpData.SftpDataAdapter.Copy: requires the destination adapter to share the server and the pool, as the source's factory gives it.
- SftpData.SftpDataAdapter.CreateCollectionNested: an arbitrary nesting depth (1000) stands for Python's recursion limit. The real limit counts interpreter frames, several per nesting level, so the RuntimeError comes at a lower depth that depends on the interpreter.
- WebdavData.DataWebdavAdapter.CreateCollection: the parent-first recursion is not bounded. A path nested deep enough makes the source raise a bare RuntimeError, since it has no handler for it there; the model never fails that way.
- A session that drops in the middle of an operation is not modelled: the session state is fixed, so EOFError and SSHException strike at the first call. Failures after an earlier call on the same path has passed come from the listing, directory, mode, quota and damage faults, which the adapters handle in the same except clauses.
- An IOError while reading the caller's stream, and the separate `uploadFile` branch for real file objects in the WebDAV writeData, are not modelled. Every stream is an in-memory byte stream whose rest is uploaded.
- WebdavData.DataWebdavAdapter.Delete and Move: drop only the item's own cache entry, as written. Entries of its descendants stay (see WebdavData.DeleteLeavesChildEntry).
- The module-level default cache dictionary is one `ResourceTypeCache` object that the caller passes to every adapter; `_getParent` passes the same one on.
- WebDAV `createResourceStorer` and `createCollectionStorer` only build request objects, so they are not separate steps.
- The GET of a collection answers 405 here; what the real server answers is not part of this model.
- The root renders as the empty identifier in `Replace.Render`; the system writes it "/". Copying the root is not modelled.

## Findings

| source | as written | input that shows it | evidently intended | confidence | as-written member | corrected member |
|---|---|---|---|---|---|---|
| src/datafinder/persistence/adapters/sftp/data/adapter.py:282 | the identifier of each copied collection and file is computed with `str.replace` of the source identifier by the destination identifier, which replaces every occurrence | copying "/a" to "/c" when "/a" holds a collection "a": "/a/a" is created as "/c/c" | replace only the leading source identifier, giving "/c/a" | not executed | Replace.AsWrittenMisplaces | Replace.IntendedTarget |

The copy model (`SftpCopies`, `SftpData.SftpDataAdapter.CopyCollection`) uses the corrected target `Paths.Rebase`. `Replace.IntendedTarget` is that same target rendered as a string. `Replace.AsWrittenAgrees` shows that the as-written target matches it exactly when the source identifier does not occur again below the copied root.
