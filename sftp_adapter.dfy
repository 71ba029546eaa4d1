/**
 * The SFTP data adapter: one item identifier on one SFTP server, every
 * server call bracketed by acquiring and releasing a pooled connection.
 * The identifier mapper is the identity, so the identifier is also the
 * remote path; the factory that creates adapters for other identifiers is
 * `new SftpDataAdapter(id, pool, server)` on the same pool and server.
 */
module SftpData {
  import opened Wrappers
  import opened Paths
  import opened Errors
  import opened Streams
  import opened ConnectionPools
  import opened Trees
  import opened SftpRemote
  import opened SftpWalks
  import opened SftpCopies

  /** Block size of the read and write loops; any positive value behaves alike. */
  const BlockSize: nat := 16384

  /**
   * Nesting depth at which recursive createCollection gives up. It stands for
   * Python's recursion limit, which counts interpreter frames; each nesting
   * level takes several of them, so the real depth is lower and depends on the
   * interpreter. Any positive value behaves alike.
   */
  const MaxNesting: nat := 1000

  /** exists(): stat succeeding means present, ENOENT means absent, anything else is an error. */
  function ExistenceFromStat(reply: Result<Entry, SftpError>): (r: Result<bool, PersistenceError>)
    ensures r == Ok(true) <==> reply.Ok?
    ensures r == Ok(false) <==> reply == Err(IOError(ENOENT))
    ensures r.Err? <==> reply.Err? && reply.error != IOError(ENOENT)
    ensures r.Err? ==> r.error == SftpCallFailed(reply.error)
  {
    match reply
    case Ok(_) => Ok(true)
    case Err(IOError(ENOENT)) => Ok(false)
    case Err(e) => Err(SftpCallFailed(e))
  }

  /** isCollection: S_ISDIR of the st_mode stat reports; every stat failure is an error. */
  function CollectionFromStat(reply: Result<Entry, SftpError>): (r: Result<bool, PersistenceError>)
    ensures r.Ok? <==> reply.Ok?
    ensures r.Ok? ==> (r.value <==> reply.value.Dir?)
    ensures r.Err? ==> r.error == SftpCallFailed(reply.error)
  {
    match reply
    case Ok(entry) => Ok(entry.Dir?)
    case Err(e) => Err(SftpCallFailed(e))
  }

  /** `not` applied to a boolean answer; an error passes through unchanged. */
  function Negated(answer: Result<bool, PersistenceError>): (r: Result<bool, PersistenceError>)
    ensures r.Ok? <==> answer.Ok?
    ensures r.Ok? ==> r.value == !answer.value
    ensures r.Err? ==> r.error == answer.error
  {
    if answer.Ok? then Ok(!answer.value) else answer
  }

  /**
   * What _createSingleCollection leaves on p, given the mkdir reply and
   * whether the server lets the user change p's mode: mkdir's error with
   * nothing changed; EPERM with the new directory left at the server's mode;
   * or the new directory with the default directory permissions.
   */
  ghost predicate CollectionMade(fs0: Tree, fs: Tree, p: Path, mkdir: Outcome<SftpError>, modeFixed: bool,
                                 r: Outcome<PersistenceError>)
  {
    (mkdir.Fail? ==> r == Fail(SftpCallFailed(mkdir.error)) && fs == fs0)
    && (mkdir.Pass? && modeFixed ==> r == Fail(SftpCallFailed(IOError(EPERM))) && fs == fs0[p := Dir(ServerDefault)])
    && (mkdir.Pass? && !modeFixed ==> r == Pass && fs == fs0[p := Dir(DefaultDirectoryPermissions)])
  }

  /**
   * What _copyLeaf (readData of src, then writeData on dst) leaves, given the
   * download's reply, the reply of open(dst, "w"), the upload's reply and the
   * mode dst keeps: a failed download or open changes nothing; a write
   * stopped by the quota leaves a proper prefix of the content at dst;
   * otherwise dst holds the content.
   */
  ghost predicate LeafCopied(fs0: Tree, fs: Tree, src: Path, dst: Path, download: Option<SftpError>,
                             openWrite: Option<SftpError>, upload: Option<SftpError>, mode: Mode,
                             r: Outcome<PersistenceError>)
  {
    (download.Some? ==> r == Fail(SftpCallFailed(download.value)) && fs == fs0)
    && (download.None? ==>
          (src in fs0 && fs0[src].File?
           && (openWrite.Some? ==> r == Fail(SftpCallFailed(openWrite.value)) && fs == fs0)
           && (openWrite.None? && upload.Some? ==>
                 r == Fail(SftpCallFailed(upload.value)) && PartlyWritten(fs0, fs, dst, fs0[src].content, mode))
           && (openWrite.None? && upload.None? ==> r == Pass && fs == fs0[dst := File(fs0[src].content, mode)])))
  }

  /** Wrap the native error of a failed call into a PersistenceError. */
  function Wrapped(outcome: Outcome<SftpError>): (r: Outcome<PersistenceError>)
    ensures r.Pass? <==> outcome.Pass?
    ensures r.Fail? ==> r.error == SftpCallFailed(outcome.error)
  {
    if outcome.Pass? then Pass else Fail(SftpCallFailed(outcome.error))
  }

  class SftpDataAdapter {
    const identifier: Path
    const pool: ConnectionPool
    const server: SftpServer

    constructor (identifier: Path, pool: ConnectionPool, server: SftpServer)
      ensures this.identifier == identifier && this.pool == pool && this.server == server
    {
      this.identifier, this.pool, this.server := identifier, pool, server;
    }

    /** exists(): stat the item. */
    method Exists() returns (r: Result<bool, PersistenceError>)
      modifies pool
      ensures pool.checkedOut == old(pool.checkedOut)
      ensures r == ExistenceFromStat(server.StatReply(identifier))
      ensures server.Refusal(identifier).None? ==> r == Ok(identifier in server.fs)
    {
      pool.Acquire();
      var reply := server.Stat(identifier);
      pool.Release();
      r := ExistenceFromStat(reply);
    }

    /** isCollection: stat the item and test for a directory. */
    method IsCollection() returns (r: Result<bool, PersistenceError>)
      modifies pool
      ensures pool.checkedOut == old(pool.checkedOut)
      ensures r == CollectionFromStat(server.StatReply(identifier))
    {
      pool.Acquire();
      var reply := server.Stat(identifier);
      pool.Release();
      r := CollectionFromStat(reply);
    }

    /** isLeaf: not isCollection. */
    method IsLeaf() returns (r: Result<bool, PersistenceError>)
      modifies pool
      ensures pool.checkedOut == old(pool.checkedOut)
      ensures r == Negated(CollectionFromStat(server.StatReply(identifier)))
    {
      var collection := IsCollection();
      r := Negated(collection);
    }

    /** canAddChildren: exactly isCollection. */
    method CanAddChildren() returns (r: Result<bool, PersistenceError>)
      modifies pool
      ensures pool.checkedOut == old(pool.checkedOut)
      ensures r == CollectionFromStat(server.StatReply(identifier))
    {
      r := IsCollection();
    }

    /** _setPermissions(mode): chmod the item. */
    method SetPermissions(mode: Mode) returns (r: Outcome<PersistenceError>)
      requires server.Valid()
      modifies pool, server
      ensures server.Valid() && pool.checkedOut == old(pool.checkedOut)
      ensures r == Wrapped(old(server.ChmodReply(identifier)))
      ensures r.Pass? ==> server.fs == old(server.fs)[identifier :=
                 if old(server.fs)[identifier].Dir? then Dir(mode)
                 else File(old(server.fs)[identifier].content, mode)]
      ensures r.Fail? ==> server.fs == old(server.fs)
    {
      pool.Acquire();
      var reply := server.Chmod(identifier, mode);
      pool.Release();
      r := Wrapped(reply);
    }

    /** _createSingleCollection: mkdir, then set the default directory permissions. */
    method CreateSingleCollection() returns (r: Outcome<PersistenceError>)
      requires server.Valid()
      modifies pool, server
      ensures server.Valid() && pool.checkedOut == old(pool.checkedOut)
      ensures r.Pass? <==> old(server.MkdirReply(identifier)).Pass? && identifier !in server.fixedModes
      ensures old(server.MkdirReply(identifier)).Pass? ==> identifier !in old(server.fs)
      ensures CollectionMade(old(server.fs), server.fs, identifier, old(server.MkdirReply(identifier)),
                             identifier in server.fixedModes, r)
    {
      pool.Acquire();
      var made := server.Mkdir(identifier);
      pool.Release();
      if made.Fail? {
        return Fail(SftpCallFailed(made.error));
      }
      r := SetPermissions(DefaultDirectoryPermissions);
    }

    /** createCollection(recursively). */
    method CreateCollection(recursively: bool) returns (r: Outcome<PersistenceError>)
      requires server.Valid()
      modifies pool, server
      ensures server.Valid() && pool.checkedOut == old(pool.checkedOut)
      ensures Keeps(server.fs, old(server.fs))
      ensures server.fs.Keys <= old(server.fs).Keys + Prefixes(identifier)
      ensures r.Pass? ==> identifier !in old(server.fs)
      ensures r.Pass? && recursively ==> server.fs == WithDirs(old(server.fs), identifier, DefaultDirectoryPermissions)
      ensures !recursively ==> CollectionMade(old(server.fs), server.fs, identifier, old(server.MkdirReply(identifier)),
                                              identifier in server.fixedModes, r)
    {
      r := CreateCollectionNested(recursively, 0);
    }

    /**
     * createCollection at a given depth of the parent-first recursion; a
     * recursion reaching MaxNesting stands for the RuntimeError Python raises.
     */
    method CreateCollectionNested(recursively: bool, depth: nat) returns (r: Outcome<PersistenceError>)
      requires server.Valid()
      modifies pool, server
      decreases MaxNesting - depth, 1
      ensures server.Valid() && pool.checkedOut == old(pool.checkedOut)
      ensures Keeps(server.fs, old(server.fs))
      ensures server.fs.Keys <= old(server.fs).Keys + Prefixes(identifier)
      ensures r.Pass? ==> identifier !in old(server.fs)
      ensures r.Pass? && recursively ==> server.fs == WithDirs(old(server.fs), identifier, DefaultDirectoryPermissions)
      ensures !recursively ==> CollectionMade(old(server.fs), server.fs, identifier, old(server.MkdirReply(identifier)),
                                              identifier in server.fixedModes, r)
    {
      ghost var fs0 := server.fs;
      if recursively {
        var parents := CreateMissingParents(depth);
        if parents.Fail? {
          PrefixesOfParent(identifier);
          return parents;
        }
      }
      ghost var fs1 := server.fs;
      r := CreateSingleCollection();
      PrefixesOfParent(identifier);
      assert identifier == identifier[..|identifier|];
      if r.Pass? && recursively {
        WithDirsChild(fs0, identifier, DefaultDirectoryPermissions);
      }
    }

    /** _createMissingParents: create the parent collection first unless it exists. */
    method CreateMissingParents(depth: nat) returns (r: Outcome<PersistenceError>)
      requires server.Valid()
      modifies pool, server
      decreases MaxNesting - depth, 0
      ensures server.Valid() && pool.checkedOut == old(pool.checkedOut)
      ensures Keeps(server.fs, old(server.fs))
      ensures server.fs.Keys <= old(server.fs).Keys + Prefixes(Parent(identifier))
      ensures r.Pass? ==> Parent(identifier) in server.fs
                          && server.fs == WithDirs(old(server.fs), Parent(identifier), DefaultDirectoryPermissions)
      ensures old(server.StatReply(Parent(identifier))).Ok? ==> r == Pass && server.fs == old(server.fs)
      ensures old(ExistenceFromStat(server.StatReply(Parent(identifier)))).Err? ==>
                r == Fail(old(ExistenceFromStat(server.StatReply(Parent(identifier)))).error) && server.fs == old(server.fs)
      ensures old(server.StatReply(Parent(identifier))) == Err(IOError(ENOENT)) && depth + 1 >= MaxNesting ==>
                r == Fail(TooDeeplyNested) && server.fs == old(server.fs)
    {
      var parent := new SftpDataAdapter(Parent(identifier), pool, server);
      var present := parent.Exists();
      if present.Err? {
        return Fail(present.error);
      }
      if present.value {
        WithDirsPresent(server.fs, Parent(identifier), DefaultDirectoryPermissions);
        return Pass;
      }
      if depth + 1 >= MaxNesting {
        return Fail(TooDeeplyNested);
      }
      r := parent.CreateCollectionNested(true, depth + 1);
      if r.Pass? {
        assert Parent(identifier) in Prefixes(Parent(identifier)) by {
          assert Parent(identifier) == Parent(identifier)[..|Parent(identifier)|];
        }
      }
    }

    /** createResource: write empty content, then set the default file permissions. */
    method CreateResource() returns (r: Outcome<PersistenceError>)
      requires server.Valid()
      modifies pool, server
      ensures server.Valid() && pool.checkedOut == old(pool.checkedOut)
      ensures r.Pass? <==> old(server.OpenWriteReply(identifier)).None? && identifier !in server.fixedModes
      ensures old(server.OpenWriteReply(identifier)).Some? ==>
                r == Fail(SftpCallFailed(old(server.OpenWriteReply(identifier)).value)) && server.fs == old(server.fs)
      ensures old(server.OpenWriteReply(identifier)).None? && identifier in server.fixedModes ==>
                r == Fail(SftpCallFailed(IOError(EPERM)))
                && server.fs == old(server.fs)[identifier := File([], old(server.KeptMode(identifier)))]
      ensures r.Pass? ==> server.fs == old(server.fs)[identifier := File([], DefaultFilePermissions)]
    {
      var empty := new ByteStream([]);
      r := WriteData(empty);
      if r.Pass? {
        r := SetPermissions(DefaultFilePermissions);
      }
    }

    /** createLink: links are not supported over SFTP. */
    method CreateLink(destination: Path) returns (r: Outcome<PersistenceError>)
      ensures r == Fail(NotImplemented)
    {
      r := Fail(NotImplemented);
    }

    /** getChildren: the identifiers of the names listdir reports. */
    method GetChildren() returns (r: Result<seq<Path>, PersistenceError>)
      modifies pool
      ensures pool.checkedOut == old(pool.checkedOut)
      ensures r.Err? <==> server.ListdirRefusal(identifier).Some?
      ensures r.Err? ==> r.error == SftpCallFailed(server.ListdirRefusal(identifier).value)
      ensures r.Ok? ==> forall c :: c in r.value <==> c in server.fs && IsChildOf(c, identifier)
      ensures r.Ok? ==> forall i, j :: 0 <= i < j < |r.value| ==> r.value[i] != r.value[j]
    {
      pool.Acquire();
      var listing := server.Listdir(identifier);
      if listing.Err? {
        pool.Release();
        return Err(SftpCallFailed(listing.error));
      }
      var names := listing.value;
      var children: seq<Path> := [];
      for i := 0 to |names|
        invariant |children| == i
        invariant forall k :: 0 <= k < i ==> children[k] == Child(identifier, names[k])
      {
        children := children + [Child(identifier, names[i])];
      }
      pool.Release();
      forall c | c in server.fs && IsChildOf(c, identifier) ensures c in children {
        var k :| 0 <= k < |names| && names[k] == BaseName(c);
        ChildOfParent(c);
        assert children[k] == c;
      }
      forall i, j | 0 <= i < j < |children| ensures children[i] != children[j] {
        assert BaseName(children[i]) == names[i];
      }
      r := Ok(children);
    }

    /**
     * copy(destination): a collection is copied collection by collection,
     * every file transferred through readData and writeData; a file is
     * copied by one readData and one writeData.
     */
    method Copy(destination: SftpDataAdapter) returns (r: Outcome<PersistenceError>)
      requires server.Valid() && destination.server == server && destination.pool == pool
      requires identifier in server.fs && server.fs[identifier].Dir? ==> !(identifier < destination.identifier)
      modifies pool, server
      ensures server.Valid() && pool.checkedOut == old(pool.checkedOut)
      ensures old(server.StatReply(identifier)).Err? ==>
                r == Fail(SftpCallFailed(old(server.StatReply(identifier)).error)) && server.fs == old(server.fs)
      ensures old(server.StatReply(identifier)).Ok? && old(server.fs)[identifier].Dir? ==>
                CopyOutcome(old(server.fs), server.fs, identifier, destination.identifier, r)
      ensures old(server.StatReply(identifier)).Ok? && old(server.fs)[identifier].File? ==>
                LeafCopied(old(server.fs), server.fs, identifier, destination.identifier,
                           old(server.DownloadReply(identifier)),
                           old(server.OpenWriteReply(destination.identifier)),
                           old(server.UploadReply(destination.identifier, |server.fs[identifier].content|)),
                           old(server.KeptMode(destination.identifier)), r)
    {
      var collection := IsCollection();
      if collection.Err? {
        return Fail(collection.error);
      }
      pool.Acquire();
      if collection.value {
        r := CopyCollection(destination.identifier);
      } else {
        r := CopyLeaf(destination);
      }
      pool.Release();
    }

    /** _copyCollection: breadth first over the collections below the item. */
    method CopyCollection(dst: Path) returns (r: Outcome<PersistenceError>)
      requires server.Valid() && identifier in server.fs && server.fs[identifier].Dir?
      requires !(identifier < dst)
      modifies pool, server
      ensures server.Valid() && pool.checkedOut == old(pool.checkedOut)
      ensures CopyOutcome(old(server.fs), server.fs, identifier, dst, r)
    {
      ghost var fs0 := server.fs;
      var collections := [identifier];
      ghost var done: seq<Path> := [];
      WalkStart(fs0, identifier);
      while collections != []
        invariant server.Valid() && pool.checkedOut == old(pool.checkedOut)
        invariant Walk(fs0, identifier, done, collections)
        invariant Keeps(server.fs, fs0)
        invariant AddsOnly(fs0, server.fs, identifier, dst, Elems(done) + FilesIn(fs0, Elems(done)))
        invariant CopiedAt(fs0, server.fs, identifier, dst, Elems(done) + FilesIn(fs0, Elems(done)))
        invariant done != [] ==> dst !in fs0
        decreases |DirsUnder(fs0, identifier) - Elems(done)|
      {
        var found := CopyCollectionRound(dst, fs0, done, collections);
        if found.Err? {
          return Fail(found.error);
        }
        done := done + [collections[0]];
        collections := collections[1..] + found.value;
      }
      CopyFinished(fs0, server.fs, identifier, dst, done);
      r := Pass;
    }

    /** One round of _copyCollection: recreate the head of the worklist below dst and copy its files. */
    method CopyCollectionRound(dst: Path, ghost fs0: Tree, ghost done: seq<Path>, collections: seq<Path>)
      returns (r: Result<seq<Path>, PersistenceError>)
      requires WellFormed(fs0) && identifier in fs0 && fs0[identifier].Dir? && !(identifier < dst)
      requires server.Valid() && Walk(fs0, identifier, done, collections) && collections != []
      requires Keeps(server.fs, fs0)
      requires AddsOnly(fs0, server.fs, identifier, dst, Elems(done) + FilesIn(fs0, Elems(done)))
      requires CopiedAt(fs0, server.fs, identifier, dst, Elems(done) + FilesIn(fs0, Elems(done)))
      requires done != [] ==> dst !in fs0
      modifies pool, server
      ensures server.Valid() && pool.checkedOut == old(pool.checkedOut)
      ensures Keeps(server.fs, fs0)
      ensures r.Err? ==> AddsOnly(fs0, server.fs, identifier, dst, Subtree(fs0, identifier))
      ensures r.Ok? ==> Walk(fs0, identifier, done + [collections[0]], collections[1..] + r.value)
      ensures r.Ok? ==> |DirsUnder(fs0, identifier) - Elems(done + [collections[0]])|
                        < |DirsUnder(fs0, identifier) - Elems(done)|
      ensures r.Ok? ==> AddsOnly(fs0, server.fs, identifier, dst,
                                 Elems(done + [collections[0]]) + FilesIn(fs0, Elems(done + [collections[0]])))
      ensures r.Ok? ==> CopiedAt(fs0, server.fs, identifier, dst,
                                 Elems(done + [collections[0]]) + FilesIn(fs0, Elems(done + [collections[0]])))
      ensures r.Ok? ==> dst !in fs0
    {
      var cur := collections[0];
      ghost var items := Elems(done) + FilesIn(fs0, Elems(done));
      WalkHead(fs0, identifier, done, collections);
      CopiedItemsBelow(fs0, identifier, done, collections);
      ghost var fsp := server.fs;
      var made := CreateDestinationCollection(cur, dst);
      if made.Fail? {
        AddsOnlyMore(fs0, fsp, identifier, dst, items, Subtree(fs0, identifier));
        AddsOnlyOne(fs0, fsp, server.fs, identifier, dst, Subtree(fs0, identifier), cur);
        return Err(made.error);
      }
      ghost var fs1 := server.fs;
      if done == [] {
        assert cur == (done + collections)[0];
        RebaseRoot(identifier, dst);
      }
      DestinationCollectionMade(fs0, fsp, fs1, identifier, dst, cur, items);
      NextFilesUncopied(fs0, fs1, identifier, dst, Elems(done), cur);
      var found := CopyCollectionContent(cur, dst);
      if found.Err? {
        AddsOnlyStep(fs0, fs1, server.fs, identifier, dst, items, cur);
        return Err(found.error);
      }
      CopyStep(fs0, fs1, server.fs, identifier, dst, done, cur);
      WalkStep(fs0, identifier, done, collections, found.value);
      WalkProgress(fs0, identifier, done, collections);
      r := Ok(found.value);
    }

    /** _createDestinationCollection: createCollection() on the rebased identifier. */
    method CreateDestinationCollection(cur: Path, dst: Path) returns (r: Outcome<PersistenceError>)
      requires server.Valid() && identifier <= cur
      modifies pool, server
      ensures server.Valid() && pool.checkedOut == old(pool.checkedOut)
      ensures old(server.MkdirReply(Rebase(cur, identifier, dst))).Pass? ==> Rebase(cur, identifier, dst) !in old(server.fs)
      ensures CollectionMade(old(server.fs), server.fs, Rebase(cur, identifier, dst),
                             old(server.MkdirReply(Rebase(cur, identifier, dst))),
                             Rebase(cur, identifier, dst) in server.fixedModes, r)
    {
      var target := new SftpDataAdapter(Rebase(cur, identifier, dst), pool, server);
      r := target.CreateCollection(false);
    }

    /**
     * _copyCollectionContent: list cur, queue its collections and copy its
     * files to their rebased identifiers.
     */
    method CopyCollectionContent(cur: Path, dst: Path) returns (r: Result<seq<Path>, PersistenceError>)
      requires server.Valid() && identifier <= cur
      requires forall f :: f in ChildFiles(server.fs, cur) ==> Rebase(f, identifier, dst) !in server.fs
      modifies pool, server
      ensures server.Valid() && pool.checkedOut == old(pool.checkedOut)
      ensures Keeps(server.fs, old(server.fs))
      ensures AddsOnly(old(server.fs), server.fs, identifier, dst, ChildFiles(old(server.fs), cur))
      ensures r.Ok? ==> Elems(r.value) == ChildDirs(old(server.fs), cur) && Distinct(r.value)
      ensures r.Ok? ==> CopiedAt(old(server.fs), server.fs, identifier, dst, ChildFiles(old(server.fs), cur))
    {
      var listing := server.ListdirAttr(cur);
      if listing.Err? {
        return Err(SftpCallFailed(listing.error));
      }
      r := CopyListedItems(cur, dst, listing.value);
    }

    /** The loop of _copyCollectionContent over one listing. */
    method CopyListedItems(cur: Path, dst: Path, attrs: seq<Attr>) returns (r: Result<seq<Path>, PersistenceError>)
      requires server.Valid() && identifier <= cur && Lists(server.fs, cur, attrs)
      requires forall f :: f in ChildFiles(server.fs, cur) ==> Rebase(f, identifier, dst) !in server.fs
      modifies pool, server
      ensures server.Valid() && pool.checkedOut == old(pool.checkedOut)
      ensures Keeps(server.fs, old(server.fs))
      ensures AddsOnly(old(server.fs), server.fs, identifier, dst, ChildFiles(old(server.fs), cur))
      ensures r.Ok? ==> Elems(r.value) == ChildDirs(old(server.fs), cur) && Distinct(r.value)
      ensures r.Ok? ==> CopiedAt(old(server.fs), server.fs, identifier, dst, ChildFiles(old(server.fs), cur))
    {
      ghost var fs0 := server.fs;
      ghost var files := ChildFiles(fs0, cur);
      ListedChildren(fs0, cur, attrs);
      ChildFilesBelow(fs0, identifier, cur);
      var found: seq<Path> := [];
      ghost var written: seq<Path> := [];
      var i := 0;
      while i < |attrs|
        invariant 0 <= i <= |attrs|
        invariant server.Valid() && pool.checkedOut == old(pool.checkedOut)
        invariant written == ListedFileSeq(cur, attrs[..i])
        invariant forall q :: q in written ==> q in files
        invariant server.fs == fs0 + FileCopies(fs0, identifier, dst, written)
        invariant found == ListedDirs(cur, attrs[..i])
      {
        var a := attrs[i];
        var child := Child(cur, a.filename);
        ListedStep(cur, attrs, i);
        if a.isDir {
          found := found + [child];
        } else {
          assert child in files;
          ListedFilesFresh(cur, attrs, i);
          ListedFileSeqElems(cur, attrs[..i]);
          var copied := CopyListedFile(child, dst, fs0, written, files);
          if copied.Fail? {
            return Err(copied.error);
          }
          written := written + [child];
        }
        i := i + 1;
      }
      assert attrs[..i] == attrs;
      ListedDirsElems(cur, attrs);
      ListedDirsDistinct(cur, attrs);
      ListedFileSeqElems(cur, attrs);
      FileCopiesOutcome(fs0, server.fs, identifier, dst, written, files);
      r := Ok(found);
    }

    /** The step of CopyListedItems for a listed file: copy it to its rebased identifier, or stop. */
    method CopyListedFile(child: Path, dst: Path, ghost fs0: Tree, ghost written: seq<Path>, ghost files: set<Path>)
      returns (r: Outcome<PersistenceError>)
      requires server.Valid() && child in files && child !in written
      requires forall q :: q in written ==> q in files
      requires forall q :: q in files ==> q in fs0 && fs0[q].File? && identifier <= q && Rebase(q, identifier, dst) !in fs0
      requires server.fs == fs0 + FileCopies(fs0, identifier, dst, written)
      modifies pool, server
      ensures server.Valid() && pool.checkedOut == old(pool.checkedOut)
      ensures r.Pass? ==> server.fs == fs0 + FileCopies(fs0, identifier, dst, written + [child])
      ensures r.Fail? ==> Keeps(server.fs, fs0) && AddsOnly(fs0, server.fs, identifier, dst, files)
    {
      FileCopiesMiss(fs0, identifier, dst, written, child);
      FileCopiesOutcome(fs0, server.fs, identifier, dst, written, files);
      var item := new SftpDataAdapter(child, pool, server);
      var destination := new SftpDataAdapter(Rebase(child, identifier, dst), pool, server);
      ghost var fsb := server.fs;
      r := item.CopyLeaf(destination);
      if r.Fail? {
        AddsOnlyOne(fs0, fsb, server.fs, identifier, dst, files, child);
        return;
      }
      FileCopiesStep(fs0, identifier, dst, written, child);
    }

    /** _copyLeaf: readData, then writeData on the destination. */
    method CopyLeaf(destination: SftpDataAdapter) returns (r: Outcome<PersistenceError>)
      requires server.Valid() && destination.server == server && destination.pool == pool
      modifies pool, server
      ensures server.Valid() && pool.checkedOut == old(pool.checkedOut)
      ensures LeafCopied(old(server.fs), server.fs, identifier, destination.identifier,
                         old(server.DownloadReply(identifier)),
                         old(server.OpenWriteReply(destination.identifier)),
                         old(if server.DownloadReply(identifier).None?
                             then server.UploadReply(destination.identifier, |server.fs[identifier].content|) else None),
                         old(server.KeptMode(destination.identifier)), r)
    {
      var data := ReadData();
      if data.Err? {
        return Fail(data.error);
      }
      r := destination.WriteData(data.value);
    }

    /** move(destination): rename the item. */
    method Move(destination: Path) returns (r: Outcome<PersistenceError>)
      requires server.Valid()
      modifies pool, server
      ensures server.Valid() && pool.checkedOut == old(pool.checkedOut)
      ensures r == Wrapped(old(server.RenameReply(identifier, destination)))
      ensures server.fs == if r.Pass? then Moved(old(server.fs), identifier, destination) else old(server.fs)
    {
      pool.Acquire();
      var reply := server.Rename(identifier, destination);
      pool.Release();
      r := Wrapped(reply);
    }

    /** readData: copy the remote file block by block into a temporary file, rewound. */
    method ReadData() returns (r: Result<ByteStream, PersistenceError>)
      modifies pool
      ensures pool.checkedOut == old(pool.checkedOut)
      ensures r.Err? <==> server.DownloadReply(identifier).Some?
      ensures r.Err? ==> r.error == SftpCallFailed(server.DownloadReply(identifier).value)
      ensures r.Ok? ==> fresh(r.value) && r.value.Valid() && !r.value.closed
                        && r.value.content == server.fs[identifier].content && r.value.pos == 0
    {
      pool.Acquire();
      var temporary := new ByteStream([]);
      temporary.Seek(0);
      var handle := server.OpenRead(identifier);
      if handle.Err? {
        pool.Release();
        return Err(SftpCallFailed(handle.error));
      }
      var remote := handle.value;
      var received := ReceiveBlocks(remote, temporary);
      if received.Fail? {
        pool.Release();
        return Err(SftpCallFailed(received.error));
      }
      temporary.Seek(0);
      pool.Release();
      r := Ok(temporary);
    }

    /** writeData(data): open for writing, copy the stream block by block, always close it. */
    method WriteData(data: ByteStream) returns (r: Outcome<PersistenceError>)
      requires server.Valid() && data.Valid() && !data.closed
      modifies pool, server, data
      ensures server.Valid() && pool.checkedOut == old(pool.checkedOut)
      ensures data.closed
      ensures r.Pass? <==> old(server.UploadReply(identifier, |data.content| - data.pos)).None?
      ensures r.Fail? ==> r.error == SftpCallFailed(old(server.UploadReply(identifier, |data.content| - data.pos)).value)
      ensures old(server.OpenWriteReply(identifier)).Some? ==> server.fs == old(server.fs)
      ensures r.Pass? ==> server.fs == old(server.fs)[identifier := File(old(data.content)[old(data.pos)..],
                                                                       old(server.KeptMode(identifier)))]
      ensures old(server.OpenWriteReply(identifier)).None? && r.Fail? ==>
                PartlyWritten(old(server.fs), server.fs, identifier, old(data.content)[old(data.pos)..],
                              old(server.KeptMode(identifier)))
                && server.Fits(identifier, |server.fs[identifier].content|)
    {
      pool.Acquire();
      var handle := server.OpenWrite(identifier);
      if handle.Fail? {
        data.Close();
        pool.Release();
        return Fail(SftpCallFailed(handle.error));
      }
      var sent := SendBlocks(data);
      data.Close();
      pool.Release();
      r := Wrapped(sent);
    }

    /** The download loop of readData: every block of the freshly opened remote file, appended to temporary. */
    method ReceiveBlocks(remote: ByteStream, temporary: ByteStream) returns (r: Outcome<SftpError>)
      requires remote != temporary
      requires remote.Valid() && !remote.closed && remote.pos == 0
      requires temporary.Valid() && !temporary.closed && temporary.content == [] && temporary.pos == 0
      modifies remote, temporary
      ensures remote.content == old(remote.content)
      ensures temporary.Valid() && !temporary.closed
      ensures r.Fail? <==> server.Unreadable(identifier, |remote.content|)
      ensures r.Fail? ==> r.error == IOError(EIO)
      ensures r.Pass? ==> temporary.content == remote.content
    {
      var reply := server.ReadBlock(identifier, remote, BlockSize);
      if reply.Err? {
        return Fail(reply.error);
      }
      var block := reply.value;
      while block != []
        invariant remote.Valid() && !remote.closed && remote.content == old(remote.content)
        invariant temporary.Valid() && !temporary.closed
        invariant |block| <= remote.pos && block == remote.content[remote.pos - |block|..remote.pos]
        invariant temporary.content == remote.content[..remote.pos - |block|]
        invariant temporary.pos == |temporary.content|
        invariant block == [] ==> remote.pos == |remote.content|
        invariant !server.Unreadable(identifier, remote.pos)
        decreases |remote.content| - remote.pos + |block|
      {
        PrefixJoin(remote.content, remote.pos - |block|, remote.pos);
        temporary.Write(block);
        reply := server.ReadBlock(identifier, remote, BlockSize);
        if reply.Err? {
          return Fail(reply.error);
        }
        block := reply.value;
      }
      r := Pass;
    }

    /**
     * The block loop of writeData on a file just opened for writing, so still
     * empty: the rest of data, appended block by block until the quota stops it.
     */
    method SendBlocks(data: ByteStream) returns (r: Outcome<SftpError>)
      requires server.Valid() && data.Valid() && !data.closed
      requires identifier in server.fs && server.fs[identifier] == File([], server.fs[identifier].meta)
      modifies server, data
      ensures server.Valid() && data.content == old(data.content) && !data.closed
      ensures r.Pass? <==> server.Fits(identifier, |old(data.content)| - old(data.pos))
      ensures r.Fail? ==> r.error == IOError(ENOSPC)
      ensures r.Pass? ==> server.fs == old(server.fs)[identifier := File(old(data.content)[old(data.pos)..],
                                                                       old(server.fs)[identifier].meta)]
      ensures r.Fail? ==> PartlyWritten(old(server.fs), server.fs, identifier, old(data.content)[old(data.pos)..],
                                        old(server.fs)[identifier].meta)
                          && server.Fits(identifier, |server.fs[identifier].content|)
    {
      ghost var start := data.pos;
      ghost var rest := data.content[start..];
      ghost var mode := server.fs[identifier].meta;
      ghost var fs1 := server.fs;
      ghost var written: seq<Byte> := [];
      var block := data.Read(BlockSize);
      assert fs1[identifier := File(written, mode)] == fs1;
      while block != []
        invariant data.Valid() && !data.closed && data.content == old(data.content)
        invariant server.Valid()
        invariant start + |block| <= data.pos
        invariant block == data.content[data.pos - |block|..data.pos]
        invariant written == data.content[start..data.pos - |block|]
        invariant server.fs == fs1[identifier := File(written, mode)]
        invariant server.Fits(identifier, |written|)
        invariant block == [] ==> data.pos == |data.content|
        decreases |data.content| - data.pos + |block|
      {
        assert written + block == data.content[start..data.pos];
        var wrote := server.WriteBlock(identifier, block);
        if wrote.Fail? {
          assert written < rest by {
            assert rest[..|written|] == written;
          }
          return wrote;
        }
        written := written + block;
        block := data.Read(BlockSize);
      }
      assert written == rest;
      r := Pass;
    }

    /** delete: remove the item, and below a collection everything it holds. */
    method Delete() returns (r: Outcome<PersistenceError>)
      requires server.Valid()
      modifies pool, server
      ensures server.Valid() && pool.checkedOut == old(pool.checkedOut)
      ensures Trimmed(old(server.fs), server.fs, Subtree(old(server.fs), identifier))
      ensures r.Pass? ==> server.fs == old(server.fs) - Subtree(old(server.fs), identifier)
      ensures r.Pass? <==> identifier in old(server.fs)
                           && forall q :: q in Subtree(old(server.fs), identifier) ==> server.Clear(old(server.fs), q)
    {
      var collection := IsCollection();
      if collection.Err? {
        assert identifier in server.fs ==> identifier in Subtree(server.fs, identifier);
        return Fail(collection.error);
      }
      pool.Acquire();
      var outcome;
      if collection.value {
        outcome := DeleteCollection();
      } else {
        outcome := DeleteLeaf();
      }
      pool.Release();
      r := Wrapped(outcome);
    }

    /** _deleteCollection: empty every collection, then remove them deepest first. */
    method DeleteCollection() returns (r: Outcome<SftpError>)
      requires server.Valid() && identifier in server.fs && server.fs[identifier].Dir?
      modifies server
      ensures server.Valid()
      ensures Trimmed(old(server.fs), server.fs, Subtree(old(server.fs), identifier))
      ensures r.Pass? ==> server.fs == old(server.fs) - Subtree(old(server.fs), identifier)
      ensures r.Pass? <==> forall q :: q in Subtree(old(server.fs), identifier) ==> server.Clear(old(server.fs), q)
      ensures r.Fail? ==> exists q :: q in Subtree(old(server.fs), identifier) && server.Hinders(old(server.fs), q, r.error)
    {
      ghost var fs0 := server.fs;
      SubtreeSplit(fs0, identifier);
      var emptied := EmptyAllCollections();
      if emptied.Err? {
        return Fail(emptied.error);
      }
      FinishedWalk(fs0, identifier, emptied.value);
      r := DeleteEmptiedCollections(emptied.value, fs0);
      if r.Fail? {
        ghost var k :| 0 <= k < |emptied.value| && Reversed(emptied.value)[k] in server.pinned
                       && server.fs == (fs0 - FilesUnder(fs0, identifier)) - Elems(Reversed(emptied.value)[..k]);
        ghost var d := Reversed(emptied.value)[k];
        assert d in emptied.value;
        assert d in DirsUnder(fs0, identifier);
        assert server.Hinders(fs0, d, r.error);
        ReversedElems(emptied.value);
        assert Elems(Reversed(emptied.value)[..k]) <= DirsUnder(fs0, identifier);
        MapMinus(fs0, FilesUnder(fs0, identifier), Elems(Reversed(emptied.value)[..k]));
        TrimmedByMinus(fs0, FilesUnder(fs0, identifier) + Elems(Reversed(emptied.value)[..k]), Subtree(fs0, identifier));
      }
    }

    /** _deleteLeaf: remove the file. */
    method DeleteLeaf() returns (r: Outcome<SftpError>)
      requires server.Valid() && identifier in server.fs && server.fs[identifier].File?
      modifies server
      ensures server.Valid()
      ensures Trimmed(old(server.fs), server.fs, Subtree(old(server.fs), identifier))
      ensures r.Pass? ==> server.fs == old(server.fs) - Subtree(old(server.fs), identifier)
      ensures r.Pass? <==> forall q :: q in Subtree(old(server.fs), identifier) ==> server.Clear(old(server.fs), q)
      ensures r.Fail? ==> exists q :: q in Subtree(old(server.fs), identifier) && server.Hinders(old(server.fs), q, r.error)
    {
      FileSubtree(server.fs, identifier);
      r := server.Remove(identifier);
    }

    /**
     * _emptyAllCollections: walk the collections breadth first from the item,
     * removing every file and queueing every directory; the result lists the
     * collections in discovery order.
     */
    method EmptyAllCollections() returns (r: Result<seq<Path>, SftpError>)
      requires server.Valid() && identifier in server.fs && server.fs[identifier].Dir?
      modifies server
      ensures server.Valid()
      ensures Trimmed(old(server.fs), server.fs, FilesUnder(old(server.fs), identifier))
      ensures r.Ok? ==> Walk(old(server.fs), identifier, r.value, [])
                        && Elems(r.value) == DirsUnder(old(server.fs), identifier)
      ensures r.Ok? ==> server.fs == old(server.fs) - FilesUnder(old(server.fs), identifier)
      ensures r.Ok? ==> forall q :: q in Subtree(old(server.fs), identifier) ==> server.Refusal(q).None?
      ensures r.Ok? ==> forall d :: d in DirsUnder(old(server.fs), identifier) ==> d !in server.unlistable
      ensures r.Err? ==> exists q :: q in Subtree(old(server.fs), identifier) && server.Hinders(old(server.fs), q, r.error)
    {
      ghost var fs0 := server.fs;
      var collections := [identifier];
      var emptied: seq<Path> := [];
      WalkStart(fs0, identifier);
      while collections != []
        invariant server.Valid()
        invariant Walk(fs0, identifier, emptied, collections)
        invariant Elems(emptied) <= DirsUnder(fs0, identifier)
        invariant server.fs == fs0 - FilesIn(fs0, Elems(emptied))
        invariant forall q :: q in emptied ==> server.Refusal(q).None? && q !in server.unlistable
        invariant forall f :: f in FilesIn(fs0, Elems(emptied)) ==> server.Refusal(f).None?
        decreases |DirsUnder(fs0, identifier) - Elems(emptied)|
      {
        var cur := collections[0];
        WalkHead(fs0, identifier, emptied, collections);
        FilesInBelow(fs0, identifier, Elems(emptied));
        ChildFilesUnder(fs0, identifier, cur);
        SameChildren(fs0, Elems(emptied), cur);
        ghost var fsCur := server.fs;
        var found := EmptyCollection(cur);
        if found.Err? {
          TrimmedThen(fs0, FilesIn(fs0, Elems(emptied)), server.fs, ChildFiles(fs0, cur), FilesUnder(fs0, identifier));
          if server.Hinders(fsCur, cur, found.error) {
            assert cur in Subtree(fs0, identifier) && fsCur[cur] == fs0[cur];
            assert server.Hinders(fs0, cur, found.error);
          } else {
            ghost var f :| f in ChildFiles(fs0, cur) && server.Refusal(f) == Some(found.error);
            assert f in Subtree(fs0, identifier);
          }
          return Err(found.error);
        }
        EmptiedStep(fs0, identifier, emptied, collections, found.value);
        collections := collections[1..] + found.value;
        emptied := emptied + [cur];
      }
      assert emptied + [] == emptied;
      WalkCovers(fs0, identifier, emptied);
      FilesInDirsUnder(fs0, identifier);
      SubtreeSplit(fs0, identifier);
      r := Ok(emptied);
    }

    /** One round of _emptyAllCollections: list cur, remove its files and return its directories. */
    method EmptyCollection(cur: Path) returns (r: Result<seq<Path>, SftpError>)
      requires server.Valid() && cur in server.fs && server.fs[cur].Dir?
      modifies server
      ensures server.Valid()
      ensures Trimmed(old(server.fs), server.fs, ChildFiles(old(server.fs), cur))
      ensures r.Ok? ==> server.fs == old(server.fs) - ChildFiles(old(server.fs), cur)
      ensures r.Ok? ==> Elems(r.value) == ChildDirs(old(server.fs), cur) && Distinct(r.value)
      ensures r.Ok? ==> server.Refusal(cur).None? && cur !in server.unlistable
      ensures r.Ok? ==> forall f :: f in ChildFiles(old(server.fs), cur) ==> server.Refusal(f).None?
      ensures r.Err? ==> server.Hinders(old(server.fs), cur, r.error)
                         || exists f :: f in ChildFiles(old(server.fs), cur) && server.Refusal(f) == Some(r.error)
    {
      var listing := server.ListdirAttr(cur);
      if listing.Err? {
        TrimmedByMinus(server.fs, {}, ChildFiles(server.fs, cur));
        assert server.fs - {} == server.fs;
        return Err(listing.error);
      }
      r := RemoveLeaves(cur, listing.value);
    }

    /** The step of RemoveLeaves for a listed file: remove it, or stop with the refusal. */
    method RemoveListedFile(cur: Path, attrs: seq<Attr>, i: nat, ghost fs0: Tree) returns (r: Outcome<SftpError>)
      requires server.Valid() && Lists(fs0, cur, attrs) && i < |attrs| && !attrs[i].isDir
      requires ListedFiles(cur, attrs[..i]) <= ChildFiles(fs0, cur)
      requires server.fs == fs0 - ListedFiles(cur, attrs[..i])
      requires forall f :: f in ListedFiles(cur, attrs[..i]) ==> server.Refusal(f).None?
      modifies server
      ensures server.Valid()
      ensures r.Pass? ==> ListedFiles(cur, attrs[..i + 1]) <= ChildFiles(fs0, cur)
                          && server.fs == fs0 - ListedFiles(cur, attrs[..i + 1])
                          && ListedDirs(cur, attrs[..i + 1]) == ListedDirs(cur, attrs[..i])
                          && forall f :: f in ListedFiles(cur, attrs[..i + 1]) ==> server.Refusal(f).None?
      ensures r.Fail? ==> Trimmed(fs0, server.fs, ChildFiles(fs0, cur))
      ensures r.Fail? ==> Child(cur, attrs[i].filename) in ChildFiles(fs0, cur)
                          && server.Refusal(Child(cur, attrs[i].filename)) == Some(r.error)
    {
      var child := Child(cur, attrs[i].filename);
      ListedFileAt(fs0, cur, attrs, i);
      ListedFilesStep(cur, attrs, i);
      ListedStep(cur, attrs, i);
      r := server.Remove(child);
      if r.Fail? {
        TrimmedByMinus(fs0, ListedFiles(cur, attrs[..i]), ChildFiles(fs0, cur));
      } else {
        MapMinus(fs0, ListedFiles(cur, attrs[..i]), {child});
      }
    }

    /** The inner loop of _emptyAllCollections: remove the listed files, collect the listed directories. */
    method RemoveLeaves(cur: Path, attrs: seq<Attr>) returns (r: Result<seq<Path>, SftpError>)
      requires server.Valid() && Lists(server.fs, cur, attrs)
      modifies server
      ensures server.Valid()
      ensures Trimmed(old(server.fs), server.fs, ChildFiles(old(server.fs), cur))
      ensures r.Ok? ==> server.fs == old(server.fs) - ChildFiles(old(server.fs), cur)
      ensures r.Ok? ==> Elems(r.value) == ChildDirs(old(server.fs), cur) && Distinct(r.value)
      ensures r.Ok? ==> forall f :: f in ChildFiles(old(server.fs), cur) ==> server.Refusal(f).None?
      ensures r.Err? ==> exists f :: f in ChildFiles(old(server.fs), cur) && server.Refusal(f) == Some(r.error)
    {
      ghost var fs0 := server.fs;
      ListedChildren(fs0, cur, attrs);
      r := RemoveListedFiles(cur, attrs, fs0);
      if r.Ok? {
        ListedDirsElems(cur, attrs);
        ListedDirsDistinct(cur, attrs);
        TrimmedByMinus(fs0, ChildFiles(fs0, cur), ChildFiles(fs0, cur));
      }
    }

    /** The step of RemoveListedFiles: remove a listed file, or collect a listed directory. */
    method RemoveListedItem(cur: Path, attrs: seq<Attr>, i: nat, ghost fs0: Tree, found: seq<Path>)
      returns (r: Result<seq<Path>, SftpError>)
      requires server.Valid() && Lists(fs0, cur, attrs) && i < |attrs|
      requires ListedFiles(cur, attrs[..i]) <= ChildFiles(fs0, cur)
      requires server.fs == fs0 - ListedFiles(cur, attrs[..i])
      requires found == ListedDirs(cur, attrs[..i])
      requires forall f :: f in ListedFiles(cur, attrs[..i]) ==> server.Refusal(f).None?
      modifies server
      ensures server.Valid()
      ensures r.Ok? ==> ListedFiles(cur, attrs[..i + 1]) <= ChildFiles(fs0, cur)
                        && server.fs == fs0 - ListedFiles(cur, attrs[..i + 1])
                        && r.value == ListedDirs(cur, attrs[..i + 1])
                        && forall f :: f in ListedFiles(cur, attrs[..i + 1]) ==> server.Refusal(f).None?
      ensures r.Err? ==> Trimmed(fs0, server.fs, ChildFiles(fs0, cur))
      ensures r.Err? ==> exists f :: f in ChildFiles(fs0, cur) && server.Refusal(f) == Some(r.error)
    {
      if !attrs[i].isDir {
        var removed := RemoveListedFile(cur, attrs, i, fs0);
        if removed.Fail? {
          return Err(removed.error);
        }
        r := Ok(found);
      } else {
        ListedDirStep(cur, attrs, i);
        r := Ok(found + [Child(cur, attrs[i].filename)]);
      }
    }

    /** The loop of RemoveLeaves: remove the listed files in listing order and collect the listed directories. */
    method RemoveListedFiles(cur: Path, attrs: seq<Attr>, ghost fs0: Tree) returns (r: Result<seq<Path>, SftpError>)
      requires server.Valid() && Lists(fs0, cur, attrs) && server.fs == fs0
      modifies server
      ensures server.Valid()
      ensures r.Ok? ==> server.fs == fs0 - ListedFiles(cur, attrs) && r.value == ListedDirs(cur, attrs)
      ensures r.Ok? ==> forall f :: f in ListedFiles(cur, attrs) ==> server.Refusal(f).None?
      ensures r.Err? ==> Trimmed(fs0, server.fs, ChildFiles(fs0, cur))
      ensures r.Err? ==> exists f :: f in ChildFiles(fs0, cur) && server.Refusal(f) == Some(r.error)
    {
      var found: seq<Path> := [];
      var i := 0;
      while i < |attrs|
        invariant 0 <= i <= |attrs|
        invariant server.Valid()
        invariant ListedFiles(cur, attrs[..i]) <= ChildFiles(fs0, cur)
        invariant server.fs == fs0 - ListedFiles(cur, attrs[..i])
        invariant found == ListedDirs(cur, attrs[..i])
        invariant forall f :: f in ListedFiles(cur, attrs[..i]) ==> server.Refusal(f).None?
      {
        var step := RemoveListedItem(cur, attrs, i, fs0, found);
        if step.Err? {
          return step;
        }
        found := step.value;
        i := i + 1;
      }
      assert attrs[..i] == attrs;
      r := Ok(found);
    }

    /**
     * _deleteEmptiedCollections: rmdir the emptied collections in reverse
     * discovery order, stopping at the first one the server will not remove.
     */
    method DeleteEmptiedCollections(emptied: seq<Path>, ghost fs0: Tree) returns (r: Outcome<SftpError>)
      requires server.Valid() && Finished(fs0, identifier, emptied)
      requires Elems(emptied) == DirsUnder(fs0, identifier)
      requires server.fs == fs0 - FilesUnder(fs0, identifier)
      requires forall q :: q in emptied ==> server.Refusal(q).None?
      modifies server
      ensures server.Valid()
      ensures r.Pass? <==> forall d :: d in emptied ==> d !in server.pinned
      ensures r.Pass? ==> server.fs == fs0 - Subtree(fs0, identifier)
      ensures r.Fail? ==> r.error == IOError(EACCES)
      ensures r.Fail? ==> exists k :: 0 <= k < |emptied| && Reversed(emptied)[k] in server.pinned
                                   && (forall j :: 0 <= j < k ==> Reversed(emptied)[j] !in server.pinned)
                                   && server.fs == old(server.fs) - Elems(Reversed(emptied)[..k])
    {
      for i := 0 to |emptied|
        invariant server.Valid()
        invariant server.fs == (fs0 - FilesUnder(fs0, identifier)) - Elems(Reversed(emptied)[..i])
        invariant forall j :: 0 <= j < i ==> Reversed(emptied)[j] !in server.pinned
      {
        var removed := RemoveEmptiedCollection(emptied, i, fs0);
        if removed.Fail? {
          return removed;
        }
      }
      assert Reversed(emptied)[..|emptied|] == Reversed(emptied);
      forall d | d in emptied ensures d !in server.pinned {
        var k :| 0 <= k < |emptied| && emptied[k] == d;
        assert Reversed(emptied)[|emptied| - 1 - k] == d;
      }
      ReverseRemovalDone(fs0, identifier, emptied);
      r := Pass;
    }

    /** One rmdir of _deleteEmptiedCollections: the collection at position i in reverse order. */
    method RemoveEmptiedCollection(emptied: seq<Path>, i: nat, ghost fs0: Tree) returns (r: Outcome<SftpError>)
      requires server.Valid() && Finished(fs0, identifier, emptied) && i < |emptied|
      requires server.fs == (fs0 - FilesUnder(fs0, identifier)) - Elems(Reversed(emptied)[..i])
      requires forall q :: q in emptied ==> server.Refusal(q).None?
      modifies server
      ensures server.Valid()
      ensures r.Pass? <==> Reversed(emptied)[i] !in server.pinned
      ensures r.Fail? ==> r.error == IOError(EACCES) && server.fs == old(server.fs)
      ensures r.Pass? ==> server.fs == (fs0 - FilesUnder(fs0, identifier)) - Elems(Reversed(emptied)[..i + 1])
    {
      var d := Reversed(emptied)[i];
      ReverseRemovalStep(fs0, identifier, emptied, i, server.fs);
      r := server.Rmdir(d);
      MapMinus(fs0 - FilesUnder(fs0, identifier), Elems(Reversed(emptied)[..i]), {d});
    }
  }
}
