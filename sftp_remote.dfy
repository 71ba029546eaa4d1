/**
 * The remote side of an SFTP session: a finite tree of directories and files
 * keyed by path, and the flat primitives a paramiko SFTP client offers on it
 * (stat, listdir_attr, remove, rmdir, mkdir, chmod, rename, open, read and
 * write). Any call on a path the server refuses fails with EACCES, and a
 * dropped or broken session makes every call fail with EOFError or
 * SSHException. Further faults strike after a call on the same path has
 * already passed: listdir of a directory the user may not read (EACCES, while
 * stat still answers), mkdir or rmdir of a directory the user may not create
 * or remove (EACCES), chmod on a path whose mode the user may not change
 * (EPERM), a write beyond a file's byte quota (ENOSPC), and a read beyond a
 * damaged offset of a file (EIO).
 */
module SftpRemote {
  import opened Wrappers
  import opened Paths
  import opened Errors
  import opened Streams
  import opened Trees

  /** Permission bits, as opaque values. */
  datatype Mode = ServerDefault | DefaultDirectoryPermissions | DefaultFilePermissions

  type Entry = Node<Mode>

  type Tree = Store<Mode>

  /** One record of listdir_attr: a child's name and whether S_ISDIR holds for its st_mode. */
  datatype Attr = Attr(filename: Name, isDir: bool)

  /** Healthy, dropped (EOFError on every call) or broken (SSHException on every call). */
  datatype Session = Healthy | Dropped | Broken

  /** The directories at and below root. */
  ghost function DirsUnder(fs: Tree, root: Path): set<Path>
  {
    set q | q in fs && root <= q && fs[q].Dir?
  }

  /** The tree without the files below root: what emptying every collection leaves. */
  ghost function WithoutLeavesUnder(fs: Tree, root: Path): Tree
  {
    map q | q in fs && !(root <= q && fs[q].File?) :: fs[q]
  }

  function Filenames(attrs: seq<Attr>): set<Name>
  {
    set a | a in attrs :: a.filename
  }

  /** attrs lists every child of p exactly once, with its type. */
  ghost predicate Lists(fs: Tree, p: Path, attrs: seq<Attr>)
  {
    (forall a :: a in attrs ==> Child(p, a.filename) in fs && a.isDir == fs[Child(p, a.filename)].Dir?)
    && (forall c {:trigger IsChildOf(c, p)} :: c in fs && IsChildOf(c, p) ==> BaseName(c) in Filenames(attrs))
    && (forall i, j :: 0 <= i < j < |attrs| ==> attrs[i].filename != attrs[j].filename)
  }

  /** attrs lists the children of p outside kids; kids holds the rest. */
  ghost predicate PartialListing(fs: Tree, p: Path, kids: set<Path>, attrs: seq<Attr>)
  {
    (forall a :: a in attrs ==> Child(p, a.filename) in fs && a.isDir == fs[Child(p, a.filename)].Dir?)
    && (forall c {:trigger IsChildOf(c, p)} :: c in fs && IsChildOf(c, p) ==> c in kids || BaseName(c) in Filenames(attrs))
    && (forall c :: c in kids ==> c in fs && IsChildOf(c, p) && BaseName(c) !in Filenames(attrs))
    && (forall i, j :: 0 <= i < j < |attrs| ==> attrs[i].filename != attrs[j].filename)
  }

  /** names lists the name of every child of p exactly once. */
  ghost predicate NamesChildren(fs: Tree, p: Path, names: seq<Name>)
  {
    (forall n :: n in names ==> Child(p, n) in fs)
    && (forall c {:trigger IsChildOf(c, p)} :: c in fs && IsChildOf(c, p) ==> BaseName(c) in names)
    && (forall i, j :: 0 <= i < j < |names| ==> names[i] != names[j])
  }

  function AttrNames(attrs: seq<Attr>): (names: seq<Name>)
    ensures |names| == |attrs|
    ensures forall i :: 0 <= i < |attrs| ==> names[i] == attrs[i].filename
  {
    seq(|attrs|, i requires 0 <= i < |attrs| => attrs[i].filename)
  }

  lemma NamesOfListing(fs: Tree, p: Path, attrs: seq<Attr>)
    requires Lists(fs, p, attrs)
    ensures NamesChildren(fs, p, AttrNames(attrs))
  {
    var names := AttrNames(attrs);
    forall n | n in names ensures Child(p, n) in fs {
      var i :| 0 <= i < |names| && names[i] == n;
      assert attrs[i] in attrs;
    }
    forall c | c in fs && IsChildOf(c, p) ensures BaseName(c) in names {
      var a :| a in attrs && a.filename == BaseName(c);
      var i :| 0 <= i < |attrs| && attrs[i] == a;
      assert names[i] == BaseName(c);
    }
  }

  lemma ListingStart(fs: Tree, p: Path, kids: set<Path>)
    requires kids == set c | c in fs.Keys && IsChildOf(c, p)
    ensures PartialListing(fs, p, kids, [])
  {
  }

  lemma ListingDone(fs: Tree, p: Path, attrs: seq<Attr>)
    requires PartialListing(fs, p, {}, attrs)
    ensures Lists(fs, p, attrs)
  {
  }

  lemma ListingStep(fs: Tree, p: Path, kids: set<Path>, attrs: seq<Attr>, c: Path)
    requires PartialListing(fs, p, kids, attrs) && c in kids
    ensures PartialListing(fs, p, kids - {c}, attrs + [Attr(BaseName(c), fs[c].Dir?)])
  {
    var a := Attr(BaseName(c), fs[c].Dir?);
    var attrs' := attrs + [a];
    ChildOfParent(c);
    assert Child(p, a.filename) == c;
    assert Filenames(attrs') == Filenames(attrs) + {a.filename};
    forall x | x in attrs' ensures Child(p, x.filename) in fs && x.isDir == fs[Child(p, x.filename)].Dir? {
      if x != a { assert x in attrs; }
    }
    forall c' | c' in kids - {c} ensures c' in fs && IsChildOf(c', p) && BaseName(c') !in Filenames(attrs') {
      ChildOfParent(c');
    }
    forall i, j | 0 <= i < j < |attrs'| ensures attrs'[i].filename != attrs'[j].filename {
      if j == |attrs| { assert attrs'[i] in attrs; }
    }
  }

  /**
   * What a write stopped by the quota leaves: fs0 with p holding, at the
   * given mode, a file whose content is a proper prefix of data.
   */
  ghost predicate PartlyWritten(fs0: Tree, fs: Tree, p: Path, data: seq<Byte>, mode: Mode)
  {
    p in fs && fs[p].File? && fs[p].content < data && fs == fs0[p := File(fs[p].content, mode)]
  }

  class SftpServer {
    var fs: Tree
    /** Paths on which the server refuses every call (EACCES). */
    const faulty: set<Path>
    const session: Session
    /** Paths whose permissions this user may not change: chmod fails with EPERM. */
    const fixedModes: set<Path>
    /** Byte quotas: a write that would make the file longer than its quota fails with ENOSPC. */
    const quota: map<Path, nat>
    /** Damaged files: a read reaching beyond the given offset fails with EIO. */
    const damaged: map<Path, nat>
    /** Directories this user may not read: stat answers, listdir fails with EACCES. */
    const unlistable: set<Path>
    /**
     * Directories this user may neither create nor remove, because their parent
     * is not writable to them: mkdir and rmdir fail with EACCES. The other calls
     * are governed by the refusals alone.
     */
    const pinned: set<Path>

    constructor (fs: Tree, faulty: set<Path>, session: Session,
                 fixedModes: set<Path>, quota: map<Path, nat>, damaged: map<Path, nat>,
                 unlistable: set<Path>, pinned: set<Path>)
      requires WellFormed(fs)
      ensures Valid() && this.fs == fs && this.faulty == faulty && this.session == session
      ensures this.fixedModes == fixedModes && this.quota == quota && this.damaged == damaged
      ensures this.unlistable == unlistable && this.pinned == pinned
    {
      this.fs, this.faulty, this.session := fs, faulty, session;
      this.fixedModes, this.quota, this.damaged := fixedModes, quota, damaged;
      this.unlistable, this.pinned := unlistable, pinned;
    }

    ghost predicate Valid()
      reads this
    {
      WellFormed(fs)
    }

    /** The error every call on p fails with, if any. */
    function Refusal(p: Path): Option<SftpError>
    {
      match session
      case Dropped => Some(EOFError)
      case Broken => Some(SSHException)
      case Healthy => if p in faulty then Some(IOError(EACCES)) else None
    }

    predicate ParentIsDir(p: Path)
      reads this
    {
      p == [] || (Parent(p) in fs && fs[Parent(p)].Dir?)
    }

    predicate HasChildren(p: Path)
      reads this
    {
      exists c :: c in fs.Keys && IsChildOf(c, p)
    }

    /** What stat(p) answers. */
    function StatReply(p: Path): Result<Entry, SftpError>
      reads this
    {
      if Refusal(p).Some? then Err(Refusal(p).value)
      else if p !in fs then Err(IOError(ENOENT))
      else Ok(fs[p])
    }

    method Stat(p: Path) returns (r: Result<Entry, SftpError>)
      ensures r == StatReply(p)
    {
      r := StatReply(p);
    }

    /** Why listdir(p) / listdir_attr(p) fails, if it does. */
    function ListdirRefusal(p: Path): Option<SftpError>
      reads this
    {
      if Refusal(p).Some? then Refusal(p)
      else if p !in fs then Some(IOError(ENOENT))
      else if fs[p].File? then Some(IOError(ENOTDIR))
      else if p in unlistable then Some(IOError(EACCES))
      else None
    }

    /** listdir_attr(p): the children of p, in the server's order. */
    method ListdirAttr(p: Path) returns (r: Result<seq<Attr>, SftpError>)
      ensures r.Err? <==> ListdirRefusal(p).Some?
      ensures r.Err? ==> r.error == ListdirRefusal(p).value
      ensures r.Ok? ==> Lists(fs, p, r.value)
    {
      var refusal := ListdirRefusal(p);
      if refusal.Some? {
        return Err(refusal.value);
      }
      var kids := set c | c in fs.Keys && IsChildOf(c, p);
      var attrs: seq<Attr> := [];
      ListingStart(fs, p, kids);
      while kids != {}
        invariant PartialListing(fs, p, kids, attrs)
        decreases |kids|
      {
        var c :| c in kids;
        ListingStep(fs, p, kids, attrs, c);
        attrs := attrs + [Attr(BaseName(c), fs[c].Dir?)];
        kids := kids - {c};
      }
      ListingDone(fs, p, attrs);
      r := Ok(attrs);
    }

    /** listdir(p): the names of the children of p. */
    method Listdir(p: Path) returns (r: Result<seq<Name>, SftpError>)
      ensures r.Err? <==> ListdirRefusal(p).Some?
      ensures r.Err? ==> r.error == ListdirRefusal(p).value
      ensures r.Ok? ==> NamesChildren(fs, p, r.value)
    {
      var listing := ListdirAttr(p);
      if listing.Err? {
        return Err(listing.error);
      }
      NamesOfListing(fs, p, listing.value);
      r := Ok(AttrNames(listing.value));
    }

    /** What remove(p) answers: only files can be removed. */
    function RemoveReply(p: Path): Outcome<SftpError>
      reads this
    {
      if Refusal(p).Some? then Fail(Refusal(p).value)
      else if p !in fs then Fail(IOError(ENOENT))
      else if fs[p].Dir? then Fail(IOError(EISDIR))
      else Pass
    }

    method Remove(p: Path) returns (r: Outcome<SftpError>)
      requires Valid()
      modifies this
      ensures Valid()
      ensures r == old(RemoveReply(p))
      ensures fs == if r.Pass? then old(fs) - {p} else old(fs)
    {
      r := RemoveReply(p);
      if r.Pass? {
        FileNotParent(fs, p);
        RemovedWellFormed(fs, {p});
        fs := fs - {p};
      }
    }

    /** What rmdir(p) answers: only empty directories can be removed. */
    function RmdirReply(p: Path): Outcome<SftpError>
      reads this
    {
      if Refusal(p).Some? then Fail(Refusal(p).value)
      else if p !in fs then Fail(IOError(ENOENT))
      else if fs[p].File? then Fail(IOError(ENOTDIR))
      else if p in pinned then Fail(IOError(EACCES))
      else if HasChildren(p) then Fail(IOError(ENOTEMPTY))
      else Pass
    }

    method Rmdir(p: Path) returns (r: Outcome<SftpError>)
      requires Valid()
      modifies this
      ensures Valid()
      ensures r == old(RmdirReply(p))
      ensures fs == if r.Pass? then old(fs) - {p} else old(fs)
    {
      r := RmdirReply(p);
      if r.Pass? {
        assert forall c :: c in fs && c != [] ==> !IsChildOf(c, p);
        RemovedWellFormed(fs, {p});
        fs := fs - {p};
      }
    }

    /**
     * Whether a recursive delete meets no fault at q of fs0: q answers every
     * call, and a directory at q can be listed and removed.
     */
    predicate Clear(fs0: Tree, q: Path)
    {
      Refusal(q).None? && (q in fs0 && fs0[q].Dir? ==> q !in unlistable && q !in pinned)
    }

    /** Whether e is a fault a recursive delete can stop with at q of fs0. */
    predicate Hinders(fs0: Tree, q: Path, e: SftpError)
    {
      Refusal(q) == Some(e)
      || (q in fs0 && fs0[q].Dir? && (q in unlistable || q in pinned) && e == IOError(EACCES))
    }

    /** What mkdir(p) answers. */
    function MkdirReply(p: Path): Outcome<SftpError>
      reads this
    {
      if Refusal(p).Some? then Fail(Refusal(p).value)
      else if p in fs then Fail(IOError(EEXIST))
      else if p != [] && Parent(p) !in fs then Fail(IOError(ENOENT))
      else if !ParentIsDir(p) then Fail(IOError(ENOTDIR))
      else if p in pinned then Fail(IOError(EACCES))
      else Pass
    }

    method Mkdir(p: Path) returns (r: Outcome<SftpError>)
      requires Valid()
      modifies this
      ensures Valid()
      ensures r == old(MkdirReply(p))
      ensures fs == if r.Pass? then old(fs)[p := Dir(ServerDefault)] else old(fs)
    {
      r := MkdirReply(p);
      if r.Pass? {
        fs := fs[p := Dir(ServerDefault)];
      }
    }

    /** What chmod(p, mode) answers. */
    function ChmodReply(p: Path): Outcome<SftpError>
      reads this
    {
      if Refusal(p).Some? then Fail(Refusal(p).value)
      else if p !in fs then Fail(IOError(ENOENT))
      else if p in fixedModes then Fail(IOError(EPERM))
      else Pass
    }

    method Chmod(p: Path, mode: Mode) returns (r: Outcome<SftpError>)
      requires Valid()
      modifies this
      ensures Valid()
      ensures r == old(ChmodReply(p))
      ensures r.Pass? ==> fs == old(fs)[p := if old(fs)[p].Dir? then Dir(mode) else File(old(fs)[p].content, mode)]
      ensures r.Fail? ==> fs == old(fs)
    {
      r := ChmodReply(p);
      if r.Pass? {
        fs := fs[p := if fs[p].Dir? then Dir(mode) else File(fs[p].content, mode)];
      }
    }

    /** What rename(src, dst) answers: the target must be new, and not inside the moved subtree. */
    function RenameReply(src: Path, dst: Path): Outcome<SftpError>
      reads this
    {
      if Refusal(src).Some? then Fail(Refusal(src).value)
      else if Refusal(dst).Some? then Fail(Refusal(dst).value)
      else if src !in fs then Fail(IOError(ENOENT))
      else if dst in fs then Fail(IOError(EEXIST))
      else if src <= dst then Fail(IOError(EINVAL))
      else if Parent(dst) !in fs then Fail(IOError(ENOENT))
      else if fs[Parent(dst)].File? then Fail(IOError(ENOTDIR))
      else Pass
    }

    method Rename(src: Path, dst: Path) returns (r: Outcome<SftpError>)
      requires Valid()
      modifies this
      ensures Valid()
      ensures r == old(RenameReply(src, dst))
      ensures fs == if r.Pass? then Moved(old(fs), src, dst) else old(fs)
    {
      r := RenameReply(src, dst);
      if r.Pass? {
        MovedWellFormed(fs, src, dst);
        fs := Moved(fs, src, dst);
      }
    }

    /** What open(p) for reading answers. */
    function OpenReadReply(p: Path): Option<SftpError>
      reads this
    {
      if Refusal(p).Some? then Refusal(p)
      else if p !in fs then Some(IOError(ENOENT))
      else if fs[p].Dir? then Some(IOError(EISDIR))
      else None
    }

    /** open(p): a remote file object positioned at the start of p's content. */
    method OpenRead(p: Path) returns (r: Result<ByteStream, SftpError>)
      ensures r.Err? <==> OpenReadReply(p).Some?
      ensures r.Err? ==> r.error == OpenReadReply(p).value
      ensures r.Ok? ==> fresh(r.value) && r.value.Valid() && r.value.content == fs[p].content
                        && r.value.pos == 0 && !r.value.closed
    {
      var refusal := OpenReadReply(p);
      if refusal.Some? {
        return Err(refusal.value);
      }
      var remote := new ByteStream(fs[p].content);
      r := Ok(remote);
    }

    /** Whether reading p up to byte offset end touches its damaged part. */
    predicate Unreadable(p: Path, end: nat)
    {
      p in damaged && damaged[p] < end
    }

    /** read(n) on the file object that open(p) returned. */
    method ReadBlock(p: Path, remote: ByteStream, n: nat) returns (r: Result<seq<Byte>, SftpError>)
      requires remote.Valid() && !remote.closed
      modifies remote
      ensures remote.Valid() && !remote.closed && remote.content == old(remote.content)
      ensures r.Err? <==> Unreadable(p, Min(old(remote.pos) + n, |remote.content|))
      ensures r.Err? ==> r.error == IOError(EIO) && remote.pos == old(remote.pos)
      ensures r.Ok? ==> r.value == remote.content[old(remote.pos)..Min(old(remote.pos) + n, |remote.content|)]
                        && remote.pos == old(remote.pos) + |r.value|
    {
      if Unreadable(p, Min(remote.pos + n, |remote.content|)) {
        return Err(IOError(EIO));
      }
      var block := remote.Read(n);
      r := Ok(block);
    }

    /**
     * How reading the whole of p through open and read ends: the open's
     * refusal, EIO when the content reaches into a damaged part, or success.
     */
    function DownloadReply(p: Path): Option<SftpError>
      reads this
    {
      if OpenReadReply(p).Some? then OpenReadReply(p)
      else if Unreadable(p, |fs[p].content|) then Some(IOError(EIO))
      else None
    }

    /** What open(p, "w") answers. */
    function OpenWriteReply(p: Path): Option<SftpError>
      reads this
    {
      if Refusal(p).Some? then Refusal(p)
      else if p in fs && fs[p].Dir? then Some(IOError(EISDIR))
      else if p !in fs && p != [] && Parent(p) !in fs then Some(IOError(ENOENT))
      else if p !in fs && !ParentIsDir(p) then Some(IOError(ENOTDIR))
      else None
    }

    /** open(p, "w"): create p, or truncate it keeping its permissions. */
    method OpenWrite(p: Path) returns (r: Outcome<SftpError>)
      requires Valid()
      modifies this
      ensures Valid()
      ensures r.Fail? <==> old(OpenWriteReply(p)).Some?
      ensures r.Fail? ==> r.error == old(OpenWriteReply(p)).value && fs == old(fs)
      ensures r.Pass? ==> fs == old(fs)[p := File([], old(KeptMode(p)))]
    {
      var refusal := OpenWriteReply(p);
      if refusal.Some? {
        return Fail(refusal.value);
      }
      fs := fs[p := File([], if p in fs then fs[p].meta else ServerDefault)];
      r := Pass;
    }

    /** Whether p may grow to length bytes. */
    predicate Fits(p: Path, length: nat)
    {
      p !in quota || length <= quota[p]
    }

    /** What write(block) on a file opened with open(p, "w") answers. */
    function WriteReply(p: Path, block: seq<Byte>): Outcome<SftpError>
      reads this
      requires p in fs && fs[p].File?
    {
      if Fits(p, |fs[p].content| + |block|) then Pass else Fail(IOError(ENOSPC))
    }

    /** write(block) on a file opened with open(p, "w"): appended, or refused whole. */
    method WriteBlock(p: Path, block: seq<Byte>) returns (r: Outcome<SftpError>)
      requires Valid() && p in fs && fs[p].File?
      modifies this
      ensures Valid()
      ensures r == old(WriteReply(p, block))
      ensures fs == if r.Pass? then old(fs)[p := File(old(fs)[p].content + block, old(fs)[p].meta)] else old(fs)
    {
      r := WriteReply(p, block);
      if r.Pass? {
        fs := fs[p := File(fs[p].content + block, fs[p].meta)];
      }
    }

    /** The mode a file written with open(p, "w") carries: its old mode, or the server default for a new file. */
    function KeptMode(p: Path): Mode
      reads this
    {
      if p in fs then fs[p].meta else ServerDefault
    }

    /**
     * How writing length bytes to p through open(p, "w") and write ends: the
     * open's refusal, ENOSPC when the quota is too small, or success.
     */
    function UploadReply(p: Path, length: nat): Option<SftpError>
      reads this
    {
      if OpenWriteReply(p).Some? then OpenWriteReply(p)
      else if !Fits(p, length) then Some(IOError(ENOSPC))
      else None
    }
  }
}
