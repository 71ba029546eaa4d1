/**
 * A remote file store as both back ends see it: a finite tree of directories
 * (collections) and files (resources) keyed by path. Each item carries
 * back-end specific metadata: the permission bits of an SFTP entry, the link
 * target property of a WebDAV resource.
 */
module Trees {
  import opened Paths
  import opened Streams

  datatype Node<M> = Dir(meta: M) | File(content: seq<Byte>, meta: M)

  type Store<M> = map<Path, Node<M>>

  /** Every item but the root hangs below a directory. */
  ghost predicate WellFormed<M>(fs: Store<M>)
  {
    forall p {:trigger Parent(p)} :: p in fs && p != [] ==> Parent(p) in fs && fs[Parent(p)].Dir?
  }

  /** Every item of old_fs is still there, unchanged. */
  ghost predicate Keeps<M>(fs: Store<M>, old_fs: Store<M>)
  {
    forall q {:trigger q in old_fs} :: q in old_fs ==> q in fs && fs[q] == old_fs[q]
  }

  /** The items at and below root. */
  function Subtree<M>(fs: Store<M>, root: Path): set<Path>
  {
    set q | q in fs && root <= q
  }

  /** In a well-formed tree every ancestor of an item exists. */
  lemma {:induction false} AncestorsExist<M>(fs: Store<M>, p: Path)
    requires WellFormed(fs) && p in fs
    ensures Prefixes(p) <= fs.Keys
    decreases |p|
  {
    if p != [] {
      AncestorsExist(fs, Parent(p));
      PrefixesOfChild(Parent(p), BaseName(p));
      ChildOfParent(p);
    } else {
      forall q | q in Prefixes(p) ensures q == [] {
      }
    }
  }

  /** An ancestor of an existing item is one of its prefixes, hence exists. */
  lemma PrefixExists<M>(fs: Store<M>, p: Path, q: Path)
    requires WellFormed(fs) && p in fs && q <= p
    ensures q in fs
  {
    AncestorsExist(fs, p);
    assert q == p[..|q|];
  }

  /** A file has no descendants in a well-formed tree. */
  lemma FileIsLeaf<M>(fs: Store<M>, f: Path, c: Path)
    requires WellFormed(fs) && f in fs && fs[f].File? && c in fs
    ensures !(f < c)
  {
    if f < c {
      var q := c[..|f| + 1];
      assert q <= c && Parent(q) == f;
      PrefixExists(fs, c, q);
    }
  }

  /** The tree with p and every missing ancestor of p added as directories carrying meta. */
  ghost function WithDirs<M>(fs: Store<M>, p: Path, meta: M): Store<M>
  {
    fs + map q | q in Prefixes(p) && q !in fs :: Dir(meta)
  }

  /** An existing item and its ancestors need no new directories. */
  lemma WithDirsPresent<M>(fs: Store<M>, p: Path, meta: M)
    requires WellFormed(fs) && p in fs
    ensures WithDirs(fs, p, meta) == fs
  {
    AncestorsExist(fs, p);
  }

  /** Creating p after its ancestors adds exactly p's missing prefixes. */
  lemma WithDirsChild<M>(fs: Store<M>, p: Path, meta: M)
    requires p != [] && p !in fs
    ensures WithDirs(fs, Parent(p), meta)[p := Dir(meta)] == WithDirs(fs, p, meta)
  {
    ChildOfParent(p);
    PrefixesOfChild(Parent(p), BaseName(p));
  }

  /** The paths the subtree at src takes when it is placed at dst. */
  function Image<M>(fs: Store<M>, src: Path, dst: Path): set<Path>
  {
    set q | q in fs && src <= q :: Rebase(q, src, dst)
  }

  lemma OriginKnown<M>(fs: Store<M>, src: Path, dst: Path, d: Path)
    requires d in fs || d in Image(fs, src, dst)
    ensures d in fs || (dst <= d && src + d[|dst|..] in fs)
  {
    if d !in fs {
      var q :| q in fs && src <= q && d == Rebase(q, src, dst);
      assert src + d[|dst|..] == q;
    }
  }

  /** The item of fs that the item d of a renamed or copied tree comes from. */
  function Origin<M>(fs: Store<M>, src: Path, dst: Path, d: Path): (q: Path)
    requires d in fs || d in Image(fs, src, dst)
    ensures q in fs
  {
    if dst <= d && src + d[|dst|..] in fs then src + d[|dst|..]
    else OriginKnown(fs, src, dst, d); d
  }

  /** The paths of the tree after renaming the subtree at src to dst. */
  function MovedKeys<M>(fs: Store<M>, src: Path, dst: Path): set<Path>
  {
    (set q | q in fs && !(src <= q)) + Image(fs, src, dst)
  }

  /** The tree after renaming the subtree at src to dst: the subtree reappears below dst. */
  function Moved<M>(fs: Store<M>, src: Path, dst: Path): Store<M>
  {
    map d | d in MovedKeys(fs, src, dst) :: fs[Origin(fs, src, dst, d)]
  }

  /** The tree after copying the subtree at src to dst: the subtree also appears below dst. */
  function CopiedTree<M>(fs: Store<M>, src: Path, dst: Path): Store<M>
  {
    map d | d in fs.Keys + Image(fs, src, dst) :: fs[Origin(fs, src, dst, d)]
  }

  lemma ImageBelow<M>(fs: Store<M>, src: Path, dst: Path, q: Path)
    requires q in fs && src <= q
    ensures Rebase(q, src, dst) in Image(fs, src, dst)
    ensures src + Rebase(q, src, dst)[|dst|..] == q
  {
  }

  /** Where each item of a renamed tree comes from. */
  lemma MovedCases<M>(fs: Store<M>, src: Path, dst: Path, d: Path)
    requires WellFormed(fs) && dst !in fs
    requires d in Moved(fs, src, dst)
    ensures (d in fs && !(src <= d) && !(dst <= d) && Moved(fs, src, dst)[d] == fs[d])
         || (dst <= d && src + d[|dst|..] in fs && Moved(fs, src, dst)[d] == fs[src + d[|dst|..]])
  {
    if d !in set q | q in fs && !(src <= q) {
      var q :| q in fs && src <= q && d == Rebase(q, src, dst);
      ImageBelow(fs, src, dst, q);
    } else if dst <= d {
      PrefixExists(fs, d, dst);
    }
  }

  /** Where each item of a copied tree comes from. */
  lemma CopiedTreeCases<M>(fs: Store<M>, src: Path, dst: Path, d: Path)
    requires WellFormed(fs) && dst !in fs
    requires d in CopiedTree(fs, src, dst)
    ensures (d in fs && !(dst <= d) && CopiedTree(fs, src, dst)[d] == fs[d])
         || (dst <= d && src + d[|dst|..] in fs && CopiedTree(fs, src, dst)[d] == fs[src + d[|dst|..]])
  {
    if d !in fs {
      var q :| q in fs && src <= q && d == Rebase(q, src, dst);
      ImageBelow(fs, src, dst, q);
    } else if dst <= d {
      PrefixExists(fs, d, dst);
    }
  }

  /** Items outside both subtrees keep their entries; the source subtree reappears below dst. */
  lemma MovedKeeps<M>(fs: Store<M>, src: Path, dst: Path, q: Path)
    requires q in fs
    ensures !(src <= q) && !(dst <= q) ==> q in Moved(fs, src, dst) && Moved(fs, src, dst)[q] == fs[q]
    ensures src <= q ==> Rebase(q, src, dst) in Moved(fs, src, dst) && Moved(fs, src, dst)[Rebase(q, src, dst)] == fs[q]
  {
    if src <= q {
      ImageBelow(fs, src, dst, q);
    }
  }

  /** Items outside the target keep their entries; the source subtree also appears below dst. */
  lemma CopiedTreeKeeps<M>(fs: Store<M>, src: Path, dst: Path, q: Path)
    requires q in fs
    ensures !(dst <= q) ==> q in CopiedTree(fs, src, dst) && CopiedTree(fs, src, dst)[q] == fs[q]
    ensures src <= q ==> Rebase(q, src, dst) in CopiedTree(fs, src, dst) && CopiedTree(fs, src, dst)[Rebase(q, src, dst)] == fs[q]
  {
    if src <= q {
      ImageBelow(fs, src, dst, q);
    }
  }

  /** The parent of a renamed-tree item is a directory of the renamed tree. */
  lemma MovedParent<M>(fs: Store<M>, src: Path, dst: Path, d: Path)
    requires WellFormed(fs) && src in fs && dst !in fs && !(src <= dst)
    requires Parent(dst) in fs && fs[Parent(dst)].Dir?
    requires d in Moved(fs, src, dst) && d != []
    ensures Parent(d) in Moved(fs, src, dst) && Moved(fs, src, dst)[Parent(d)].Dir?
  {
    var m := Moved(fs, src, dst);
    MovedCases(fs, src, dst, d);
    if d in fs && !(src <= d) && !(dst <= d) && m[d] == fs[d] {
      var p := Parent(d);
      assert p <= d;
      MovedKeeps(fs, src, dst, p);
    } else if d == dst {
      assert !(src <= Parent(dst)) && !(dst <= Parent(dst));
      MovedKeeps(fs, src, dst, Parent(dst));
    } else {
      var q := src + d[|dst|..];
      assert q != src && Rebase(q, src, dst) == d;
      RebaseParent(q, src, dst);
      MovedKeeps(fs, src, dst, Parent(q));
    }
  }

  /** Renaming keeps the tree well formed when the target is new and hangs below a directory. */
  lemma MovedWellFormed<M>(fs: Store<M>, src: Path, dst: Path)
    requires WellFormed(fs) && src in fs && dst !in fs && !(src <= dst)
    requires Parent(dst) in fs && fs[Parent(dst)].Dir?
    ensures WellFormed(Moved(fs, src, dst))
  {
    forall d | d in Moved(fs, src, dst) && d != []
      ensures Parent(d) in Moved(fs, src, dst) && Moved(fs, src, dst)[Parent(d)].Dir?
    {
      MovedParent(fs, src, dst, d);
    }
  }

  /** The parent of a copied-tree item is a directory of the copied tree. */
  lemma CopiedTreeParent<M>(fs: Store<M>, src: Path, dst: Path, d: Path)
    requires WellFormed(fs) && src in fs && dst !in fs
    requires Parent(dst) in fs && fs[Parent(dst)].Dir?
    requires d in CopiedTree(fs, src, dst) && d != []
    ensures Parent(d) in CopiedTree(fs, src, dst) && CopiedTree(fs, src, dst)[Parent(d)].Dir?
  {
    var m := CopiedTree(fs, src, dst);
    CopiedTreeCases(fs, src, dst, d);
    if d in fs && !(dst <= d) && m[d] == fs[d] {
      var p := Parent(d);
      assert p <= d;
      CopiedTreeKeeps(fs, src, dst, p);
    } else if d == dst {
      assert !(dst <= Parent(dst));
      CopiedTreeKeeps(fs, src, dst, Parent(dst));
    } else {
      var q := src + d[|dst|..];
      assert q != src && Rebase(q, src, dst) == d;
      RebaseParent(q, src, dst);
      CopiedTreeKeeps(fs, src, dst, Parent(q));
    }
  }

  /** Copying keeps the tree well formed when the target is new and hangs below a directory. */
  lemma CopiedTreeWellFormed<M>(fs: Store<M>, src: Path, dst: Path)
    requires WellFormed(fs) && src in fs && dst !in fs
    requires Parent(dst) in fs && fs[Parent(dst)].Dir?
    ensures WellFormed(CopiedTree(fs, src, dst))
  {
    forall d | d in CopiedTree(fs, src, dst) && d != []
      ensures Parent(d) in CopiedTree(fs, src, dst) && CopiedTree(fs, src, dst)[Parent(d)].Dir?
    {
      CopiedTreeParent(fs, src, dst, d);
    }
  }

  /** Removing a set of items closed under children keeps the tree well formed. */
  lemma RemovedWellFormed<M>(fs: Store<M>, gone: set<Path>)
    requires WellFormed(fs)
    requires forall c {:trigger Parent(c)} :: c in fs && c != [] && Parent(c) in gone ==> c in gone
    ensures WellFormed(fs - gone)
  {
  }

  /** No item hangs below a file. */
  lemma FileNotParent<M>(fs: Store<M>, f: Path)
    requires WellFormed(fs) && f in fs && fs[f].File?
    ensures forall c {:trigger Parent(c)} :: c in fs && c != [] ==> Parent(c) != f
  {
  }

  /** The items below an item of a subtree belong to the subtree. */
  lemma SubtreeClosed<M>(dav: Store<M>, p: Path)
    ensures forall c {:trigger Parent(c)} :: c in dav && c != [] && Parent(c) in Subtree(dav, p) ==> c in Subtree(dav, p)
  {
    forall c | c in dav && c != [] && Parent(c) in Subtree(dav, p) ensures p <= c {
      assert Parent(c) <= c;
    }
  }
}
