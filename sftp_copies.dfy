/**
 * What copying a collection on an SFTP server does to the tree: every item
 * of the source subtree gets a copy at its rebased identifier below the
 * destination, and nothing else changes.
 */
module SftpCopies {
  import opened Wrappers
  import opened Errors
  import opened Paths
  import opened Trees
  import opened SftpRemote
  import opened SftpWalks

  /**
   * The entry a copy gets: a collection made by createCollection carries the
   * default directory permissions, a file made by writeData on a new path
   * carries the original content and the server's default mode.
   */
  function Copied(e: Entry): Entry
  {
    if e.Dir? then Dir(DefaultDirectoryPermissions) else File(e.content, ServerDefault)
  }

  /** Every item of items below src has its copy below dst in fs. */
  ghost predicate CopiedAt(fs0: Tree, fs: Tree, src: Path, dst: Path, items: set<Path>)
  {
    forall q {:trigger fs0[q]} :: q in items && q in fs0 && src <= q ==>
      Rebase(q, src, dst) in fs && fs[Rebase(q, src, dst)] == Copied(fs0[q])
  }

  /** Every entry fs has beyond fs0 lies below dst and is the copy of one of items. */
  ghost predicate AddsOnly(fs0: Tree, fs: Tree, src: Path, dst: Path, items: set<Path>)
  {
    forall t :: t in fs && t !in fs0 ==> exists q :: q in items && src <= q && t == Rebase(q, src, dst)
  }

  /** Two prefixes of one identifier are prefixes of each other. */
  lemma PrefixesComparable(a: Path, b: Path, t: Path)
    requires a <= t && b <= t
    ensures a <= b || b <= a
  {
    if |a| <= |b| {
      assert a == b[..|a|];
    } else {
      assert b == a[..|b|];
    }
  }

  /** A prefix of a child of p is a prefix of p or the child itself. */
  lemma PrefixOfChildren(p: Path, c: Path, q: Path)
    requires c != [] && Parent(c) == p && q <= c
    ensures q <= p || q == c
  {
    if |q| <= |p| {
      assert q == p[..|q|];
    }
  }

  /** Nothing lies below an identifier that does not exist. */
  lemma FreshBelow(fs: Tree, dst: Path, t: Path)
    requires WellFormed(fs) && dst !in fs && dst <= t
    ensures t !in fs
  {
    if t in fs {
      PrefixExists(fs, t, dst);
    }
  }

  /**
   * A new destination outside the source subtree is not an ancestor of it
   * either, so no copy lands in the source subtree.
   */
  lemma Apart(fs: Tree, src: Path, dst: Path, q: Path)
    requires WellFormed(fs) && src in fs && dst !in fs && !(src < dst)
    requires src <= q && q in fs
    ensures !(dst <= q) && !(src <= Rebase(q, src, dst))
  {
    if dst <= q {
      PrefixExists(fs, q, dst);
    }
    var t := Rebase(q, src, dst);
    if src <= t {
      PrefixesComparable(src, dst, t);
      if dst <= src {
        PrefixExists(fs, src, dst);
      }
    }
  }

  /** Copies below a new destination are never directly inside a source collection. */
  lemma CopiesAreNotChildren(fs0: Tree, fs: Tree, src: Path, dst: Path, cur: Path, items: set<Path>)
    requires WellFormed(fs0) && src in fs0 && dst !in fs0 && !(src < dst)
    requires src <= cur && cur in fs0
    requires Keeps(fs, fs0) && AddsOnly(fs0, fs, src, dst, items)
    ensures ChildDirs(fs, cur) == ChildDirs(fs0, cur)
    ensures ChildFiles(fs, cur) == ChildFiles(fs0, cur)
  {
    forall c | c in fs && c != [] && Parent(c) == cur ensures c in fs0 {
      if c !in fs0 {
        ChildOfParent(c);
        PrefixOfChildren(cur, c, dst);
        if dst <= cur {
          PrefixExists(fs0, cur, dst);
        } else {
          PrefixOfChild(src, cur, BaseName(c));
        }
      }
    }
  }

  /** An item outside items whose copy did not exist before has no copy yet. */
  lemma NotYetCopied(fs0: Tree, fs: Tree, src: Path, dst: Path, items: set<Path>, f: Path)
    requires AddsOnly(fs0, fs, src, dst, items)
    requires src <= f && f !in items && Rebase(f, src, dst) !in fs0
    ensures Rebase(f, src, dst) !in fs
  {
    forall q | q in items && src <= q ensures Rebase(q, src, dst) != Rebase(f, src, dst) {
      if Rebase(q, src, dst) == Rebase(f, src, dst) {
        RebaseInjective(q, f, src, dst);
      }
    }
  }

  /** Added entries that are copies of items are copies of any larger set. */
  lemma AddsOnlyMore(fs0: Tree, fs: Tree, src: Path, dst: Path, items: set<Path>, more: set<Path>)
    requires AddsOnly(fs0, fs, src, dst, items) && items <= more
    ensures AddsOnly(fs0, fs, src, dst, more)
  {
  }

  /** One more new entry at the copy target of an item still only adds copies of items. */
  lemma AddsOnlyOne(fs0: Tree, fs1: Tree, fs2: Tree, src: Path, dst: Path, items: set<Path>, q: Path)
    requires AddsOnly(fs0, fs1, src, dst, items) && q in items && src <= q
    requires fs2.Keys <= fs1.Keys + {Rebase(q, src, dst)}
    ensures AddsOnly(fs0, fs2, src, dst, items)
  {
  }

  /** Two rounds of copying add the copies of both rounds' items. */
  lemma AddsOnlyThen(fs0: Tree, fs1: Tree, fs2: Tree, src: Path, dst: Path, a: set<Path>, b: set<Path>)
    requires AddsOnly(fs0, fs1, src, dst, a) && Keeps(fs1, fs0)
    requires AddsOnly(fs1, fs2, src, dst, b)
    ensures AddsOnly(fs0, fs2, src, dst, a + b)
  {
  }

  /** Copies already made survive a later round that keeps every entry. */
  lemma CopiedAtKept(fs0: Tree, fs1: Tree, fs2: Tree, src: Path, dst: Path, items: set<Path>)
    requires CopiedAt(fs0, fs1, src, dst, items) && Keeps(fs2, fs1)
    ensures CopiedAt(fs0, fs2, src, dst, items)
  {
  }

  /** Copies made from an intermediate tree that still holds the originals are copies of the originals. */
  lemma CopiedAtFrom(fs0: Tree, fs1: Tree, fs2: Tree, src: Path, dst: Path, items: set<Path>)
    requires CopiedAt(fs1, fs2, src, dst, items) && Keeps(fs1, fs0)
    requires forall q :: q in items ==> q in fs0
    ensures CopiedAt(fs0, fs2, src, dst, items)
  {
  }

  lemma CopiedAtUnion(fs0: Tree, fs: Tree, src: Path, dst: Path, a: set<Path>, b: set<Path>)
    requires CopiedAt(fs0, fs, src, dst, a) && CopiedAt(fs0, fs, src, dst, b)
    ensures CopiedAt(fs0, fs, src, dst, a + b)
  {
  }

  /**
   * What copying the collection src to dst leaves: every old entry is kept,
   * every new one is the copy of an item of the source subtree, and after
   * success the destination was new and every item has its copy.
   */
  ghost predicate CopyOutcome(fs0: Tree, fs: Tree, src: Path, dst: Path, r: Outcome<PersistenceError>)
  {
    Keeps(fs, fs0) && AddsOnly(fs0, fs, src, dst, Subtree(fs0, src))
    && (r.Pass? ==> dst !in fs0 && CopiedAt(fs0, fs, src, dst, Subtree(fs0, src)))
  }

  /** The items handled so far lie in the source subtree. */
  lemma CopiedItemsBelow(fs0: Tree, src: Path, done: seq<Path>, todo: seq<Path>)
    requires Walk(fs0, src, done, todo)
    ensures Elems(done) <= DirsUnder(fs0, src)
    ensures Elems(done) + FilesIn(fs0, Elems(done)) <= Subtree(fs0, src)
  {
    forall q | q in Elems(done) ensures q in DirsUnder(fs0, src) {
      var m :| 0 <= m < |done| && done[m] == q;
      assert (done + todo)[m] == q;
    }
    FilesInBelow(fs0, src, Elems(done));
  }

  /** Creating the copy of collection cur extends the copy by cur. */
  lemma DestinationCollectionMade(fs0: Tree, fsp: Tree, fs1: Tree, src: Path, dst: Path, cur: Path, items: set<Path>)
    requires Keeps(fsp, fs0) && AddsOnly(fs0, fsp, src, dst, items) && CopiedAt(fs0, fsp, src, dst, items)
    requires src <= cur && cur in fs0 && fs0[cur].Dir?
    requires Rebase(cur, src, dst) !in fsp
    requires fs1 == fsp[Rebase(cur, src, dst) := Dir(DefaultDirectoryPermissions)]
    ensures Keeps(fs1, fs0)
    ensures AddsOnly(fs0, fs1, src, dst, items + {cur})
    ensures CopiedAt(fs0, fs1, src, dst, items + {cur})
  {
    RebaseInverse(cur, src, dst);
  }

  /**
   * The collection cur to be copied next: its listing is what it was, and no
   * file in it has a copy yet.
   */
  lemma NextFilesUncopied(fs0: Tree, fs1: Tree, src: Path, dst: Path, done: set<Path>, cur: Path)
    requires WellFormed(fs0) && src in fs0 && dst !in fs0 && !(src < dst)
    requires cur in DirsUnder(fs0, src) && cur !in done && done <= DirsUnder(fs0, src)
    requires Keeps(fs1, fs0) && AddsOnly(fs0, fs1, src, dst, done + FilesIn(fs0, done) + {cur})
    ensures ChildDirs(fs1, cur) == ChildDirs(fs0, cur)
    ensures ChildFiles(fs1, cur) == ChildFiles(fs0, cur)
    ensures forall f :: f in ChildFiles(fs1, cur) ==> src <= f && Rebase(f, src, dst) !in fs1
  {
    CopiesAreNotChildren(fs0, fs1, src, dst, cur, done + FilesIn(fs0, done) + {cur});
    forall f | f in ChildFiles(fs1, cur) ensures src <= f && Rebase(f, src, dst) !in fs1 {
      ChildOfParent(f);
      PrefixOfChild(src, cur, BaseName(f));
      FreshBelow(fs0, dst, Rebase(f, src, dst));
      assert f !in done + FilesIn(fs0, done) + {cur};
      NotYetCopied(fs0, fs1, src, dst, done + FilesIn(fs0, done) + {cur}, f);
    }
  }

  /** A failed listing or file copy still only added copies of subtree items. */
  lemma AddsOnlyStep(fs0: Tree, fs1: Tree, fs2: Tree, src: Path, dst: Path, items: set<Path>, cur: Path)
    requires items <= Subtree(fs0, src) && cur in fs0 && src <= cur
    requires Keeps(fs1, fs0) && AddsOnly(fs0, fs1, src, dst, items + {cur})
    requires ChildFiles(fs1, cur) == ChildFiles(fs0, cur)
    requires AddsOnly(fs1, fs2, src, dst, ChildFiles(fs1, cur))
    ensures AddsOnly(fs0, fs2, src, dst, Subtree(fs0, src))
  {
    forall f | f in ChildFiles(fs0, cur) ensures f in Subtree(fs0, src) {
      ChildOfParent(f);
      PrefixOfChild(src, cur, BaseName(f));
    }
    AddsOnlyThen(fs0, fs1, fs2, src, dst, items + {cur}, ChildFiles(fs1, cur));
    AddsOnlyMore(fs0, fs2, src, dst, items + {cur} + ChildFiles(fs1, cur), Subtree(fs0, src));
  }

  /** Copying collection cur and its files extends the copy by cur and its files. */
  lemma CopyStep(fs0: Tree, fs1: Tree, fs2: Tree, src: Path, dst: Path, done: seq<Path>, cur: Path)
    requires Keeps(fs1, fs0)
    requires AddsOnly(fs0, fs1, src, dst, Elems(done) + FilesIn(fs0, Elems(done)) + {cur})
    requires CopiedAt(fs0, fs1, src, dst, Elems(done) + FilesIn(fs0, Elems(done)) + {cur})
    requires ChildFiles(fs1, cur) == ChildFiles(fs0, cur)
    requires Keeps(fs2, fs1) && AddsOnly(fs1, fs2, src, dst, ChildFiles(fs1, cur))
    requires CopiedAt(fs1, fs2, src, dst, ChildFiles(fs1, cur))
    ensures Keeps(fs2, fs0)
    ensures AddsOnly(fs0, fs2, src, dst, Elems(done + [cur]) + FilesIn(fs0, Elems(done + [cur])))
    ensures CopiedAt(fs0, fs2, src, dst, Elems(done + [cur]) + FilesIn(fs0, Elems(done + [cur])))
  {
    var items := Elems(done) + FilesIn(fs0, Elems(done)) + {cur};
    assert Elems(done + [cur]) == Elems(done) + {cur};
    FilesInStep(fs0, Elems(done), cur);
    assert Elems(done + [cur]) + FilesIn(fs0, Elems(done + [cur])) == items + ChildFiles(fs0, cur);
    AddsOnlyThen(fs0, fs1, fs2, src, dst, items, ChildFiles(fs0, cur));
    CopiedAtKept(fs0, fs1, fs2, src, dst, items);
    CopiedAtFrom(fs0, fs1, fs2, src, dst, ChildFiles(fs0, cur));
    CopiedAtUnion(fs0, fs2, src, dst, items, ChildFiles(fs0, cur));
  }

  /** The finished walk has copied the whole subtree. */
  lemma CopyFinished(fs0: Tree, fs: Tree, src: Path, dst: Path, done: seq<Path>)
    requires WellFormed(fs0) && src in fs0 && fs0[src].Dir? && Walk(fs0, src, done, [])
    requires done != [] ==> dst !in fs0
    requires Keeps(fs, fs0)
    requires AddsOnly(fs0, fs, src, dst, Elems(done) + FilesIn(fs0, Elems(done)))
    requires CopiedAt(fs0, fs, src, dst, Elems(done) + FilesIn(fs0, Elems(done)))
    ensures CopyOutcome(fs0, fs, src, dst, Pass)
  {
    assert done + [] == done;
    WalkCovers(fs0, src, done);
    FilesInDirsUnder(fs0, src);
    SubtreeSplit(fs0, src);
  }

  /**
   * After a successful copy the destination subtree is an exact image of the
   * source subtree, and the source subtree is untouched.
   */
  lemma CopyIsReplica(fs0: Tree, fs: Tree, src: Path, dst: Path)
    requires WellFormed(fs0) && CopyOutcome(fs0, fs, src, dst, Pass)
    ensures forall q :: q in Subtree(fs0, src) ==> q in fs && fs[q] == fs0[q]
    ensures forall q :: q in Subtree(fs0, src) ==>
              Rebase(q, src, dst) in fs && fs[Rebase(q, src, dst)] == Copied(fs0[q])
    ensures forall t :: t in fs && dst <= t ==>
              Rebase(t, dst, src) in Subtree(fs0, src) && fs[t] == Copied(fs0[Rebase(t, dst, src)])
  {
    forall t | t in fs && dst <= t
      ensures Rebase(t, dst, src) in Subtree(fs0, src) && fs[t] == Copied(fs0[Rebase(t, dst, src)])
    {
      FreshBelow(fs0, dst, t);
      var q :| q in Subtree(fs0, src) && src <= q && t == Rebase(q, src, dst);
      RebaseInverse(q, src, dst);
    }
  }

  /** The files of a collection below src are below src. */
  lemma ChildFilesBelow(fs: Tree, src: Path, cur: Path)
    requires src <= cur
    ensures forall f :: f in ChildFiles(fs, cur) ==> src <= f
  {
    forall f | f in ChildFiles(fs, cur) ensures src <= f {
      ChildOfParent(f);
      PrefixOfChild(src, cur, BaseName(f));
    }
  }

  /** The copies of the files in written, each at its rebased identifier. */
  ghost function FileCopies(fs0: Tree, src: Path, dst: Path, written: seq<Path>): Tree
  {
    if written == [] then map[]
    else
      var f := written[|written| - 1];
      var earlier := FileCopies(fs0, src, dst, written[..|written| - 1]);
      if f in fs0 && src <= f then earlier[Rebase(f, src, dst) := Copied(fs0[f])] else earlier
  }

  /** Every copy made is the copy of a written item. */
  lemma {:induction false} FileCopiesKeys(fs0: Tree, src: Path, dst: Path, written: seq<Path>, t: Path)
    requires t in FileCopies(fs0, src, dst, written)
    ensures exists q :: q in written && q in fs0 && src <= q && t == Rebase(q, src, dst)
    decreases |written|
  {
    var init := written[..|written| - 1];
    var f := written[|written| - 1];
    if !(f in fs0 && src <= f && t == Rebase(f, src, dst)) {
      FileCopiesKeys(fs0, src, dst, init, t);
      var q :| q in init && q in fs0 && src <= q && t == Rebase(q, src, dst);
      assert q in written;
    }
  }

  /** Every written item has its copy. */
  lemma {:induction false} FileCopiesAt(fs0: Tree, src: Path, dst: Path, written: seq<Path>, q: Path)
    requires q in written && q in fs0 && src <= q
    ensures Rebase(q, src, dst) in FileCopies(fs0, src, dst, written)
    ensures FileCopies(fs0, src, dst, written)[Rebase(q, src, dst)] == Copied(fs0[q])
    decreases |written|
  {
    var init := written[..|written| - 1];
    var f := written[|written| - 1];
    if q != f {
      assert written == init + [f];
      assert q in init;
      FileCopiesAt(fs0, src, dst, init, q);
      if f in fs0 && src <= f && Rebase(f, src, dst) == Rebase(q, src, dst) {
        RebaseInjective(f, q, src, dst);
      }
    }
  }

  /** The tree after copying the written files: the old entries kept, the copies added. */
  lemma FileCopiesOutcome(fs0: Tree, fs: Tree, src: Path, dst: Path, written: seq<Path>, items: set<Path>)
    requires fs == fs0 + FileCopies(fs0, src, dst, written)
    requires forall q :: q in written ==> q in items
    requires forall q :: q in items ==> q in fs0 && src <= q && Rebase(q, src, dst) !in fs0
    ensures Keeps(fs, fs0) && AddsOnly(fs0, fs, src, dst, items)
    ensures (forall q :: q in items ==> q in written) ==> CopiedAt(fs0, fs, src, dst, items)
  {
    var copies := FileCopies(fs0, src, dst, written);
    forall q | q in fs0 ensures q !in copies {
      if q in copies {
        FileCopiesKeys(fs0, src, dst, written, q);
      }
    }
    forall t | t in fs && t !in fs0 ensures exists q :: q in items && src <= q && t == Rebase(q, src, dst) {
      FileCopiesKeys(fs0, src, dst, written, t);
    }
    if forall q :: q in items ==> q in written {
      forall q | q in items && q in fs0 && src <= q
        ensures Rebase(q, src, dst) in fs && fs[Rebase(q, src, dst)] == Copied(fs0[q])
      {
        FileCopiesAt(fs0, src, dst, written, q);
      }
    }
  }

  /** An item not written yet has no copy yet. */
  lemma FileCopiesMiss(fs0: Tree, src: Path, dst: Path, written: seq<Path>, f: Path)
    requires src <= f && f !in written
    ensures Rebase(f, src, dst) !in FileCopies(fs0, src, dst, written)
  {
    if Rebase(f, src, dst) in FileCopies(fs0, src, dst, written) {
      FileCopiesKeys(fs0, src, dst, written, Rebase(f, src, dst));
      var q :| q in written && q in fs0 && src <= q && Rebase(f, src, dst) == Rebase(q, src, dst);
      RebaseInjective(q, f, src, dst);
    }
  }

  /** Writing one more file extends the copies by it. */
  lemma FileCopiesStep(fs0: Tree, src: Path, dst: Path, written: seq<Path>, f: Path)
    requires f in fs0 && src <= f
    ensures fs0 + FileCopies(fs0, src, dst, written + [f])
         == (fs0 + FileCopies(fs0, src, dst, written))[Rebase(f, src, dst) := Copied(fs0[f])]
  {
    assert (written + [f])[..|written|] == written;
  }
}
