/**
 * The breadth-first walk over a directory tree that recursive delete and
 * recursive copy of the SFTP adapter perform: the worklist state, what one
 * step of it preserves, and what the finished walk has visited.
 */
module SftpWalks {
  import opened Paths
  import opened Trees
  import opened SftpRemote

  /** The directories directly inside p. */
  ghost function ChildDirs(fs: Tree, p: Path): set<Path>
  {
    set c | c in fs && c != [] && Parent(c) == p && fs[c].Dir?
  }

  /** The files directly inside p. */
  ghost function ChildFiles(fs: Tree, p: Path): set<Path>
  {
    set c | c in fs && c != [] && Parent(c) == p && fs[c].File?
  }

  /** The files directly inside one of dirs. */
  ghost function FilesIn(fs: Tree, dirs: set<Path>): set<Path>
  {
    set c | c in fs && c != [] && Parent(c) in dirs && fs[c].File?
  }

  /** The files at or below root. */
  ghost function FilesUnder(fs: Tree, root: Path): set<Path>
  {
    set q | q in fs && root <= q && fs[q].File?
  }

  /** fs is old_fs with some of the items in gone removed and nothing else changed. */
  ghost predicate Trimmed(old_fs: Tree, fs: Tree, gone: set<Path>)
  {
    (forall q :: q in fs ==> q in old_fs && fs[q] == old_fs[q])
    && (forall q :: q in old_fs && q !in gone ==> q in fs)
  }

  lemma TrimmedByMinus(fs: Tree, a: set<Path>, b: set<Path>)
    requires a <= b
    ensures Trimmed(fs, fs - a, b)
  {
  }

  /** Trimming in two stages, each within gone, is trimming within gone. */
  lemma TrimmedThen(fs0: Tree, a: set<Path>, fs: Tree, b: set<Path>, gone: set<Path>)
    requires a <= gone && b <= gone
    requires Trimmed(fs0 - a, fs, b)
    ensures Trimmed(fs0, fs, gone)
  {
  }

  /** The list reversed, as list.reverse() leaves it. */
  function Reversed(s: seq<Path>): (r: seq<Path>)
    ensures |r| == |s|
    ensures forall i :: 0 <= i < |s| ==> r[i] == s[|s| - 1 - i]
  {
    seq(|s|, i requires 0 <= i < |s| => s[|s| - 1 - i])
  }

  /** order starts with root, repeats nothing and holds directories at or below root. */
  ghost predicate RootedDirs(fs: Tree, root: Path, order: seq<Path>)
  {
    |order| > 0 && order[0] == root
    && Distinct(order)
    && (forall i :: 0 <= i < |order| ==> order[i] in fs && root <= order[i] && fs[order[i]].Dir?)
  }

  /** Every element of order but the first has its parent in done. */
  ghost predicate ParentsDone(order: seq<Path>, done: seq<Path>)
  {
    forall i :: 0 < i < |order| ==> Parent(order[i]) in done
  }

  /** Every collection comes after the collection containing it. */
  ghost predicate ChildrenLater(order: seq<Path>)
  {
    forall i, j :: 0 <= i < |order| && 0 <= j < |order| && IsChildOf(order[j], order[i]) ==> i < j
  }

  /** Every directory directly inside a done collection is in order. */
  ghost predicate DoneExpanded(fs: Tree, done: seq<Path>, order: seq<Path>)
  {
    forall d, c :: d in done && c in ChildDirs(fs, d) ==> c in order
  }

  /**
   * The worklist state: done holds the collections whose listing has been
   * handled, todo the ones discovered and not yet handled.
   */
  ghost predicate Walk(fs: Tree, root: Path, done: seq<Path>, todo: seq<Path>)
  {
    RootedDirs(fs, root, done + todo) && ParentsDone(done + todo, done)
    && ChildrenLater(done + todo) && DoneExpanded(fs, done, done + todo)
  }

  lemma WalkStart(fs: Tree, root: Path)
    requires root in fs && fs[root].Dir?
    ensures Walk(fs, root, [], [root])
  {
  }

  lemma PrefixOfChild(root: Path, p: Path, name: Name)
    requires root <= p
    ensures root <= Child(p, name)
  {
    assert Child(p, name)[..|root|] == p[..|root|];
  }

  /** The directories found while handling the head of the worklist are new. */
  lemma FoundAreNew(fs: Tree, root: Path, done: seq<Path>, todo: seq<Path>, c: Path)
    requires Walk(fs, root, done, todo) && todo != []
    requires c in ChildDirs(fs, todo[0])
    ensures c !in done + todo
  {
    var order := done + todo;
    var cur := todo[0];
    assert order[|done|] == cur;
    forall m | 0 <= m < |done| ensures done[m] != cur {
      assert order[m] == done[m];
    }
    assert Parent(c) == cur && cur !in done;
    forall i | 0 <= i < |order| ensures order[i] != c {
      if i == 0 {
        assert |order[i]| == |root| <= |cur| < |c|;
      } else {
        assert Parent(order[i]) in done;
      }
    }
  }

  lemma StepRootedDirs(fs: Tree, root: Path, order: seq<Path>, cur: Path, found: seq<Path>)
    requires RootedDirs(fs, root, order) && cur in order
    requires forall k :: 0 <= k < |found| ==> found[k] in ChildDirs(fs, cur) && found[k] !in order
    requires Distinct(found)
    ensures RootedDirs(fs, root, order + found)
  {
    var order' := order + found;
    forall i | 0 <= i < |order'| ensures order'[i] in fs && root <= order'[i] && fs[order'[i]].Dir? {
      if i >= |order| {
        var c := order'[i];
        assert c == found[i - |order|];
        assert c == Child(cur, BaseName(c)) by { ChildOfParent(c); }
        PrefixOfChild(root, cur, BaseName(c));
      }
    }
    forall i, j | 0 <= i < j < |order'| ensures order'[i] != order'[j] {
      if j >= |order| && i < |order| {
        assert order'[j] == found[j - |order|];
      }
      if i >= |order| {
        assert order'[i] == found[i - |order|] && order'[j] == found[j - |order|];
      }
    }
  }

  lemma StepParentsDone(fs: Tree, order: seq<Path>, done: seq<Path>, cur: Path, found: seq<Path>)
    requires ParentsDone(order, done)
    requires forall k :: 0 <= k < |found| ==> found[k] in ChildDirs(fs, cur)
    ensures ParentsDone(order + found, done + [cur])
  {
    var order' := order + found;
    forall i | 0 < i < |order'| ensures Parent(order'[i]) in done + [cur] {
      if i >= |order| {
        assert order'[i] == found[i - |order|];
      }
    }
  }

  lemma StepChildrenLater(fs: Tree, root: Path, order: seq<Path>, done: seq<Path>, cur: Path, found: seq<Path>)
    requires RootedDirs(fs, root, order) && ParentsDone(order, done) && ChildrenLater(order)
    requires cur in order && root <= cur
    requires forall k :: 0 <= k < |found| ==> found[k] in ChildDirs(fs, cur) && found[k] !in order
    requires forall k :: 0 <= k < |found| ==> found[k] !in done
    ensures ChildrenLater(order + found)
  {
    var order' := order + found;
    forall k, i | 0 <= k < |found| && 0 <= i < |order'| ensures !IsChildOf(order'[i], found[k]) {
      if i >= |order| {
        assert order'[i] == found[i - |order|];
        assert |order'[i]| == |cur| + 1 == |found[k]|;
      } else if i == 0 {
        assert |order'[i]| == |root| <= |cur| < |found[k]|;
      } else {
        assert Parent(order[i]) in done;
      }
    }
    forall i, j | 0 <= i < |order'| && 0 <= j < |order'| && IsChildOf(order'[j], order'[i]) ensures i < j {
    }
  }

  lemma StepDoneExpanded(fs: Tree, done: seq<Path>, order: seq<Path>, cur: Path, found: seq<Path>)
    requires DoneExpanded(fs, done, order)
    requires Elems(found) == ChildDirs(fs, cur)
    ensures DoneExpanded(fs, done + [cur], order + found)
  {
    forall d, c | d in done + [cur] && c in ChildDirs(fs, d) ensures c in order + found {
      if d == cur {
        assert c in Elems(found);
      } else {
        assert d in done;
      }
    }
  }

  /** One step of the worklist: handle the head, append the directories it holds. */
  lemma WalkStep(fs: Tree, root: Path, done: seq<Path>, todo: seq<Path>, found: seq<Path>)
    requires Walk(fs, root, done, todo) && todo != []
    requires Elems(found) == ChildDirs(fs, todo[0]) && Distinct(found)
    ensures Walk(fs, root, done + [todo[0]], todo[1..] + found)
  {
    var cur := todo[0];
    var order := done + todo;
    assert (done + [cur]) + (todo[1..] + found) == order + found;
    assert order[|done|] == cur;
    forall k | 0 <= k < |found| ensures found[k] in ChildDirs(fs, cur) && found[k] !in order && found[k] !in done {
      assert found[k] in Elems(found);
      FoundAreNew(fs, root, done, todo, found[k]);
    }
    StepRootedDirs(fs, root, order, cur, found);
    StepParentsDone(fs, order, done, cur, found);
    StepChildrenLater(fs, root, order, done, cur, found);
    StepDoneExpanded(fs, done, order, cur, found);
  }

  /** Each step hands one more directory below root to done. */
  lemma WalkProgress(fs: Tree, root: Path, done: seq<Path>, todo: seq<Path>)
    requires Walk(fs, root, done, todo) && todo != []
    ensures |DirsUnder(fs, root) - Elems(done + [todo[0]])| < |DirsUnder(fs, root) - Elems(done)|
  {
    var order := done + todo;
    var cur := todo[0];
    assert order[|done|] == cur;
    forall m | 0 <= m < |done| ensures done[m] != cur {
      assert order[m] == done[m];
    }
    assert cur in DirsUnder(fs, root) - Elems(done);
    assert DirsUnder(fs, root) - Elems(done + [todo[0]]) == (DirsUnder(fs, root) - Elems(done)) - {cur};
  }

  /** A finished walk with root first reached every directory below root. */
  lemma {:induction false} WalkReaches(fs: Tree, root: Path, done: seq<Path>, d: Path)
    requires WellFormed(fs) && Walk(fs, root, done, [])
    requires d in DirsUnder(fs, root)
    ensures d in done
    decreases |d|
  {
    assert done + [] == done;
    if d != root {
      var p := Parent(d);
      assert d == p + [d[|d| - 1]];
      assert root <= p;
      WalkReaches(fs, root, done, p);
      assert d in ChildDirs(fs, p);
    }
  }

  /** The finished walk lists exactly the directories at or below root. */
  lemma WalkCovers(fs: Tree, root: Path, done: seq<Path>)
    requires WellFormed(fs) && Walk(fs, root, done, [])
    ensures Elems(done) == DirsUnder(fs, root)
  {
    assert done + [] == done;
    forall d | d in DirsUnder(fs, root) ensures d in Elems(done) {
      WalkReaches(fs, root, done, d);
    }
  }

  /** The files directly inside the directories below root are the files below root. */
  lemma FilesInDirsUnder(fs: Tree, root: Path)
    requires WellFormed(fs) && root in fs && fs[root].Dir?
    ensures FilesIn(fs, DirsUnder(fs, root)) == FilesUnder(fs, root)
  {
    forall f | f in FilesIn(fs, DirsUnder(fs, root)) ensures f in FilesUnder(fs, root) {
      var p := Parent(f);
      assert f == p + [f[|f| - 1]];
      assert f[..|root|] == p[..|root|];
    }
    forall f | f in FilesUnder(fs, root) ensures f in FilesIn(fs, DirsUnder(fs, root)) {
      var p := Parent(f);
      assert f != root;
      assert f == p + [f[|f| - 1]];
      assert p[..|root|] == f[..|root|];
    }
  }

  /** The head of the worklist is a directory below root that is not done yet. */
  lemma WalkHead(fs: Tree, root: Path, done: seq<Path>, todo: seq<Path>)
    requires Walk(fs, root, done, todo) && todo != []
    ensures todo[0] in DirsUnder(fs, root) && todo[0] !in done
  {
    var order := done + todo;
    assert order[|done|] == todo[0];
    forall m | 0 <= m < |done| ensures done[m] != todo[0] {
      assert order[m] == done[m];
    }
  }

  lemma MapMinus(fs: Tree, a: set<Path>, b: set<Path>)
    ensures (fs - a) - b == fs - (a + b)
  {
  }

  /** Files directly inside directories below root are below root. */
  lemma FilesInBelow(fs: Tree, root: Path, dirs: set<Path>)
    requires dirs <= DirsUnder(fs, root)
    ensures FilesIn(fs, dirs) <= FilesUnder(fs, root)
  {
    forall f | f in FilesIn(fs, dirs) ensures root <= f {
      ChildOfParent(f);
      PrefixOfChild(root, Parent(f), BaseName(f));
    }
  }

  /** Handling one more collection removes exactly its files as well. */
  lemma FilesInStep(fs: Tree, dirs: set<Path>, cur: Path)
    ensures FilesIn(fs, dirs + {cur}) == FilesIn(fs, dirs) + ChildFiles(fs, cur)
  {
  }

  /** One round of _emptyAllCollections: cur moves to the emptied list and its files are gone. */
  lemma EmptiedStep(fs: Tree, root: Path, done: seq<Path>, todo: seq<Path>, found: seq<Path>)
    requires Walk(fs, root, done, todo) && todo != []
    requires Elems(found) == ChildDirs(fs, todo[0]) && Distinct(found)
    ensures Walk(fs, root, done + [todo[0]], todo[1..] + found)
    ensures |DirsUnder(fs, root) - Elems(done + [todo[0]])| < |DirsUnder(fs, root) - Elems(done)|
    ensures Elems(done + [todo[0]]) == Elems(done) + {todo[0]}
    ensures FilesIn(fs, Elems(done + [todo[0]])) == FilesIn(fs, Elems(done)) + ChildFiles(fs, todo[0])
    ensures (fs - FilesIn(fs, Elems(done))) - ChildFiles(fs, todo[0]) == fs - FilesIn(fs, Elems(done + [todo[0]]))
  {
    WalkStep(fs, root, done, todo, found);
    WalkProgress(fs, root, done, todo);
    assert Elems(done + [todo[0]]) == Elems(done) + {todo[0]};
    FilesInStep(fs, Elems(done), todo[0]);
    MapMinus(fs, FilesIn(fs, Elems(done)), ChildFiles(fs, todo[0]));
  }

  /** The files directly inside a directory below root are below root. */
  lemma ChildFilesUnder(fs: Tree, root: Path, cur: Path)
    requires cur in DirsUnder(fs, root)
    ensures ChildFiles(fs, cur) <= FilesUnder(fs, root)
  {
    FilesInBelow(fs, root, {cur});
    assert FilesIn(fs, {cur}) == ChildFiles(fs, cur);
  }

  /** Removing the files of other collections leaves the listing of cur as it was. */
  lemma SameChildren(fs: Tree, dirs: set<Path>, cur: Path)
    requires cur !in dirs
    ensures ChildDirs(fs - FilesIn(fs, dirs), cur) == ChildDirs(fs, cur)
    ensures ChildFiles(fs - FilesIn(fs, dirs), cur) == ChildFiles(fs, cur)
  {
  }

  /** The directories an attribute listing of cur names, in listing order. */
  ghost function ListedDirs(cur: Path, attrs: seq<Attr>): seq<Path>
  {
    if attrs == [] then []
    else ListedDirs(cur, attrs[..|attrs| - 1])
         + (if attrs[|attrs| - 1].isDir then [Child(cur, attrs[|attrs| - 1].filename)] else [])
  }

  /** The files an attribute listing of cur names, in listing order. */
  ghost function ListedFileSeq(cur: Path, attrs: seq<Attr>): seq<Path>
  {
    if attrs == [] then []
    else ListedFileSeq(cur, attrs[..|attrs| - 1])
         + (if attrs[|attrs| - 1].isDir then [] else [Child(cur, attrs[|attrs| - 1].filename)])
  }

  /** Extending a listing prefix by one record extends the listed directories and files by it. */
  lemma ListedStep(cur: Path, attrs: seq<Attr>, i: nat)
    requires i < |attrs|
    ensures ListedDirs(cur, attrs[..i + 1])
         == ListedDirs(cur, attrs[..i]) + (if attrs[i].isDir then [Child(cur, attrs[i].filename)] else [])
    ensures ListedFileSeq(cur, attrs[..i + 1])
         == ListedFileSeq(cur, attrs[..i]) + (if attrs[i].isDir then [] else [Child(cur, attrs[i].filename)])
  {
    assert attrs[..i + 1][..i] == attrs[..i];
  }

  lemma {:induction false} ListedFileSeqElems(cur: Path, attrs: seq<Attr>)
    ensures Elems(ListedFileSeq(cur, attrs)) == ListedFiles(cur, attrs)
    decreases |attrs|
  {
    if attrs != [] {
      var init := attrs[..|attrs| - 1];
      var last := attrs[|attrs| - 1];
      var tail := if last.isDir then [] else [Child(cur, last.filename)];
      ListedFileSeqElems(cur, init);
      assert attrs == init + [last];
      assert ListedFiles(cur, attrs) == ListedFiles(cur, init) + Elems(tail);
      assert Elems(ListedFileSeq(cur, init) + tail) == Elems(ListedFileSeq(cur, init)) + Elems(tail);
    }
  }

  /** The files an attribute listing of cur names. */
  ghost function ListedFiles(cur: Path, attrs: seq<Attr>): set<Path>
  {
    set a | a in attrs && !a.isDir :: Child(cur, a.filename)
  }

  /** A directory record extends the listed directories and leaves the listed files alone. */
  lemma ListedDirStep(cur: Path, attrs: seq<Attr>, i: nat)
    requires i < |attrs| && attrs[i].isDir
    ensures ListedDirs(cur, attrs[..i + 1]) == ListedDirs(cur, attrs[..i]) + [Child(cur, attrs[i].filename)]
    ensures ListedFiles(cur, attrs[..i + 1]) == ListedFiles(cur, attrs[..i])
  {
    ListedStep(cur, attrs, i);
    ListedFilesStep(cur, attrs, i);
  }

  lemma ListedFilesStep(cur: Path, attrs: seq<Attr>, i: nat)
    requires i < |attrs|
    ensures ListedFiles(cur, attrs[..i + 1])
         == ListedFiles(cur, attrs[..i]) + (if attrs[i].isDir then {} else {Child(cur, attrs[i].filename)})
  {
    assert attrs[..i + 1] == attrs[..i] + [attrs[i]];
  }

  lemma {:induction false} ListedDirsElems(cur: Path, attrs: seq<Attr>)
    ensures Elems(ListedDirs(cur, attrs)) == set a | a in attrs && a.isDir :: Child(cur, a.filename)
    decreases |attrs|
  {
    if attrs != [] {
      var init := attrs[..|attrs| - 1];
      var last := attrs[|attrs| - 1];
      var tail := if last.isDir then [Child(cur, last.filename)] else [];
      ListedDirsElems(cur, init);
      assert attrs == init + [last];
      assert (set a | a in attrs && a.isDir :: Child(cur, a.filename))
          == (set a | a in init && a.isDir :: Child(cur, a.filename)) + Elems(tail);
      assert Elems(ListedDirs(cur, init) + tail) == Elems(ListedDirs(cur, init)) + Elems(tail);
    }
  }

  lemma {:induction false} ListedDirsDistinct(cur: Path, attrs: seq<Attr>)
    requires forall i, j :: 0 <= i < j < |attrs| ==> attrs[i].filename != attrs[j].filename
    ensures Distinct(ListedDirs(cur, attrs))
    decreases |attrs|
  {
    if attrs != [] {
      var init := attrs[..|attrs| - 1];
      var last := attrs[|attrs| - 1];
      ListedDirsDistinct(cur, init);
      if last.isDir {
        var c := Child(cur, last.filename);
        var s := ListedDirs(cur, init);
        ListedDirsElems(cur, init);
        forall k | 0 <= k < |s| ensures s[k] != c {
          assert s[k] in Elems(s);
          var a :| a in init && a.isDir && s[k] == Child(cur, a.filename);
          var i :| 0 <= i < |init| && init[i] == a;
          assert attrs[i] == a;
        }
        assert ListedDirs(cur, attrs) == s + [c];
      }
    }
  }

  /** A complete listing names exactly the directories and files directly inside cur. */
  lemma ListedChildren(fs: Tree, cur: Path, attrs: seq<Attr>)
    requires Lists(fs, cur, attrs)
    ensures (set a | a in attrs && a.isDir :: Child(cur, a.filename)) == ChildDirs(fs, cur)
    ensures ListedFiles(cur, attrs) == ChildFiles(fs, cur)
  {
    forall c | c in fs && IsChildOf(c, cur)
      ensures exists a :: a in attrs && Child(cur, a.filename) == c && a.isDir == fs[c].Dir?
    {
      ChildOfParent(c);
      assert BaseName(c) in Filenames(attrs);
      var a :| a in attrs && a.filename == BaseName(c);
      assert Child(cur, a.filename) == c;
    }
  }

  /** The file named at position i of a listing is not named earlier in it. */
  lemma ListedFilesFresh(cur: Path, attrs: seq<Attr>, i: nat)
    requires forall i, j :: 0 <= i < j < |attrs| ==> attrs[i].filename != attrs[j].filename
    requires i < |attrs|
    ensures Child(cur, attrs[i].filename) !in ListedFiles(cur, attrs[..i])
  {
    forall a | a in attrs[..i] ensures Child(cur, a.filename) != Child(cur, attrs[i].filename) {
      var k :| 0 <= k < i && attrs[..i][k] == a;
      assert attrs[k] == a;
    }
  }

  /** The file named at position i of a complete listing is a child file of cur, not named earlier. */
  lemma ListedFileAt(fs: Tree, cur: Path, attrs: seq<Attr>, i: nat)
    requires Lists(fs, cur, attrs) && i < |attrs| && !attrs[i].isDir
    ensures Child(cur, attrs[i].filename) in ChildFiles(fs, cur)
    ensures Child(cur, attrs[i].filename) !in ListedFiles(cur, attrs[..i])
  {
    assert attrs[i] in attrs;
    ListedFilesFresh(cur, attrs, i);
  }

  /** Entries are directories or files, so a subtree is its directories and its files. */
  lemma SubtreeSplit(fs: Tree, root: Path)
    ensures Subtree(fs, root) == DirsUnder(fs, root) + FilesUnder(fs, root)
  {
  }

  /** A file's subtree is the file alone. */
  lemma FileSubtree(fs: Tree, f: Path)
    requires WellFormed(fs) && f in fs && fs[f].File?
    ensures Subtree(fs, f) == {f}
  {
    forall c | c in Subtree(fs, f) ensures c == f {
      FileIsLeaf(fs, f, c);
    }
  }

  /** What a finished walk says about its list of collections. */
  ghost predicate Finished(fs: Tree, root: Path, done: seq<Path>)
  {
    Distinct(done) && ChildrenLater(done) && DoneExpanded(fs, done, done)
    && (forall i :: 0 <= i < |done| ==> done[i] in fs && root <= done[i] && fs[done[i]].Dir?)
  }

  lemma FinishedWalk(fs: Tree, root: Path, done: seq<Path>)
    requires Walk(fs, root, done, [])
    ensures Finished(fs, root, done)
  {
    assert done + [] == done;
  }

  /** Removing the files below root and then every collection below it removes the subtree. */
  lemma ReverseRemovalDone(fs0: Tree, root: Path, done: seq<Path>)
    requires Elems(done) == DirsUnder(fs0, root)
    ensures (fs0 - FilesUnder(fs0, root)) - Elems(Reversed(done)) == fs0 - Subtree(fs0, root)
  {
    ReversedElems(done);
    SubtreeSplit(fs0, root);
    MapMinus(fs0, FilesUnder(fs0, root), DirsUnder(fs0, root));
  }

  /**
   * Step i of removing the collections in reverse discovery order, after the
   * files below root are gone: the next collection is there and is empty.
   */
  lemma ReverseRemovalStep(fs0: Tree, root: Path, done: seq<Path>, i: nat, fs: Tree)
    requires Finished(fs0, root, done) && i < |done|
    requires fs == (fs0 - FilesUnder(fs0, root)) - Elems(Reversed(done)[..i])
    ensures Reversed(done)[i] in done && Reversed(done)[i] in fs && fs[Reversed(done)[i]].Dir?
    ensures forall c :: IsChildOf(c, Reversed(done)[i]) ==> c !in fs
    ensures Elems(Reversed(done)[..i + 1]) == Elems(Reversed(done)[..i]) + {Reversed(done)[i]}
  {
    assert Reversed(done)[..i + 1] == Reversed(done)[..i] + [Reversed(done)[i]];
    var k := |done| - 1 - i;
    var gone := Elems(Reversed(done)[..i]);
    assert Reversed(done)[i] == done[k];
    ReversedPrefixHolds(done, i);
    ReversedPrefixMisses(done, i);
    assert done[k] !in FilesUnder(fs0, root);
    EmptyWhenDeeperGone(fs0, root, done, gone, fs, k);
  }

  lemma ReversedElems(s: seq<Path>)
    ensures Elems(Reversed(s)) == Elems(s)
  {
    var r := Reversed(s);
    forall q | q in s ensures q in r {
      var k :| 0 <= k < |s| && s[k] == q;
      assert r[|s| - 1 - k] == q;
    }
  }

  /** The first i collections in reverse order are the last i in discovery order. */
  lemma ReversedPrefixHolds(s: seq<Path>, i: nat)
    requires i <= |s|
    ensures forall j :: |s| - i <= j < |s| ==> s[j] in Elems(Reversed(s)[..i])
  {
    var r := Reversed(s);
    forall j | |s| - i <= j < |s| ensures s[j] in Elems(r[..i]) {
      assert r[..i][|s| - 1 - j] == s[j];
    }
  }

  lemma ReversedPrefixMisses(s: seq<Path>, i: nat)
    requires Distinct(s) && i < |s|
    ensures s[|s| - 1 - i] !in Elems(Reversed(s)[..i])
  {
    var r := Reversed(s);
    forall k | 0 <= k < i ensures r[..i][k] != s[|s| - 1 - i] {
      assert r[k] == s[|s| - 1 - k];
    }
  }

  /**
   * Removing in reverse discovery order: once the files below root and every
   * collection discovered after position k are gone, collection k is empty.
   */
  lemma EmptyWhenDeeperGone(fs0: Tree, root: Path, done: seq<Path>, gone: set<Path>, fs: Tree, k: nat)
    requires ChildrenLater(done) && DoneExpanded(fs0, done, done)
    requires k < |done| && root <= done[k]
    requires forall j :: k < j < |done| ==> done[j] in gone
    requires forall q :: q in fs ==> q in fs0 && q !in FilesUnder(fs0, root) && q !in gone
    ensures forall c :: IsChildOf(c, done[k]) ==> c !in fs
  {
    var d := done[k];
    forall c | IsChildOf(c, d) && c in fs0 ensures c !in fs {
      if fs0[c].Dir? {
        assert d in done && c in ChildDirs(fs0, d);
        assert c in done;
        var j :| 0 <= j < |done| && done[j] == c;
        assert IsChildOf(done[j], done[k]);
      } else {
        ChildOfParent(c);
        PrefixOfChild(root, d, BaseName(c));
        assert c in FilesUnder(fs0, root);
      }
    }
  }
}
