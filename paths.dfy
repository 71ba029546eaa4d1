/**
 * Logical item identifiers as sequences of names. The identifier mapper of
 * both backends is taken to be the identity, so an identifier is also the
 * native path; its parent/child relation is "drop/append the last name".
 */
module Paths {

  type Name = string
  type Path = seq<Name>

  /** determineParentId: the root is its own parent. */
  function Parent(p: Path): (r: Path)
    ensures p == [] ==> r == []
    ensures p != [] ==> |r| == |p| - 1 && r + [p[|p| - 1]] == p
  {
    if p == [] then [] else p[..|p| - 1]
  }

  /** determineBaseName: the last name, empty for the root. */
  function BaseName(p: Path): Name
  {
    if p == [] then "" else p[|p| - 1]
  }

  /** determineChildId / determinePersistenceChildId. */
  function Child(p: Path, name: Name): (c: Path)
    ensures Parent(c) == p && BaseName(c) == name && |c| == |p| + 1
  {
    p + [name]
  }

  predicate IsChildOf(c: Path, p: Path)
  {
    c != [] && Parent(c) == p
  }

  lemma ChildOfParent(c: Path)
    requires c != []
    ensures Child(Parent(c), BaseName(c)) == c
  {
  }

  /** Every ancestor of p, p itself and the root included. */
  ghost function Prefixes(p: Path): set<Path>
  {
    set k | 0 <= k <= |p| :: p[..k]
  }

  lemma {:induction false} PrefixesOfChild(p: Path, name: Name)
    ensures Prefixes(Child(p, name)) == Prefixes(p) + {Child(p, name)}
  {
    var c := Child(p, name);
    forall q | q in Prefixes(c) ensures q in Prefixes(p) + {c} {
      var k :| 0 <= k <= |c| && q == c[..k];
      if k < |c| { assert q == p[..k]; }
    }
    forall q | q in Prefixes(p) ensures q in Prefixes(c) {
      var k :| 0 <= k <= |p| && q == p[..k];
      assert q == c[..k];
    }
    assert c == c[..|c|];
  }

  /**
   * The identifier an item of a copied subtree gets: the source root prefix
   * replaced by the destination root.
   */
  function Rebase(q: Path, src: Path, dst: Path): (r: Path)
    requires src <= q
    ensures dst <= r && |r| == |dst| + (|q| - |src|)
    ensures r[|dst|..] == q[|src|..]
  {
    dst + q[|src|..]
  }

  /** The source root maps to the destination root. */
  lemma RebaseRoot(src: Path, dst: Path)
    ensures Rebase(src, src, dst) == dst
  {
  }

  /** Rebasing commutes with taking a child, so the mirrored tree has the same shape. */
  lemma RebaseChild(q: Path, src: Path, dst: Path, name: Name)
    requires src <= q
    ensures src <= Child(q, name)
    ensures Rebase(Child(q, name), src, dst) == Child(Rebase(q, src, dst), name)
  {
    assert Child(q, name)[|src|..] == q[|src|..] + [name];
  }

  /** Rebasing commutes with taking the parent below the source root. */
  lemma RebaseParent(q: Path, src: Path, dst: Path)
    requires src <= q && q != src
    ensures src <= Parent(q)
    ensures Rebase(Parent(q), src, dst) == Parent(Rebase(q, src, dst))
  {
    assert q == Parent(q) + [q[|q| - 1]];
    RebaseChild(Parent(q), src, dst, q[|q| - 1]);
  }

  /** Distinct items of the source subtree get distinct destinations. */
  lemma RebaseInjective(q1: Path, q2: Path, src: Path, dst: Path)
    requires src <= q1 && src <= q2
    requires Rebase(q1, src, dst) == Rebase(q2, src, dst)
    ensures q1 == q2
  {
    assert q1 == src + q1[|src|..];
    assert q2 == src + q2[|src|..];
  }

  /** Rebasing back from the destination recovers the source item. */
  lemma RebaseInverse(q: Path, src: Path, dst: Path)
    requires src <= q
    ensures Rebase(Rebase(q, src, dst), dst, src) == q
  {
    assert q == src + q[|src|..];
  }

  /** The identifiers a list holds. */
  ghost function Elems(s: seq<Path>): set<Path>
  {
    set x | x in s
  }

  /** A list without repeated identifiers. */
  ghost predicate Distinct(s: seq<Path>)
  {
    forall i, j :: 0 <= i < j < |s| ==> s[i] != s[j]
  }

  lemma PrefixesOfParent(p: Path)
    ensures Prefixes(Parent(p)) <= Prefixes(p)
  {
    if p != [] {
      ChildOfParent(p);
      PrefixesOfChild(Parent(p), BaseName(p));
    }
  }
}
