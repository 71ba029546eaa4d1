/**
 * The remote side of a WebDAV connection: a tree of collections and resources
 * keyed by path, each carrying the link target property DataFinder writes on
 * links, and the requests the WebDAV library's storers issue on it (PROPFIND,
 * MKCOL, PUT, PROPPATCH, GET, DELETE, MOVE and COPY). A failed request raises
 * a WebdavError with the response's status code.
 */
module WebdavRemote {
  import opened Wrappers
  import opened Paths
  import opened Errors
  import opened Streams
  import opened Trees

  /** The value of the link target property, if the resource has one. */
  type LinkTarget = Option<Path>

  type Resource = Node<LinkTarget>

  type Dav = Store<LinkTarget>

  /** What the resource type query reports: (isCollection, linkTargetPath). */
  datatype ResourceType = ResourceType(isCollection: bool, linkTarget: LinkTarget)

  /** One entry of a Depth 1 PROPFIND answer: a path and its resource type. */
  datatype Listed = Listed(path: Path, resourceType: ResourceType)

  const CodeForbidden: StatusCode := 403
  const CodeMethodNotAllowed: StatusCode := 405
  const CodeConflict: StatusCode := 409
  const CodePreconditionFailed: StatusCode := 412
  const CodeServiceUnavailable: StatusCode := 503

  function TypeOf(n: Resource): (t: ResourceType)
    ensures t.isCollection <==> n.Dir?
    ensures t.linkTarget == n.meta
  {
    ResourceType(n.Dir?, n.meta)
  }

  function ListedPaths(listing: seq<Listed>): set<Path>
  {
    set e | e in listing :: e.path
  }

  /**
   * listing is a Depth 1 answer for p: p itself and every child of p exactly
   * once, each with its current resource type.
   */
  ghost predicate ListsWithSelf(dav: Dav, p: Path, listing: seq<Listed>)
  {
    (forall e :: e in listing ==> e.path in dav && (e.path == p || IsChildOf(e.path, p))
                                   && e.resourceType == TypeOf(dav[e.path]))
    && p in ListedPaths(listing)
    && (forall c {:trigger IsChildOf(c, p)} :: c in dav && IsChildOf(c, p) ==> c in ListedPaths(listing))
    && (forall i, j :: 0 <= i < j < |listing| ==> listing[i].path != listing[j].path)
  }

  /** listing is p itself followed by a Depth 1 answer for p without the children in kids. */
  ghost predicate PartialAnswer(dav: Dav, p: Path, kids: set<Path>, listing: seq<Listed>)
  {
    (forall e :: e in listing ==> e.path in dav && (e.path == p || IsChildOf(e.path, p))
                                   && e.resourceType == TypeOf(dav[e.path]))
    && p in ListedPaths(listing)
    && (forall c {:trigger IsChildOf(c, p)} :: c in dav && IsChildOf(c, p) ==> c in kids || c in ListedPaths(listing))
    && (forall c :: c in kids ==> c in dav && IsChildOf(c, p) && c !in ListedPaths(listing))
    && (forall i, j :: 0 <= i < j < |listing| ==> listing[i].path != listing[j].path)
  }

  lemma AnswerStart(dav: Dav, p: Path, kids: set<Path>)
    requires p in dav
    requires kids == set c | c in dav.Keys && IsChildOf(c, p)
    ensures PartialAnswer(dav, p, kids, [Listed(p, TypeOf(dav[p]))])
  {
    var listing := [Listed(p, TypeOf(dav[p]))];
    assert ListedPaths(listing) == {p};
  }

  lemma AnswerStep(dav: Dav, p: Path, kids: set<Path>, listing: seq<Listed>, c: Path)
    requires PartialAnswer(dav, p, kids, listing) && c in kids
    ensures PartialAnswer(dav, p, kids - {c}, listing + [Listed(c, TypeOf(dav[c]))])
  {
    var e := Listed(c, TypeOf(dav[c]));
    var listing' := listing + [e];
    assert ListedPaths(listing') == ListedPaths(listing) + {c};
    forall x | x in listing'
      ensures x.path in dav && (x.path == p || IsChildOf(x.path, p)) && x.resourceType == TypeOf(dav[x.path])
    {
      if x != e { assert x in listing; }
    }
    forall i, j | 0 <= i < j < |listing'| ensures listing'[i].path != listing'[j].path {
      if j == |listing| { assert listing'[i] in listing; }
    }
  }

  class WebdavServer {
    var dav: Dav
    /** Paths on which the server refuses every request (403). */
    const faulty: set<Path>
    /** Resources whose properties the server does not let clients change (403 on PROPPATCH). */
    const protectedProperties: set<Path>
    /** Whether the server answers at all; otherwise every request fails with 503. */
    const available: bool

    constructor (dav: Dav, faulty: set<Path>, protectedProperties: set<Path>, available: bool)
      requires WellFormed(dav)
      ensures Valid() && this.dav == dav && this.faulty == faulty
      ensures this.protectedProperties == protectedProperties && this.available == available
    {
      this.dav, this.faulty, this.protectedProperties, this.available := dav, faulty, protectedProperties, available;
    }

    ghost predicate Valid()
      reads this
    {
      WellFormed(dav)
    }

    /** The status code every request on p fails with, if any. */
    function Refusal(p: Path): Option<StatusCode>
    {
      if !available then Some(CodeServiceUnavailable)
      else if p in faulty then Some(CodeForbidden)
      else None
    }

    predicate ParentIsCollection(p: Path)
      reads this
    {
      p != [] && Parent(p) in dav && dav[Parent(p)].Dir?
    }

    /** What a Depth 0 PROPFIND for the resource type of p answers. */
    function PropfindReply(p: Path): Result<ResourceType, StatusCode>
      reads this
    {
      if Refusal(p).Some? then Err(Refusal(p).value)
      else if p !in dav then Err(CodeNotFound)
      else Ok(TypeOf(dav[p]))
    }

    method Propfind(p: Path) returns (r: Result<ResourceType, StatusCode>)
      ensures r == PropfindReply(p)
    {
      r := PropfindReply(p);
    }

    /** A Depth 1 PROPFIND: p and its children, in the server's order. */
    method PropfindChildren(p: Path) returns (r: Result<seq<Listed>, StatusCode>)
      ensures r.Err? <==> PropfindReply(p).Err?
      ensures r.Err? ==> r.error == PropfindReply(p).error
      ensures r.Ok? ==> ListsWithSelf(dav, p, r.value)
    {
      var reply := PropfindReply(p);
      if reply.Err? {
        return Err(reply.error);
      }
      var kids := set c | c in dav.Keys && IsChildOf(c, p);
      var listing := [Listed(p, TypeOf(dav[p]))];
      AnswerStart(dav, p, kids);
      while kids != {}
        invariant PartialAnswer(dav, p, kids, listing)
        decreases |kids|
      {
        var c :| c in kids;
        AnswerStep(dav, p, kids, listing, c);
        listing := listing + [Listed(c, TypeOf(dav[c]))];
        kids := kids - {c};
      }
      r := Ok(listing);
    }

    /** What MKCOL p answers: p must be new and hang below a collection. */
    function MkcolReply(p: Path): Outcome<StatusCode>
      reads this
    {
      if Refusal(p).Some? then Fail(Refusal(p).value)
      else if p in dav then Fail(CodeMethodNotAllowed)
      else if !ParentIsCollection(p) then Fail(CodeConflict)
      else Pass
    }

    method Mkcol(p: Path) returns (r: Outcome<StatusCode>)
      requires Valid()
      modifies this
      ensures Valid()
      ensures r == old(MkcolReply(p))
      ensures dav == if r.Pass? then old(dav)[p := Dir(None)] else old(dav)
    {
      r := MkcolReply(p);
      if r.Pass? {
        dav := dav[p := Dir(None)];
      }
    }

    /** What PUT p answers: p must not be a collection, and a new p must hang below one. */
    function PutReply(p: Path): Outcome<StatusCode>
      reads this
    {
      if Refusal(p).Some? then Fail(Refusal(p).value)
      else if p in dav && dav[p].Dir? then Fail(CodeMethodNotAllowed)
      else if p !in dav && !ParentIsCollection(p) then Fail(CodeConflict)
      else Pass
    }

    /** PUT p: replace the content of p, or create p; an existing resource keeps its properties. */
    method Put(p: Path, content: seq<Byte>) returns (r: Outcome<StatusCode>)
      requires Valid()
      modifies this
      ensures Valid()
      ensures r == old(PutReply(p))
      ensures dav == if r.Pass? then old(dav)[p := File(content, if p in old(dav) then old(dav)[p].meta else None)]
                     else old(dav)
    {
      r := PutReply(p);
      if r.Pass? {
        if p in dav {
          FileNotParent(dav, p);
        }
        dav := dav[p := File(content, if p in dav then dav[p].meta else None)];
      }
    }

    /** What PROPPATCH on p answers. */
    function ProppatchReply(p: Path): Outcome<StatusCode>
      reads this
    {
      if Refusal(p).Some? then Fail(Refusal(p).value)
      else if p !in dav then Fail(CodeNotFound)
      else if p in protectedProperties then Fail(CodeForbidden)
      else Pass
    }

    /** PROPPATCH p setting the link target property. */
    method SetLinkTarget(p: Path, target: Path) returns (r: Outcome<StatusCode>)
      requires Valid()
      modifies this
      ensures Valid()
      ensures r == old(ProppatchReply(p))
      ensures r.Pass? ==> dav == old(dav)[p := if old(dav)[p].Dir? then Dir(Some(target))
                                               else File(old(dav)[p].content, Some(target))]
      ensures r.Fail? ==> dav == old(dav)
    {
      r := ProppatchReply(p);
      if r.Pass? {
        dav := dav[p := if dav[p].Dir? then Dir(Some(target)) else File(dav[p].content, Some(target))];
      }
    }

    /** What GET p answers: only resources have content to download. */
    function GetReply(p: Path): Result<seq<Byte>, StatusCode>
      reads this
    {
      if Refusal(p).Some? then Err(Refusal(p).value)
      else if p !in dav then Err(CodeNotFound)
      else if dav[p].Dir? then Err(CodeMethodNotAllowed)
      else Ok(dav[p].content)
    }

    /** GET p: a response stream over the content of p. */
    method Get(p: Path) returns (r: Result<ByteStream, StatusCode>)
      ensures r.Err? <==> GetReply(p).Err?
      ensures r.Err? ==> r.error == GetReply(p).error
      ensures r.Ok? ==> fresh(r.value) && r.value.Valid() && !r.value.closed
                        && r.value.content == GetReply(p).value && r.value.pos == 0
    {
      var reply := GetReply(p);
      if reply.Err? {
        return Err(reply.error);
      }
      var response := new ByteStream(reply.value);
      r := Ok(response);
    }

    /** What DELETE p answers. */
    function DeleteReply(p: Path): Outcome<StatusCode>
      reads this
    {
      if Refusal(p).Some? then Fail(Refusal(p).value)
      else if p !in dav then Fail(CodeNotFound)
      else Pass
    }

    /** DELETE p: p and everything below it disappear. */
    method Delete(p: Path) returns (r: Outcome<StatusCode>)
      requires Valid()
      modifies this
      ensures Valid()
      ensures r == old(DeleteReply(p))
      ensures dav == if r.Pass? then old(dav) - Subtree(old(dav), p) else old(dav)
    {
      r := DeleteReply(p);
      if r.Pass? {
        SubtreeClosed(dav, p);
        RemovedWellFormed(dav, Subtree(dav, p));
        dav := dav - Subtree(dav, p);
      }
    }

    /**
     * What MOVE or COPY from src to dst answers: the target must be new, not
     * inside the source, and hang below a collection.
     */
    function TransferReply(src: Path, dst: Path): Outcome<StatusCode>
      reads this
    {
      if Refusal(src).Some? then Fail(Refusal(src).value)
      else if Refusal(dst).Some? then Fail(Refusal(dst).value)
      else if src !in dav then Fail(CodeNotFound)
      else if dst in dav then Fail(CodePreconditionFailed)
      else if src <= dst then Fail(CodeForbidden)
      else if !ParentIsCollection(dst) then Fail(CodeConflict)
      else Pass
    }

    /** MOVE src to dst: the subtree at src reappears below dst. */
    method Move(src: Path, dst: Path) returns (r: Outcome<StatusCode>)
      requires Valid()
      modifies this
      ensures Valid()
      ensures r == old(TransferReply(src, dst))
      ensures dav == if r.Pass? then Moved(old(dav), src, dst) else old(dav)
    {
      r := TransferReply(src, dst);
      if r.Pass? {
        MovedWellFormed(dav, src, dst);
        dav := Moved(dav, src, dst);
      }
    }

    /** COPY src to dst: the subtree at src also appears below dst. */
    method Copy(src: Path, dst: Path) returns (r: Outcome<StatusCode>)
      requires Valid()
      modifies this
      ensures Valid()
      ensures r == old(TransferReply(src, dst))
      ensures dav == if r.Pass? then CopiedTree(old(dav), src, dst) else old(dav)
    {
      r := TransferReply(src, dst);
      if r.Pass? {
        CopiedTreeWellFormed(dav, src, dst);
        dav := CopiedTree(dav, src, dst);
      }
    }
  }
}
