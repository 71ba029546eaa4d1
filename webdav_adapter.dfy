/**
 * The WebDAV data adapter: one item of a WebDAV store, addressed by its
 * logical identifier. Every server call borrows a connection from the pool
 * and returns it; a WebdavError becomes a PersistenceError carrying the
 * status code. Resource types (collection flag and link target) are looked
 * up in a cache that all adapters built without an explicit cache share,
 * and that getChildren fills.
 */
module WebdavData {
  import opened Wrappers
  import opened Paths
  import opened Errors
  import opened Streams
  import opened ConnectionPools
  import opened Trees
  import opened WebdavRemote

  /** A WebdavError raised by a request, re-raised as a PersistenceError. */
  function Lifted<T>(reply: Result<T, StatusCode>): (r: Result<T, PersistenceError>)
    ensures r.Ok? <==> reply.Ok?
    ensures r.Ok? ==> r.value == reply.value
    ensures r.Err? ==> r.error == WebdavCallFailed(reply.error)
  {
    if reply.Ok? then Ok(reply.value) else Err(WebdavCallFailed(reply.error))
  }

  function LiftedOutcome(reply: Outcome<StatusCode>): (r: Outcome<PersistenceError>)
    ensures r.Pass? <==> reply.Pass?
    ensures r.Fail? ==> r.error == WebdavCallFailed(reply.error)
  {
    if reply.Pass? then Pass else Fail(WebdavCallFailed(reply.error))
  }

  /** isLink: the item carries a link target. */
  predicate IsLinkType(t: ResourceType)
  {
    t.linkTarget.Some?
  }

  /** isLeaf: the item is neither a link nor a collection. */
  predicate IsLeafType(t: ResourceType)
  {
    t.linkTarget.None? && !t.isCollection
  }

  /** isCollection and canAddChildren: a collection that is not a link. */
  predicate IsCollectionType(t: ResourceType)
  {
    t.linkTarget.None? && t.isCollection
  }

  /** Every stored item is exactly one of link, leaf and collection. */
  lemma KindsOfResource(n: Resource)
    ensures IsLinkType(TypeOf(n)) <==> n.meta.Some?
    ensures IsLeafType(TypeOf(n)) <==> n.File? && n.meta.None?
    ensures IsCollectionType(TypeOf(n)) <==> n.Dir? && n.meta.None?
    ensures IsLinkType(TypeOf(n)) || IsLeafType(TypeOf(n)) || IsCollectionType(TypeOf(n))
    ensures !(IsLinkType(TypeOf(n)) && IsLeafType(TypeOf(n)))
    ensures !(IsLinkType(TypeOf(n)) && IsCollectionType(TypeOf(n)))
    ensures !(IsLeafType(TypeOf(n)) && IsCollectionType(TypeOf(n)))
  {
  }

  /** _determineResourceType: the cached type if there is one, else what the server answers. */
  function CachedOrAsked(entries: map<Path, ResourceType>, p: Path, reply: Result<ResourceType, StatusCode>)
    : (r: Result<ResourceType, PersistenceError>)
    ensures p in entries ==> r == Ok(entries[p])
    ensures p !in entries ==> r == Lifted(reply)
  {
    if p in entries then Ok(entries[p]) else Lifted(reply)
  }

  /** exists: a found resource exists, a 404 means it does not, any other code is an error. */
  function ExistsAnswer(reply: Result<ResourceType, StatusCode>): (r: Result<bool, PersistenceError>)
    ensures r == Ok(true) <==> reply.Ok?
    ensures r == Ok(false) <==> reply == Err(CodeNotFound)
    ensures r.Err? <==> reply.Err? && reply.error != CodeNotFound
    ensures r.Err? ==> r.error == WebdavCallFailed(reply.error)
  {
    if reply.Ok? then Ok(true)
    else if reply.error == CodeNotFound then Ok(false)
    else Err(WebdavCallFailed(reply.error))
  }

  /** Asked about an item it does not refuse, the server's answer to exists is whether the item is there. */
  lemma ExistsAgrees(server: WebdavServer, p: Path)
    ensures server.Refusal(p).None? ==> ExistsAnswer(server.PropfindReply(p)) == Ok(p in server.dav)
    ensures server.Refusal(p).Some? ==> ExistsAnswer(server.PropfindReply(p)).Err?
  {
  }

  /** The items directly inside p. */
  ghost function ChildrenOf(dav: Dav, p: Path): set<Path>
  {
    set c | c in dav && IsChildOf(c, p)
  }

  /** The cache after getChildren recorded the type of every entry of listing, in order. */
  ghost function Recorded(entries: map<Path, ResourceType>, listing: seq<Listed>): map<Path, ResourceType>
    decreases |listing|
  {
    if listing == [] then entries
    else
      var last := listing[|listing| - 1];
      Recorded(entries, listing[..|listing| - 1])[last.path := last.resourceType]
  }

  /** The result list getChildren builds from listing: every entry but the item itself, in order. */
  ghost function OthersThan(listing: seq<Listed>, self: Path): seq<Path>
    decreases |listing|
  {
    if listing == [] then []
    else
      var last := listing[|listing| - 1];
      OthersThan(listing[..|listing| - 1], self) + (if last.path != self then [last.path] else [])
  }

  /**
   * entries is the cache before after getChildren on p: the current types of
   * p and of each child of p recorded, every other entry as it was.
   */
  ghost predicate Refreshed(entries: map<Path, ResourceType>, before: map<Path, ResourceType>, dav: Dav, p: Path)
  {
    entries.Keys == before.Keys + Answered(dav, p)
    && (forall q :: q in Answered(dav, p) ==> entries[q] == TypeOf(dav[q]))
    && (forall q :: q in before && q !in Answered(dav, p) ==> entries[q] == before[q])
  }

  /** The items of a Depth 1 answer for p (see ListsWithSelf): p and its children. */
  ghost function Answered(dav: Dav, p: Path): set<Path>
  {
    set q | q in dav && (q == p || IsChildOf(q, p))
  }

  /** Every cached type is the current type of an existing item. */
  ghost predicate Coherent(entries: map<Path, ResourceType>, dav: Dav)
  {
    forall q :: q in entries ==> q in dav && entries[q] == TypeOf(dav[q])
  }

  lemma {:induction false} RecordedEntries(entries: map<Path, ResourceType>, listing: seq<Listed>)
    requires forall i, j :: 0 <= i < j < |listing| ==> listing[i].path != listing[j].path
    ensures Recorded(entries, listing).Keys == entries.Keys + ListedPaths(listing)
    ensures forall q :: q in entries && q !in ListedPaths(listing) ==> Recorded(entries, listing)[q] == entries[q]
    ensures forall i :: 0 <= i < |listing| ==> Recorded(entries, listing)[listing[i].path] == listing[i].resourceType
    decreases |listing|
  {
    if listing != [] {
      var init, last := listing[..|listing| - 1], listing[|listing| - 1];
      assert listing == init + [last];
      RecordedEntries(entries, init);
      assert ListedPaths(listing) == ListedPaths(init) + {last.path};
      forall i | 0 <= i < |init| ensures listing[i] == init[i] && init[i].path != last.path {
      }
    }
  }

  lemma {:induction false} OthersThanElems(listing: seq<Listed>, self: Path)
    requires forall i, j :: 0 <= i < j < |listing| ==> listing[i].path != listing[j].path
    ensures Elems(OthersThan(listing, self)) == ListedPaths(listing) - {self}
    ensures Distinct(OthersThan(listing, self))
    decreases |listing|
  {
    if listing != [] {
      var init, last := listing[..|listing| - 1], listing[|listing| - 1];
      assert listing == init + [last];
      OthersThanElems(init, self);
      assert ListedPaths(listing) == ListedPaths(init) + {last.path};
      var prev := OthersThan(init, self);
      var rest := OthersThan(listing, self);
      assert rest == prev + (if last.path != self then [last.path] else []);
      assert Elems(rest) == Elems(prev) + (if last.path != self then {last.path} else {});
      forall e | e in init ensures e.path != last.path {
        var i :| 0 <= i < |init| && init[i] == e;
        assert listing[i] == e;
      }
      forall i, j | 0 <= i < j < |rest| ensures rest[i] != rest[j] {
        if j >= |prev| {
          assert rest[i] in Elems(prev);
        }
      }
    }
  }

  /** One more entry recorded and, unless it is the item itself, appended to the result. */
  lemma ListingStep(entries: map<Path, ResourceType>, listing: seq<Listed>, self: Path, i: nat)
    requires i < |listing|
    ensures Recorded(entries, listing[..i + 1]) == Recorded(entries, listing[..i])[listing[i].path := listing[i].resourceType]
    ensures OthersThan(listing[..i + 1], self)
            == OthersThan(listing[..i], self) + (if listing[i].path != self then [listing[i].path] else [])
  {
    assert listing[..i + 1][..i] == listing[..i];
  }

  lemma AnsweredPaths(dav: Dav, p: Path, listing: seq<Listed>)
    requires ListsWithSelf(dav, p, listing)
    ensures ListedPaths(listing) == Answered(dav, p)
  {
    forall q | q in ListedPaths(listing) ensures q in Answered(dav, p) {
      var e :| e in listing && e.path == q;
    }
  }

  /** getChildren records exactly the current types of the item and of its children. */
  lemma RecordedAnswer(entries: map<Path, ResourceType>, dav: Dav, p: Path, listing: seq<Listed>)
    requires ListsWithSelf(dav, p, listing)
    ensures Refreshed(Recorded(entries, listing), entries, dav, p)
  {
    AnsweredPaths(dav, p, listing);
    RecordedEntries(entries, listing);
    forall q | q in Answered(dav, p) ensures Recorded(entries, listing)[q] == TypeOf(dav[q]) {
      var e :| e in listing && e.path == q;
      var i :| 0 <= i < |listing| && listing[i] == e;
    }
  }

  /** getChildren returns each child of the item exactly once, and nothing else. */
  lemma ChildrenAnswer(dav: Dav, p: Path, listing: seq<Listed>)
    requires ListsWithSelf(dav, p, listing)
    ensures Elems(OthersThan(listing, p)) == ChildrenOf(dav, p)
    ensures Distinct(OthersThan(listing, p))
  {
    OthersThanElems(listing, p);
    forall q | q in ListedPaths(listing) && q != p ensures q in ChildrenOf(dav, p) {
      var e :| e in listing && e.path == q;
    }
  }

  /** Recording a fresh Depth 1 answer keeps a coherent cache coherent. */
  lemma RefreshedCoherent(entries: map<Path, ResourceType>, before: map<Path, ResourceType>, dav: Dav, p: Path)
    requires Coherent(before, dav) && Refreshed(entries, before, dav, p)
    ensures Coherent(entries, dav)
  {
  }

  /** While the cache is coherent, answering from it is the same as asking the server. */
  lemma CoherentCacheAgrees(entries: map<Path, ResourceType>, server: WebdavServer, p: Path)
    requires Coherent(entries, server.dav) && server.Refusal(p).None?
    ensures CachedOrAsked(entries, p, server.PropfindReply(p)) == Lifted(server.PropfindReply(p))
  {
  }

  /** Dropping the own entry after a delete keeps coherence when nothing below the item is cached. */
  lemma ForgetCoherent(entries: map<Path, ResourceType>, dav: Dav, p: Path)
    requires Coherent(entries, dav)
    requires forall q :: q in entries && p <= q ==> q == p
    ensures Coherent(entries - {p}, dav - Subtree(dav, p))
  {
  }

  /**
   * delete drops only the item's own entry: after getChildren on a collection
   * and its deletion, the cache still types the deleted child.
   */
  lemma DeleteLeavesChildEntry()
    ensures var dav: Dav := map[[] := Dir(None), ["a"] := Dir(None), ["a", "b"] := File([], None)];
            var entries := map[["a"] := ResourceType(true, None), ["a", "b"] := ResourceType(false, None)];
            var after := dav - Subtree(dav, ["a"]);
            Refreshed(entries, map[], dav, ["a"]) && Coherent(entries, dav)
            && ["a", "b"] in entries - {["a"]} && !Coherent(entries - {["a"]}, after)
  {
    var dav: Dav := map[[] := Dir(None), ["a"] := Dir(None), ["a", "b"] := File([], None)];
    assert IsChildOf(["a", "b"], ["a"]) && !IsChildOf([], ["a"]);
    assert Answered(dav, ["a"]) == {["a"], ["a", "b"]};
    assert ["a"] <= ["a", "b"];
    assert ["a", "b"] in Subtree(dav, ["a"]);
  }


  /** Whether fs is old_fs with at most some missing prefixes of p added as plain collections. */
  ghost predicate AddsDirsOn(fs: Dav, old_fs: Dav, p: Path)
  {
    Keeps(fs, old_fs)
    && forall q :: q in fs && q !in old_fs ==> q in Prefixes(p) && fs[q] == Dir(None)
  }

  /** The resource type cache (identifier to isCollection and link target). */
  class ResourceTypeCache {
    var entries: map<Path, ResourceType>

    constructor ()
      ensures entries == map[]
    {
      entries := map[];
    }

    method Store(p: Path, t: ResourceType)
      modifies this
      ensures entries == old(entries)[p := t]
    {
      entries := entries[p := t];
    }

    /** Remove the entry of p, if there is one. */
    method Forget(p: Path)
      modifies this
      ensures entries == old(entries) - {p}
    {
      entries := entries - {p};
    }
  }

  class DataWebdavAdapter {
    const identifier: Path
    const pool: ConnectionPool
    const server: WebdavServer
    const cache: ResourceTypeCache

    constructor (identifier: Path, pool: ConnectionPool, server: WebdavServer, cache: ResourceTypeCache)
      ensures this.identifier == identifier && this.pool == pool
      ensures this.server == server && this.cache == cache
    {
      this.identifier, this.pool, this.server, this.cache := identifier, pool, server, cache;
    }

    /** The resource type _determineResourceType reports in the current state. */
    function KnownType(): Result<ResourceType, PersistenceError>
      reads server, cache
    {
      CachedOrAsked(cache.entries, identifier, server.PropfindReply(identifier))
    }

    /** _determineResourceType: a cached type costs no connection; otherwise a PROPFIND asks the server. */
    method DetermineResourceType() returns (r: Result<ResourceType, PersistenceError>)
      modifies pool
      ensures pool.checkedOut == old(pool.checkedOut)
      ensures r == KnownType()
      ensures identifier in cache.entries ==> pool.acquisitions == old(pool.acquisitions)
      ensures identifier !in cache.entries ==> pool.acquisitions == old(pool.acquisitions) + 1
    {
      if identifier in cache.entries {
        return Ok(cache.entries[identifier]);
      }
      pool.Acquire();
      var reply := server.Propfind(identifier);
      pool.Release();
      r := Lifted(reply);
    }

    /** linkTarget */
    method LinkTarget() returns (r: Result<LinkTarget, PersistenceError>)
      modifies pool
      ensures pool.checkedOut == old(pool.checkedOut)
      ensures r.Ok? <==> KnownType().Ok?
      ensures r.Ok? ==> r.value == KnownType().value.linkTarget
      ensures r.Err? ==> r.error == KnownType().error
    {
      var t := DetermineResourceType();
      r := if t.Ok? then Ok(t.value.linkTarget) else Err(t.error);
    }

    method IsLink() returns (r: Result<bool, PersistenceError>)
      modifies pool
      ensures pool.checkedOut == old(pool.checkedOut)
      ensures r.Ok? <==> KnownType().Ok?
      ensures r.Ok? ==> (r.value <==> IsLinkType(KnownType().value))
      ensures r.Err? ==> r.error == KnownType().error
    {
      var t := DetermineResourceType();
      if t.Err? {
        return Err(t.error);
      }
      r := Ok(t.value.linkTarget.Some?);
    }

    method IsLeaf() returns (r: Result<bool, PersistenceError>)
      modifies pool
      ensures pool.checkedOut == old(pool.checkedOut)
      ensures r.Ok? <==> KnownType().Ok?
      ensures r.Ok? ==> (r.value <==> IsLeafType(KnownType().value))
      ensures r.Err? ==> r.error == KnownType().error
    {
      var t := DetermineResourceType();
      if t.Err? {
        return Err(t.error);
      }
      if t.value.linkTarget.Some? {
        r := Ok(false);
      } else {
        r := Ok(!t.value.isCollection);
      }
    }

    method IsCollection() returns (r: Result<bool, PersistenceError>)
      modifies pool
      ensures pool.checkedOut == old(pool.checkedOut)
      ensures r.Ok? <==> KnownType().Ok?
      ensures r.Ok? ==> (r.value <==> IsCollectionType(KnownType().value))
      ensures r.Err? ==> r.error == KnownType().error
    {
      var t := DetermineResourceType();
      if t.Err? {
        return Err(t.error);
      }
      if t.value.linkTarget.Some? {
        r := Ok(false);
      } else {
        r := Ok(t.value.isCollection);
      }
    }

    /** canAddChildren: exactly the collections that are not links. */
    method CanAddChildren() returns (r: Result<bool, PersistenceError>)
      modifies pool
      ensures pool.checkedOut == old(pool.checkedOut)
      ensures r.Ok? <==> KnownType().Ok?
      ensures r.Ok? ==> (r.value <==> IsCollectionType(KnownType().value))
      ensures r.Err? ==> r.error == KnownType().error
    {
      r := IsCollection();
    }

    /** createResource: an empty resource named after the item, added to the parent collection. */
    method CreateResource() returns (r: Outcome<PersistenceError>)
      requires server.Valid()
      modifies pool, server
      ensures server.Valid() && pool.checkedOut == old(pool.checkedOut)
      ensures BaseName(identifier) == "" ==> r == Fail(EmptyResourceName) && pool.acquisitions == old(pool.acquisitions)
      ensures BaseName(identifier) != "" ==> r == LiftedOutcome(old(server.PutReply(identifier)))
      ensures server.dav == if r.Pass? then old(server.dav)[identifier := File([], KeptMeta(old(server.dav), identifier))]
                            else old(server.dav)
    {
      var name := BaseName(identifier);
      if |name| == 0 {
        return Fail(EmptyResourceName);
      }
      pool.Acquire();
      ChildOfParent(identifier);
      var put := server.Put(Child(Parent(identifier), name), []);
      pool.Release();
      r := LiftedOutcome(put);
    }

    /** createLink: create the resource, then set its link target to the destination's identifier. */
    method CreateLink(destination: DataWebdavAdapter) returns (r: Outcome<PersistenceError>)
      requires server.Valid()
      modifies pool, server
      ensures server.Valid() && pool.checkedOut == old(pool.checkedOut)
      ensures r.Pass? <==> BaseName(identifier) != "" && old(server.PutReply(identifier)).Pass?
                           && identifier !in server.protectedProperties
      ensures r.Pass? ==> server.dav == old(server.dav)[identifier := File([], Some(destination.identifier))]
      ensures BaseName(identifier) == "" ==> r == Fail(EmptyResourceName) && server.dav == old(server.dav)
      ensures BaseName(identifier) != "" && old(server.PutReply(identifier)).Fail? ==>
                r == LiftedOutcome(old(server.PutReply(identifier))) && server.dav == old(server.dav)
      // The property refused: the empty resource stays, without a link target.
      ensures BaseName(identifier) != "" && old(server.PutReply(identifier)).Pass? && identifier in server.protectedProperties ==>
                r == Fail(WebdavCallFailed(CodeForbidden))
                && server.dav == old(server.dav)[identifier := File([], KeptMeta(old(server.dav), identifier))]
    {
      r := CreateResource();
      if r.Fail? {
        return;
      }
      pool.Acquire();
      var patch := server.SetLinkTarget(identifier, destination.identifier);
      pool.Release();
      r := LiftedOutcome(patch);
    }

    /**
     * createCollection: with recursively set, first create the parent
     * collection through an adapter for it on the same pool, server and cache
     * when that parent does not exist.
     */
    method CreateCollection(recursively: bool) returns (r: Outcome<PersistenceError>)
      requires server.Valid()
      modifies pool, server
      decreases |identifier|
      ensures server.Valid() && pool.checkedOut == old(pool.checkedOut)
      ensures BaseName(identifier) == "" ==>
                r == Fail(EmptyResourceName) && server.dav == old(server.dav) && pool.acquisitions == old(pool.acquisitions)
      ensures !recursively && BaseName(identifier) != "" ==> r == LiftedOutcome(old(server.MkcolReply(identifier)))
      ensures !recursively ==> server.dav == if r.Pass? then old(server.dav)[identifier := Dir(None)] else old(server.dav)
      ensures recursively && r.Pass? ==> server.dav == WithDirs(old(server.dav), identifier, None)
      ensures AddsDirsOn(server.dav, old(server.dav), identifier)
    {
      var name := BaseName(identifier);
      if |name| == 0 {
        return Fail(EmptyResourceName);
      }
      ghost var dav0 := server.dav;
      assert identifier == identifier[..|identifier|];
      if recursively {
        var parent := new DataWebdavAdapter(Parent(identifier), pool, server, cache);
        var found := parent.Exists();
        if found.Err? {
          return Fail(found.error);
        }
        if !found.value {
          var made := parent.CreateCollection(true);
          if made.Fail? {
            PrefixesOfParent(identifier);
            return made;
          }
        }
        PrefixesOfParent(identifier);
        assert WithDirs(dav0, Parent(identifier), None) == server.dav by {
          if found.value {
            WithDirsPresent(dav0, Parent(identifier), None);
          }
        }
      }
      ghost var dav1 := server.dav;
      pool.Acquire();
      ChildOfParent(identifier);
      var mkcol := server.Mkcol(Child(Parent(identifier), name));
      pool.Release();
      r := LiftedOutcome(mkcol);
      if recursively && r.Pass? {
        WithDirsChild(dav0, identifier, None);
      }
    }

    /**
     * getChildren: a Depth 1 PROPFIND; every entry's type goes into the cache,
     * every entry but the item itself into the result.
     */
    method GetChildren() returns (r: Result<seq<Path>, PersistenceError>)
      modifies pool, cache
      ensures pool.checkedOut == old(pool.checkedOut)
      ensures r.Err? <==> server.PropfindReply(identifier).Err?
      ensures r.Err? ==> r.error == WebdavCallFailed(server.PropfindReply(identifier).error)
                         && cache.entries == old(cache.entries)
      ensures r.Ok? ==> Elems(r.value) == ChildrenOf(server.dav, identifier) && Distinct(r.value)
      ensures r.Ok? ==> Refreshed(cache.entries, old(cache.entries), server.dav, identifier)
    {
      pool.Acquire();
      var raw := server.PropfindChildren(identifier);
      if raw.Err? {
        pool.Release();
        return Err(WebdavCallFailed(raw.error));
      }
      var listing := raw.value;
      var result: seq<Path> := [];
      for i := 0 to |listing|
        invariant pool.checkedOut == old(pool.checkedOut) + 1
        invariant cache.entries == Recorded(old(cache.entries), listing[..i])
        invariant result == OthersThan(listing[..i], identifier)
      {
        var entry := listing[i];
        ListingStep(old(cache.entries), listing, identifier, i);
        cache.Store(entry.path, entry.resourceType);
        if entry.path != identifier {
          result := result + [entry.path];
        }
      }
      pool.Release();
      assert listing[..|listing|] == listing;
      RecordedAnswer(old(cache.entries), server.dav, identifier, listing);
      ChildrenAnswer(server.dav, identifier, listing);
      r := Ok(result);
    }

    /** writeData: upload everything left in the stream; the stream is closed whatever happens. */
    method WriteData(data: ByteStream) returns (r: Outcome<PersistenceError>)
      requires server.Valid() && data.Valid() && !data.closed
      modifies pool, server, data
      ensures server.Valid() && pool.checkedOut == old(pool.checkedOut)
      ensures data.closed
      ensures r == LiftedOutcome(old(server.PutReply(identifier)))
      ensures server.dav == if r.Pass? then old(server.dav)[identifier := File(old(data.content)[old(data.pos)..], KeptMeta(old(server.dav), identifier))]
                            else old(server.dav)
    {
      pool.Acquire();
      var content := data.ReadRest();
      var put := server.Put(identifier, content);
      data.Close();
      pool.Release();
      r := LiftedOutcome(put);
    }

    /** readData: the content of the resource, as a fresh stream. */
    method ReadData() returns (r: Result<ByteStream, PersistenceError>)
      modifies pool
      ensures pool.checkedOut == old(pool.checkedOut)
      ensures r.Err? <==> server.GetReply(identifier).Err?
      ensures r.Err? ==> r.error == WebdavCallFailed(server.GetReply(identifier).error)
      ensures r.Ok? ==> fresh(r.value) && r.value.Valid() && !r.value.closed && r.value.pos == 0
                        && r.value.content == server.GetReply(identifier).value
    {
      pool.Acquire();
      var reply := server.Get(identifier);
      pool.Release();
      r := Lifted(reply);
    }

    /** delete: the item and everything below it go; only the item's own cache entry is dropped. */
    method Delete() returns (r: Outcome<PersistenceError>)
      requires server.Valid()
      modifies pool, server, cache
      ensures server.Valid() && pool.checkedOut == old(pool.checkedOut)
      ensures r == LiftedOutcome(old(server.DeleteReply(identifier)))
      ensures server.dav == if r.Pass? then old(server.dav) - Subtree(old(server.dav), identifier) else old(server.dav)
      ensures cache.entries == if r.Pass? then old(cache.entries) - {identifier} else old(cache.entries)
    {
      pool.Acquire();
      var reply := server.Delete(identifier);
      if reply.Pass? {
        cache.Forget(identifier);
      }
      pool.Release();
      r := LiftedOutcome(reply);
    }

    /** move: the subtree reappears at the destination; the item's own cache entry is dropped. */
    method Move(destination: DataWebdavAdapter) returns (r: Outcome<PersistenceError>)
      requires server.Valid()
      modifies pool, server, cache
      ensures server.Valid() && pool.checkedOut == old(pool.checkedOut)
      ensures r == LiftedOutcome(old(server.TransferReply(identifier, destination.identifier)))
      ensures server.dav == if r.Pass? then Moved(old(server.dav), identifier, destination.identifier) else old(server.dav)
      ensures cache.entries == if r.Pass? then old(cache.entries) - {identifier} else old(cache.entries)
    {
      pool.Acquire();
      var reply := server.Move(identifier, destination.identifier);
      if reply.Pass? {
        cache.Forget(identifier);
      }
      pool.Release();
      r := LiftedOutcome(reply);
    }

    /** copy: the subtree also appears at the destination; the cache is untouched. */
    method Copy(destination: DataWebdavAdapter) returns (r: Outcome<PersistenceError>)
      requires server.Valid()
      modifies pool, server
      ensures server.Valid() && pool.checkedOut == old(pool.checkedOut)
      ensures r == LiftedOutcome(old(server.TransferReply(identifier, destination.identifier)))
      ensures server.dav == if r.Pass? then CopiedTree(old(server.dav), identifier, destination.identifier) else old(server.dav)
    {
      pool.Acquire();
      var reply := server.Copy(identifier, destination.identifier);
      pool.Release();
      r := LiftedOutcome(reply);
    }

    /** exists: always asks the server; the cache is not consulted. */
    method Exists() returns (r: Result<bool, PersistenceError>)
      modifies pool
      ensures pool.checkedOut == old(pool.checkedOut)
      ensures r == ExistsAnswer(server.PropfindReply(identifier))
    {
      pool.Acquire();
      var reply := server.Propfind(identifier);
      pool.Release();
      r := ExistsAnswer(reply);
    }
  }

  /** The properties an uploaded resource keeps: those of the resource it replaces, none for a new one. */
  function KeptMeta(dav: Dav, p: Path): LinkTarget
  {
    if p in dav then dav[p].meta else None
  }
}
