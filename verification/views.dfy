/** `FileVersionViewSet` and `FileByPathView` over one store of File and
    FileVersion rows.  The requester is an explicit `owner` parameter of every
    operation; the storage backend's name for uploaded bytes is the
    `storedAs` parameter of the operations that save a file. */
module Views {
  import opened Wrappers
  import opened Hashing
  import opened Models
  import opened Serializers
  import opened Queries

  /** The HTTP responses of the views. */
  datatype Response =
    | Ok(version: FileVersion)      // 200 or 201 with the serialized version
    | Blank                         // 200 with the serializer's empty representation
    | ShareLink(link: ContentRef)   // 200 {"shareable_link": ...}
    | NoContent                     // 204 after a delete
    | Invalid(error: FieldError)    // 400, keyed on the failing field
    | NotFound                      // 404 {"detail": "Not found."}
    | RevisionNotFound              // 404 {"detail": "Revision not found."}
    | NoLink                        // 404 {"shareable_link": null}
    | ServerError                   // 500 from the catch-all exception handler

  /** The `revision` query parameter of a by-path lookup: absent, or given
      and parsed by `int(...)` (None when that raises ValueError). */
  datatype Revision = Omitted | Given(index: Option<int>)

  /** Indexing a queryset becomes the SQL `OFFSET`, a signed 64-bit integer:
      the database refuses an index at or above 2^63, an error the by-path
      view does not catch. */
  const OffsetLimit: int := 0x8000_0000_0000_0000

  /** The by-hash route admits exactly 64 hex digits of either case. */
  predicate MatchesHashRoute(h: string)
  {
    |h| == 64 && forall i :: 0 <= i < |h| ==> IsLowerHexDigit(h[i]) || 'A' <= h[i] <= 'F'
  }

  /** Every stored content hash can be looked up through the by-hash route. */
  lemma ContentHashMatchesRoute(hash: HashFunction, data: seq<byte>)
    ensures MatchesHashRoute(ContentHash(hash, data))
  {
  }

  /** The store's invariant: distinct ids below the counters, one file per
      (owner, name), per-file version numbers from 1 upwards and increasing
      in insertion order, every version belonging to an existing file of the
      same owner, and every content hash 64 lowercase hex digits. */
  ghost predicate Consistent(fs: seq<File>, vs: seq<FileVersion>, nextFileId: nat, nextVersionId: nat)
  {
    && FilesOrdered(fs)
    && Ordered(vs)
    && (forall f :: f in fs ==> f.id < nextFileId && FileFitsColumns(f))
    && (forall v :: v in vs ==>
          v.id < nextVersionId && 1 <= v.versionNumber
          && |v.contentHash| == 64 && IsLowerHex(v.contentHash) && VersionFitsColumns(v))
    && (forall v :: v in vs ==> exists f :: f in fs && f.id == v.fileId)
    && (forall v, f :: v in vs && f in fs && f.id == v.fileId ==> v.owner == f.owner)
  }

  lemma FilesOrderedSnoc(fs: seq<File>, f: File)
    requires FilesOrdered(fs)
    requires forall g :: g in fs ==> Apart(g, f)
    ensures FilesOrdered(fs + [f])
  {
    var r := fs + [f];
    forall i, j | 0 <= i < j < |r| ensures Apart(r[i], r[j]) {
      assert r[i] == fs[i];
      if j == |fs| {
        assert fs[i] in fs;
      } else {
        assert r[j] == fs[j];
      }
    }
  }

  lemma OrderedSnoc(vs: seq<FileVersion>, v: FileVersion)
    requires Ordered(vs)
    requires forall w :: w in vs ==> Precedes(w, v)
    ensures Ordered(vs + [v])
  {
    var r := vs + [v];
    forall i, j | 0 <= i < j < |r| ensures Precedes(r[i], r[j]) {
      assert r[i] == vs[i];
      if j == |vs| {
        assert vs[i] in vs;
      } else {
        assert r[j] == vs[j];
      }
    }
  }

  /** Deleting the latest version of a file frees its number: the next
      upload to that file gets at most that number again. */
  lemma DeletingLatestFreesItsNumber(vs: seq<FileVersion>, k: nat)
    requires Ordered(vs) && k < |vs| && 1 <= vs[k].versionNumber
    requires forall w :: w in vs && w.fileId == vs[k].fileId ==> w.versionNumber <= vs[k].versionNumber
    ensures NextVersionNumber(Exclude(vs, ById(vs[k].id)), vs[k].fileId) <= vs[k].versionNumber
  {
    var rest := Exclude(vs, ById(vs[k].id));
    forall w | w in rest && w.fileId == vs[k].fileId ensures w.versionNumber < vs[k].versionNumber {
      var j :| 0 <= j < |vs| && vs[j] == w;
      assert j < k || k < j;
    }
  }

  /** Deleting any other version leaves the next number unchanged. */
  lemma DeletingOtherKeepsNextNumber(vs: seq<FileVersion>, k: nat, fileId: nat)
    requires Ordered(vs) && k < |vs|
    requires exists w :: w in vs && w.fileId == fileId && (vs[k].fileId != fileId || vs[k].versionNumber < w.versionNumber)
    ensures NextVersionNumber(Exclude(vs, ById(vs[k].id)), fileId) == NextVersionNumber(vs, fileId)
  {
    var rest := Exclude(vs, ById(vs[k].id));
    var top :| top in vs && top.fileId == fileId && top.versionNumber == NextVersionNumber(vs, fileId) - 1;
    var w :| w in vs && w.fileId == fileId && (vs[k].fileId != fileId || vs[k].versionNumber < w.versionNumber);
    var n := NextVersionNumber(vs, fileId);
    assert w.versionNumber < n;
    assert vs[k] != top;
    var j :| 0 <= j < |vs| && vs[j] == top;
    if j < k {
      assert Precedes(vs[j], vs[k]);
    } else if k < j {
      assert Precedes(vs[k], vs[j]);
    }
    assert top in rest;
    NextVersionNumberOfSubset(vs, rest, fileId, top);
  }

  /** Inserting the version an upload builds keeps the store consistent,
      whether its file already existed or is inserted with it. */
  lemma UploadKeepsConsistent(fs: seq<File>, vs: seq<FileVersion>, nextFileId: nat, nextVersionId: nat,
                              f: File, v: FileVersion)
    requires Consistent(fs, vs, nextFileId, nextVersionId)
    requires f in fs || (f.id == nextFileId && FileFitsColumns(f)
                         && forall g :: g in fs ==> g.owner != f.owner || g.name != f.name)
    requires v.id == nextVersionId && v.fileId == f.id && v.owner == f.owner
    requires v.versionNumber == NextVersionNumber(vs, f.id)
    requires |v.contentHash| == 64 && IsLowerHex(v.contentHash) && VersionFitsColumns(v)
    ensures f in fs ==> Consistent(fs, vs + [v], nextFileId, nextVersionId + 1)
    ensures f !in fs ==> Consistent(fs + [f], vs + [v], nextFileId + 1, nextVersionId + 1)
  {
    assert forall w :: w in vs ==> Precedes(w, v);
    OrderedSnoc(vs, v);
    assert 1 <= v.versionNumber by {
      if exists w :: w in vs && w.fileId == f.id {
        var w :| w in vs && w.fileId == f.id;
        assert 1 <= w.versionNumber < v.versionNumber;
      }
    }
    if f !in fs {
      FilesOrderedSnoc(fs, f);
      forall w | w in vs ensures w.fileId != f.id {
        var g :| g in fs && g.id == w.fileId;
      }
    }
  }

  /** The database and the view set over it. */
  class DocumentStore {
    const sha256: HashFunction
    var files: seq<File>
    var versions: seq<FileVersion>
    var nextFileId: nat
    var nextVersionId: nat

    ghost predicate Valid()
      reads this
    {
      Consistent(files, versions, nextFileId, nextVersionId)
    }

    constructor (sha256: HashFunction)
      ensures Valid() && this.sha256 == sha256
      ensures files == [] && versions == [] && nextFileId == 1 && nextVersionId == 1
    {
      this.sha256 := sha256;
      files := [];
      versions := [];
      nextFileId := 1;
      nextVersionId := 1;
    }

    /** `get_queryset()` and the list action: the requester's versions and
      no one else's. */
    function OwnVersions(owner: UserId): (r: seq<FileVersion>)
      reads this
      ensures forall v :: v in r <==> v in versions && v.owner == owner
    {
      Filter(versions, ByOwner(owner))
    }

    /** `get_object()`: the requester's version with that id; any other
      owner's id reads as absent. */
    function Detail(owner: UserId, id: nat): (r: Response)
      reads this
      requires Valid()
      ensures r.Ok? || r == NotFound
      ensures r.Ok? ==> r.version in versions && r.version.owner == owner && r.version.id == id
      ensures r == NotFound <==> forall v :: v in versions && v.owner == owner ==> v.id != id
    {
      var q := Query(Some(id), None, Some(owner), None);
      AtMostOneWithId(versions, q);
      var found := Filter(versions, q);
      if found == [] then NotFound
      else
        assert found[0] in found;
        Ok(found[0])
    }

    /** The share action: the stored content's link, a 404 without a link
      when the version has no content, and not found for ids outside the
      requester's versions. */
    function Share(owner: UserId, id: nat): (r: Response)
      reads this
      requires Valid()
      ensures r.ShareLink? || r == NoLink || r == NotFound
      ensures r == NotFound <==> Detail(owner, id) == NotFound
      ensures r.ShareLink? ==>
        exists v :: v in versions && v.owner == owner && v.id == id && v.content == Some(r.link)
      ensures r == NoLink <==> Detail(owner, id).Ok? && ShareableLink(Detail(owner, id).version).None?
    {
      var target := Detail(owner, id);
      if target.Ok? then
        match ShareableLink(target.version)
        case Some(link) => ShareLink(link)
        case None => NoLink
      else NotFound
    }

    /** The by-hash action: the requester's one version with exactly that
      hash; not found when there is none; a 500 when there are several,
      because only DoesNotExist is caught. */
    function ByHash(owner: UserId, contentHash: string): (r: Response)
      reads this
      requires MatchesHashRoute(contentHash)
      ensures r.Ok? || r == NotFound || r == ServerError
      ensures r.Ok? ==>
        r.version in versions && r.version.owner == owner && r.version.contentHash == contentHash
      ensures r.Ok? <==> |Filter(versions, Query(None, None, Some(owner), Some(contentHash)))| == 1
      ensures r == NotFound <==>
        forall v :: v in versions && v.owner == owner ==> v.contentHash != contentHash
      ensures r == ServerError <==>
        |Filter(versions, Query(None, None, Some(owner), Some(contentHash)))| >= 2
    {
      match Get(versions, Query(None, None, Some(owner), Some(contentHash)))
      case Got(v) => Ok(v)
      case DoesNotExist => NotFound
      case MultipleObjectsReturned => ServerError
    }

    /** `FileByPathView.get`: find the requester's file with that name; with
      no revision, its version with the greatest number (the empty
      representation when it has none); with an integer revision i in
      range, its version with exactly i smaller numbers; a 500 for an index
      the database cannot take as an offset; otherwise a 404. */
    function ByPath(owner: UserId, name: string, revision: Revision): (r: Response)
      reads this
      requires Valid()
      ensures r.Ok? || r == NotFound || r == RevisionNotFound || r == Blank || r == ServerError
      ensures r == NotFound <==> forall f :: f in files ==> f.owner != owner || f.name != name
      ensures r.Ok? ==> r.version in versions && r.version.owner == owner
      ensures r.Ok? ==> exists f :: f in files && f.owner == owner && f.name == name && f.id == r.version.fileId
      ensures r.Ok? && revision.Omitted? ==>
        forall w :: w in versions && w.fileId == r.version.fileId ==> w.versionNumber <= r.version.versionNumber
      ensures r.Ok? && revision.Given? ==>
        revision.index.Some? && CountBelow(Filter(versions, ByFile(r.version.fileId)), r.version.versionNumber) == revision.index.value
      ensures r == Blank <==>
        revision.Omitted?
        && exists f :: (f in files && f.owner == owner && f.name == name
                        && forall w :: w in versions ==> w.fileId != f.id)
      ensures r == RevisionNotFound <==>
        revision.Given?
        && exists f :: (f in files && f.owner == owner && f.name == name
                        && (revision.index.None? || revision.index.value < 0
                            || |Filter(versions, ByFile(f.id))| <= revision.index.value < OffsetLimit))
      ensures r == ServerError <==>
        revision.Given? && revision.index.Some? && revision.index.value >= OffsetLimit
        && exists f :: f in files && f.owner == owner && f.name == name
    {
      var q := FileQuery(None, Some(owner), Some(name));
      AtMostOneFile(files, q);
      var found := SelectFiles(files, q, true);
      if found == [] then NotFound
      else
        var f := found[0];
        assert f in found;
        assert forall g :: g in files && g.owner == owner && g.name == name ==> g == f;
        var history := Filter(versions, ByFile(f.id));
        VersionsOfFileAscending(versions, f.id);
        match revision
        case Omitted =>
          (match Latest(history)
           case None => Blank
           case Some(v) => Ok(v))
        case Given(index) =>
          if index.None? || index.value < 0 then RevisionNotFound
          else if index.value >= OffsetLimit then ServerError
          else if index.value >= |history| then RevisionNotFound
          else
            IndexIsRank(history, index.value);
            assert history[index.value] in history;
            Ok(history[index.value])
    }

    /** The create action: the serializer's checks, `perform_create`'s
      find-or-create of the File, the next version number, the hash of the
      uploaded chunks, and the insert. */
    method Upload(owner: UserId, request: Request, storedAs: ContentRef) returns (r: Response)
      requires Valid() && request.verb == POST
      modifies this
      ensures Valid()
      ensures r.Ok? || r.Invalid? || r == ServerError
      ensures RunValidation(request).Failure? ==> r == Invalid(RunValidation(request).error)
      ensures RunValidation(request).Success? && request.file.None? ==> r == ServerError
      ensures !r.Ok? ==> unchanged(this)
      ensures r.Ok? <==> RunValidation(request).Success? && request.file.Some?
      ensures r.Ok? ==>
        var v := r.version;
        && AcceptableName(request.fileName)
        && v.owner == owner && v.id == old(nextVersionId) && nextVersionId == old(nextVersionId) + 1
        && v.content == Some(storedAs)
        && v.contentHash == ContentHash(sha256, request.file.value.Data())
        && versions == old(versions) + [v]
        && v.versionNumber == NextVersionNumber(old(versions), v.fileId)
        && exists f :: f in files && f.id == v.fileId && f.owner == owner && f.name == request.fileName.value
      ensures r.Ok? && (exists f :: f in old(files) && f.owner == owner && f.name == request.fileName.value) ==>
        files == old(files) && nextFileId == old(nextFileId)
      ensures r.Ok? && (forall f :: f in old(files) ==> f.owner != owner || f.name != request.fileName.value) ==>
        && files == old(files) + [File(old(nextFileId), owner, request.fileName.value)]
        && nextFileId == old(nextFileId) + 1
        && r.version.fileId == old(nextFileId)
        && r.version.versionNumber == 1
    {
      var checked := RunValidation(request);
      if checked.Failure? {
        return Invalid(checked.error);
      }
      var name := request.fileName.value;
      var q := FileQuery(None, Some(owner), Some(name));
      AtMostOneFile(files, q);
      var found := SelectFiles(files, q, true);
      var created := found == [];
      var fileObj := if created then File(nextFileId, owner, name) else found[0];
      assert !created ==> fileObj in found;
      var nextVersion := NextVersionNumber(versions, fileObj.id);
      if request.file.None? {
        // `request.FILES["file"]` raises KeyError: a 500. The File row just
        // created is assumed rolled back (see README, Left out).
        return ServerError;
      }
      var contentHash := HashChunks(sha256, request.file.value.chunks);
      var v := FileVersion(nextVersionId, fileObj.id, owner, nextVersion, Some(storedAs), contentHash);
      assert created <==> fileObj !in files;
      UploadKeepsConsistent(files, versions, nextFileId, nextVersionId, fileObj, v);
      if created {
        files := files + [fileObj];
        nextFileId := nextFileId + 1;
      }
      versions := versions + [v];
      nextVersionId := nextVersionId + 1;
      r := Ok(v);
    }

    /** The update action (PUT or PATCH): not found outside the requester's
      versions; otherwise the field checks on a sent file, then only the
      content reference may change. */
    method Update(owner: UserId, id: nat, request: Request, storedAs: ContentRef) returns (r: Response)
      requires Valid() && (request.verb == PUT || request.verb == PATCH)
      modifies this
      ensures Valid()
      ensures r.Ok? || r.Invalid? || r == NotFound
      ensures r == NotFound <==> old(Detail(owner, id)) == NotFound
      ensures r.Invalid? <==> old(Detail(owner, id)).Ok? && RunValidation(request).Failure?
      ensures r.Invalid? ==> r == Invalid(RunValidation(request).error)
      ensures !r.Ok? ==> unchanged(this)
      ensures r.Ok? ==>
        && r.version == ApplyUpdate(old(Detail(owner, id)).version, request, storedAs)
        && files == old(files) && nextFileId == old(nextFileId) && nextVersionId == old(nextVersionId)
        && |versions| == |old(versions)|
        && forall i :: 0 <= i < |versions| ==>
             versions[i] == if old(versions)[i].id == id then r.version else old(versions)[i]
    {
      var target := Detail(owner, id);
      if target.NotFound? {
        return NotFound;
      }
      var checked := RunValidation(request);
      if checked.Failure? {
        return Invalid(checked.error);
      }
      var updated := ApplyUpdate(target.version, request, storedAs);
      var k :| 0 <= k < |versions| && versions[k] == target.version;
      forall i | 0 <= i < |versions| && i != k ensures versions[i].id != id {
        assert Precedes(versions[i], versions[k]) || Precedes(versions[k], versions[i]);
      }
      ghost var before := versions;
      versions := versions[k := updated];
      assert forall v :: v in versions ==> v in before || v == updated;
      assert Ordered(versions) by {
        forall i, j | 0 <= i < j < |versions| ensures Precedes(versions[i], versions[j]) {
          assert Precedes(before[i], before[j]);
        }
      }
      r := Ok(updated);
    }

    /** The destroy action: not found outside the requester's versions;
      otherwise that one row goes and every other row stays as it was. */
    method Delete(owner: UserId, id: nat) returns (r: Response)
      requires Valid()
      modifies this
      ensures Valid()
      ensures r == NoContent || r == NotFound
      ensures r == NotFound <==> old(Detail(owner, id)) == NotFound
      ensures r == NotFound ==> unchanged(this)
      ensures r == NoContent ==>
        && versions == Exclude(old(versions), ById(id))
        && files == old(files) && nextFileId == old(nextFileId) && nextVersionId == old(nextVersionId)
      ensures forall w :: w in old(versions) && w.id != id ==> w in versions
    {
      if Detail(owner, id).NotFound? {
        return NotFound;
      }
      SelectKeepsOrdered(versions, ById(id), false);
      versions := Exclude(versions, ById(id));
      r := NoContent;
    }

    /** Deleting a File cascades to its versions. */
    method DeleteFile(fileId: nat)
      requires Valid()
      modifies this
      ensures Valid()
      ensures files == SelectFiles(old(files), FileQuery(Some(fileId), None, None), false)
      ensures versions == Exclude(old(versions), ByFile(fileId))
      ensures nextFileId == old(nextFileId) && nextVersionId == old(nextVersionId)
    {
      SelectFilesKeepsOrdered(files, FileQuery(Some(fileId), None, None), false);
      SelectKeepsOrdered(versions, ByFile(fileId), false);
      files := SelectFiles(files, FileQuery(Some(fileId), None, None), false);
      versions := Exclude(versions, ByFile(fileId));
    }

    /** Deleting a user cascades to that user's files and versions; the two
      cascades remove the same versions. */
    method DeleteOwner(owner: UserId)
      requires Valid()
      modifies this
      ensures Valid()
      ensures files == SelectFiles(old(files), FileQuery(None, Some(owner), None), false)
      ensures versions == Exclude(old(versions), ByOwner(owner))
      ensures forall v :: v in old(versions) ==>
        (v in versions <==> forall f :: f in old(files) && f.id == v.fileId ==> f.owner != owner)
      ensures nextFileId == old(nextFileId) && nextVersionId == old(nextVersionId)
    {
      SelectFilesKeepsOrdered(files, FileQuery(None, Some(owner), None), false);
      SelectKeepsOrdered(versions, ByOwner(owner), false);
      files := SelectFiles(files, FileQuery(None, Some(owner), None), false);
      versions := Exclude(versions, ByOwner(owner));
    }
  }
}
