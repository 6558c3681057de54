/** Client code in the manner of the repository's tests: each method drives a
    fresh store through the view operations and asserts, from their
    contracts alone, what the tests check. */
module Scenarios {
  import opened Wrappers
  import opened Hashing
  import opened Models
  import opened Serializers
  import opened Queries
  import opened Views

  function PostUpload(fileName: string, file: UploadedFile): Request
  {
    Request(POST, Some(fileName), Some(file), None, None)
  }

  /** Two uploads under one name: versions 1 and 2 of the same File. */
  method UploadAndVersioning(sha256: HashFunction, owner: UserId)
  {
    var store := new DocumentStore(sha256);
    var first := PostUpload("test_document.txt", UploadedFile("test.txt", [[102]]));
    var second := PostUpload("test_document.txt", UploadedFile("test.txt", [[115]]));
    assert RunValidation(first).Success?;
    assert RunValidation(second).Success?;
    var r1 := store.Upload(owner, first, "uploads/test.txt");
    assert r1.Ok? && r1.version.versionNumber == 1;
    assert store.files == [File(1, owner, "test_document.txt")];
    var r2 := store.Upload(owner, second, "uploads/test_2.txt");
    assert r2.Ok? && r2.version.fileId == r1.version.fileId;
    assert r2.version.versionNumber == 2;
  }

  /** A version uploaded by one owner is not found, not deleted and not
      updated by another. */
  method CannotTouchOthersFiles(sha256: HashFunction, owner: UserId, intruder: UserId)
    requires owner != intruder
  {
    var store := new DocumentStore(sha256);
    var upload := PostUpload("secret_document.txt", UploadedFile("test.txt", [[1, 2, 3]]));
    assert RunValidation(upload).Success?;
    var r := store.Upload(owner, upload, "uploads/test.txt");
    assert r.Ok? && store.versions == [r.version];
    var id := r.version.id;
    assert store.Detail(intruder, id) == NotFound;
    var d := store.Delete(intruder, id);
    assert d == NotFound;
    var u := store.Update(intruder, id, Request(PATCH, Some("hacked.txt"), None, None, None), "uploads/hacked.txt");
    assert u == NotFound;
    assert store.Detail(owner, id) == Ok(r.version);
  }

  /** The by-hash lookup finds the owner's upload and nothing of anyone
      else's; a second owner uploading the same bytes gets a distinct
      version with the same hash. */
  method FetchByContentHash(sha256: HashFunction, owner: UserId, other: UserId, data: seq<byte>)
    requires owner != other && data != [] && |data| <= MaxUploadSize
  {
    var store := new DocumentStore(sha256);
    var file := UploadedFile("hash_test.txt", [data]);
    assert Concat([data]) == data by { assert [data][1..] == []; }
    assert file.Data() == data;
    var upload := PostUpload("hash_test.txt", file);
    assert RunValidation(upload).Success?;
    var r1 := store.Upload(owner, upload, "uploads/a.txt");
    assert r1.Ok? && store.versions == [r1.version];
    var h := r1.version.contentHash;
    ContentHashMatchesRoute(sha256, data);
    assert store.ByHash(owner, h) == Ok(r1.version) by {
      assert Filter(store.versions, Query(None, None, Some(owner), Some(h))) == [r1.version];
    }
    assert store.ByHash(other, h) == NotFound;
    var r2 := store.Upload(other, upload, "uploads/b.txt");
    assert r2.Ok? && r2.version.id != r1.version.id && r2.version.contentHash == h;
    assert r2.version.fileId != r1.version.fileId;
  }

  /** Two of the owner's versions with one hash (the same bytes uploaded
      twice, see `HashChunks`): the by-hash lookup finds
      two rows, which the view does not catch. */
  method DuplicateContentBreaksByHash(store: DocumentStore, owner: UserId, v1: FileVersion, v2: FileVersion)
    requires store.Valid() && store.versions == [v1, v2]
    requires v1.owner == owner && v2.owner == owner && v1.contentHash == v2.contentHash
    requires MatchesHashRoute(v1.contentHash)
  {
    var q := Query(None, None, Some(owner), Some(v1.contentHash));
    assert Filter(store.versions, q) == [v1, v2] by {
      SelectAppend([v1], [v2], q, true);
    }
    assert store.ByHash(owner, v1.contentHash) == ServerError;
  }

  /** The by-path lookups by revision on a file with two versions:
      revision 0 is version 1, revision 1 is version 2, revision 2 and a
      non-integer revision are not found. */
  method RevisionLookup(store: DocumentStore, owner: UserId, v1: FileVersion, v2: FileVersion)
    requires store.Valid() && store.files == [File(1, owner, "doc")] && store.versions == [v1, v2]
    requires v1.fileId == 1 && v2.fileId == 1 && v1.versionNumber == 1 && v2.versionNumber == 2
  {
    assert Filter(store.versions, ByFile(1)) == [v1, v2] by {
      SelectAppend([v1], [v2], ByFile(1), true);
    }
    var first := store.ByPath(owner, "doc", Given(Some(0)));
    assert first.Ok? && first.version == v1;
    var second := store.ByPath(owner, "doc", Given(Some(1)));
    assert second.Ok? && second.version == v2;
    assert store.ByPath(owner, "doc", Given(Some(2))) == RevisionNotFound;
    assert store.ByPath(owner, "doc", Given(None)) == RevisionNotFound;
    assert store.ByPath(owner, "doc", Given(Some(OffsetLimit - 1))) == RevisionNotFound;
    assert store.ByPath(owner, "doc", Given(Some(OffsetLimit))) == ServerError;
  }

  /** Without a revision the by-path lookup gives the latest version; another
      name is not found. */
  method LatestLookup(store: DocumentStore, owner: UserId, v1: FileVersion, v2: FileVersion)
    requires store.Valid() && store.files == [File(1, owner, "doc")] && store.versions == [v1, v2]
    requires v1.fileId == 1 && v2.fileId == 1 && v1.versionNumber == 1 && v2.versionNumber == 2
  {
    var latest := store.ByPath(owner, "doc", Omitted);
    assert latest.Ok? && latest.version == v2;
    assert store.ByPath(owner, "other", Omitted) == NotFound;
  }

  /** An upload, then `UploadSecondVersion`. */
  method DeleteThenReupload(sha256: HashFunction, owner: UserId)
  {
    var store := new DocumentStore(sha256);
    var u1 := PostUpload("doc", UploadedFile("a", [[1]]));
    assert RunValidation(u1).Success?;
    var r1 := store.Upload(owner, u1, "uploads/a");
    assert r1.Ok? && r1.version.versionNumber == 1;
    assert store.files == [File(1, owner, "doc")] && store.versions == [r1.version];
    UploadSecondVersion(store, owner, r1.version);
  }

  /** A second upload of "doc", then `DeleteLatest`. */
  method UploadSecondVersion(store: DocumentStore, owner: UserId, v1: FileVersion)
    requires store.Valid() && store.files == [File(1, owner, "doc")] && store.versions == [v1]
    requires v1.fileId == 1 && v1.versionNumber == 1
    modifies store
  {
    var u2 := PostUpload("doc", UploadedFile("a", [[2]]));
    assert RunValidation(u2).Success?;
    var r2 := store.Upload(owner, u2, "uploads/a_1");
    assert r2.Ok? && r2.version.fileId == 1;
    assert store.files == [File(1, owner, "doc")] && store.versions == [v1, r2.version];
    DeleteLatest(store, owner, v1, r2.version);
  }

  /** Deleting version 2 leaves version 1, then `ReuploadTakesFreedNumber`. */
  method DeleteLatest(store: DocumentStore, owner: UserId, v1: FileVersion, v2: FileVersion)
    requires store.Valid() && store.files == [File(1, owner, "doc")] && store.versions == [v1, v2]
    requires v1.fileId == 1 && v1.versionNumber == 1 && v2.owner == owner
    modifies store
  {
    var d := store.Delete(owner, v2.id);
    assert d == NoContent;
    assert store.versions == [v1] by {
      SelectAppend([v1], [v2], ById(v2.id), false);
    }
    ReuploadTakesFreedNumber(store, owner, v2.id);
  }

  /** With only version 1 of "doc" left, the next upload is version 2 again,
      under a fresh id. */
  method ReuploadTakesFreedNumber(store: DocumentStore, owner: UserId, freedId: nat)
    requires store.Valid() && store.files == [File(1, owner, "doc")] && |store.versions| == 1
    requires store.versions[0].fileId == 1 && store.versions[0].versionNumber == 1
    requires freedId < store.nextVersionId
    modifies store
  {
    var u3 := PostUpload("doc", UploadedFile("a", [[3]]));
    assert RunValidation(u3).Success?;
    var r3 := store.Upload(owner, u3, "uploads/a_2");
    assert r3.Ok? && r3.version.fileId == 1;
    assert r3.version.versionNumber == 2 && r3.version.id != freedId;
  }

  /** An empty upload is rejected under `file` and stores nothing. */
  method EmptyFileUpload(sha256: HashFunction, owner: UserId)
  {
    var store := new DocumentStore(sha256);
    var upload := PostUpload("empty_document.txt", UploadedFile("empty.txt", []));
    assert RunValidation(upload) == Failure(FieldError(FileField, EmptyFile));
    var r := store.Upload(owner, upload, "uploads/empty.txt");
    assert r == Invalid(FieldError(FileField, EmptyFile));
    assert store.versions == [] && store.files == [];
  }

  /** A missing file name is a validation error; a missing file passes
      validation and fails in the view. */
  method MissingFields(sha256: HashFunction, owner: UserId)
  {
    var store := new DocumentStore(sha256);
    var noName := Request(POST, None, Some(UploadedFile("test.txt", [[1]])), None, None);
    assert RunValidation(noName) == Failure(FieldError(FileNameField, Required));
    var r1 := store.Upload(owner, noName, "uploads/test.txt");
    assert r1 == Invalid(FieldError(FileNameField, Required));
    var noFile := Request(POST, Some("test_document.txt"), None, None, None);
    assert RunValidation(noFile).Success?;
    var r2 := store.Upload(owner, noFile, "uploads/test.txt");
    assert r2 == ServerError;
    assert store.versions == [] && store.files == [];
  }

  /** The name-length boundary and the size boundary of `validate`. */
  method Boundaries(name: string, file: UploadedFile)
    requires |name| == MaxNameLength && !HasPathSeparator(name)
    requires file.name != "" && file.Size() == MaxUploadSize
  {
    assert Validate(0, Some(PostUpload(name, file))) == Success(0);
    var longer := name + "x";
    assert Validate(0, Some(PostUpload(longer, file))) == Failure(FieldError(FileNameField, TooLong));
    assert Validate(0, Some(PostUpload("a/b", file))) == Failure(FieldError(FileNameField, HasSeparator));
    var bigger := UploadedFile(file.name, file.chunks + [[0]]);
    ConcatSnoc(file.chunks, [0]);
    assert Validate(0, Some(PostUpload(name, bigger))) == Failure(FieldError(FileField, TooLarge));
    assert Validate(0, Some(Request(PATCH, Some(longer), Some(bigger), None, None))) == Success(0);
  }
}
