# Propylon document manager: a verified model of the versioned document ledger

The document manager keeps, for every authenticated user, a ledger of named
documents. A `File` is a name owned by one user. A `FileVersion` is one upload
under that name: its number within the file, an optional reference to the
stored bytes, and the SHA-256 of those bytes as 64 lowercase hex digits.

The model is one store (`Views.DocumentStore`), a class holding the two
tables as sequences and the two id counters. Its operations are the REST
views:

- upload, with find-or-create of the `File`, the next version number and
  the streamed hash;
- detail, update and delete, all confined to the requester's own versions;
- the shareable link;
- lookup by content hash;
- lookup by path, with an optional zero-based revision.

The serializer's checks come first. The field-level checks (a file needs a
name and at least one byte) run before `validate`. `validate` then checks,
in this order: the name is present, at most 255 characters, free of `/` and
`\`, and the upload is at most 10 MiB. Model deletes of a `File` or an owner
cascade as the foreign keys say.

The requester is an explicit `owner` parameter of every operation. SHA-256
is an uninterpreted parameter (`Hashing.HashFunction`, 32-byte results). The
storage backend's name for saved bytes is a `storedAs` parameter.

Modules, one per part of the program:

- `Wrappers`: Option and Result.
- `Hashing`: bytes and digests, the chunk concatenation, the streaming
  `hashlib.sha256` object as a class, the chunk loop, and hex rendering with
  its inverse.
- `Models`: the `File` and `FileVersion` rows and their column limits.
  `File.ToString` is `__str__`: the name.
- `Serializers`: the request, the field checks, `validate`, the read-only
  update and the shareable link.
- `Queries`: the ORM operations the views use, on sequences of rows.
  - `filter`/`exclude` are `Select`, `Filter` and `Exclude`.
  - `get` is `Get` / `GetFile`, returning one row, `DoesNotExist` or
    `MultipleObjectsReturned`.
  - `order_by(...).first()` is `Latest`.
  - `order_by("version_number")[i]` is the i-th row of the file's versions,
    kept in insertion order, together with the rank lemma `IndexIsRank`.
- `Views`: the store invariant (`Consistent`), the class `DocumentStore`,
  and the lemmas about deletes and version numbers.
- `Scenarios`: client methods in the manner of the repository's tests. Each
  calls the operations (most of them on a store) and asserts, from the
  contracts alone, what the tests check:
  - version 1 then 2 under one name;
  - another owner's id reads as not found and cannot be deleted or updated;
  - two owners uploading the same bytes;
  - two own matches on one hash;
  - revision lookups;
  - a deleted latest number taken again;
  - an empty file;
  - missing fields;
  - the 255-character and 10 MiB boundaries.

Store invariant (`Views.Consistent`, kept by every state-changing method):

- file ids are distinct, and no two files share an (owner, name) pair;
- version ids are distinct and below the id counter;
- within one file, version numbers are at least 1 and strictly increase in
  insertion order;
- every version belongs to an existing file with the same owner;
- every stored content hash is 64 lowercase hex digits.

Three behaviours of the code worth knowing:

- A by-path lookup without a revision on a file that has no versions
  serializes `None`. That is a 200 with the serializer's empty
  representation (`Blank`), not a 404
  (src/propylon_document_manager/file_versions/api/views.py:88-91).
- An update may send a new `file`, because `file` is the only writable
  field. The content reference changes, but `content_hash` keeps the hash of
  the first upload
  (src/propylon_document_manager/file_versions/api/serializers.py:11-20).
- By-hash catches only `DoesNotExist`. Two of the requester's own versions
  with the same bytes therefore make the lookup fail with a 500
  (`ServerError`). Nothing makes `content_hash` unique
  (src/propylon_document_manager/file_versions/api/views.py:64-67).

## Model

| member | source | states |
|---|---|---|
| Hashing.Sha256.Update | src/propylon_document_manager/file_versions/api/views.py:44 | the hasher has consumed exactly the earlier bytes followed by the chunk |
| Hashing.Sha256.HexDigest | src/propylon_document_manager/file_versions/api/views.py:45 | the digest text is the content hash of everything consumed: 64 lowercase hex digits |
| Hashing.HashChunks | src/propylon_document_manager/file_versions/api/views.py:42-45 | feeding every chunk in order to one hasher gives the content hash of the concatenated bytes, whatever the chunking |
| Hashing.ContentHash | src/propylon_document_manager/file_versions/api/views.py:45 | the stored hash is 64 lowercase hex digits and parses back to exactly the digest of the data |
| Hashing.ConcatSnoc | src/propylon_document_manager/file_versions/api/views.py:43-44 | appending one chunk appends its bytes to the data read so far |
| Hashing.HexDigit | src/propylon_document_manager/file_versions/api/views.py:45 | a value below 16 renders as a lowercase hex digit whose value is that number |
| Hashing.Hex | src/propylon_document_manager/file_versions/api/views.py:45 | two lowercase hex digits per byte |
| Hashing.ParseHex | src/propylon_document_manager/file_versions/api/views.py:45 | parsed text has half as many bytes as characters |
| Hashing.ParseHexInvertsHex | src/propylon_document_manager/file_versions/api/views.py:45 | parsing the hex rendering gives back the digest: the rendering loses nothing |
| Hashing.HexInjective | src/propylon_document_manager/file_versions/api/views.py:45 | distinct digests never render to the same text |
| Hashing.Sha256.constructor | src/propylon_document_manager/file_versions/api/views.py:42 | a fresh `hashlib.sha256()` object has consumed nothing |
| Hashing.ContentHashDeterminesDigest | src/propylon_document_manager/file_versions/api/views.py:45 | equal stored content hashes mean equal SHA-256 digests |
| Views.ContentHashMatchesRoute | src/propylon_document_manager/file_versions/api/views.py:62 | every stored content hash matches the by-hash route's 64-hex-digit pattern |
| Serializers.CheckFileField | src/propylon_document_manager/file_versions/api/serializers.py:20 | the generated `file` field rejects an upload without a name or with zero bytes, under `file`, and the zero-byte case with the "empty" error |
| Serializers.Validate | src/propylon_document_manager/file_versions/api/serializers.py:28-43 | only POST is checked; success returns the data unchanged exactly when the name is present, at most 255 characters and separator-free and a truthy upload is at most 10 MiB; the first failing check is reported: missing name, too long, separator (each under `file_name`, each exactly when the earlier checks pass), then too large, the only error under `file` |
| Serializers.RunValidation | src/propylon_document_manager/file_versions/api/serializers.py:11-43 | on POST a request is valid exactly when its name is acceptable and any upload has a name and 1 to 10 MiB bytes; on other verbs exactly when any upload passes the field checks; the validated data is the upload; a failing field check is the error reported, ahead of `validate`, and otherwise the error is `validate`'s |
| Serializers.EmptyFileMessageSaysEmpty | src/propylon_document_manager/file_versions/api/serializers.py:20 | the message of the zero-byte upload error mentions "empty" |
| Serializers.ApplyUpdate | src/propylon_document_manager/file_versions/api/serializers.py:11-20 | an update keeps id, file, owner, version number and content hash; without a file it changes nothing, with one only the content reference |
| Serializers.ShareableLink | src/propylon_document_manager/file_versions/api/serializers.py:22-26 | a link exactly when the version has non-empty stored content, built from that content |
| Queries.SelectMembers | src/propylon_document_manager/file_versions/api/views.py:30 | `filter`/`exclude` keep exactly the rows that match / do not match, and never more rows than there were |
| Queries.Filter | src/propylon_document_manager/file_versions/api/views.py:30 | the filtered rows are exactly the matching rows |
| Queries.Exclude | src/propylon_document_manager/file_versions/api/views.py:30 | the remaining rows are exactly the non-matching rows |
| Queries.SelectAppend | src/propylon_document_manager/file_versions/api/views.py:30 | filtering distributes over concatenation: order is kept |
| Queries.OwnerThenIdIsCombinedQuery | src/propylon_document_manager/file_versions/api/views.py:27-30 | filtering the requester's rows (`get_queryset`) and then by id selects exactly the rows of the single owner-and-id query that `Detail` uses |
| Queries.SelectKeepsOrdered | src/propylon_document_manager/file_versions/api/views.py:84 | a filtered history keeps distinct ids and ascending per-file numbers |
| Queries.VersionsOfFileAscending | src/propylon_document_manager/file_versions/api/views.py:84 | a file's versions, in storage order, are in strictly ascending version-number order |
| Queries.IndexIsRank | src/propylon_document_manager/file_versions/api/views.py:84 | in ascending order the row at index i has exactly i smaller version numbers |
| Queries.NoneBelow | src/propylon_document_manager/file_versions/api/views.py:84 | no row lies below a number every row reaches |
| Queries.CountBelow | src/propylon_document_manager/file_versions/api/views.py:84 | the rank of a version number n in a file's history: the number of its versions numbered below n, which is the i that `order_by("version_number")[i]` selects (see `Queries.IndexIsRank`); it never exceeds the number of rows |
| Queries.Latest | src/propylon_document_manager/file_versions/api/views.py:38 | none exactly for no rows; otherwise a row whose number no other row exceeds |
| Queries.LatestIsLast | src/propylon_document_manager/file_versions/api/views.py:88 | in ascending order the latest version is the last row |
| Queries.NextVersionNumber | src/propylon_document_manager/file_versions/api/views.py:38-39 | the next number exceeds every number of that file, is 1 for a file with none, and is one more than an existing number otherwise |
| Queries.NextVersionNumberOfSubset | src/propylon_document_manager/file_versions/api/views.py:38-39 | the next number depends only on the greatest remaining number |
| Queries.Get | src/propylon_document_manager/file_versions/api/views.py:65 | `get` returns a matching row, DoesNotExist exactly when none matches, MultipleObjectsReturned exactly when two or more match |
| Queries.SelectNone | src/propylon_document_manager/file_versions/api/views.py:65 | filtering with no matching row gives nothing |
| Queries.AtMostOneWithId | src/propylon_document_manager/file_versions/api/views.py:27 | a lookup by id finds at most one row |
| Queries.GetByIdIsUnique | src/propylon_document_manager/file_versions/api/views.py:27 | `get` by id never raises MultipleObjectsReturned |
| Queries.SelectFiles | src/propylon_document_manager/file_versions/api/views.py:77 | the File filter keeps exactly the matching files |
| Queries.OrderedFilesTail | src/propylon_document_manager/file_versions/models/file.py:5-11 | the rest of a file table keeps the uniqueness invariant and differs from its first row |
| Queries.OrderedFilesCons | src/propylon_document_manager/file_versions/models/file.py:5-11 | a row apart from every later row extends a valid file table |
| Queries.StringFormIdentifiesOwnFile | src/propylon_document_manager/file_versions/models/file.py:13-14 | the string form of a file is its name, and among one owner's stored files it identifies the file |
| Queries.SelectFilesKeepsOrdered | src/propylon_document_manager/file_versions/models/file.py:5-11 | deleting files keeps distinct ids and unique (owner, name) pairs |
| Queries.GetFile | src/propylon_document_manager/file_versions/api/views.py:77 | `get` on File: a matching file, DoesNotExist exactly when none, MultipleObjectsReturned exactly when two or more |
| Queries.SelectFilesNone | src/propylon_document_manager/file_versions/api/views.py:77 | filtering files with no match gives nothing |
| Queries.AtMostOneFile | src/propylon_document_manager/file_versions/api/views.py:34-37 | a lookup by (owner, name) or by id finds at most one file |
| Queries.GetFileByOwnerAndNameIsUnique | src/propylon_document_manager/file_versions/api/views.py:77 | the by-path `get` never raises MultipleObjectsReturned |
| Queries.OrderedTail | src/propylon_document_manager/file_versions/models/file_version.py:12 | the rest of a version table keeps the ordering invariant and follows its first row |
| Queries.OrderedCons | src/propylon_document_manager/file_versions/models/file_version.py:12 | a row preceding every later row extends a valid version table |
| Views.FilesOrderedSnoc | src/propylon_document_manager/file_versions/api/views.py:34-37 | inserting a file with a fresh id and a new (owner, name) keeps the file table valid |
| Views.OrderedSnoc | src/propylon_document_manager/file_versions/api/views.py:47-52 | appending a version that every row precedes keeps the version table valid |
| Views.UploadKeepsConsistent | src/propylon_document_manager/file_versions/api/views.py:32-52 | inserting the uploaded version (and its new file) keeps the whole store invariant |
| Views.DeletingLatestFreesItsNumber | src/propylon_document_manager/file_versions/api/views.py:38-39 | after deleting a file's latest version, the next upload to that file gets at most that number again |
| Views.DeletingOtherKeepsNextNumber | src/propylon_document_manager/file_versions/api/views.py:38-39 | deleting any version that is not the file's latest leaves the next number unchanged |
| Views.DocumentStore.constructor | src/propylon_document_manager/file_versions/models/file_version.py:6-19 | an empty store satisfies the invariant |
| Views.DocumentStore.OwnVersions | src/propylon_document_manager/file_versions/api/views.py:29-30 | the list holds exactly the requester's versions, never another owner's |
| Views.DocumentStore.Detail | src/propylon_document_manager/file_versions/api/views.py:27-30 | the requester's version with that id, and not found exactly when the requester has none with that id |
| Views.DocumentStore.Share | src/propylon_document_manager/file_versions/api/views.py:54-60 | not found exactly when the detail is; a link to one of the requester's versions' content; a 404 without a link exactly for a version without content |
| Views.DocumentStore.ByHash | src/propylon_document_manager/file_versions/api/views.py:62-69 | only the requester's rows: the one exact match, not found exactly when none matches, a 500 exactly when two or more match |
| Views.DocumentStore.ByPath | src/propylon_document_manager/file_versions/api/views.py:74-91 | not found exactly when the requester has no such file; without a revision a version with the greatest number (blank when there is none); with revision i in range the version with exactly i smaller numbers; revision not found exactly for a non-integer, negative, or past-the-end revision below 2^63; a 500 for a revision of 2^63 or more, which the database refuses as an `OFFSET` |
| Views.DocumentStore.Upload | src/propylon_document_manager/file_versions/api/views.py:32-52 | invalid requests and a missing file change nothing; otherwise exactly one version is appended, with the next id, the requester as owner, the content hash of the upload's bytes and the next number of its file; the existing (owner, name) file is reused, or one new file is added and the version is number 1; the invariant is kept |
| Views.DocumentStore.Update | src/propylon_document_manager/file_versions/api/views.py:21-30 | not found exactly outside the requester's versions, then invalid exactly when the checks fail, carrying the check's own error (the field error, such as "empty", first), both without change; otherwise only that row is replaced, by the read-only-preserving update |
| Views.DocumentStore.Delete | src/propylon_document_manager/file_versions/api/views.py:21-30 | not found exactly outside the requester's versions, without change; otherwise exactly that row goes, every other row stays in order, nothing is renumbered |
| Views.DocumentStore.DeleteFile | src/propylon_document_manager/file_versions/models/file_version.py:7-11 | deleting a file removes it and exactly its versions, keeping the invariant |
| Views.DocumentStore.DeleteOwner | src/propylon_document_manager/file_versions/models/file_version.py:14-18 | deleting a user removes exactly that user's files and versions, and those are exactly the versions of the user's files |

## Left out

- HTTP routing, URL building and status codes: responses are the `Response` datatype. The shareable link is the stored content name that the absolute URL is built from.
- Authentication and permissions: the requester is the `owner` parameter. The 403 for anonymous requests is not modelled.
- SHA-256 itself: it is the `HashFunction` parameter. Nothing is assumed about collisions.
- The file storage backend: saving bytes gives the `storedAs` name, an opaque parameter.
- Concurrency: the operations are sequential. With no lock or unique constraint, two concurrent uploads could get the same number.
- The fixtures script and the module that re-exports the models: they are not part of this model. The fixtures script inserts versions with an empty `content_hash` and no content; such rows break the store invariant's "64 lowercase hex digits", so the model's stores never hold them.
- The catch-all exception handler: every unhandled exception is the single `ServerError` outcome.
- Views.DocumentStore.ByPath: the revision arrives already parsed (`Given(None)` when `int()` fails). `int()`'s own parsing rules are not modelled. A negative revision is treated as not found, as Django 4 and later raise ValueError for negative indexing. A revision of 2^63 or more is modelled as the database error it causes (a 500, `OffsetLimit`); the database engine itself is not part of this model.
- Views.DocumentStore.Upload: a missing `file` gives `ServerError` with the store unchanged. This assumes the request's transaction is rolled back; whether the File row created just before survives depends on settings that are not shown.
- List ordering: the list action's queryset is unordered. `OwnVersions` states membership only.
- Database collation: hashes and names compare as exact strings, not case-insensitively.
- Serializers.CheckFileField: DRF's limit on the length of the uploaded file's own name is not modelled; only its presence and the non-empty content are.
- Serializers.ApplyUpdate: clearing `file` to null through an update is not modelled; an update without a file keeps the content reference.
