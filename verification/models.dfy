/** The two rows of the ledger: a `File` (a name an owner uploads under) and
    a `FileVersion` (one upload under that name). */
module Models {
  import opened Wrappers

  /** An authenticated user, by primary key. */
  type UserId = nat

  /** The name under which the storage backend keeps an upload's bytes. */
  type ContentRef = string

  /** `File.name` is a CharField(max_length=512). */
  const MaxStoredNameLength := 512

  /** `FileVersion.content_hash` is a CharField(max_length=64). */
  const ContentHashMaxLength := 64

  /** A named slot owned by one user; deleting the user deletes it. */
  datatype File = File(id: nat, owner: UserId, name: string)
  {
    /** `str(file)` is the file's name. */
    function ToString(): string
    {
      name
    }
  }

  /** One upload.  `fileId` and `owner` are foreign keys with cascading
      delete; `content` is the optional FileField (null=True, blank=True);
      `contentHash` is not editable once written. */
  datatype FileVersion = FileVersion(
    id: nat,
    fileId: nat,
    owner: UserId,
    versionNumber: int,
    content: Option<ContentRef>,
    contentHash: string)

  /** What the columns themselves admit. */
  predicate FileFitsColumns(f: File)
  {
    |f.name| <= MaxStoredNameLength
  }

  predicate VersionFitsColumns(v: FileVersion)
  {
    |v.contentHash| <= ContentHashMaxLength
  }
}
