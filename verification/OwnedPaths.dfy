/** Paths a transaction owns: absent before it, created by it, bound to a durable identity. */
module OwnedPaths {
  import opened Objects
  import opened PosixPaths

  datatype FileType = DirectoryType | FileType | SymlinkType

  datatype OwnedKind = OwnedDirectory | OwnedFile | OwnedFileOrSymlink | OwnedSymlink

  /** `content` is the digest of a file or the text of a link; a directory has neither. */
  datatype Identity = Identity(
    device: nat, inode: nat, fileType: FileType, changed: nat, size: nat, content: Option<string>)

  datatype Owned = Owned(path: Path, kind: OwnedKind, identity: Option<Identity>)

  predicate KindAccepts(kind: OwnedKind, identity: Identity) {
    match kind
    case OwnedDirectory => identity.fileType.DirectoryType?
    case OwnedFile => identity.fileType.FileType?
    case OwnedSymlink => identity.fileType.SymlinkType?
    case OwnedFileOrSymlink => !identity.fileType.DirectoryType?
  }

  /** A directory is recognized by device, inode and type alone: its contents, size and ctime
      may change under the transaction. Anything else must match in full. */
  predicate IdentityMatches(expected: Identity, observed: Identity) {
    && expected.device == observed.device
    && expected.inode == observed.inode
    && expected.fileType == observed.fileType
    && (!expected.fileType.DirectoryType? ==> expected == observed)
  }

  predicate WellRecorded(owned: Owned) {
    && Normal(owned.path)
    && ".." !in owned.path
    && (owned.identity.Some? ==>
          && KindAccepts(owned.kind, owned.identity.value)
          && (owned.identity.value.content.None? <==> owned.identity.value.fileType.DirectoryType?))
  }
}
