/**
 Filesystem objects as the bootstrap sees them: what `lstat`, `readlink` and a bounded
 read record about one pathname, and the two comparisons made on such records.
 SHA-256 is treated as injective, so a captured identity carries the content itself.
 */
module Objects {

  datatype Option<+T> = None | Some(value: T)

  datatype Body =
    | Link(target: string)
    | Regular(content: string)
    | Other  // a directory, socket, device or fifo

  datatype Object = Object(
    device: nat,
    inode: nat,
    mode: nat,
    size: nat,
    mtime: nat,
    ctime: nat,
    body: Body)

  /** The three contracts under which an activation path may be captured. */
  datatype Kind = FileKind | FileOrSymlinkKind | SymlinkKind

  const ACTIVATION_MAXIMUM: nat := 4 * 1024 * 1024
  const LINK_MAXIMUM: nat := 4096

  predicate CleanText(text: string) {
    text != "" && '\0' !in text && '\r' !in text && '\n' !in text
  }

  /** Whether one object satisfies the contract `kind` with the given size bound. */
  predicate Capturable(kind: Kind, maximum: nat, entity: Object) {
    match entity.body
    case Link(target) => kind != FileKind && CleanText(target)
    case Regular(_) => kind != SymlinkKind && 1 <= entity.size <= maximum
    case Other => false
  }

  /** Capture the object at a pathname; `None` stands for the ConfigurationError. */
  function Capture(kind: Kind, maximum: nat, entry: Option<Object>): Option<Object> {
    if entry.Some? && Capturable(kind, maximum, entry.value) then entry else None
  }

  /** Identity across a rename: everything but ctime, which a rename changes. */
  predicate SameObject(a: Object, b: Object) {
    && a.device == b.device
    && a.inode == b.inode
    && a.mode == b.mode
    && a.size == b.size
    && a.mtime == b.mtime
    && a.body == b.body
  }

  predicate SameFile(a: Object, b: Object) {
    a.device == b.device && a.inode == b.inode
  }
}
