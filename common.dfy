// Shared vocabulary of the file-transfer model: bytes, optional values,
// the fixed chunk size, and the directory contents the program reads and writes.
module Common {

  /** A byte as read from a file or a socket. */
  newtype byte = b: int | 0 <= b < 256

  datatype Option<+T> = None | Some(value: T)

  /** The outcome of a step that may fail with an error the program catches and reports. */
  datatype Result<+T, +E> = Ok(value: T) | Err(error: E)

  /** The transfer chunk size, 32 KiB (Main.py line 12). */
  const ChunkSize: nat := 32 * 1024

  /**
   * What a name inside a directory stands for: a regular file, with its
   * contents and whether this process may open it for reading and for
   * writing (its permission bits as they apply to the process's user), or a
   * subdirectory, which exists but cannot be opened as a file.
   */
  datatype Entry = File(content: seq<byte>, readable: bool, writable: bool) | Directory

  /**
   * The names that `os.path.join` turns into a directory whatever the
   * directory holds: the empty name (the directory itself), "." (also the
   * directory itself) and ".." (its parent).
   */
  predicate IsDirectoryName(name: string)
  {
    name == "" || name == "." || name == ".."
  }

  /**
   * A directory (Uploads or Downloads): names relative to it, mapped to
   * entries. `os.listdir` never returns "", "." or "..", so none is a key
   * (see EntryAt).
   */
  type Dir = m: map<string, Entry> | "" !in m && "." !in m && ".." !in m

  /**
   * What `os.path.join(dir, name)` refers to: a directory for the names
   * IsDirectoryName picks out, else the entry stored under the name, if any.
   */
  function EntryAt(dir: Dir, name: string): Option<Entry>
  {
    if IsDirectoryName(name) then Some(Directory) else if name in dir then Some(dir[name]) else None
  }

  /** The contents `open(path, 'rb')` would give, or None when it raises an OSError. */
  function Readable(dir: Dir, name: string): (r: Option<seq<byte>>)
    ensures r.Some? <==> name in dir && dir[name].File? && dir[name].readable
    ensures r.Some? ==> r.value == dir[name].content
  {
    match EntryAt(dir, name)
    case Some(File(content, true, _)) => Some(content)
    case _ => None
  }

  /** Whether `open(path, 'wb')` succeeds: the path is absent, or a file that may be written. */
  predicate Writable(dir: Dir, name: string)
  {
    match EntryAt(dir, name)
    case None => true
    case Some(File(_, _, writable)) => writable
    case Some(Directory) => false
  }

  /**
   * The file `open(path, 'wb')` leaves behind: an existing file emptied with
   * its permissions kept, or a new empty file, which the usual umask makes
   * readable and writable by its owner.
   */
  function Truncated(dir: Dir, name: string): (e: Entry)
    ensures e.File? && e.content == []
  {
    if name in dir && dir[name].File? then dir[name].(content := []) else File([], true, true)
  }

  /** The in-order concatenation of a sequence of byte chunks. */
  function Flatten(chunks: seq<seq<byte>>): seq<byte>
  {
    if chunks == [] then [] else chunks[0] + Flatten(chunks[1..])
  }
}
