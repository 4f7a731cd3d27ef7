// The fetch client, the non-interactive part of downloadFileUi (Main.py
// lines 135-170): resolve the peer, parse `host:port`, connect, send one
// download request, write what arrives into Downloads until the first empty
// read, then keep the file only if its digest equals that of the copy in
// Uploads. Every exception is caught and reported; none escapes.
module Client {
  import opened Common
  import opened Chunking
  import opened Address
  import opened Verifier
  import opened Server

  /** Why `connect` raised. */
  datatype ConnectError =
    | PortOutOfRange  // OverflowError: the port is above 65535
    | Refused         // no peer accepts at that address

  /** The single terminal outcome downloadFileUi reports. */
  datatype Outcome =
    | InputError(address: AddressError)   // the address did not parse; nothing was contacted
    | NetworkError(connect: ConnectError)
    | LocalIoError                        // open(filePath, 'wb') raised
    | Downloaded                          // "downloaded and verified successfully"
    | VerificationFailed                  // digests differ: the download was removed

  /** The node's two directories. */
  class Disk {
    var uploads: Dir
    var downloads: Dir

    constructor (uploads: Dir, downloads: Dir)
      ensures this.uploads == uploads && this.downloads == downloads
    {
      this.uploads, this.downloads := uploads, downloads;
    }

    /** `open(join(downloadsDir, name), 'wb')`: create or truncate, or fail. */
    method OpenForWrite(name: string) returns (ok: bool)
      modifies this
      ensures ok == Writable(old(downloads), name)
      ensures uploads == old(uploads)
      ensures downloads == if ok then old(downloads)[name := Truncated(old(downloads), name)] else old(downloads)
    {
      ok := Writable(downloads, name);
      if ok {
        downloads := downloads[name := Truncated(downloads, name)];
      }
    }

    /** `f.write(chunk)` on the file opened for writing. */
    method Append(name: string, chunk: seq<byte>)
      requires name in downloads && downloads[name].File?
      modifies this
      ensures uploads == old(uploads)
      ensures downloads == old(downloads)[name := old(downloads)[name].(content := old(downloads)[name].content + chunk)]
    {
      downloads := downloads[name := downloads[name].(content := downloads[name].content + chunk)];
    }

    /** `os.remove(join(downloadsDir, name))` */
    method Remove(name: string)
      requires name in downloads
      modifies this
      ensures uploads == old(uploads)
      ensures downloads == old(downloads) - {name}
    {
      downloads := downloads - {name};
    }
  }

  /**
   * The client's socket. Whether a peer accepts at the address, and what each
   * successive `recv(ChunkSize)` returns, are inputs: once `incoming` is used
   * up every further read returns the empty chunk (the peer has closed).
   */
  class Socket {
    const reachable: bool
    var connected: bool
    var requests: seq<Decoded>
    var incoming: seq<seq<byte>>
    var closed: bool

    constructor (reachable: bool, incoming: seq<seq<byte>>)
      ensures this.reachable == reachable && this.incoming == incoming
      ensures !connected && requests == [] && !closed
    {
      this.reachable, this.incoming := reachable, incoming;
      connected, requests, closed := false, [], false;
    }

    /** `sock.connect((host, port))`: fails for a port above 65535 or an unreachable peer. */
    method Connect(e: Endpoint) returns (err: Option<ConnectError>)
      modifies this
      ensures err == ConnectFailure(e, reachable)
      ensures connected == err.None?
      ensures requests == old(requests) && incoming == old(incoming) && closed == old(closed)
    {
      err := ConnectFailure(e, reachable);
      connected := err.None?;
    }

    /** `sock.sendall(request)` */
    method SendAll(req: Decoded)
      modifies this
      ensures requests == old(requests) + [req]
      ensures connected == old(connected) && incoming == old(incoming) && closed == old(closed)
    {
      requests := requests + [req];
    }

    /** `sock.recv(ChunkSize)` */
    method Recv() returns (chunk: seq<byte>)
      modifies this
      ensures chunk == if old(incoming) == [] then [] else old(incoming)[0]
      ensures incoming == if old(incoming) == [] then [] else old(incoming)[1..]
      ensures connected == old(connected) && requests == old(requests) && closed == old(closed)
    {
      if incoming == [] {
        chunk := [];
      } else {
        chunk, incoming := incoming[0], incoming[1..];
      }
    }

    /** Leaving the `with socket.socket(...)` block. */
    method Close()
      modifies this
      ensures closed
      ensures connected == old(connected) && requests == old(requests) && incoming == old(incoming)
    {
      closed := true;
    }
  }

  /** Why connecting to an endpoint fails, if it does. */
  function ConnectFailure(e: Endpoint, reachable: bool): Option<ConnectError>
  {
    if e.port > 65535 then Some(PortOutOfRange)
    else if !reachable then Some(Refused)
    else None
  }

  /**
   * The outcome of one download and the Downloads directory it leaves behind,
   * given the address book, what the user typed, whether the peer accepts,
   * what successive reads return, and the node's directories.
   */
  function Fetch(uploads: Dir, downloads: Dir, book: AddressBook, peer: string, filename: string,
                 reachable: bool, arrivals: seq<seq<byte>>, hash: Hash): (Outcome, Dir)
  {
    match ParseAddress(Resolve(book, peer))
    case Err(e) => (InputError(e), downloads)
    case Ok(endpoint) =>
      match ConnectFailure(endpoint, reachable)
      case Some(e) => (NetworkError(e), downloads)
      case None =>
        if !Writable(downloads, filename) then (LocalIoError, downloads)
        else
          var written := downloads[filename := Truncated(downloads, filename).(content := Received(arrivals))];
          match Verify(FileDigest(written, filename, hash), FileDigest(uploads, filename, hash))
          case Verified => (Downloaded, written)
          case Corrupt => (VerificationFailed, written - {filename})
  }

  /** The bytes not yet written: the current chunk, if non-empty, and what the loop will still read. */
  function Pending(chunk: seq<byte>, incoming: seq<seq<byte>>): seq<byte>
  {
    if chunk == [] then [] else chunk + Received(incoming)
  }

  /**
   * The receive loop: `while chunk := sock.recv(ChunkSize): f.write(chunk)`,
   * appending each non-empty read to the file in place.
   */
  method ReceiveInto(sock: Socket, disk: Disk, name: string)
    requires name in disk.downloads && disk.downloads[name].File?
    modifies sock, disk
    ensures disk.uploads == old(disk.uploads)
    ensures disk.downloads == old(disk.downloads)[name := old(disk.downloads)[name].(content := old(disk.downloads)[name].content + Received(old(sock.incoming)))]
    ensures sock.connected == old(sock.connected) && sock.requests == old(sock.requests)
    ensures sock.closed == old(sock.closed)
  {
    var chunk := sock.Recv();
    while chunk != []
      invariant name in disk.downloads && disk.downloads[name].File?
      invariant disk.uploads == old(disk.uploads)
      invariant disk.downloads == old(disk.downloads)[name := disk.downloads[name]]
      invariant disk.downloads[name] == old(disk.downloads)[name].(content := disk.downloads[name].content)
      invariant disk.downloads[name].content + Pending(chunk, sock.incoming)
             == old(disk.downloads)[name].content + Received(old(sock.incoming))
      invariant sock.connected == old(sock.connected) && sock.requests == old(sock.requests)
      invariant sock.closed == old(sock.closed)
      decreases |sock.incoming| + (if chunk == [] then 0 else 1)
    {
      disk.Append(name, chunk);
      chunk := sock.Recv();
    }
    var content := disk.downloads[name].content;
    assert content + Pending(chunk, sock.incoming) == content;
    assert disk.downloads[name] == old(disk.downloads)[name].(content := content);
  }

  /**
   * downloadFileUi from the resolution step on: every failure before the
   * connection leaves everything untouched; once the socket exists it is
   * closed on every path.
   */
  method DownloadFile(disk: Disk, book: AddressBook, peer: string, filename: string,
                      sock: Socket, hash: Hash) returns (outcome: Outcome)
    requires !sock.connected && !sock.closed
    modifies disk, sock
    ensures disk.uploads == old(disk.uploads)
    ensures (outcome, disk.downloads)
         == Fetch(disk.uploads, old(disk.downloads), book, peer, filename, sock.reachable, old(sock.incoming), hash)
    ensures outcome.InputError? ==> unchanged(sock)
    ensures !outcome.InputError? ==> sock.closed
    ensures sock.requests == old(sock.requests) + (if outcome.InputError? || outcome.NetworkError? then [] else [DownloadRequest(filename)])
  {
    var address := Resolve(book, peer);
    var parsed := ParseAddress(address);
    if parsed.Err? {
      return InputError(parsed.error);
    }
    var connectErr := sock.Connect(parsed.value);
    if connectErr.Some? {
      sock.Close();
      return NetworkError(connectErr.value);
    }
    sock.SendAll(DownloadRequest(filename));
    var ok := disk.OpenForWrite(filename);
    if !ok {
      sock.Close();
      return LocalIoError;
    }
    ReceiveInto(sock, disk, filename);
    assert [] + Received(old(sock.incoming)) == Received(old(sock.incoming));
    assert disk.downloads == old(disk.downloads)[filename := Truncated(old(disk.downloads), filename).(content := Received(old(sock.incoming)))];
    var downloadedHash := CalculateFileHash(disk.downloads, filename, hash);
    var originalHash := CalculateFileHash(disk.uploads, filename, hash);
    if downloadedHash == originalHash {
      outcome := Downloaded;
    } else {
      disk.Remove(filename);
      outcome := VerificationFailed;
    }
    sock.Close();
  }

  /** No name other than the requested one is ever added, changed or removed in Downloads. */
  lemma {:induction false} OtherDownloadsUntouched(uploads: Dir, downloads: Dir, book: AddressBook, peer: string,
      filename: string, reachable: bool, arrivals: seq<seq<byte>>, hash: Hash, other: string)
    requires other != filename
    ensures var after := Fetch(uploads, downloads, book, peer, filename, reachable, arrivals, hash).1;
      (other in after <==> other in downloads) && (other in after ==> after[other] == downloads[other])
  {
  }

  /**
   * The downloaded file is kept, holding exactly the received bytes with the
   * permissions `open(path, 'wb')` left it, when the optional digests agree;
   * otherwise it is removed. A file the process cannot read back has no
   * digest, so it is kept exactly when the reference has none either.
   */
  lemma KeptIffDigestsAgree(uploads: Dir, downloads: Dir, book: AddressBook, peer: string,
      filename: string, reachable: bool, arrivals: seq<seq<byte>>, hash: Hash)
    requires ParseAddress(Resolve(book, peer)).Ok?
    requires ConnectFailure(ParseAddress(Resolve(book, peer)).value, reachable).None?
    requires Writable(downloads, filename)
    ensures var (outcome, after) := Fetch(uploads, downloads, book, peer, filename, reachable, arrivals, hash);
      && (outcome == Downloaded
          <==> (if Truncated(downloads, filename).readable then Some(hash(Received(arrivals))) else None)
               == FileDigest(uploads, filename, hash))
      && (outcome == Downloaded ==>
            filename in after && after[filename] == Truncated(downloads, filename).(content := Received(arrivals)))
      && (outcome != Downloaded ==> outcome == VerificationFailed && filename !in after)
  {
    var truncated := Truncated(downloads, filename);
    var written := downloads[filename := truncated.(content := Received(arrivals))];
    assert FileDigest(written, filename, hash)
        == if Truncated(downloads, filename).readable then Some(hash(Received(arrivals))) else None;
  }

  /**
   * A file already in Downloads that the process may not write makes
   * `open(path, 'wb')` raise: the download is reported as a local error and
   * the file is left as it was.
   */
  lemma ReadOnlyDownloadIsKept(uploads: Dir, downloads: Dir, book: AddressBook, peer: string,
      filename: string, arrivals: seq<seq<byte>>, hash: Hash)
    requires filename in downloads && downloads[filename].File? && !downloads[filename].writable
    requires ParseAddress(Resolve(book, peer)).Ok?
    requires ParseAddress(Resolve(book, peer)).value.port <= 65535
    ensures Fetch(uploads, downloads, book, peer, filename, true, arrivals, hash) == (LocalIoError, downloads)
  {
  }

  /**
   * A write-only file already in Downloads is overwritten but cannot be read
   * back, so its digest is None; when the Uploads copy has no digest either,
   * the two Nones compare equal and whatever arrived is kept as verified.
   */
  lemma WriteOnlyDownloadPasses(uploads: Dir, downloads: Dir, book: AddressBook, peer: string,
      filename: string, arrivals: seq<seq<byte>>, hash: Hash)
    requires filename in downloads && downloads[filename].File?
    requires !downloads[filename].readable && downloads[filename].writable
    requires Readable(uploads, filename).None?
    requires ParseAddress(Resolve(book, peer)).Ok?
    requires ParseAddress(Resolve(book, peer)).value.port <= 65535
    ensures Fetch(uploads, downloads, book, peer, filename, true, arrivals, hash)
         == (Downloaded, downloads[filename := downloads[filename].(content := Received(arrivals))])
  {
    KeptIffDigestsAgree(uploads, downloads, book, peer, filename, true, arrivals, hash);
  }

  /**
   * Asking for a name that joins to a directory: once connected, opening
   * the local path for writing raises, so the outcome is a local error and
   * Downloads is unchanged, whatever arrives.
   */
  lemma DirectoryNameIsLocalError(uploads: Dir, downloads: Dir, book: AddressBook, peer: string,
      filename: string, reachable: bool, arrivals: seq<seq<byte>>, hash: Hash)
    requires IsDirectoryName(filename)
    ensures var (outcome, after) := Fetch(uploads, downloads, book, peer, filename, reachable, arrivals, hash);
      && after == downloads
      && (ParseAddress(Resolve(book, peer)).Ok? && ConnectFailure(ParseAddress(Resolve(book, peer)).value, reachable).None?
          ==> outcome == LocalIoError)
  {
  }

  /**
   * The address-book lookup is applied once, before anything else: a known
   * peer name downloads exactly as typing its stored address with an empty
   * book would, and any other input is used as the address itself.
   */
  lemma ResolveThenFetch(uploads: Dir, downloads: Dir, book: AddressBook, peer: string,
      filename: string, reachable: bool, arrivals: seq<seq<byte>>, hash: Hash)
    ensures peer in book ==>
      Fetch(uploads, downloads, book, peer, filename, reachable, arrivals, hash)
      == Fetch(uploads, downloads, map[], book[peer], filename, reachable, arrivals, hash)
    ensures peer !in book ==>
      Fetch(uploads, downloads, book, peer, filename, reachable, arrivals, hash)
      == Fetch(uploads, downloads, map[], peer, filename, reachable, arrivals, hash)
  {
  }

  /** A malformed or unresolvable address is reported before any network use and changes nothing. */
  lemma BadAddressChangesNothing(uploads: Dir, downloads: Dir, book: AddressBook, peer: string,
      filename: string, reachable: bool, arrivals: seq<seq<byte>>, hash: Hash)
    requires ParseAddress(Resolve(book, peer)).Err?
    ensures Fetch(uploads, downloads, book, peer, filename, reachable, arrivals, hash)
         == (InputError(ParseAddress(Resolve(book, peer)).error), downloads)
  {
  }

  /**
   * End to end: when the peer serves `filename`, the transport delivers the
   * handler's bytes in non-empty pieces of any size, and the local Uploads
   * copy has the same contents, the download succeeds and Downloads holds a
   * byte-identical copy, provided the process can read back what it wrote.
   */
  lemma EndToEnd(served: Dir, uploads: Dir, downloads: Dir, book: AddressBook, peer: string,
      filename: string, arrivals: seq<seq<byte>>, hash: Hash)
    requires Readable(served, filename).Some?
    requires Readable(uploads, filename) == Readable(served, filename)
    requires forall i :: 0 <= i < |arrivals| ==> arrivals[i] != []
    requires Flatten(arrivals) == Flatten(Payloads(Respond(DownloadRequest(filename), served)))
    requires ParseAddress(Resolve(book, peer)).Ok?
    requires ParseAddress(Resolve(book, peer)).value.port <= 65535
    requires Writable(downloads, filename) && Truncated(downloads, filename).readable
    ensures Fetch(uploads, downloads, book, peer, filename, true, arrivals, hash)
         == (Downloaded, downloads[filename := Truncated(downloads, filename).(content := served[filename].content)])
  {
    WireBytes(DownloadRequest(filename), served);
    ReceivedAllNonEmpty(arrivals);
    KeptIffDigestsAgree(uploads, downloads, book, peer, filename, true, arrivals, hash);
  }

  /**
   * Any corruption of the received bytes, a single flipped byte included, is
   * caught by a collision-free hash: the download is reported as failed and
   * its file removed.
   */
  lemma CorruptionIsRemoved(uploads: Dir, downloads: Dir, book: AddressBook, peer: string,
      filename: string, arrivals: seq<seq<byte>>, hash: Hash)
    requires CollisionFree(hash)
    requires Readable(uploads, filename).Some? && Received(arrivals) != Readable(uploads, filename).value
    requires ParseAddress(Resolve(book, peer)).Ok?
    requires ParseAddress(Resolve(book, peer)).value.port <= 65535
    requires Writable(downloads, filename)
    ensures var (outcome, after) := Fetch(uploads, downloads, book, peer, filename, true, arrivals, hash);
      outcome == VerificationFailed && filename !in after
  {
    KeptIffDigestsAgree(uploads, downloads, book, peer, filename, true, arrivals, hash);
    var ref := Readable(uploads, filename).value;
    assert hash(Received(arrivals)) != hash(ref);
  }

  /**
   * Asking a peer for a file it does not have yields zero bytes, and with a
   * collision-free hash that counts as success exactly when the local
   * reference copy is an empty file: "not found" and "empty" cannot be told
   * apart.
   */
  lemma NotFoundSucceedsOnlyAgainstEmptyReference(served: Dir, uploads: Dir, downloads: Dir,
      book: AddressBook, peer: string, filename: string, arrivals: seq<seq<byte>>, hash: Hash)
    requires CollisionFree(hash)
    requires !IsDirectoryName(filename) && filename !in served
    requires Flatten(arrivals) == Flatten(Payloads(Respond(DownloadRequest(filename), served)))
    requires forall i :: 0 <= i < |arrivals| ==> arrivals[i] != []
    requires ParseAddress(Resolve(book, peer)).Ok?
    requires ParseAddress(Resolve(book, peer)).value.port <= 65535
    requires Writable(downloads, filename)
    ensures Fetch(uploads, downloads, book, peer, filename, true, arrivals, hash).0 == Downloaded
        <==> Readable(uploads, filename) == if Truncated(downloads, filename).readable then Some([]) else None
  {
    MissingLooksEmpty(filename, served);
    ReceivedAllNonEmpty(arrivals);
    assert Received(arrivals) == [];
    KeptIffDigestsAgree(uploads, downloads, book, peer, filename, true, arrivals, hash);
    var reference := Readable(uploads, filename);
    if reference.Some? && hash([]) == hash(reference.value) {
      assert reference.value == [];
    }
  }
}
