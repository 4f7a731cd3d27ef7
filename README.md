# d2download: a verified model of the peer-to-peer file transfer core

d2download is a single-file Python program (`Main.py`). Each node serves the
files in its `Uploads` directory over TCP and fetches files from peers into
its `Downloads` directory. A curses menu drives it. This Dafny project models
the sequential logic under the program's I/O. It abstracts the filesystem as a
map from names to entries, a socket as the sequence of results its reads
return, and SHA-256 as an arbitrary function of the whole byte sequence.

The model has seven modules:

- `Common` (`common.dfy`): bytes, `Option`/`Result`, the 32 KiB `ChunkSize`, and
  directory entries. An entry is a directory, or a file with contents and
  separate read and write permissions. `EntryAt` models `os.path.join`: the
  names `""`, `.` and `..` denote a directory, so they exist but cannot be
  opened as files.
- `Chunking` (`chunking.dfy`): the sender's chunking of a file into
  `read(ChunkSize)` results, and the receiver's reassembly of `recv` results up
  to the first empty read. It proves the reassembly round trip, also for a
  transport that re-cuts the byte stream into other non-empty pieces.
- `Address` (`address.dfy`): the one-step address-book lookup, Python's
  `split(":")`, the `int(port)` conversion and the `host:port` parse.
- `Verifier` (`verifier.dfy`): `calculateFileHash` as a loop that feeds an
  accumulator object, plus the keep-or-delete decision on two optional digests.
- `Server` (`server.dfy`): `handleClient` over a `Connection` object, and the
  pure `Respond` function that says which path a decoded request takes.
  `listFiles` is here too.
- `Client` (`client.dfy`): the non-interactive part of `downloadFileUi`.
  `Disk` and `Socket` are objects updated in place. The receive loop appends
  to the downloaded file chunk by chunk. The pure `Fetch` function gives the
  outcome and the resulting `Downloads` directory.
- `Menu` (`menu.dfy`): the key-handling state machine of `displayUi`, as a
  loop over the keys `getch` returns.

Behaviour of the code worth noting:

- A request for a missing file is not reported as "not found". The handler
  sends nothing, so the client writes an empty file. That file is then judged
  corrupt and deleted, unless the local `Uploads` copy is itself empty, in
  which case it is kept as verified.
- The handler tests only `os.path.exists`, not "is a regular file". A
  directory or an unreadable file therefore takes the exception path, and
  nothing is sent.
- In the receive loop, `if not chunk: break` can never fire, because the
  `while chunk := ...` test already stops on an empty read. The model has the
  loop test only.

## Model

| member | source | states |
|---|---|---|
| `Common.Readable` | Main.py:23 | `open(path, 'rb')` yields contents exactly for a file the process may read, and yields that file's contents |
| `Chunking.ChunksReassemble` | Main.py:52-54 | Sending the successive `read(ChunkSize)` results in order puts exactly the file's bytes on the wire |
| `Chunking.ChunksWellChunked` | Main.py:52-54 | Every chunk sent holds 1 to ChunkSize bytes, and all but the last are full |
| `Chunking.ChunksCount` | Main.py:53-54 | The number of chunks is the file length divided by ChunkSize, rounded up |
| `Chunking.ChunksEmpty` | Main.py:53-54 | The sender emits no chunk exactly when the file is empty |
| `Chunking.TakeUntilEmptyIsPrefix` | Main.py:155-158 | The chunks written are a prefix of the reads, each non-empty, and the read after them is empty or absent |
| `Chunking.ReceivedAllNonEmpty` | Main.py:155-158 | If every read before the close is non-empty, all of them are written in arrival order |
| `Chunking.ReceivedStopsAtEmpty` | Main.py:155-158 | Data after the first empty read is never written |
| `Chunking.RoundTrip` | Main.py:153-158 | A transport that delivers the sender's bytes in non-empty pieces of any size gives the receiver the file exactly |
| `Chunking.RoundTripSameChunks` | Main.py:153-158 | Reading back the sender's own chunks reassembles the file |
| `Address.ResolveNotTransitive` | Main.py:137-138 | The lookup is done once: a stored address that is itself a peer name is not looked up again |
| `Address.SplitJoin` | Main.py:143 | `split(":")` loses nothing: joining the parts with ":" gives the input back |
| `Address.SplitParts` | Main.py:143 | No part contains the separator, and there is exactly one more part than separators |
| `Address.JoinSplit` | Main.py:143 | Splitting a join of separator-free parts gives the same parts back |
| `Address.ParseShowNat` | Main.py:144 | The port conversion inverts the decimal text of every number |
| `Address.ParseAddressColons` | Main.py:143 | Zero colons or two or more colons fail the unpacking, which reports the number of parts |
| `Address.ParseAddressOneColon` | Main.py:143-144 | With one colon, the host is the text before it verbatim; the address parses exactly when the text after it is a digit string, else the port is rejected |
| `Address.ParseFormat` | Main.py:143-144 | Parsing `host:port` text gives back the endpoint, for every host without a colon |
| `Verifier.Accumulator.Update` | Main.py:25 | Feeding a chunk appends it to the bytes already fed to the digest |
| `Verifier.FileDigest` | Main.py:19-28 | The digest is absent exactly when the file cannot be opened; otherwise it is the hash of the whole contents |
| `Verifier.CalculateFileHash` | Main.py:19-28 | The chunk-by-chunk loop gives the digest of the whole file, or None when it cannot be opened |
| `Verifier.SameContentVerifies` | Main.py:161-165 | Two copies with the same readable contents, or two unreadable copies, always pass, whatever the hash |
| `Verifier.MissingReferenceRejects` | Main.py:161-167 | A readable download with no readable `Uploads` copy always fails verification |
| `Verifier.VerifiedIffSameContent` | Main.py:161-167 | With a collision-free hash, verification passes exactly when both copies are readable and equal, or both are unreadable |
| `Server.Connection.SendAll` | Main.py:54 | `sendall` appends one payload and does not close the connection |
| `Server.Connection.Close` | Main.py:60 | `close` counts one close and sends nothing |
| `Server.HandleClient` | Main.py:42-60 | Sends the payloads of the path `Respond` picks, chunk by chunk, and closes the connection exactly once on every path |
| `Server.WireBytes` | Main.py:44-56 | The handler sends a file's exact bytes only for a well-formed download request naming an openable file; every other request gets zero bytes |
| `Server.PayloadsBounded` | Main.py:51-56 | Every payload holds at most ChunkSize bytes; only the not-found reply sends an empty payload |
| `Server.MissingLooksEmpty` | Main.py:51-56 | A missing file and an empty file both put zero bytes on the wire |
| `Server.DownloadRequestWellFormed` | Main.py:149 | The request the client sends is read by the handler as a download of exactly that filename |
| `Server.DirectoryNameFails` | Main.py:50-53 | A request for `""`, `.` or `..` names an existing directory: it is never answered "not found", opening it fails, and nothing is sent |
| `Server.ServedFilesAreListed` | Main.py:62-64 | Every name the handler streams back appears in the listing |
| `Server.ListedFilesAreServed` | Main.py:62-64 | A listed name is never answered "not found", and a listed file the server may read is served in full |
| `Client.Disk.OpenForWrite` | Main.py:154 | Opening for writing succeeds exactly when the path is absent or a file the process may write; it then creates a new empty file or empties the existing one, keeping its permissions; otherwise nothing changes |
| `Client.Disk.Append` | Main.py:158 | `f.write` appends the chunk to the download, keeps its permissions, and changes nothing else |
| `Client.Disk.Remove` | Main.py:167 | `os.remove` removes exactly the download's name |
| `Client.Socket.Connect` | Main.py:148 | Connecting fails for a port above 65535 or an unreachable peer, and changes nothing else |
| `Client.Socket.SendAll` | Main.py:150 | The request is appended to what the socket has sent |
| `Client.Socket.Recv` | Main.py:155 | A read returns the next pending chunk, or the empty chunk once the peer has closed |
| `Client.Socket.Close` | Main.py:147 | Leaving the `with` block closes the socket |
| `Client.ReceiveInto` | Main.py:153-158 | The receive loop appends, in place, exactly the bytes received before the first empty read |
| `Client.DownloadFile` | Main.py:135-170 | One download's outcome and new `Downloads` directory are those `Fetch` gives; an input error touches neither socket nor disk; in the flat directory model `Uploads` never changes; the socket is closed on every other path |
| `Client.OtherDownloadsUntouched` | Main.py:153-167 | In the flat directory model, a download never adds, changes or removes any other name in `Downloads` |
| `Client.KeptIffDigestsAgree` | Main.py:161-167 | Once connected, the download is kept with exactly the received bytes when the optional digests agree, and is otherwise reported failed and removed; a download the process cannot read back has no digest |
| `Client.ReadOnlyDownloadIsKept` | Main.py:154-170 | A file already in `Downloads` that may not be written makes the download a local error and is left as it was |
| `Client.WriteOnlyDownloadPasses` | Main.py:154-164 | A write-only file in `Downloads` is overwritten with whatever arrives and, when the `Uploads` copy cannot be read either, kept as verified |
| `Client.DirectoryNameIsLocalError` | Main.py:153-170 | Asking for `""`, `.` or `..` never changes `Downloads`, and once connected it is reported as a local error |
| `Client.ResolveThenFetch` | Main.py:136-138 | A known peer name downloads exactly as its stored address typed with an empty address book; any other input is used verbatim as the address |
| `Client.BadAddressChangesNothing` | Main.py:142-148 | A malformed resolved address is reported as an input error, before any connection, and leaves `Downloads` unchanged |
| `Client.EndToEnd` | Main.py:147-167 | A served file, delivered in any non-empty pieces, is stored byte-identical and verified when the local reference matches it and the download can be read back |
| `Client.CorruptionIsRemoved` | Main.py:161-167 | With a collision-free hash, received bytes that differ from the reference (one flipped byte included) fail verification and are deleted |
| `Client.NotFoundSucceedsOnlyAgainstEmptyReference` | Main.py:55-56 | Downloading a file the peer lacks succeeds exactly when the local reference copy is an empty file, or, for a download that cannot be read back, exactly when the reference cannot be read either |
| `Menu.Step` | Main.py:233-247 | One key keeps the selection within the five options and moves it only up on KEY_UP or down on KEY_DOWN; only Enter acts, it never moves the selection, and it quits exactly on the last option |
| `Menu.DisplayUi` | Main.py:207-247 | Starting from option 0, the loop stays within bounds and dispatches what `Run` gives, never Quit or Nothing |
| `Menu.RunInBounds` | Main.py:233-236 | The final selection lies within the options for every key sequence |
| `Menu.DownSaturates` | Main.py:235-236 | `n` KEY_DOWN presses move the selection down `n` places, stopping at the last option |
| `Menu.UpSaturates` | Main.py:233-234 | `n` KEY_UP presses move the selection up `n` places, stopping at the first option |
| `Menu.QuitIgnoresLaterKeys` | Main.py:238-239 | Once Quit is chosen the loop ends, and later keys change nothing |
| `Menu.EnterDispatches` | Main.py:240-247 | Enter on options 0 to 3 runs List Files, List Peers, Add Peer or Download File, and the loop continues from the same option |

## Left out

- Curses rendering and input: `listFilesUi`, `listPeersUi`, `addPeerUi`, the drawing code in `displayUi`, and the `getstr`/`getch` calls. This is terminal I/O. The menu's keys are an input sequence, and the keys read by sub-screens are not part of it.
- Menu.DisplayUi: the source loop blocks forever waiting for keys. The model also stops when its finite key sequence runs out.
- `startServer`: socket creation, bind, listen, accept, the thread per connection, and the start-up order (`curses.wrapper` runs before the server thread is started). This is network plumbing and concurrency. One connection is modelled at a time.
- JSON encoding and decoding of the request and the address book: library calls. The handler receives an already decoded value, or a decode failure.
- The 1024-byte `recv` of the request. A request whose encoding exceeds 1024 bytes would be truncated and fail to decode. The encoded length is not modelled.
- The address book's persistence (`loadAddressBook`, `saveAddressBook`, adding a peer): file I/O. The book is a map passed in.
- SHA-256: a foreign library. The digest is a parameter `hash`, and incremental updates equal hashing the concatenation. Properties that need distinct inputs to have distinct digests say so with `CollisionFree`.
- `getLocalIpAddress`: a UDP socket trick, pure I/O.
- Path semantics of `os.path.join` beyond the bare names `""`, `.` and `..`: absolute names, and `..` or separators inside longer names. A directory is a flat map from names to entries. The guarantees that `Uploads` never changes during a download, that no other name in `Downloads` is touched, and the integrity check itself all depend on this. With a filename such as `../Uploads/x`, Main.py:153-158 truncate and overwrite the reference copy `Uploads/x`. Main.py:161-162 then hash that same file twice, so the download always verifies.
- File permissions: each file has one read bit and one write bit, as they apply to the process. Owner, group and other classes, a superuser ignoring the bits, and umask settings other than the usual one for new files are not modelled.
- Address.ParsePort: accepts only non-empty ASCII digit strings. Python's `int` also accepts a sign, surrounding whitespace, underscores and non-ASCII digits.
- Client.Socket.Connect: whether the peer accepts is a boolean input. Host name resolution and routing are not modelled.
- Socket errors in the middle of a transfer: `sendall` raising in the handler, `recv` raising in the client, and the partial download such an error leaves behind. Reads and writes after a successful connect always succeed in the model.
- Error messages printed or shown on screen: the model reports which outcome or handler error occurred, not its text.
