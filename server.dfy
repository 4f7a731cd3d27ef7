// The transfer handler, handleClient (Main.py lines 42-60): one accepted
// connection, one request, the requested file streamed back in chunks or
// nothing at all, and the connection closed on every path. Also listFiles
// (Main.py lines 62-64). The request arrives already decoded: JSON decoding
// is not modelled, only which shape of value it produced.
module Server {
  import opened Common
  import opened Chunking

  /** A value in the decoded request: a string, or any other JSON value. */
  datatype JsonValue = JString(s: string) | JOther

  /** What `json.loads(data.decode())` produced from the first received bytes. */
  datatype Decoded =
    | Undecodable                              // decode or JSON syntax error
    | NotAnObject                              // a list, number, string, ...: not subscriptable by key
    | Object(fields: map<string, JsonValue>)

  /** The exception handleClient catches and logs. */
  datatype HandlerError =
    | BadJson                  // UnicodeDecodeError / JSONDecodeError
    | NotSubscriptable         // TypeError from `request["request"]`
    | MissingKey(key: string)  // KeyError
    | BadFilename              // TypeError from os.path.join on a non-string
    | OpenFailed               // OSError from open() on a directory or an unreadable file

  /** Which path through handleClient a request takes. */
  datatype Response =
    | Streamed(chunks: seq<seq<byte>>)  // the file exists: one sendall per read
    | NotFound                          // no such path: sendall(b'')
    | Ignored                           // `request` is not "download": nothing sent
    | Failed(error: HandlerError)       // an exception was caught and logged

  /** The request the fetch client sends, `{"request": "download", "filename": name}`, as decoded. */
  function DownloadRequest(name: string): Decoded
  {
    Object(map["request" := JString("download"), "filename" := JString(name)])
  }

  /** The filename a request validly asks for, if it is a well-formed download request. */
  function RequestedFile(req: Decoded): (r: Option<string>)
  {
    if req.Object? && "request" in req.fields && req.fields["request"] == JString("download")
      && "filename" in req.fields && req.fields["filename"].JString?
    then Some(req.fields["filename"].s)
    else None
  }

  /** The path handleClient takes for a decoded request against the Uploads directory. */
  function Respond(req: Decoded, uploads: Dir): Response
  {
    match req
    case Undecodable => Failed(BadJson)
    case NotAnObject => Failed(NotSubscriptable)
    case Object(fields) =>
      if "request" !in fields then Failed(MissingKey("request"))
      else if fields["request"] != JString("download") then Ignored
      else if "filename" !in fields then Failed(MissingKey("filename"))
      else match fields["filename"]
        case JOther => Failed(BadFilename)
        case JString(name) =>
          match EntryAt(uploads, name)
          case None => NotFound
          case Some(File(content, true, _)) => Streamed(Chunks(content))
          case Some(_) => Failed(OpenFailed)
  }

  /** The payloads passed to `sendall`, in order, on each path. */
  function Payloads(r: Response): seq<seq<byte>>
  {
    match r
    case Streamed(chunks) => chunks
    case NotFound => [[]]
    case Ignored => []
    case Failed(_) => []
  }

  /** The server's side of one accepted connection. */
  class Connection {
    var sent: seq<seq<byte>>  // payloads passed to sendall, in order
    var closeCount: nat       // how many times close() ran

    constructor ()
      ensures sent == [] && closeCount == 0
    {
      sent, closeCount := [], 0;
    }

    method SendAll(data: seq<byte>)
      modifies this
      ensures sent == old(sent) + [data] && closeCount == old(closeCount)
    {
      sent := sent + [data];
    }

    method Close()
      modifies this
      ensures sent == old(sent) && closeCount == old(closeCount) + 1
    {
      closeCount := closeCount + 1;
    }
  }

  /**
   * handleClient: decide on the request, stream the file one read of at most
   * ChunkSize bytes at a time if it exists, and close the connection exactly
   * once whichever way the handler ends. The result names the path taken.
   */
  method HandleClient(conn: Connection, req: Decoded, uploads: Dir) returns (r: Response)
    modifies conn
    ensures r == Respond(req, uploads)
    ensures conn.sent == old(conn.sent) + Payloads(r)
    ensures conn.closeCount == old(conn.closeCount) + 1
  {
    if req.Undecodable? {
      r := Failed(BadJson);
    } else if req.NotAnObject? {
      r := Failed(NotSubscriptable);
    } else if "request" !in req.fields {
      r := Failed(MissingKey("request"));
    } else if req.fields["request"] != JString("download") {
      r := Ignored;
    } else if "filename" !in req.fields {
      r := Failed(MissingKey("filename"));
    } else if req.fields["filename"].JOther? {
      r := Failed(BadFilename);
    } else {
      var name := req.fields["filename"].s;
      var entry := EntryAt(uploads, name);
      if entry.None? {
        conn.SendAll([]);
        r := NotFound;
      } else if !entry.value.File? || !entry.value.readable {
        r := Failed(OpenFailed);
      } else {
        var content := entry.value.content;
        var pos := 0;
        while pos < |content|
          invariant 0 <= pos <= |content|
          invariant conn.closeCount == old(conn.closeCount)
          invariant old(conn.sent) + Chunks(content) == conn.sent + Chunks(content[pos..])
          decreases |content| - pos
        {
          var n := if |content| - pos < ChunkSize then |content| - pos else ChunkSize;
          var chunk := content[pos..pos + n];
          assert Chunks(content[pos..]) == [chunk] + Chunks(content[pos + n..]) by {
            assert content[pos..][..n] == chunk;
            assert content[pos..][n..] == content[pos + n..];
          }
          conn.SendAll(chunk);
          pos := pos + n;
        }
        r := Streamed(Chunks(content));
      }
    }
    conn.Close();
  }

  /**
   * The bytes a handler puts on the wire: the file's exact contents when a
   * well-formed download request names a file that can be opened, and
   * nothing in every other case.
   */
  lemma WireBytes(req: Decoded, uploads: Dir)
    ensures Flatten(Payloads(Respond(req, uploads)))
         == match RequestedFile(req)
            case Some(name) => (match Readable(uploads, name) case Some(c) => c case None => [])
            case None => []
  {
    var r := Respond(req, uploads);
    match r
    case Streamed(chunks) =>
      var name := req.fields["filename"].s;
      ChunksReassemble(uploads[name].content);
    case NotFound =>
      assert Flatten([[]]) == [] + Flatten([]);
    case Ignored =>
    case Failed(_) =>
  }

  /** Every payload holds at most ChunkSize bytes; only the not-found reply sends an empty one. */
  lemma PayloadsBounded(req: Decoded, uploads: Dir)
    ensures var p := Payloads(Respond(req, uploads));
      forall i :: 0 <= i < |p| ==> |p[i]| <= ChunkSize && (p[i] == [] <==> Respond(req, uploads) == NotFound)
  {
    var r := Respond(req, uploads);
    if r.Streamed? {
      var name := req.fields["filename"].s;
      ChunksWellChunked(uploads[name].content);
    }
  }

  /**
   * A missing file and an empty file are indistinguishable on the wire:
   * both put zero bytes on the connection.
   */
  lemma MissingLooksEmpty(name: string, uploads: Dir)
    requires !IsDirectoryName(name) && name !in uploads
    ensures Flatten(Payloads(Respond(DownloadRequest(name), uploads))) == []
    ensures Flatten(Payloads(Respond(DownloadRequest(name), uploads[name := File([], true, true)]))) == []
  {
    WireBytes(DownloadRequest(name), uploads);
    WireBytes(DownloadRequest(name), uploads[name := File([], true, true)]);
  }

  /** The request the client sends is exactly a well-formed download request for its filename. */
  lemma DownloadRequestWellFormed(name: string)
    ensures RequestedFile(DownloadRequest(name)) == Some(name)
  {
  }

  /** listFiles: the names in Uploads that are regular files (directories excluded). */
  function ListFiles(uploads: Dir): set<string>
  {
    set f | f in uploads && !uploads[f].Directory?
  }

  /**
   * Every listed name, requested, is answered by the file's contents or, if
   * the file cannot be opened, by a logged error: never by "not found".
   */
  lemma ListedFilesAreServed(uploads: Dir, f: string)
    requires f in ListFiles(uploads)
    ensures Respond(DownloadRequest(f), uploads) != NotFound
    ensures uploads[f].File? && uploads[f].readable ==> Flatten(Payloads(Respond(DownloadRequest(f), uploads))) == uploads[f].content
  {
    WireBytes(DownloadRequest(f), uploads);
  }

  /**
   * A name that joins to a directory (the Uploads directory itself or its
   * parent) exists, so it is never answered "not found", but opening it
   * raises: the handler logs the error and sends nothing.
   */
  lemma DirectoryNameFails(uploads: Dir, name: string)
    requires IsDirectoryName(name)
    ensures Respond(DownloadRequest(name), uploads) == Failed(OpenFailed)
    ensures Flatten(Payloads(Respond(DownloadRequest(name), uploads))) == []
  {
    WireBytes(DownloadRequest(name), uploads);
  }

  /**
   * Conversely, every name the handler streams back is one that listFiles
   * shows: the listing misses no servable file.
   */
  lemma ServedFilesAreListed(uploads: Dir, f: string)
    requires Respond(DownloadRequest(f), uploads).Streamed?
    ensures f in ListFiles(uploads)
  {
  }
}
