// The upload and download handlers (main/file_server_controller.h:136-359).
module FileServer {
  import opened CBuffer
  import opened Octets
  import opened Tokenizing

  const SCRATCH_BUFSIZE := 8192
  const MAX_FILE_SIZE := 204800

  // ---- Paths --------------------------------------------------------------------

  // The path of a URI: everything before its query or fragment (section 3 of RFC 3986)
  function PathOf(uri: string): string {
    uri[..SpanFrom(uri, {'?', '#'}, 0)]
  }

  // strchr(uri, c) - uri, or the length when c does not occur
  method IndexOf(uri: string, c: char) returns (n: nat)
    ensures n == SpanFrom(uri, {c}, 0)
  {
    n := 0;
    while n < |uri| && uri[n] != c
      invariant n <= |uri| && SpanFrom(uri, {c}, n) == SpanFrom(uri, {c}, 0)
    {
      n := n + 1;
    }
  }

  lemma FirstOfTwo(uri: string, a: char, b: char)
    ensures SpanFrom(uri, {a, b}, 0) ==
            if SpanFrom(uri, {a}, 0) <= SpanFrom(uri, {b}, 0) then SpanFrom(uri, {a}, 0) else SpanFrom(uri, {b}, 0)
  {
    var i, j := SpanFrom(uri, {a}, 0), SpanFrom(uri, {b}, 0);
    ScansPass(uri, {a}, 0);
    ScansPass(uri, {b}, 0);
    SpanFromIs(uri, {a, b}, 0, if i <= j then i else j);
  }

  // The path is the longest prefix of the URI without ? or #.
  lemma PathIsLongest(uri: string, n: nat)
    requires n <= |uri|
    ensures PathOf(uri) <= uri
    ensures Free(uri[..n], {'?', '#'}) <==> n <= |PathOf(uri)|
  {
    ScansPass(uri, {'?', '#'}, 0);
    var m := SpanFrom(uri, {'?', '#'}, 0);
    if n > m { assert uri[..n][m] == uri[m]; }
  }

  // The path of the URI ends at position k: before the first ? or #, or with the URI.
  ghost predicate PathEnds(uri: string, k: nat) {
    && 0 < k <= |uri| && (forall i | 0 <= i < k :: uri[i] != '?' && uri[i] != '#')
    && (k < |uri| ==> uri[k] == '?' || uri[k] == '#')
  }

  lemma PathEndsAt(uri: string, k: nat)
    requires uri != [] && uri[0] == '/'
    ensures PathEnds(uri, k) <==> k == |PathOf(uri)|
    ensures PathEnds(uri, k) ==> PathOf(uri) == uri[..k]
  {
    ScansPass(uri, {'?', '#'}, 0);
    if PathEnds(uri, k) { SpanFromIs(uri, {'?', '#'}, 0, k); }
  }

  // get_path_from_uri: None is the null pointer, otherwise the offset of the path in dest
  method GetPathFromUri(dest: array<char>, basePath: string, uri: string) returns (r: Option<nat>)
    requires NulFree(basePath) && NulFree(uri)
    modifies dest
    ensures r.None? <==> |basePath| + |PathOf(uri)| + 1 > dest.Length
    ensures r.None? ==> dest[..] == old(dest[..])
    ensures r.Some? ==> r.value == |basePath| && Holds(dest, 0, basePath + PathOf(uri))
  {
    var pathLen := |uri|;
    var quest := IndexOf(uri, '?');
    if quest < |uri| {
      pathLen := if quest < pathLen then quest else pathLen;
    }
    var hash := IndexOf(uri, '#');
    if hash < |uri| {
      pathLen := if hash < pathLen then hash else pathLen;
    }
    FirstOfTwo(uri, '?', '#');
    assert uri[..pathLen] == PathOf(uri);
    if |basePath| + pathLen + 1 > dest.Length {
      return None;
    }
    Strcpy(dest, basePath);
    Strcat(dest, uri[..pathLen], basePath);
    return Some(|basePath|);
  }

  // ---- Upload ---------------------------------------------------------------------

  // What one httpd_req_recv call meets: nothing in time, a socket error, or some octets.
  datatype Arrival = Timeout | SocketError | Octets(available: nat)

  function Min(a: nat, b: nat): nat {
    if a < b then a else b
  }

  // The octets the first k arrivals can deliver, a scratch buffer each
  function Offered(arrivals: seq<Arrival>, k: nat): nat
    requires k <= |arrivals|
  {
    if k == 0 then 0
    else
      var a := arrivals[k - 1];
      Offered(arrivals, k - 1) + if a.Octets? then Min(a.available, SCRATCH_BUFSIZE) else 0
  }

  // None of the first k arrivals ends the reception; timeouts do not.
  ghost predicate Unbroken(arrivals: seq<Arrival>, k: nat) {
    && k <= |arrivals|
    && forall i | 0 <= i < k :: arrivals[i].Timeout? || (arrivals[i].Octets? && arrivals[i].available > 0)
  }

  // n octets arrive before the connection breaks.
  ghost predicate Arrives(arrivals: seq<Arrival>, n: nat) {
    n == 0 || exists k: nat :: Unbroken(arrivals, k) && n <= Offered(arrivals, k)
  }

  lemma {:induction false} OfferedGrows(arrivals: seq<Arrival>, j: nat, k: nat)
    requires j <= k <= |arrivals|
    ensures Offered(arrivals, j) <= Offered(arrivals, k)
    decreases k
  {
    if j == k {
    } else {
      OfferedGrows(arrivals, j, k - 1);
    }
  }

  lemma {:induction false} OfferedBehind(a: Arrival, rest: seq<Arrival>, k: nat)
    requires k <= |rest|
    ensures Offered([a] + rest, k + 1) ==
            Offered(rest, k) + if a.Octets? then Min(a.available, SCRATCH_BUFSIZE) else 0
  {
    if k == 0 {
    } else {
      OfferedBehind(a, rest, k - 1);
    }
  }

  lemma UnbrokenBehind(a: Arrival, rest: seq<Arrival>, k: nat)
    ensures Unbroken([a] + rest, k + 1) <==> (a.Timeout? || (a.Octets? && a.available > 0)) && Unbroken(rest, k)
  {
    var all := [a] + rest;
    assert all[0] == a && forall i | 0 <= i < |rest| :: all[i + 1] == rest[i];
    if Unbroken(all, k + 1) {
      forall i | 0 <= i < k ensures rest[i].Timeout? || (rest[i].Octets? && rest[i].available > 0) {
        assert rest[i] == all[i + 1];
      }
    }
  }

  // Arrival by arrival: a timeout is waited out, an error or nothing ends the reception, and octets
  // count up to a scratch buffer at a time.
  lemma ArrivesStep(a: Arrival, rest: seq<Arrival>, n: nat)
    requires n > 0
    ensures !Arrives([], n)
    ensures a.Timeout? ==> (Arrives([a] + rest, n) <==> Arrives(rest, n))
    ensures a.SocketError? || a == Octets(0) ==> !Arrives([a] + rest, n)
    ensures a.Octets? && a.available > 0 ==>
              var m := Min(a.available, 8192);
              Arrives([a] + rest, n) <==> n <= m || Arrives(rest, n - m)
  {
    var all := [a] + rest;
    var m := if a.Octets? then Min(a.available, SCRATCH_BUFSIZE) else 0;
    assert !Arrives([], n) by { NoArrivals(n); }
    if Arrives(all, n) {
      var k: nat :| Unbroken(all, k) && n <= Offered(all, k);
      UnbrokenBehind(a, rest, k - 1);
      OfferedBehind(a, rest, k - 1);
    }
    if m > 0 || a.Timeout? {
      if n <= m {
        NothingOffered(rest);
        UnbrokenBehind(a, rest, 0);
        OfferedBehind(a, rest, 0);
      } else if Arrives(rest, n - m) {
        var k: nat :| Unbroken(rest, k) && n - m <= Offered(rest, k);
        UnbrokenBehind(a, rest, k);
        OfferedBehind(a, rest, k);
      }
    }
  }

  lemma NoArrivals(n: nat)
    requires n > 0
    ensures !Arrives([], n)
  {
  }

  lemma NothingOffered(arrivals: seq<Arrival>)
    ensures Unbroken(arrivals, 0) && Offered(arrivals, 0) == 0 && Arrives(arrivals, 0)
  {
  }

  // What the i-th arrival adds
  lemma NextArrival(arrivals: seq<Arrival>, i: nat, n: nat)
    requires Unbroken(arrivals, i)
    ensures i < |arrivals| && arrivals[i].Timeout? ==>
              Unbroken(arrivals, i + 1) && Offered(arrivals, i + 1) == Offered(arrivals, i)
    ensures i < |arrivals| && arrivals[i].Octets? && arrivals[i].available > 0 ==>
              && Unbroken(arrivals, i + 1)
              && Offered(arrivals, i + 1) == Offered(arrivals, i) + Min(arrivals[i].available, SCRATCH_BUFSIZE)
    ensures i <= |arrivals| && (n <= Offered(arrivals, i) ==> Arrives(arrivals, n))
  {
  }

  // Where the reception broke off
  lemma Breaks(arrivals: seq<Arrival>, i: nat, n: nat)
    requires i <= |arrivals| && Offered(arrivals, i) < n
    requires i < |arrivals| ==> arrivals[i].SocketError? || arrivals[i] == Octets(0)
    ensures !Arrives(arrivals, n)
  {
    if Arrives(arrivals, n) {
      var k: nat :| Unbroken(arrivals, k) && n <= Offered(arrivals, k);
      if k <= i { OfferedGrows(arrivals, k, i); }
    }
  }

  // The i-th scratch buffer of a file, if it is that long
  predicate ChunkAt(content: seq<byte>, i: nat) {
    SCRATCH_BUFSIZE * i < |content|
  }

  function Chunk(content: seq<byte>, i: nat): seq<byte>
    requires ChunkAt(content, i)
  {
    content[SCRATCH_BUFSIZE * i..Min(|content|, SCRATCH_BUFSIZE * i + SCRATCH_BUFSIZE)]
  }

  class Server {
    // Path to contents, and how many octets the storage still takes
    var files: map<string, seq<byte>>
    var room: nat
    const basePath: string
    const pathMax: nat

    constructor (basePath: string, pathMax: nat, room: nat)
      ensures files == map[] && this.basePath == basePath && this.pathMax == pathMax && this.room == room
    {
      this.files, this.room, this.basePath, this.pathMax := map[], room, basePath, pathMax;
    }

    function FilePath(uri: string): string {
      basePath + PathOf(uri)
    }

    function TooLong(uri: string): bool {
      |FilePath(uri)| + 1 > pathMax
    }

    function IsDirectory(uri: string): bool {
      FilePath(uri) != [] && FilePath(uri)[|FilePath(uri)| - 1] == '/'
    }

    function Absent(uri: string): bool
      reads this`files
    {
      !TooLong(uri) && !IsDirectory(uri) && FilePath(uri) !in files
    }

    // fclose and unlink: the file is gone and its space is free again
    method Unlink(filePath: string)
      requires filePath in files
      modifies this`files, this`room
      ensures files == old(files) - {filePath} && room == old(room) + |old(files)[filePath]|
    {
      room := room + |files[filePath]|;
      files := files - {filePath};
    }

    // The receive loop, filling the open file. The arrivals stand for the calls' results; when
    // there are no more, the peer has closed the connection.
    method ReceiveBody(filePath: string, body: seq<byte>, contentLen: nat, arrivals: seq<Arrival>) returns (ok: bool)
      requires filePath in files && files[filePath] == [] && contentLen <= |body|
      modifies this`files, this`room
      ensures ok <==> contentLen <= old(room) && Arrives(arrivals, contentLen)
      ensures ok ==> files == old(files)[filePath := body[..contentLen]]
      ensures !ok ==> files == old(files) - {filePath}
      ensures room == if ok then old(room) - contentLen else old(room)
    {
      hide Offered, Arrives, Unbroken;
      NothingOffered(arrivals);
      var remaining, i, written := contentLen, 0, 0;
      while remaining > 0
        invariant 0 <= written <= contentLen && written + remaining == contentLen && i <= |arrivals|
        invariant files == old(files)[filePath := body[..written]] && room == old(room) - written
        invariant Unbroken(arrivals, i)
        invariant written == Min(Offered(arrivals, i), contentLen)
        decreases |arrivals| - i
      {
        var received := 0;
        ghost var at := i;
        NextArrival(arrivals, i, contentLen);
        if i < |arrivals| {
          if arrivals[i].Timeout? {
            i := i + 1;
            continue;
          }
          if arrivals[i].Octets? {
            received := Min(arrivals[i].available, Min(remaining, SCRATCH_BUFSIZE));
          }
          i := i + 1;
        }
        if received == 0 {
          Breaks(arrivals, at, contentLen);
          Unlink(filePath);
          return false;
        }
        var stored := Min(received, room);
        files := files[filePath := files[filePath] + body[written..written + stored]];
        room := room - stored;
        if stored != received {
          Unlink(filePath);
          return false;
        }
        assert body[..written] + body[written..written + received] == body[..written + received];
        remaining, written := remaining - received, written + received;
      }
      assert body[..written] == body[..contentLen];
      NextArrival(arrivals, i, contentLen);
      ok := true;
    }

    // upload_post_handler for the URI "/upload" + name. `opens` is whether fopen succeeds.
    method Upload(name: string, body: seq<byte>, contentLen: nat, arrivals: seq<Arrival>, opens: bool)
      returns (ok: bool)
      requires name != [] && name[0] == '/' && NulFree(basePath) && NulFree(name) && contentLen <= |body|
      modifies this`files, this`room
      ensures ok <==>
                && !TooLong(name) && !IsDirectory(name) && FilePath(name) !in old(files)
                && contentLen <= MAX_FILE_SIZE && opens && contentLen <= old(room) && Arrives(arrivals, contentLen)
      ensures forall k: nat | PathEnds(name, k) ::
                ok <==>
                  && |basePath| + k + 1 <= pathMax && name[k - 1] != '/' && basePath + name[..k] !in old(files)
                  && contentLen <= 204800 && opens && contentLen <= old(room) && Arrives(arrivals, contentLen)
      ensures ok ==> files == old(files)[FilePath(name) := body[..contentLen]] && room == old(room) - contentLen
      ensures !ok ==> files == old(files) && room == old(room)
    {
      PathEndsOnce(basePath, name);
      var dest := new char[pathMax];
      var filename := GetPathFromUri(dest, basePath, name);
      if filename.None? {
        return false;
      }
      PathNotEmpty(name);
      var filePath := TextAt(dest, 0, FilePath(name));
      if filePath[|filePath| - 1] == '/' {
        return false;
      }
      if filePath in files {
        return false;
      }
      if contentLen > MAX_FILE_SIZE {
        return false;
      }
      if !opens {
        return false;
      }
      ghost var before := files;
      files := files[filePath := []];
      ok := ReceiveBody(filePath, body, contentLen, arrivals);
      assert ok ==> files == before[filePath := body[..contentLen]];
      assert !ok ==> files == before;
    }

    // ---- Download -------------------------------------------------------------------

    // download_get_handler. `failAt` is the chunk whose sending fails, if any.
    method Download(uri: string, failAt: Option<nat>) returns (r: Response)
      requires uri != [] && uri[0] == '/' && NulFree(basePath) && NulFree(uri)
      ensures forall k: nat | PathEnds(uri, k) ::
                var fits, path := |basePath| + k + 1 <= pathMax, uri[..k];
                && (r == PathTooLong <==> !fits)
                && (r == Directory <==> fits && uri[k - 1] == '/')
                && (r in {Redirect, Icon, NotFound} <==> fits && uri[k - 1] != '/' && basePath + path !in files)
                && (r == Redirect ==> path == "/index.html") && (r == Icon ==> path == "/favicon.ico")
                && (r == NotFound ==> path != "/index.html" && path != "/favicon.ico")
      ensures r == PathTooLong <==> TooLong(uri)
      ensures r == Directory <==> !TooLong(uri) && IsDirectory(uri)
      ensures r == Redirect <==> Absent(uri) && PathOf(uri) == "/index.html"
      ensures r == Icon <==> Absent(uri) && PathOf(uri) == "/favicon.ico"
      ensures r == NotFound <==> Absent(uri) && PathOf(uri) != "/index.html" && PathOf(uri) != "/favicon.ico"
      ensures r.Sent? <==>
                !TooLong(uri) && !IsDirectory(uri) && FilePath(uri) in files
                && (failAt.Some? ==> SCRATCH_BUFSIZE * failAt.value >= |files[FilePath(uri)]|)
      ensures r.Sent? ==> Concatenated(r.chunks) == files[FilePath(uri)]
      ensures r.Sent? ==> forall i | 0 <= i < |r.chunks| ::
                ChunkAt(files[FilePath(uri)], i) && r.chunks[i] == Chunk(files[FilePath(uri)], i)
      ensures r.Sent? ==> !ChunkAt(files[FilePath(uri)], |r.chunks|)
      ensures r.Sent? ==> forall i | 0 <= i < |r.chunks| :: 0 < |r.chunks[i]| <= SCRATCH_BUFSIZE
    {
      hide Concatenated, Chunk, ChunkAt, PathEnds;
      PathEndsOnce(basePath, uri);
      var dest := new char[pathMax];
      var filename := GetPathFromUri(dest, basePath, uri);
      if filename.None? {
        return PathTooLong;
      }
      PathNotEmpty(uri);
      var filePath := TextAt(dest, 0, FilePath(uri));
      if filePath[|filePath| - 1] == '/' {
        return Directory;
      }
      if filePath !in files {
        var path := filePath[filename.value..];
        return if path == "/index.html" then Redirect else if path == "/favicon.ico" then Icon else NotFound;
      }
      r := SendFile(files[filePath], failAt);
    }

    // The send loop
    method SendFile(content: seq<byte>, failAt: Option<nat>) returns (r: Response)
      ensures r.Sent? || r == Aborted
      ensures r.Sent? <==> (failAt.Some? ==> SCRATCH_BUFSIZE * failAt.value >= |content|)
      ensures r.Sent? ==> Concatenated(r.chunks) == content
      ensures r.Sent? ==> forall i | 0 <= i < |r.chunks| :: ChunkAt(content, i) && r.chunks[i] == Chunk(content, i)
      ensures r.Sent? ==> !ChunkAt(content, |r.chunks|)
      ensures r.Sent? ==> forall i | 0 <= i < |r.chunks| :: 0 < |r.chunks[i]| <= SCRATCH_BUFSIZE
    {
      hide Concatenated;
      assert Concatenated([]) == [] by { ConcatenatedNext([], []); }
      var pos, chunks: seq<seq<byte>> := 0, [];
      while pos < |content|
        invariant pos <= |content| && Concatenated(chunks) == content[..pos]
        invariant pos < |content| ==> pos == SCRATCH_BUFSIZE * |chunks|
        invariant SCRATCH_BUFSIZE * |chunks| < |content| + SCRATCH_BUFSIZE
        invariant pos == |content| ==> SCRATCH_BUFSIZE * |chunks| >= |content|
        invariant failAt.Some? ==> |chunks| <= failAt.value
        invariant forall i | 0 <= i < |chunks| :: 0 < |chunks[i]| <= SCRATCH_BUFSIZE
        invariant forall i | 0 <= i < |chunks| :: ChunkAt(content, i) && chunks[i] == Chunk(content, i)
      {
        var size := Min(|content| - pos, SCRATCH_BUFSIZE);
        if failAt == Some(|chunks|) {
          return Aborted;
        }
        var chunk := content[pos..pos + size];
        ConcatenatedNext(chunks, chunk);
        assert content[..pos] + chunk == content[..pos + size];
        chunks, pos := chunks + [chunk], pos + size;
      }
      assert content[..pos] == content;
      return Sent(chunks);
    }

    // What is uploaded is what is downloaded: a stored body comes back octet for octet.
    method UploadThenDownload(name: string, body: seq<byte>, arrivals: seq<Arrival>) returns (stored: bool, r: Response)
      requires name != [] && name[0] == '/' && NulFree(basePath) && NulFree(name)
      modifies this`files, this`room
      ensures stored <==>
                old(Absent(name)) && |body| <= MAX_FILE_SIZE && |body| <= old(room) && Arrives(arrivals, |body|)
      ensures stored ==> r.Sent? && Concatenated(r.chunks) == body
    {
      stored := Upload(name, body, |body|, arrivals, true);
      r := Download(name, None);
      assert body[..|body|] == body;
    }
  }

  datatype Response = PathTooLong | Directory | Redirect | Icon | NotFound | Aborted | Sent(chunks: seq<seq<byte>>)

  function Concatenated(chunks: seq<seq<byte>>): seq<byte> {
    if chunks == [] then [] else Concatenated(chunks[..|chunks| - 1]) + chunks[|chunks| - 1]
  }

  lemma ConcatenatedNext(chunks: seq<seq<byte>>, chunk: seq<byte>)
    ensures Concatenated(chunks + [chunk]) == Concatenated(chunks) + chunk && Concatenated([]) == []
  {
    assert (chunks + [chunk])[..|chunks|] == chunks;
  }

  // The file's path, by where the URI's ends
  lemma PathEndsOnce(basePath: string, uri: string)
    requires uri != [] && uri[0] == '/'
    ensures forall k: nat | PathEnds(uri, k) ::
              && k == |PathOf(uri)| && PathOf(uri) == uri[..k] && |basePath + PathOf(uri)| == |basePath| + k
              && (basePath + PathOf(uri))[|basePath| + k - 1] == uri[k - 1]
  {
    hide PathOf;
    forall k: nat | PathEnds(uri, k)
      ensures && 0 < k <= |uri| && k == |PathOf(uri)| && PathOf(uri) == uri[..k]
              && (basePath + PathOf(uri))[|basePath| + k - 1] == uri[k - 1]
    {
      PathEndsAt(uri, k);
      PathNotEmpty(uri);
    }
  }

  lemma PathNotEmpty(uri: string)
    requires uri != [] && uri[0] == '/'
    ensures PathOf(uri) != [] && PathOf(uri)[0] == '/'
  {
  }
}
