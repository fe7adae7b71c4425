/**
 * Archive assembly (getCompressed): walk the components in order; for each
 * data file, GET its download URL, open a ZIP entry named
 * fileName + "/" + filepath, copy the response body into it byte by byte,
 * and close the entry. The response status is logged and never checked.
 * Any exception on the way ends the whole assembly.
 *
 * The ZIP stream is modelled by the entries it has been given (the deflate
 * and container encoding are not modelled), the HTTP client by a function
 * from URL to outcome.
 */
module ArchiveAssembler {
  import opened JavaLang
  import opened Wrappers
  import opened Components

  /** One entry of the archive: its path inside the archive and its bytes. */
  datatype ArchiveEntry = ArchiveEntry(name: JString, data: seq<Byte>)

  /**
   * The entity of an HTTP response: the bytes its content stream delivers,
   * and whether reading then fails (the connection breaks off) instead of
   * reaching the end of the stream.
   */
  datatype Entity = Entity(content: seq<Byte>, breaksOff: bool)

  /** A response: the status code (only logged) and the entity, None when the response has none. */
  datatype Response = Response(status: int, entity: Option<Entity>)

  /**
   * What httpClient.execute(new HttpGet(url)) does: a response, or an
   * exception (a URL HttpGet rejects, a connection that cannot be made).
   */
  datatype FetchOutcome = Responded(response: Response) | Unreachable

  /** Why an assembly stopped; each is an exception in the source. */
  datatype AssemblyError =
    | FetchFailed(url: JString)           // execute() threw
    | NoEntity(url: JString)              // getEntity() was null
    | MissingFilepath(url: JString)       // get("filepath") was null
    | NameTooLong(name: JString)          // the ZipEntry constructor refused the name
    | DuplicateEntry(name: JString)       // putNextEntry refused a name already used
    | BodyReadFailed(url: JString)        // read() threw while copying

  /** The longest entry name a ZipEntry accepts, in code units. */
  const MaxEntryNameLength: nat := 0xFFFF

  /**
   * The archive path of a component: the root folder, a slash, the
   * component's filepath. Under a root name without slashes, its
   * "/"-fields are the root followed by the fields of the filepath.
   */
  function EntryName(fileName: JString, filepath: JString): (name: JString)
    ensures |name| == |fileName| + 1 + |filepath|
    ensures Slash !in fileName ==> Fields(name, Slash) == [fileName] + Fields(filepath, Slash)
  {
    assert Slash !in fileName ==> Fields(fileName + [Slash] + filepath, Slash) == [fileName] + Fields(filepath, Slash) by {
      if Slash !in fileName {
        FieldsConcat(fileName, Slash, filepath);
      }
    }
    fileName + [Slash] + filepath
  }

  /** The names of the entries written so far. */
  function Names(entries: seq<ArchiveEntry>): set<JString> {
    set e | e in entries :: e.name
  }

  /** No two entries share a name. */
  predicate DistinctNames(entries: seq<ArchiveEntry>) {
    forall i, j | 0 <= i < j < |entries| :: entries[i].name != entries[j].name
  }

  // ---------------------------------------------------------------------------
  // Specification: what the loop of getCompressed computes

  /**
   * One iteration of the loop over the components, with the checks in the
   * order the source meets them: the eligibility test, the GET, the entity,
   * the filepath, the ZipEntry name, putNextEntry's duplicate check, the
   * copy. A component that is not a data file is skipped; a data file that
   * gets through appends exactly one entry, whose name is new and short
   * enough, so distinct names stay distinct.
   */
  function AddComponent(done: seq<ArchiveEntry>, c: Component, fileName: JString,
                        fetch: JString -> FetchOutcome): (r: Result<seq<ArchiveEntry>, AssemblyError>)
    ensures !IsDataFile(c) ==> r == Ok(done)
    ensures r.Ok? && IsDataFile(c) ==>
      && |r.value| == |done| + 1 && r.value[..|done|] == done
      && r.value[|done|].name !in Names(done)
      && |r.value[|done|].name| <= MaxEntryNameLength
    ensures r.Ok? && DistinctNames(done) ==> DistinctNames(r.value)
  {
    if !IsDataFile(c) then Ok(done)
    else
      var url := c.downloadURL.value;
      match fetch(url)
      case Unreachable => Err(FetchFailed(url))
      case Responded(response) =>
        if response.entity.None? then Err(NoEntity(url))
        else if c.filepath.None? then Err(MissingFilepath(url))
        else
          var name := EntryName(fileName, c.filepath.value);
          if |name| > MaxEntryNameLength then Err(NameTooLong(name))
          else if name in Names(done) then Err(DuplicateEntry(name))
          else if response.entity.value.breaksOff then Err(BodyReadFailed(url))
          else
            var next := done + [ArchiveEntry(name, response.entity.value.content)];
            assert DistinctNames(done) ==> DistinctNames(next) by {
              forall i | 0 <= i < |done| ensures done[i].name != name {
                assert done[i] in done;
              }
            }
            Ok(next)
  }

  /**
   * The rest of the loop, from the entries written so far. When it gets
   * through, it has kept the earlier entries, added one per remaining data
   * file, and kept the names distinct.
   */
  function AssembleFrom(done: seq<ArchiveEntry>, rest: seq<Component>, fileName: JString,
                        fetch: JString -> FetchOutcome): (r: Result<seq<ArchiveEntry>, AssemblyError>)
    ensures r.Ok? ==> |r.value| == |done| + |DataFiles(rest)| && r.value[..|done|] == done
    ensures r.Ok? && DistinctNames(done) ==> DistinctNames(r.value)
    decreases |rest|
  {
    if rest == [] then Ok(done)
    else
      match AddComponent(done, rest[0], fileName, fetch)
      case Err(e) => Err(e)
      case Ok(next) =>
        var r := AssembleFrom(next, rest[1..], fileName, fetch);
        assert r.Ok? ==> r.value[..|done|] == done by {
          if r.Ok? {
            assert r.value[..|done|] == r.value[..|next|][..|done|];
          }
        }
        r
  }

  /**
   * The entries getCompressed writes for the components, or the error that
   * stops it. An archive has one entry per data file, with distinct names.
   */
  function Assemble(components: seq<Component>, fileName: JString,
                    fetch: JString -> FetchOutcome): (r: Result<seq<ArchiveEntry>, AssemblyError>)
    ensures r.Ok? ==> |r.value| == |DataFiles(components)| && DistinctNames(r.value)
  {
    AssembleFrom([], components, fileName, fetch)
  }

  /**
   * The loop over a + b is the loop over a, then, from the entries it
   * wrote, the loop over b; an error in a ends it.
   */
  lemma {:induction false} AssembleFromAppend(done: seq<ArchiveEntry>, a: seq<Component>, b: seq<Component>,
                                              fileName: JString, fetch: JString -> FetchOutcome)
    ensures AssembleFrom(done, a + b, fileName, fetch) ==
      match AssembleFrom(done, a, fileName, fetch)
      case Err(e) => Err(e)
      case Ok(entries) => AssembleFrom(entries, b, fileName, fetch)
    decreases |a|
  {
    if a == [] {
      assert a + b == b;
    } else {
      assert (a + b)[0] == a[0] && (a + b)[1..] == a[1..] + b;
      match AddComponent(done, a[0], fileName, fetch)
      case Err(_) =>
      case Ok(next) => AssembleFromAppend(next, a[1..], b, fileName, fetch);
    }
  }

  // ---------------------------------------------------------------------------
  // What an assembly delivers, stated without the loop

  /**
   * A data file whose entry can be written: its GET answers with an entity
   * that reads to its end, and it has a filepath giving a short enough name.
   */
  predicate Deliverable(c: Component, fileName: JString, fetch: JString -> FetchOutcome) {
    && c.downloadURL.Some?
    && fetch(c.downloadURL.value).Responded?
    && fetch(c.downloadURL.value).response.entity.Some?
    && !fetch(c.downloadURL.value).response.entity.value.breaksOff
    && c.filepath.Some?
    && |EntryName(fileName, c.filepath.value)| <= MaxEntryNameLength
  }

  predicate AllDeliverable(files: seq<Component>, fileName: JString, fetch: JString -> FetchOutcome) {
    forall k | 0 <= k < |files| :: Deliverable(files[k], fileName, fetch)
  }

  /** The entry of a deliverable data file: its archive path and the bytes of its response body. */
  function EntryFor(c: Component, fileName: JString, fetch: JString -> FetchOutcome): ArchiveEntry
    requires Deliverable(c, fileName, fetch)
  {
    ArchiveEntry(EntryName(fileName, c.filepath.value),
                 fetch(c.downloadURL.value).response.entity.value.content)
  }

  /** One entry per data file, in order. */
  function EntriesFor(files: seq<Component>, fileName: JString, fetch: JString -> FetchOutcome): seq<ArchiveEntry>
    requires AllDeliverable(files, fileName, fetch)
  {
    seq(|files|, k requires 0 <= k < |files| => EntryFor(files[k], fileName, fetch))
  }

  lemma EntriesForCons(c: Component, files: seq<Component>, fileName: JString, fetch: JString -> FetchOutcome)
    requires AllDeliverable([c] + files, fileName, fetch)
    ensures Deliverable(c, fileName, fetch) && AllDeliverable(files, fileName, fetch)
    ensures EntriesFor([c] + files, fileName, fetch) == [EntryFor(c, fileName, fetch)] + EntriesFor(files, fileName, fetch)
  {
    assert ([c] + files)[0] == c;
    assert forall k | 0 <= k < |files| :: files[k] == ([c] + files)[k + 1];
  }

  lemma DistinctNamesAppend(done: seq<ArchiveEntry>, e: ArchiveEntry, more: seq<ArchiveEntry>)
    requires e.name in Names(done)
    ensures !DistinctNames(done + [e] + more)
  {
    var d :| d in done && d.name == e.name;
    var i :| 0 <= i < |done| && done[i] == d;
    var all := done + [e] + more;
    assert all[i].name == all[|done|].name;
  }

  /**
   * The loop from any point on: it succeeds exactly when every remaining
   * data file is deliverable and all entry names, old and new, are
   * distinct; it then appends one entry per remaining data file, in order.
   */
  lemma {:induction false} AssembleFromOutcome(done: seq<ArchiveEntry>, rest: seq<Component>, fileName: JString,
                                               fetch: JString -> FetchOutcome)
    requires DistinctNames(done)
    ensures AssembleFrom(done, rest, fileName, fetch).Ok? <==>
      AllDeliverable(DataFiles(rest), fileName, fetch)
      && DistinctNames(done + EntriesFor(DataFiles(rest), fileName, fetch))
    ensures AssembleFrom(done, rest, fileName, fetch).Ok? ==>
      AssembleFrom(done, rest, fileName, fetch).value == done + EntriesFor(DataFiles(rest), fileName, fetch)
    decreases |rest|, 1
  {
    if rest == [] {
      assert done + [] == done;
    } else {
      var c := rest[0];
      var files := DataFiles(rest);
      if !IsDataFile(c) {
        assert files == DataFiles(rest[1..]);
        AssembleFromOutcome(done, rest[1..], fileName, fetch);
      } else if !Deliverable(c, fileName, fetch) || EntryFor(c, fileName, fetch).name in Names(done) {
        DataFileStops(done, rest, fileName, fetch);
      } else {
        DataFileDelivered(done, rest, fileName, fetch);
      }
    }
  }

  /**
   * A deliverable data file with a new entry name: the loop appends its
   * entry and goes on, and so does the declarative side.
   */
  lemma {:induction false} DataFileDelivered(done: seq<ArchiveEntry>, rest: seq<Component>, fileName: JString,
                                             fetch: JString -> FetchOutcome)
    requires DistinctNames(done) && rest != [] && IsDataFile(rest[0]) && Deliverable(rest[0], fileName, fetch)
    requires EntryFor(rest[0], fileName, fetch).name !in Names(done)
    ensures AssembleFrom(done, rest, fileName, fetch).Ok? <==>
      AllDeliverable(DataFiles(rest), fileName, fetch)
      && DistinctNames(done + EntriesFor(DataFiles(rest), fileName, fetch))
    ensures AssembleFrom(done, rest, fileName, fetch).Ok? ==>
      AssembleFrom(done, rest, fileName, fetch).value == done + EntriesFor(DataFiles(rest), fileName, fetch)
    decreases |rest|, 0
  {
    var c := rest[0];
    var files, more := DataFiles(rest), DataFiles(rest[1..]);
    var e := EntryFor(c, fileName, fetch);
    var next := done + [e];
    assert AssembleFrom(done, rest, fileName, fetch) == AssembleFrom(next, rest[1..], fileName, fetch) by {
      assert AddComponent(done, c, fileName, fetch) == Ok(next);
    }
    assert files == [c] + more;
    AssembleFromOutcome(next, rest[1..], fileName, fetch);
    DeliverableHead(c, more, done, fileName, fetch);
  }

  /** With a deliverable first data file, the rest decide deliverability, and the entries start with its entry. */
  lemma DeliverableHead(c: Component, more: seq<Component>, done: seq<ArchiveEntry>, fileName: JString,
                        fetch: JString -> FetchOutcome)
    requires Deliverable(c, fileName, fetch)
    ensures AllDeliverable([c] + more, fileName, fetch) <==> AllDeliverable(more, fileName, fetch)
    ensures AllDeliverable(more, fileName, fetch) ==>
      done + EntriesFor([c] + more, fileName, fetch) == done + [EntryFor(c, fileName, fetch)] + EntriesFor(more, fileName, fetch)
  {
    var files := [c] + more;
    assert forall k | 0 <= k < |more| :: more[k] == files[k + 1];
    assert files[0] == c;
    if AllDeliverable(more, fileName, fetch) {
      EntriesForCons(c, more, fileName, fetch);
    }
  }

  /**
   * A data file that cannot be delivered, or whose entry name is already
   * taken, stops the loop, and the declarative side agrees: not every data
   * file is deliverable with distinct names.
   */
  lemma DataFileStops(done: seq<ArchiveEntry>, rest: seq<Component>, fileName: JString,
                      fetch: JString -> FetchOutcome)
    requires rest != [] && IsDataFile(rest[0])
    requires !Deliverable(rest[0], fileName, fetch) || EntryFor(rest[0], fileName, fetch).name in Names(done)
    ensures AssembleFrom(done, rest, fileName, fetch).Err?
    ensures !(AllDeliverable(DataFiles(rest), fileName, fetch)
              && DistinctNames(done + EntriesFor(DataFiles(rest), fileName, fetch)))
  {
    var c := rest[0];
    var files := DataFiles(rest);
    assert files == [c] + DataFiles(rest[1..]);
    if !Deliverable(c, fileName, fetch) {
      assert files[0] == c;
    } else if AllDeliverable(files, fileName, fetch) {
      var e := EntryFor(c, fileName, fetch);
      EntriesForCons(c, DataFiles(rest[1..]), fileName, fetch);
      assert done + EntriesFor(files, fileName, fetch)
        == done + [e] + EntriesFor(DataFiles(rest[1..]), fileName, fetch);
      DistinctNamesAppend(done, e, EntriesFor(DataFiles(rest[1..]), fileName, fetch));
    }
  }

  /**
   * What getCompressed delivers: an archive exactly when every data file is
   * deliverable and no two of them give the same entry name; it then holds
   * one entry per data file, in component order, named
   * fileName + "/" + filepath and holding every byte of that file's
   * response body.
   */
  lemma AssembleOutcome(components: seq<Component>, fileName: JString, fetch: JString -> FetchOutcome)
    ensures Assemble(components, fileName, fetch).Ok? <==>
      AllDeliverable(DataFiles(components), fileName, fetch)
      && DistinctNames(EntriesFor(DataFiles(components), fileName, fetch))
    ensures Assemble(components, fileName, fetch).Ok? ==>
      var entries := Assemble(components, fileName, fetch).value;
      var files := DataFiles(components);
      && |entries| == |files|
      && forall k | 0 <= k < |files| ::
        && entries[k].name == fileName + [Slash] + files[k].filepath.value
        && entries[k].data == fetch(files[k].downloadURL.value).response.entity.value.content
  {
    AssembleFromOutcome([], components, fileName, fetch);
    assert forall s: seq<ArchiveEntry> :: [] + s == s;
  }

  /** Only the bodies matter: two servers that answer every URL alike except for status codes give the same result. */
  predicate SameBodies(o1: FetchOutcome, o2: FetchOutcome) {
    || (o1.Unreachable? && o2.Unreachable?)
    || (o1.Responded? && o2.Responded? && o1.response.entity == o2.response.entity)
  }

  /**
   * The status code is never checked: replacing every status (a 404 for a
   * 200, say) leaves the assembly unchanged, so an error page's body becomes
   * the entry's content.
   */
  lemma {:induction false} StatusIgnored(done: seq<ArchiveEntry>, rest: seq<Component>, fileName: JString,
                                         fetch1: JString -> FetchOutcome, fetch2: JString -> FetchOutcome)
    requires forall url :: SameBodies(fetch1(url), fetch2(url))
    ensures AssembleFrom(done, rest, fileName, fetch1) == AssembleFrom(done, rest, fileName, fetch2)
    decreases |rest|
  {
    if rest != [] {
      var c := rest[0];
      if IsDataFile(c) {
        assert SameBodies(fetch1(c.downloadURL.value), fetch2(c.downloadURL.value));
      }
      assert AddComponent(done, c, fileName, fetch1) == AddComponent(done, c, fileName, fetch2);
      match AddComponent(done, c, fileName, fetch1)
      case Err(_) =>
      case Ok(next) => StatusIgnored(next, rest[1..], fileName, fetch1, fetch2);
    }
  }

  // ---------------------------------------------------------------------------
  // The objects getCompressed works with

  /** What one call of read() on the body stream gives. */
  datatype ReadResult = NextByte(b: Byte) | EndOfStream | ReadFailed

  /** A response body as BufferedInputStream.read() delivers it, one byte per call. */
  class BodyStream {
    const content: seq<Byte>
    const breaksOff: bool
    var pos: nat

    ghost predicate Valid()
      reads this
    {
      pos <= |content|
    }

    constructor (entity: Entity)
      ensures Valid() && content == entity.content && breaksOff == entity.breaksOff && pos == 0
    {
      content := entity.content;
      breaksOff := entity.breaksOff;
      pos := 0;
    }

    /** read(): the next byte; at the end, -1 (EndOfStream) or an IOException if the connection broke off. */
    method Read() returns (r: ReadResult)
      requires Valid()
      modifies this
      ensures Valid()
      ensures old(pos) < |content| ==> r == NextByte(content[old(pos)]) && pos == old(pos) + 1
      ensures old(pos) == |content| ==> pos == old(pos) && r == (if breaksOff then ReadFailed else EndOfStream)
    {
      if pos < |content| {
        r := NextByte(content[pos]);
        pos := pos + 1;
      } else if breaksOff {
        r := ReadFailed;
      } else {
        r := EndOfStream;
      }
    }
  }

  /**
   * A ZipOutputStream over an in-memory buffer, seen through its entries:
   * the closed entries in the order they were put, the set of names it has
   * accepted, and the open entry with the bytes written to it.
   */
  class ZipSink {
    var entries: seq<ArchiveEntry>
    var names: set<JString>
    var current: Option<JString>
    var pending: seq<Byte>
    var closed: bool

    ghost predicate Valid()
      reads this
    {
      && names == Names(entries) + (if current.Some? then {current.value} else {})
      && DistinctNames(entries)
      && (current.Some? ==> current.value !in Names(entries))
      && (current.None? ==> pending == [])
      && (closed ==> current.None?)
    }

    /** The entries once the open entry, if any, is closed. */
    function Finished(): seq<ArchiveEntry>
      reads this
    {
      if current.Some? then entries + [ArchiveEntry(current.value, pending)] else entries
    }

    constructor ()
      ensures Valid() && entries == [] && current == None && !closed
    {
      entries := [];
      names := {};
      current := None;
      pending := [];
      closed := false;
    }

    lemma FinishedKeepsNames()
      requires Valid()
      ensures DistinctNames(Finished()) && Names(Finished()) == names
    {
      if current.Some? {
        var all := Finished();
        forall i, j | 0 <= i < j < |all| ensures all[i].name != all[j].name {
          if j == |entries| {
            assert all[i] in entries;
          }
        }
      }
    }

    /** closeEntry(): the open entry, if any, joins the finished entries. */
    method CloseEntry()
      requires Valid()
      modifies this
      ensures Valid()
      ensures entries == old(Finished()) && current == None && names == old(names) && closed == old(closed)
    {
      FinishedKeepsNames();
      entries := Finished();
      current := None;
      pending := [];
    }

    /**
     * putNextEntry(name): closes the open entry, then accepts the name
     * unless an entry of that name was already put (a ZipException).
     */
    method PutNextEntry(name: JString) returns (accepted: bool)
      requires Valid() && !closed
      modifies this
      ensures Valid() && !closed
      ensures entries == old(Finished()) && pending == []
      ensures accepted == (name !in old(names))
      ensures current == (if accepted then Some(name) else None)
      ensures names == old(names) + {name}
    {
      CloseEntry();
      accepted := name !in names;
      if accepted {
        names := names + {name};
        current := Some(name);
      }
    }

    /** write(b): appends one byte to the open entry. */
    method Write(b: Byte)
      requires Valid() && current.Some?
      modifies this
      ensures Valid()
      ensures pending == old(pending) + [b]
      ensures entries == old(entries) && names == old(names) && current == old(current) && closed == old(closed)
    {
      pending := pending + [b];
    }

    /** close(): closes the open entry and finishes the archive. */
    method Close()
      requires Valid()
      modifies this
      ensures Valid() && closed
      ensures entries == old(Finished()) && current == None
    {
      CloseEntry();
      closed := true;
    }
  }

  /** The HTTP client of getCompressed; it records every URL it is asked to GET. */
  class HttpClient {
    const serve: JString -> FetchOutcome
    ghost var requested: seq<JString>

    constructor (serve: JString -> FetchOutcome)
      ensures this.serve == serve && requested == []
    {
      this.serve := serve;
      requested := [];
    }

    /** execute(new HttpGet(url)). */
    method Execute(url: JString) returns (outcome: FetchOutcome)
      modifies this
      ensures outcome == serve(url) && requested == old(requested) + [url]
    {
      outcome := serve(url);
      requested := requested + [url];
    }
  }

  // ---------------------------------------------------------------------------
  // getCompressed

  /**
   * The copy loop: every byte read from the body goes to the open entry,
   * until read() reports the end of the stream or fails.
   */
  method CopyBody(body: BodyStream, zip: ZipSink) returns (complete: bool)
    requires body.Valid() && body.pos == 0
    requires zip.Valid() && zip.current.Some?
    modifies body, zip
    ensures body.Valid() && zip.Valid()
    ensures complete == !body.breaksOff && body.pos == |body.content|
    ensures zip.pending == old(zip.pending) + body.content
    ensures zip.entries == old(zip.entries) && zip.names == old(zip.names)
    ensures zip.current == old(zip.current) && zip.closed == old(zip.closed)
  {
    while true
      invariant body.Valid() && zip.Valid()
      invariant zip.pending == old(zip.pending) + body.content[..body.pos]
      invariant zip.entries == old(zip.entries) && zip.names == old(zip.names)
      invariant zip.current == old(zip.current) && zip.closed == old(zip.closed)
      decreases |body.content| - body.pos
    {
      var r := body.Read();
      match r
      case EndOfStream =>
        complete := true;
        return;
      case ReadFailed =>
        complete := false;
        return;
      case NextByte(b) =>
        zip.Write(b);
    }
  }

  /**
   * The body of the loop for one data file: GET its URL, open its entry,
   * copy the body, and close the entry (the inner finally), stopping at the
   * first exception.
   */
  method AddDataFile(c: Component, fileName: JString, zip: ZipSink, httpClient: HttpClient)
    returns (failure: Option<AssemblyError>)
    requires IsDataFile(c)
    requires zip.Valid() && !zip.closed && zip.current.None?
    modifies zip, httpClient
    ensures zip.Valid() && !zip.closed && zip.current.None?
    ensures httpClient.requested == old(httpClient.requested) + [c.downloadURL.value]
    ensures AddComponent(old(zip.entries), c, fileName, httpClient.serve)
      == (if failure.None? then Ok(zip.entries) else Err(failure.value))
  {
    var url := c.downloadURL.value;
    var outcome := httpClient.Execute(url);
    if outcome.Unreachable? {
      return Some(FetchFailed(url));
    }
    if outcome.response.entity.None? {
      return Some(NoEntity(url));
    }
    if c.filepath.None? {
      return Some(MissingFilepath(url));
    }
    var body := new BodyStream(outcome.response.entity.value);
    var name := EntryName(fileName, c.filepath.value);
    failure := None;
    if |name| > MaxEntryNameLength {
      failure := Some(NameTooLong(name));
    } else {
      var accepted := zip.PutNextEntry(name);
      if !accepted {
        failure := Some(DuplicateEntry(name));
      } else {
        var complete := CopyBody(body, zip);
        assert zip.pending == body.content;
        if !complete {
          failure := Some(BodyReadFailed(url));
        }
      }
    }
    zip.CloseEntry();
  }

  /**
   * getCompressed(components, fileName): the entries of the archive, or the
   * error that stopped it (no partial archive is returned). The ghost result
   * is the list of URLs requested: one GET per data file, in order, and
   * never one for any other component. On an error, the requests end with
   * the data file n that failed: the loop got through components[..n], and
   * the iteration for component n, from the entries written so far, gave
   * the error.
   */
  method GetCompressed(components: seq<Component>, fileName: JString, fetch: JString -> FetchOutcome)
    returns (result: Result<seq<ArchiveEntry>, AssemblyError>, ghost requested: seq<JString>)
    ensures result == Assemble(components, fileName, fetch)
    ensures |requested| <= |DataFiles(components)|
    ensures requested == DownloadUrls(DataFiles(components))[..|requested|]
    ensures result.Ok? ==> requested == DownloadUrls(DataFiles(components))
    ensures result.Err? ==> exists n | 0 <= n < |components| :: FailedAt(components, n, fileName, fetch, result, requested)
  {
    var zip := new ZipSink();
    var httpClient := new HttpClient(fetch);
    var i := 0;
    while i < |components|
      invariant zip.Valid() && !zip.closed && zip.current.None?
      invariant httpClient.serve == fetch
      invariant AssembledUpTo(components, i, fileName, fetch, zip.entries, httpClient.requested)
    {
      var c := components[i];
      AssembledStep(components, i, fileName, fetch, zip.entries, httpClient.requested);
      if IsDataFile(c) {
        var failure := AddDataFile(c, fileName, zip, httpClient);
        if failure.Some? {
          zip.Close();
          result := Err(failure.value);
          requested := httpClient.requested;
          return;
        }
      }
      i := i + 1;
    }
    zip.Close();
    result := Ok(zip.entries);
    requested := httpClient.requested;
    AssembledAll(components, fileName, fetch, zip.entries, requested);
  }

  /**
   * The state of getCompressed's loop before component i: the entries are
   * those the loop writes for components[..i], and the requests those of
   * its data files.
   */
  ghost predicate AssembledUpTo(components: seq<Component>, i: int, fileName: JString, fetch: JString -> FetchOutcome,
                                entries: seq<ArchiveEntry>, requested: seq<JString>)
  {
    && 0 <= i <= |components|
    && Assemble(components[..i], fileName, fetch) == Ok(entries)
    && requested == DownloadUrls(DataFiles(components[..i]))
  }

  /**
   * The assembly failed at data file n: the requests are those of the data
   * files of components[..n + 1], the loop got through components[..n], and
   * the iteration for component n gave the result.
   */
  ghost predicate FailedAt(components: seq<Component>, n: int, fileName: JString, fetch: JString -> FetchOutcome,
                           result: Result<seq<ArchiveEntry>, AssemblyError>, requested: seq<JString>)
  {
    && 0 <= n < |components|
    && IsDataFile(components[n])
    && requested == DownloadUrls(DataFiles(components[..n + 1]))
    && Assemble(components[..n], fileName, fetch).Ok?
    && AddComponent(Assemble(components[..n], fileName, fetch).value, components[n], fileName, fetch) == result
  }

  /**
   * One iteration of the loop: a component that is not a data file changes
   * nothing; a data file adds its URL to the requests, and then either
   * extends the entries or ends the whole assembly with its error.
   */
  lemma AssembledStep(components: seq<Component>, i: int, fileName: JString, fetch: JString -> FetchOutcome,
                      entries: seq<ArchiveEntry>, requested: seq<JString>)
    requires AssembledUpTo(components, i, fileName, fetch, entries, requested) && i < |components|
    ensures !IsDataFile(components[i]) ==> AssembledUpTo(components, i + 1, fileName, fetch, entries, requested)
    ensures IsDataFile(components[i]) ==>
      var r := AddComponent(entries, components[i], fileName, fetch);
      var more := requested + [components[i].downloadURL.value];
      && (r.Ok? ==> AssembledUpTo(components, i + 1, fileName, fetch, r.value, more))
      && (r.Err? ==>
        && r == Assemble(components, fileName, fetch)
        && FailedAt(components, i, fileName, fetch, r, more)
        && |more| <= |DataFiles(components)|
        && more == DownloadUrls(DataFiles(components))[..|more|])
  {
    PrefixStep(components, i, fileName, fetch);
    RequestsStep(components, i);
    var r := AddComponent(entries, components[i], fileName, fetch);
    if IsDataFile(components[i]) && r.Err? {
      PrefixFailure(components, i + 1, fileName, fetch);
      PrefixOfRequests(components, i + 1);
    }
  }

  /** The entries after components[..i + 1] are those after components[..i] and one more iteration. */
  lemma PrefixStep(components: seq<Component>, i: nat, fileName: JString, fetch: JString -> FetchOutcome)
    requires i < |components|
    ensures Assemble(components[..i + 1], fileName, fetch) ==
      match Assemble(components[..i], fileName, fetch)
      case Err(e) => Err(e)
      case Ok(entries) => AddComponent(entries, components[i], fileName, fetch)
  {
    var c := components[i];
    assert components[..i + 1] == components[..i] + [c];
    AssembleFromAppend([], components[..i], [c], fileName, fetch);
    assert [c][1..] == [];
  }

  /** An error within the first n components is the error of the whole assembly. */
  lemma PrefixFailure(components: seq<Component>, n: nat, fileName: JString, fetch: JString -> FetchOutcome)
    requires n <= |components|
    requires Assemble(components[..n], fileName, fetch).Err?
    ensures Assemble(components, fileName, fetch) == Assemble(components[..n], fileName, fetch)
  {
    assert components == components[..n] + components[n..];
    AssembleFromAppend([], components[..n], components[n..], fileName, fetch);
  }

  /** After the last component the loop has written the whole assembly and requested every data file. */
  lemma AssembledAll(components: seq<Component>, fileName: JString, fetch: JString -> FetchOutcome,
                     entries: seq<ArchiveEntry>, requested: seq<JString>)
    requires AssembledUpTo(components, |components|, fileName, fetch, entries, requested)
    ensures Assemble(components, fileName, fetch) == Ok(entries)
    ensures requested == DownloadUrls(DataFiles(components))
  {
    assert components[..|components|] == components;
  }

  /** One more component adds its URL to the requests exactly when it is a data file. */
  lemma RequestsStep(components: seq<Component>, i: nat)
    requires i < |components|
    ensures DownloadUrls(DataFiles(components[..i + 1])) == DownloadUrls(DataFiles(components[..i]))
      + (if IsDataFile(components[i]) then [components[i].downloadURL.value] else [])
  {
    var c := components[i];
    assert components[..i + 1] == components[..i] + [c];
    DataFilesAppend(components[..i], [c]);
    assert DataFiles([c]) == if IsDataFile(c) then [c] else [];
    DownloadUrlsAppend(DataFiles(components[..i]), DataFiles([c]));
  }

  /** The requests for the first n components come first among the requests for all of them. */
  lemma PrefixOfRequests(components: seq<Component>, n: nat)
    requires n <= |components|
    ensures var all := DownloadUrls(DataFiles(components));
      var some := DownloadUrls(DataFiles(components[..n]));
      |some| <= |all| && all[..|some|] == some
  {
    assert components == components[..n] + components[n..];
    DataFilesAppend(components[..n], components[n..]);
    DownloadUrlsAppend(DataFiles(components[..n]), DataFiles(components[n..]));
  }
}
