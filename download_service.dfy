/**
 * downloadZipFile(id): ask the metadata service (RMM) for the record with
 * this identifier and its components, take the third "/"-separated segment
 * of the identifier as the archive's root folder, assemble the archive of
 * the record's data files, and answer with it as an attachment named
 * root + ".zip". Any exception on the way makes the answer null.
 */
module DownloadService {
  import opened JavaLang
  import opened Wrappers
  import opened Components
  import opened ArchiveAssembler

  /** One element of the "ResultData" array: a record, with its "components" array when it has one. */
  datatype ResultRecord = ResultRecord(components: Option<seq<Component>>)

  /** The body of the RMM answer, with its "ResultData" array when it has one. */
  datatype RecordsBody = RecordsBody(resultData: Option<seq<ResultRecord>>)

  /** What restTemplate.exchange gives: a response with a body (None: a null body), or an exception. */
  datatype RecordsOutcome = Answered(body: Option<RecordsBody>) | ExchangeFailed

  /** A successful answer: the attachment's file name and the entries of the archive sent as its bytes. */
  datatype ZipDownload = ZipDownload(attachmentName: JString, entries: seq<ArchiveEntry>)

  const RecordsPath: JString := Ascii("records?@id=")
  const IncludeComponents: JString := Ascii("&include=components")

  /**
   * The RMM query for a record and its components: the RMM base URL, the
   * records path, the identifier as it was given (not URL-encoded), then
   * the request for the components.
   */
  function RecordsQuery(rmmApi: JString, id: JString): (query: JString)
    ensures StartsWith(query, rmmApi + RecordsPath)
    ensures OccursAt(query, id, |rmmApi| + |RecordsPath|)
    ensures query[|rmmApi| + |RecordsPath| + |id|..] == IncludeComponents
  {
    rmmApi + RecordsPath + id + IncludeComponents
  }

  const ZipSuffix: JString := Ascii(".zip")

  /**
   * id.split("/")[2]: the third segment of the identifier, None where the
   * index is out of bounds (an ArrayIndexOutOfBoundsException). It exists
   * exactly when some segment from the third on is non-empty, it is the
   * third field between slashes, and it holds no slash.
   */
  function RootName(id: JString): (root: Option<JString>)
    ensures root.Some? <==> exists j :: 2 <= j < |Fields(id, Slash)| && Fields(id, Slash)[j] != []
    ensures root.Some? ==> root.value == Fields(id, Slash)[2] && Slash !in root.value
  {
    SplitIndex(id, Slash, 2);
    FieldsJoin(id, Slash);
    var parts := Split(id, Slash);
    if |parts| > 2 then
      assert Fields(id, Slash)[2] in Fields(id, Slash);
      Some(parts[2])
    else None
  }

  /** An identifier with fewer than two slashes has no root name: the download fails. */
  lemma RootNameNeedsTwoSlashes(a: JString, b: JString)
    requires Slash !in a && Slash !in b
    ensures RootName(a).None?
    ensures RootName(a + [Slash] + b).None?
  {
    FieldsWithoutSeparator(a, Slash);
    FieldsWithoutSeparator(b, Slash);
    FieldsConcat(a, Slash, b);
  }

  /**
   * For an identifier a/b/c followed by nothing or by further "/"-segments,
   * with a, b and c free of slashes and c non-empty, the root name is c.
   */
  lemma RootNameOfSegments(a: JString, b: JString, c: JString, tail: JString)
    requires Slash !in a && Slash !in b && Slash !in c && c != []
    requires tail == [] || tail[0] == Slash
    ensures RootName(a + [Slash] + b + [Slash] + c + tail) == Some(c)
  {
    var id := a + [Slash] + b + [Slash] + c + tail;
    assert id == a + [Slash] + (b + [Slash] + (c + tail));
    FieldsConcat(a, Slash, b + [Slash] + (c + tail));
    FieldsConcat(b, Slash, c + tail);
    if tail == [] {
      assert c + tail == c;
      FieldsWithoutSeparator(c, Slash);
    } else {
      assert c + tail == c + [Slash] + tail[1..];
      FieldsConcat(c, Slash, tail[1..]);
    }
    assert Fields(id, Slash)[2] == c;
  }

  const ArkId: JString := Ascii("ark:/88434/mds2-2106")
  const ArkRoot: JString := Ascii("mds2-2106")

  /** An ARK identifier such as "ark:/88434/mds2-2106" has its dataset part as root name. */
  lemma RootNameOfArk()
    ensures RootName(ArkId) == Some(ArkRoot)
  {
    var a, b := Ascii("ark:"), Ascii("88434");
    assert ArkId == a + [Slash] + b + [Slash] + ArkRoot + [];
    assert Slash !in a && Slash !in b && Slash !in ArkRoot && ArkRoot != [];
    RootNameOfSegments(a, b, ArkRoot, []);
  }

  /**
   * The components of the first record of the answer, or None where the
   * source throws: the exchange failed, the body is null, there is no
   * "ResultData" array, it is empty, or its first record has no
   * "components" array.
   */
  function RecordComponents(outcome: RecordsOutcome): (components: Option<seq<Component>>)
    ensures components.Some? <==>
      && outcome.Answered?
      && outcome.body.Some?
      && outcome.body.value.resultData.Some?
      && |outcome.body.value.resultData.value| > 0
      && outcome.body.value.resultData.value[0].components.Some?
    ensures components.Some? ==> components == outcome.body.value.resultData.value[0].components
  {
    match outcome
    case ExchangeFailed => None
    case Answered(body) =>
      if body.None? || body.value.resultData.None? || |body.value.resultData.value| == 0 then None
      else body.value.resultData.value[0].components
  }

  /**
   * downloadZipFile(id). records answers the RMM query, fetch the GETs of
   * the download URLs. The answer is an archive exactly when the record and
   * its components were found, the identifier has a root name, and the
   * archive could be assembled; it is then named root + ".zip" and holds
   * the assembled entries.
   */
  method DownloadZipFile(rmmApi: JString, id: JString, records: JString -> RecordsOutcome,
                         fetch: JString -> FetchOutcome)
    returns (r: Option<ZipDownload>)
    ensures r.Some? <==>
      && RecordComponents(records(RecordsQuery(rmmApi, id))).Some?
      && RootName(id).Some?
      && Assemble(RecordComponents(records(RecordsQuery(rmmApi, id))).value, RootName(id).value, fetch).Ok?
    ensures r.Some? ==>
      && r.value.attachmentName == RootName(id).value + ZipSuffix
      && r.value.entries == Assemble(RecordComponents(records(RecordsQuery(rmmApi, id))).value, RootName(id).value, fetch).value
  {
    var outcome := records(RecordsQuery(rmmApi, id));
    if outcome.ExchangeFailed? {
      return None;
    }
    var fileName := RootName(id);
    if fileName.None? {
      return None;
    }
    var components := RecordComponents(outcome);
    if components.None? {
      return None;
    }
    var compressed, _ := GetCompressed(components.value, fileName.value, fetch);
    if compressed.Err? {
      return None;
    }
    r := Some(ZipDownload(fileName.value + ZipSuffix, compressed.value));
  }

  /**
   * Every entry of an archive assembled under a root name without slashes
   * sits in one folder: the first "/"-field of its name is the root, which
   * is the attachment name without ".zip".
   */
  lemma EntriesUnderRoot(components: seq<Component>, root: JString, fetch: JString -> FetchOutcome)
    requires Slash !in root
    requires Assemble(components, root, fetch).Ok?
    ensures forall e | e in Assemble(components, root, fetch).value :: Fields(e.name, Slash)[0] == root
    ensures (root + ZipSuffix)[..|root|] == root
  {
    AssembleOutcome(components, root, fetch);
    var entries := Assemble(components, root, fetch).value;
    var files := DataFiles(components);
    forall e | e in entries ensures Fields(e.name, Slash)[0] == root {
      var k :| 0 <= k < |entries| && entries[k] == e;
      FieldsConcat(root, Slash, files[k].filepath.value);
    }
  }

  /**
   * A record a/b/root whose components are a data file (an "@type" text
   * holding the tag, a download URL and a filepath) followed by a component
   * without a download URL: when the URL answers with a body that reads to
   * its end, the archive holds exactly one entry, root/filepath, with the
   * served bytes.
   */
  lemma OneDataFileAmongOthers(a: JString, b: JString, root: JString, pre: JString, post: JString,
                               url: JString, path: JString, otherType: Option<JString>,
                               fetch: JString -> FetchOutcome, served: seq<Byte>)
    requires Slash !in a && Slash !in b && Slash !in root && root != []
    requires |root| + 1 + |path| <= MaxEntryNameLength
    requires fetch(url).Responded? && fetch(url).response.entity == Some(Entity(served, false))
    ensures RootName(a + [Slash] + b + [Slash] + root) == Some(root)
    ensures Assemble([Component(Some(pre + DataFileTag + post), Some(url), Some(path)), Component(otherType, None, None)],
                     root, fetch)
      == Ok([ArchiveEntry(root + [Slash] + path, served)])
  {
    assert a + [Slash] + b + [Slash] + root + [] == a + [Slash] + b + [Slash] + root;
    RootNameOfSegments(a, b, root, []);
    var c1 := Component(Some(pre + DataFileTag + post), Some(url), Some(path));
    var c2 := Component(otherType, None, None);
    var e := ArchiveEntry(root + [Slash] + path, served);
    TagAnywhereInType(pre, post, url, Some(path));
    assert Names([]) == {};
    assert EntryName(root, path) == e.name;
    assert [] + [e] == [e];
    assert AddComponent([], c1, root, fetch) == Ok([e]);
    assert AddComponent([e], c2, root, fetch) == Ok([e]);
    assert [c1, c2][1..] == [c2] && [c2][1..] == [];
    assert AssembleFrom([e], [c2], root, fetch) == Ok([e]);
    assert AssembleFrom([], [c1, c2], root, fetch) == Ok([e]);
  }

  // The components of the example below.
  const MyDataUrl: JString := Ascii("http://x/1")
  const MyDataPath: JString := Ascii("a.txt")
  const MyDataRoot: JString := Ascii("mydata")
  const MyDataId: JString := Ascii("abc/def/mydata")
  const DataFileType: JString := Ascii("[\"") + DataFileTag + Ascii("\"]")
  const OtherType: JString := Ascii("[\"nrdp:Other\"]")

  /**
   * The record "abc/def/mydata", whose root name is mydata, with a data
   * file of type ["nrdp:DataFile"] at http://x/1 with filepath a.txt, and a
   * component of type ["nrdp:Other"]: the archive holds one entry,
   * mydata/a.txt, with the bytes served.
   */
  lemma MyDataExample(fetch: JString -> FetchOutcome, served: seq<Byte>)
    requires fetch(MyDataUrl).Responded? && fetch(MyDataUrl).response.entity == Some(Entity(served, false))
    ensures RootName(MyDataId) == Some(MyDataRoot)
    ensures Assemble([Component(Some(DataFileType), Some(MyDataUrl), Some(MyDataPath)),
                      Component(Some(OtherType), None, None)], MyDataRoot, fetch)
      == Ok([ArchiveEntry(MyDataRoot + [Slash] + MyDataPath, served)])
  {
    assert MyDataId == Ascii("abc") + [Slash] + Ascii("def") + [Slash] + MyDataRoot;
    assert Slash !in MyDataRoot && MyDataRoot != [];
    assert |MyDataRoot| + 1 + |MyDataPath| <= MaxEntryNameLength;
    OneDataFileAmongOthers(Ascii("abc"), Ascii("def"), MyDataRoot, Ascii("[\""), Ascii("\"]"),
                           MyDataUrl, MyDataPath, Some(OtherType), fetch, served);
  }
}
