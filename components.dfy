/**
 * The components of a metadata record and the rule that picks the data
 * files among them: a component takes part in the archive when it has an
 * "@type" whose text contains "nrdp:DataFile" and it has a "downloadURL".
 */
module Components {
  import opened JavaLang
  import opened Wrappers

  /**
   * One element of a record's components array. Each field holds the
   * toString() text of the JSON value under that name, or None when the
   * object has no such key. "@type" is usually an array, so its text is
   * the array's JSON text.
   */
  datatype Component = Component(atType: Option<JString>, downloadURL: Option<JString>, filepath: Option<JString>)

  const DataFileTag: JString := Ascii("nrdp:DataFile")

  /**
   * The eligibility test of getCompressed: an "@type" containing the
   * data-file tag, and a download URL. The type test finds the tag at any
   * index of the "@type" text.
   */
  function IsDataFile(c: Component): (r: bool)
    ensures r <==> c.atType.Some? && (exists k :: OccursAt(c.atType.value, DataFileTag, k)) && c.downloadURL.Some?
  {
    && c.atType.Some?
    && Contains(c.atType.value, DataFileTag)
    && c.downloadURL.Some?
  }

  /** The data files among the components, in their order (a stable filter). */
  function DataFiles(cs: seq<Component>): (files: seq<Component>)
    ensures |files| <= |cs|
    ensures forall c | c in files :: IsDataFile(c)
  {
    if cs == [] then []
    else (if IsDataFile(cs[0]) then [cs[0]] else []) + DataFiles(cs[1..])
  }

  /** A component is kept exactly when it is one of the input components and a data file. */
  lemma {:induction false} DataFilesMembers(cs: seq<Component>)
    ensures forall c :: c in DataFiles(cs) <==> c in cs && IsDataFile(c)
  {
    if cs != [] {
      DataFilesMembers(cs[1..]);
      assert cs == [cs[0]] + cs[1..];
    }
  }

  /** Filtering keeps the input order: the data files of a + b are those of a followed by those of b. */
  lemma {:induction false} DataFilesAppend(a: seq<Component>, b: seq<Component>)
    ensures DataFiles(a + b) == DataFiles(a) + DataFiles(b)
  {
    if a != [] {
      assert (a + b)[1..] == a[1..] + b;
      DataFilesAppend(a[1..], b);
    } else {
      assert a + b == b;
    }
  }

  /** Filtering twice changes nothing. */
  lemma {:induction false} DataFilesIdempotent(cs: seq<Component>)
    ensures DataFiles(DataFiles(cs)) == DataFiles(cs)
  {
    if cs != [] {
      DataFilesIdempotent(cs[1..]);
      var head := if IsDataFile(cs[0]) then [cs[0]] else [];
      DataFilesAppend(head, DataFiles(cs[1..]));
    }
  }

  /**
   * The type test is a substring search: an "@type" whose text carries the
   * tag anywhere (for instance inside the JSON text of an array of types)
   * makes a component with a download URL a data file.
   */
  lemma TagAnywhereInType(pre: JString, post: JString, url: JString, path: Option<JString>)
    ensures IsDataFile(Component(Some(pre + DataFileTag + post), Some(url), path))
  {
    ContainsInfix(pre, DataFileTag, post);
  }

  /** The download URLs of data files, in order: the requests getCompressed makes. */
  function DownloadUrls(files: seq<Component>): (urls: seq<JString>)
    requires forall c | c in files :: c.downloadURL.Some?
    ensures |urls| == |files|
    ensures forall k | 0 <= k < |files| :: urls[k] == files[k].downloadURL.value
  {
    if files == [] then [] else [files[0].downloadURL.value] + DownloadUrls(files[1..])
  }

  lemma DownloadUrlsAppend(a: seq<Component>, b: seq<Component>)
    requires forall c | c in a + b :: c.downloadURL.Some?
    ensures DownloadUrls(a + b) == DownloadUrls(a) + DownloadUrls(b)
  {
  }
}
