# Download service of the OAR distribution service, modelled in Dafny

This project models the download service of the NIST OAR distribution service, `DownloadServiceImpl`. The service does three jobs:

- **Bags.** It answers which bags (precomputed bundles) of a dataset are in the cache bucket. The bags are keyed `<dsId>.bag.<suffix>` and listed newest first, which means their keys are compared as Java strings in descending order. The head bag is the first of that list.
- **Cached files.** It finds and hands out the cached file of one distribution of a dataset. That file is the first key the store lists under `<dsId>-<distId>`.
- **ZIP archives.** It builds a ZIP archive of a dataset's data files:
  - It asks the metadata service (RMM) for the record and its components.
  - It takes the third `/`-separated segment of the identifier as the root folder.
  - It walks the components and GETs each data file's download URL.
  - It copies each response body into an entry named `<root>/<filepath>`.
  - It answers with an attachment named `<root>.zip`.
  - Any exception on the way makes the answer `null`.

The model has these modules:

- **`JavaLang`** (`java_lang.dfy`): the parts of `java.lang.String` the service relies on, written out on UTF-16 code units. These are `compareTo`, `startsWith`, `contains` and `split` with a one-character separator. Java's `split` keeps a string without the separator whole and drops trailing empty fields, and the model does the same.
- **`ObjectStore`** (`object_store.dfy`): the cache bucket as the sequence of its objects, in the store's listing order. It has "list by prefix" and "get".
- **`BagResolver`** (`bag_resolver.dfy`): `findBagsById`, `findDataSetBags`, `findDataSetHeadBag`, `getDistributionFileKey` and `downloadDistributionFile`.
  - The sort of `findBagsById` is an in-place insertion sort on an array. It is proved against `NewestFirst`, a functional specification.
  - Any correct sort gives the same list, because a list has only one newest-first permutation (`NewestFirstUnique`).
- **`Components`** (`components.dfy`): a record's components, the data-file test of `getCompressed`, and the stable filter it induces.
- **`ArchiveAssembler`** (`archive_assembler.dfy`): `getCompressed`. `ZipSink`, `BodyStream` and `HttpClient` are classes whose methods update their fields as the Java objects do. The loop and the byte-copy loop are methods with invariants, proved against `Assemble`, a fold that makes the same checks in the same order.
- **`DownloadService`** (`download_service.dfy`): `downloadZipFile`. This covers the RMM answer and the root name `id.split("/")[2]`. It also covers the attachment name and the collapse of every failure into `null`.

The network, the store and the metadata service are parameters: a bucket value, a function from URL to fetch outcome, and a function from query to RMM outcome.

Behaviours of the code that the model keeps:

- **Failed downloads.** The response status is logged and never checked, so a 404 page becomes the entry's content (`StatusIgnored`). Any exception aborts the whole archive, and `downloadZipFile` then returns `null`. No partial archive is returned (`GetCompressed`, `DownloadZipFile`).
- **Empty result list.** An empty "ResultData" array makes `get(0)` throw. The exception is caught and the answer is `null` (`RecordComponents`, `DownloadZipFile`).
- **Bag order.** The bags are sorted in descending key order. The order is strict when the bucket's keys are distinct, as a store's keys are (`BagsStrictlyNewestFirst`).
- **Data-file test.** The test is a substring search in the text of `@type`. It is not a comparison with one type tag (`TagAnywhereInType`).

## Model

| member | source | states |
|---|---|---|
| ObjectStore.List | src/main/java/gov/nist/mml/oar/ds/s3/S3Wrapper.java:95-99 | the listing under a prefix holds every key that begins with the prefix, no other key, and no more keys than the bucket |
| ObjectStore.ListAppend | src/main/java/gov/nist/mml/oar/ds/s3/S3Wrapper.java:95-99 | the listing keeps the store's order: listing two parts of a bucket gives the first part's keys, then the second's |
| ObjectStore.ListFirst | src/main/java/gov/nist/oar/ds/service/impl/DownloadServiceImpl.java:123-125 | the first listed key belongs to the first object, in listing order, whose key begins with the prefix |
| ObjectStore.ListNoRepeats | src/main/java/gov/nist/mml/oar/ds/s3/S3Wrapper.java:95-99 | a bucket with distinct keys lists each key at most once |
| ObjectStore.Get | src/main/java/gov/nist/mml/oar/ds/s3/S3Wrapper.java:63-70 | the data of an object stored under the key; None exactly when no object has that key |
| JavaLang.CompareToFlips | src/main/java/gov/nist/oar/ds/service/impl/DownloadServiceImpl.java:138 | swapping the operands of compareTo negates the result |
| JavaLang.CompareTo | src/main/java/gov/nist/oar/ds/service/impl/DownloadServiceImpl.java:138 | compareTo is zero exactly when the two strings are equal |
| JavaLang.CompareToMeaning | src/main/java/gov/nist/oar/ds/service/impl/DownloadServiceImpl.java:138 | when one string is a prefix of the other, compareTo is the difference of the lengths; otherwise it is the difference of the units at the first index where the strings differ |
| JavaLang.CompareToTransitive | src/main/java/gov/nist/oar/ds/service/impl/DownloadServiceImpl.java:138 | "compares at least as great" is transitive |
| JavaLang.Contains | src/main/java/gov/nist/oar/ds/service/impl/DownloadServiceImpl.java:248 | contains holds exactly when the tag occurs in the text at some index |
| JavaLang.ContainsInfix | src/main/java/gov/nist/oar/ds/service/impl/DownloadServiceImpl.java:248 | every text that has the tag somewhere inside contains it |
| JavaLang.FieldsJoin | src/main/java/gov/nist/oar/ds/service/impl/DownloadServiceImpl.java:203 | splitting on "/" loses nothing: joining the fields with "/" gives back the identifier, and no field holds a "/" |
| JavaLang.FieldsConcat | src/main/java/gov/nist/oar/ds/service/impl/DownloadServiceImpl.java:203 | a slash-free leading segment comes off as the first field, and the remaining fields are those of the rest |
| JavaLang.FieldsWithoutSeparator | src/main/java/gov/nist/oar/ds/service/impl/DownloadServiceImpl.java:203 | a string without "/" is its own single field |
| JavaLang.StripTrailingEmptyKeeps | src/main/java/gov/nist/oar/ds/service/impl/DownloadServiceImpl.java:203 | split drops only trailing empty fields and keeps the rest as a prefix that ends in a non-empty field |
| JavaLang.Split | src/main/java/gov/nist/oar/ds/service/impl/DownloadServiceImpl.java:203 | split returns the leading "/"-fields of the string; it drops only empty trailing fields, no piece holds a "/", and the last piece of a non-empty string is non-empty; a string without "/", the empty string included, comes back as the one-element array of itself |
| JavaLang.SplitIndex | src/main/java/gov/nist/oar/ds/service/impl/DownloadServiceImpl.java:203 | split has an element at index k exactly when some field at k or later is non-empty, and that element is the k-th field |
| BagResolver.BagComparator | src/main/java/gov/nist/oar/ds/service/impl/DownloadServiceImpl.java:138 | the comparator puts bag1 first (result at most zero) exactly when bag1's key compares at least as great; it is zero only for equal keys |
| BagResolver.BagOrderIsSuffixOrder | src/main/java/gov/nist/oar/ds/service/impl/DownloadServiceImpl.java:137-138 | bag keys of one dataset compare as their suffixes after ".bag." do |
| BagResolver.InsertNewestFirst | src/main/java/gov/nist/oar/ds/service/impl/DownloadServiceImpl.java:138 | inserting a key adds exactly that key to the multiset of keys |
| BagResolver.InsertNewestFirstKeepsOrder | src/main/java/gov/nist/oar/ds/service/impl/DownloadServiceImpl.java:138 | inserting a key into a newest-first list keeps it newest first |
| BagResolver.NewestFirst | src/main/java/gov/nist/oar/ds/service/impl/DownloadServiceImpl.java:138 | the specification of the sort returns a newest-first permutation of the listed keys |
| BagResolver.TailNewestFirst | src/main/java/gov/nist/oar/ds/service/impl/DownloadServiceImpl.java:138 | the rest of a newest-first list is newest first |
| BagResolver.SameHead | src/main/java/gov/nist/oar/ds/service/impl/DownloadServiceImpl.java:138 | two newest-first permutations of the same keys start with the same key |
| BagResolver.NewestFirstUnique | src/main/java/gov/nist/oar/ds/service/impl/DownloadServiceImpl.java:138 | two newest-first permutations of the same keys are equal, so every correct sort gives the same list |
| BagResolver.DataSetBags | src/main/java/gov/nist/oar/ds/service/impl/DownloadServiceImpl.java:137-138 | the bags of a dataset are newest first and a permutation of the keys listed under the bag prefix, and a key is among them exactly when an object of the bucket has it and it begins with dsId + ".bag." |
| BagResolver.InsertionSwap | src/main/java/gov/nist/oar/ds/service/impl/DownloadServiceImpl.java:138 | swapping a key with a left neighbour the comparator puts after it moves the one out-of-order position one step left |
| BagResolver.InsertInto | src/main/java/gov/nist/oar/ds/service/impl/DownloadServiceImpl.java:138 | one insertion step extends the newest-first prefix of the array by one element, permutes the array, and leaves the elements after i unchanged |
| BagResolver.SortNewestFirst | src/main/java/gov/nist/oar/ds/service/impl/DownloadServiceImpl.java:138 | the in-place sort leaves the array newest first and a permutation of what it held |
| BagResolver.FindBagsById | src/main/java/gov/nist/oar/ds/service/impl/DownloadServiceImpl.java:136-145 | the result is newest first, a permutation of the keys listed under dsId + ".bag.", and equal to the specification DataSetBags |
| BagResolver.FindDataSetBags | src/main/java/gov/nist/oar/ds/service/impl/DownloadServiceImpl.java:148-151 | the bags of the dataset, newest first; a key is among them exactly when it is listed under the bag prefix |
| BagResolver.FindDataSetHeadBag | src/main/java/gov/nist/oar/ds/service/impl/DownloadServiceImpl.java:154-161 | None (a null body) exactly when no key has the bag prefix; otherwise a listed bag key that compares at least as great as every bag key of the dataset |
| BagResolver.BagsStrictlyNewestFirst | src/main/java/gov/nist/oar/ds/service/impl/DownloadServiceImpl.java:136-145 | with distinct keys in the bucket, each bag compares strictly greater than every later bag |
| BagResolver.BagsIgnoreListingOrder | src/main/java/gov/nist/oar/ds/service/impl/DownloadServiceImpl.java:137-138 | the bags found do not depend on the order in which the store lists the keys |
| BagResolver.GreatestIsHeadBag | src/main/java/gov/nist/oar/ds/service/impl/DownloadServiceImpl.java:154-161 | a bag key of the dataset that compares greater than every other bag key of the dataset is the head bag |
| BagResolver.HeadOfThree | src/main/java/gov/nist/oar/ds/service/impl/DownloadServiceImpl.java:154-161 | of three bags listed with the greatest in the middle, the middle one is the head bag |
| BagResolver.HeadBagExample | src/main/java/gov/nist/oar/ds/service/impl/DownloadServiceImpl.java:154-161 | bags d1.bag.1, d1.bag.3 and d1.bag.2, listed in that order, make d1.bag.3 the head bag of d1 |
| BagResolver.GetDistributionFileKey | src/main/java/gov/nist/oar/ds/service/impl/DownloadServiceImpl.java:121-129 | None (null) exactly when no key begins with dsId + "-" + distId; otherwise the key of the first such object in listing order |
| BagResolver.DistributionLookupIsByPrefix | src/main/java/gov/nist/oar/ds/service/impl/DownloadServiceImpl.java:122-125 | the lookup is by prefix only, so a file cached for distribution "10" answers a request for distribution "1" |
| BagResolver.DownloadDistributionFile | src/main/java/gov/nist/oar/ds/service/impl/DownloadServiceImpl.java:103-112 | None (null) exactly when no key matches the distribution prefix; otherwise the object stored under the first listed key with that prefix (the key getDistributionFileKey returns), with its data |
| Components.IsDataFile | src/main/java/gov/nist/oar/ds/service/impl/DownloadServiceImpl.java:247-250 | a component is a data file exactly when it has an "@type" whose text holds "nrdp:DataFile" at some index, and a download URL |
| Components.DataFiles | src/main/java/gov/nist/oar/ds/service/impl/DownloadServiceImpl.java:245-250 | the kept components are no more than the input and all pass the data-file test |
| Components.DataFilesMembers | src/main/java/gov/nist/oar/ds/service/impl/DownloadServiceImpl.java:245-250 | a component is kept exactly when it is an input component with a type containing "nrdp:DataFile" and a download URL |
| Components.DataFilesAppend | src/main/java/gov/nist/oar/ds/service/impl/DownloadServiceImpl.java:245-250 | the filter keeps the input order: the data files of a + b are those of a, then those of b |
| Components.DataFilesIdempotent | src/main/java/gov/nist/oar/ds/service/impl/DownloadServiceImpl.java:245-250 | filtering the data files again changes nothing |
| Components.TagAnywhereInType | src/main/java/gov/nist/oar/ds/service/impl/DownloadServiceImpl.java:247-250 | a component is a data file when its "@type" text carries the tag anywhere (as in the JSON text of a type array) and it has a download URL |
| ArchiveAssembler.EntryName | src/main/java/gov/nist/oar/ds/service/impl/DownloadServiceImpl.java:258 | an entry name is the root name, a "/", and the filepath; under a slash-free root its "/"-fields are the root followed by the filepath's fields |
| ArchiveAssembler.AddComponent | src/main/java/gov/nist/oar/ds/service/impl/DownloadServiceImpl.java:251-269 | one iteration: a component that is not a data file changes nothing; a data file that gets through every check appends exactly one entry, with a new name no longer than 0xFFFF units, so distinct names stay distinct |
| ArchiveAssembler.AssembleFrom | src/main/java/gov/nist/oar/ds/service/impl/DownloadServiceImpl.java:245-272 | the rest of the loop keeps the entries written so far, adds one entry per remaining data file, and keeps names distinct |
| ArchiveAssembler.Assemble | src/main/java/gov/nist/oar/ds/service/impl/DownloadServiceImpl.java:234-274 | an archive has exactly one entry per data file, with distinct names |
| ArchiveAssembler.AssembleFromAppend | src/main/java/gov/nist/oar/ds/service/impl/DownloadServiceImpl.java:245-272 | the loop over a + b is the loop over a and then, from the entries it wrote, the loop over b; an error in a ends it |
| ArchiveAssembler.AssembleFromOutcome | src/main/java/gov/nist/oar/ds/service/impl/DownloadServiceImpl.java:245-272 | from any point of the loop, assembly succeeds exactly when every remaining data file is deliverable and all entry names are distinct; it then appends one entry per data file, in order |
| ArchiveAssembler.AssembleOutcome | src/main/java/gov/nist/oar/ds/service/impl/DownloadServiceImpl.java:234-278 | an archive is produced exactly when every data file is deliverable and the names are distinct; it has one entry per data file, named fileName + "/" + filepath, holding every byte of that file's response body |
| ArchiveAssembler.StatusIgnored | src/main/java/gov/nist/oar/ds/service/impl/DownloadServiceImpl.java:253-254 | the response status is never checked: servers that differ only in status codes give the same archive |
| ArchiveAssembler.BodyStream.constructor | src/main/java/gov/nist/oar/ds/service/impl/DownloadServiceImpl.java:257 | the stream starts at the first byte of the response entity |
| ArchiveAssembler.BodyStream.Read | src/main/java/gov/nist/oar/ds/service/impl/DownloadServiceImpl.java:261 | read() gives the next byte and advances; at the end it gives -1, or fails if the connection broke off |
| ArchiveAssembler.ZipSink.constructor | src/main/java/gov/nist/oar/ds/service/impl/DownloadServiceImpl.java:238-239 | a new ZIP stream has no entries and no open entry |
| ArchiveAssembler.ZipSink.PutNextEntry | src/main/java/gov/nist/oar/ds/service/impl/DownloadServiceImpl.java:259 | closes the open entry, then opens the named entry unless that name was already used (a duplicate-entry exception) |
| ArchiveAssembler.ZipSink.Write | src/main/java/gov/nist/oar/ds/service/impl/DownloadServiceImpl.java:263 | appends one byte to the open entry and changes nothing else |
| ArchiveAssembler.ZipSink.CloseEntry | src/main/java/gov/nist/oar/ds/service/impl/DownloadServiceImpl.java:268 | the open entry, with the bytes written to it, joins the finished entries |
| ArchiveAssembler.ZipSink.Close | src/main/java/gov/nist/oar/ds/service/impl/DownloadServiceImpl.java:274 | closes the open entry and finishes the archive |
| ArchiveAssembler.HttpClient.constructor | src/main/java/gov/nist/oar/ds/service/impl/DownloadServiceImpl.java:242 | a client that has made no request yet |
| ArchiveAssembler.HttpClient.Execute | src/main/java/gov/nist/oar/ds/service/impl/DownloadServiceImpl.java:252-253 | the outcome of a GET of the URL, and the URL is recorded as requested |
| ArchiveAssembler.CopyBody | src/main/java/gov/nist/oar/ds/service/impl/DownloadServiceImpl.java:260-264 | the copy loop appends every byte of the body to the open entry, leaves the stream at its end, and reports completion exactly when the stream did not break off |
| ArchiveAssembler.AddDataFile | src/main/java/gov/nist/oar/ds/service/impl/DownloadServiceImpl.java:252-269 | one data file: a single GET, then the ZIP stream holds exactly what one step of the specification gives, or the step's error is reported |
| ArchiveAssembler.GetCompressed | src/main/java/gov/nist/oar/ds/service/impl/DownloadServiceImpl.java:234-278 | the result equals Assemble; the URLs requested are a prefix of the data files' download URLs in order, all of them on success; on an error there is a data file n such that the loop got through the components before n, the requests end with n's URL, and the iteration for n, from the entries written so far, gives the error |
| DownloadService.RootName | src/main/java/gov/nist/oar/ds/service/impl/DownloadServiceImpl.java:203 | id.split("/")[2] exists exactly when some "/"-field from the third on is non-empty; it is then the third field and holds no "/" |
| DownloadService.RootNameNeedsTwoSlashes | src/main/java/gov/nist/oar/ds/service/impl/DownloadServiceImpl.java:203 | an identifier with fewer than two slashes has no root name |
| DownloadService.RootNameOfSegments | src/main/java/gov/nist/oar/ds/service/impl/DownloadServiceImpl.java:203 | for a/b/c, alone or followed by more "/"-segments, with slash-free segments and a non-empty c, the root name is c |
| DownloadService.RootNameOfArk | src/main/java/gov/nist/oar/ds/service/impl/DownloadServiceImpl.java:203 | the root name of ark:/88434/mds2-2106 is mds2-2106 |
| DownloadService.RecordsQuery | src/main/java/gov/nist/oar/ds/service/impl/DownloadServiceImpl.java:199 | the query is the RMM base URL, "records?@id=", the identifier as given, then "&include=components" |
| DownloadService.RecordComponents | src/main/java/gov/nist/oar/ds/service/impl/DownloadServiceImpl.java:204-210 | the components of the first record; None exactly when the exchange failed, the body is null, "ResultData" is missing or empty, or the first record has no "components" |
| DownloadService.DownloadZipFile | src/main/java/gov/nist/oar/ds/service/impl/DownloadServiceImpl.java:183-223 | an answer exactly when the record's components were found, the root name exists and the archive was assembled; it is then named root + ".zip" and holds the assembled entries; null otherwise |
| DownloadService.EntriesUnderRoot | src/main/java/gov/nist/oar/ds/service/impl/DownloadServiceImpl.java:212-216 | every entry lies in one folder, the root name, which is the attachment name without ".zip" |
| DownloadService.OneDataFileAmongOthers | src/main/java/gov/nist/oar/ds/service/impl/DownloadServiceImpl.java:245-269 | record a/b/root with one data file and one component without a download URL gives exactly one entry, root/filepath, holding the served bytes |
| DownloadService.MyDataExample | src/main/java/gov/nist/oar/ds/service/impl/DownloadServiceImpl.java:203-269 | the identifier abc/def/mydata has root name mydata; under it, a data file of type ["nrdp:DataFile"] at http://x/1 (filepath a.txt) and an "nrdp:Other" component give one entry, mydata/a.txt, with the bytes served |

## Left out

- List: the store answers a prefix listing with one page of at most 1000 keys, and the code reads only that page. The model lists every matching key.
- Object download: S3Wrapper.download URL-encodes the key for the attachment name and sets the content type and length. The model returns the key and the bytes.
- uploadToCache is not part of this model. It is a one-line delegation to the store's upload.
- getMappingFile is not part of this model. It is marked unused.
- HTTP clients:
  - The self-signed-certificate TLS client and its closing are left out.
  - So are the closing of responses and streams, which does not change the result.
  - Logging is left out.
- RMM query: RestTemplate expands the query as a URI template and percent-encodes it. The model hands the raw query text to the answer function.
- JSON handling:
  - The Gson/JSONParser round trips are left out. A component's "@type", "downloadURL" and "filepath" are modelled as the toString() text of their values.
  - A JSON null value is modelled as an absent key, because Gson drops null members when it serialises.
  - A component, a "ResultData" or a "components" value of the wrong JSON type (a ClassCastException, so a null answer) is left out.
- ZIP format:
  - The archive is its sequence of entries. The deflate encoding, the container bytes and the content length are not modelled.
  - An entry name is limited by its length in UTF-16 units, as the ZipEntry constructor checks. The UTF-8 encoding of names is not modelled.
- Data-file test: the model's eligibility test reads "@type" and "downloadURL" as optional fields of a component. The code tests the same keys with containsKey in nested `if`s. "filepath" is read only after the GET, when the entry name is built.
- BagResolver.SortNewestFirst: Collections.sort (a merge sort) is modelled as an insertion sort. The result is the same, because a list has only one newest-first permutation (BagResolver.NewestFirstUnique).
- Request log: the record of requested URLs (HttpClient.requested) is ghost state. No GET has an effect other than its answer.
