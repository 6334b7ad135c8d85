/**
 * The `POST` handler of the upload route: reject an empty submission, run
 * the per-file loop, sort the conversions, group them by folder, summarise
 * them for the JSON body and, when at least one image converted, list them
 * in a ZIP archive.
 */
module Upload {
  import opened JsStrings
  import opened Paths
  import opened Classify
  import opened Processing
  import opened Ordering
  import opened Grouping
  import opened Archive

  datatype Option<T> = None | Some(value: T)

  const NO_FILES_MESSAGE: string := "Không có file nào được gửi"
  const SUCCESS_MESSAGE: string := "Upload thành công"
  const SERVER_ERROR_MESSAGE: string := "Lỗi khi upload file"

  /** What the response says about one conversion: its bytes are replaced by their number. */
  datatype Summary = Summary(originalName: string, fileName: string, folder: string, mimeType: string, size: nat)

  /**
   * The JSON body of a successful upload. `zipData` stands for the archive
   * by the entries appended to it, in order.
   */
  datatype UploadResponse = UploadResponse(
    message: string,
    files: seq<string>,
    count: nat,
    convertedImages: seq<Summary>,
    convertedCount: nat,
    groupedResults: map<string, seq<Summary>>,
    errors: seq<string>,
    zipData: Option<seq<ZipEntry>>)

  /**
   * The outcome of `POST`: the 400 answer to an empty submission, the 500
   * answer to an exception caught by the handler, or the body of a 200 answer.
   */
  datatype PostResult = BadRequest(error: string) | ServerError(error: string) | Ok(body: UploadResponse)

  /** The object literal of lines 133-139 and 142-148. */
  function Summarize(c: ConversionResult): Summary
  {
    Summary(c.originalName, c.fileName, c.folder, c.mimeType, |c.convertedBuffer|)
  }

  /** `.map(img => ({ ... }))` over a list of conversions. */
  function Summaries(cs: seq<ConversionResult>): (ss: seq<Summary>)
    ensures |ss| == |cs|
  {
    seq(|cs|, i requires 0 <= i < |cs| => Summarize(cs[i]))
  }

  /** The summaries of `ss` whose folder is `f`, in their order in `ss`. */
  function SummariesInFolder(ss: seq<Summary>, f: string): (g: seq<Summary>)
    ensures forall s :: s in g ==> s in ss && s.folder == f
  {
    if ss == [] then []
    else
      var last := ss[|ss| - 1];
      assert forall s :: s in ss[..|ss| - 1] ==> s in ss;
      SummariesInFolder(ss[..|ss| - 1], f) + (if last.folder == f then [last] else [])
  }

  /** Lines 141-156: every group of conversions becomes its list of summaries. */
  function GroupSummaries(groups: map<string, seq<ConversionResult>>): map<string, seq<Summary>>
  {
    map f | f in groups :: Summaries(groups[f])
  }

  /**
   * Lines 176-179: one entry per sorted conversion, at `folder/fileName`
   * (or `fileName` at the root), holding the converted bytes.
   */
  function ArchiveEntries(sorted: seq<ConversionResult>): seq<ZipEntry>
  {
    seq(|sorted|, i requires 0 <= i < |sorted| => ZipEntry(JoinPath(sorted[i].folder, sorted[i].fileName), sorted[i].convertedBuffer))
  }

  /** The answer `POST` gives to the entries of a submission. */
  function Respond(entries: seq<FormEntry>, transcode: Bytes -> Transcoded): (r: PostResult)
    ensures r.BadRequest? <==> |entries| == 0
    ensures r.BadRequest? ==> r.error == NO_FILES_MESSAGE
    ensures r.ServerError? ==> r.error == SERVER_ERROR_MESSAGE
    ensures r.Ok? ==> r.body.message == SUCCESS_MESSAGE
  {
    if |entries| == 0 then BadRequest(NO_FILES_MESSAGE)
    else
      var ledger := LedgerOf(entries, transcode);
      var sorted := SortResults(ledger.convertedImages);
      if HasInheritedFolder(sorted) then ServerError(SERVER_ERROR_MESSAGE)
      else Ok(UploadResponse(
        SUCCESS_MESSAGE,
        ledger.uploadedFiles,
        |ledger.uploadedFiles|,
        Summaries(sorted),
        |ledger.convertedImages|,
        GroupSummaries(GroupsOf(sorted)),
        ledger.processingErrors,
        if |ledger.convertedImages| > 0 then Some(ArchiveEntries(sorted)) else None))
  }

  /**
   * `POST` (lines 34-184): the loop, the in-place sort, the grouping, the
   * summaries and the archive, as the route runs them one after the other.
   */
  method Post(entries: seq<FormEntry>, transcode: Bytes -> Transcoded) returns (r: PostResult)
    ensures r == Respond(entries, transcode)
  {
    if |entries| == 0 {
      return BadRequest(NO_FILES_MESSAGE);
    }
    var uploadedFiles, convertedImages, processingErrors := ProcessEntries(entries, transcode);
    ghost var ledger := LedgerOf(entries, transcode);
    assert uploadedFiles == ledger.uploadedFiles;
    assert convertedImages == ledger.convertedImages;
    assert processingErrors == ledger.processingErrors;
    var images := new ConversionResult[|convertedImages|](i requires 0 <= i < |convertedImages| => convertedImages[i]);
    assert images[..] == convertedImages;
    SortByFolderThenName(images);
    var sorted := images[..];
    var outcome := GroupByFolder(sorted);
    if outcome.PushThrows? {
      return ServerError(SERVER_ERROR_MESSAGE);
    }
    var groups := outcome.groups;
    assert groups == GroupsOf(sorted);
    var response := UploadResponse(
      SUCCESS_MESSAGE,
      uploadedFiles,
      |uploadedFiles|,
      Summaries(sorted),
      images.Length,
      GroupSummaries(groups),
      processingErrors,
      None);
    if images.Length > 0 {
      var zipEntries := BuildArchive(sorted);
      response := response.(zipData := Some(zipEntries));
    }
    r := Ok(response);
  }

  /** Lines 163-181: a fresh archive, then one `append` per sorted conversion. */
  method BuildArchive(sorted: seq<ConversionResult>) returns (zipEntries: seq<ZipEntry>)
    ensures zipEntries == ArchiveEntries(sorted)
  {
    var archive := new ZipArchive();
    for i := 0 to |sorted|
      invariant archive.entries == ArchiveEntries(sorted)[..i]
    {
      var img := sorted[i];
      var filePath := JoinPath(img.folder, img.fileName);
      archive.Append(img.convertedBuffer, filePath);
    }
    zipEntries := archive.entries;
  }

  /**
   * The 500 answer: a non-empty submission fails exactly when some converted
   * image's folder is named like a member every object inherits, because
   * the grouping then pushes onto that member.
   */
  lemma RespondServerError(entries: seq<FormEntry>, transcode: Bytes -> Transcoded)
    ensures Respond(entries, transcode).ServerError? <==>
              |entries| > 0 && exists c :: c in LedgerOf(entries, transcode).convertedImages && IsInheritedKey(c.folder)
  {
    var cs := LedgerOf(entries, transcode).convertedImages;
    var sorted := SortResults(cs);
    SortResultsPermutes(cs);
    HasInheritedFolderIff(sorted);
    forall c ensures c in sorted <==> c in cs {
      assert c in sorted <==> c in multiset(sorted);
      assert c in cs <==> c in multiset(cs);
    }
  }

  /** An upload is answered with 200 exactly when it is not empty and no converted folder is an inherited name. */
  lemma RespondOk(entries: seq<FormEntry>, transcode: Bytes -> Transcoded)
    ensures Respond(entries, transcode).Ok? <==>
              |entries| > 0 && forall c :: c in LedgerOf(entries, transcode).convertedImages ==> !IsInheritedKey(c.folder)
  {
    RespondServerError(entries, transcode);
  }

  /** One image that converts, uploaded in a folder named like an inherited member, makes the whole upload fail with the 500 answer. */
  lemma InheritedFolderFails(name: string, bytes: Bytes, transcode: Bytes -> Transcoded)
    requires IsImageFile(FileNameOf(name)) && IsInheritedKey(FolderOf(name))
    requires transcode(bytes).Encoded?
    ensures Respond([FilePart(name, bytes)], transcode) == ServerError(SERVER_ERROR_MESSAGE)
  {
    var entry := FilePart(name, bytes);
    var c := ConversionOf(name, transcode(bytes).webp);
    assert LedgerOf([entry], transcode).convertedImages == [c] by {
      SingleEntry(entry, transcode);
    }
    assert c in [c] && IsInheritedKey(c.folder);
    RespondServerError([entry], transcode);
  }

  /** The concrete case: "constructor/a.jpg" is an image in the folder "constructor". */
  lemma ConstructorFolderFails(bytes: Bytes, transcode: Bytes -> Transcoded)
    requires transcode(bytes).Encoded?
    ensures Respond([FilePart("constructor/a.jpg", bytes)], transcode) == ServerError(SERVER_ERROR_MESSAGE)
  {
    ConstructorPath();
    JpgIsImage();
    InheritedFolderFails("constructor/a.jpg", bytes, transcode);
  }

  lemma ConstructorPath()
    ensures FileNameOf("constructor/a.jpg") == "a.jpg" && FolderOf("constructor/a.jpg") == "constructor"
  {
    LastIndexOfAt("constructor/a.jpg", SEPARATOR, 11);
  }

  lemma JpgIsImage()
    ensures IsImageFile("a.jpg")
  {
    LastIndexOfAt("a.jpg", '.', 1);
    var low := ToLower("a.jpg");
    assert low[1] == '.' && low[2] == 'j' && low[3] == 'p' && low[4] == 'g';
    assert SubstringFrom(low, 1) == IMAGE_EXTENSIONS[0];
  }

  /**
   * Counting: `count` is the number of file parts and the manifest lists
   * their relative paths in input order; every image file part gives
   * exactly one conversion or one error.
   */
  lemma RespondCounts(entries: seq<FormEntry>, transcode: Bytes -> Transcoded)
    requires Respond(entries, transcode).Ok?
    ensures var b := Respond(entries, transcode).body;
            && b.files == Manifest(entries)
            && b.count == |b.files| == FileCount(entries)
            && b.convertedCount == |b.convertedImages|
            && b.convertedCount + |b.errors| == ImageCount(entries) <= b.count
  {
    ManifestInOrder(entries, transcode);
    LedgerCounts(entries, transcode);
    SortResultsPermutes(LedgerOf(entries, transcode).convertedImages);
  }

  lemma SummariesAppend(cs: seq<ConversionResult>, c: ConversionResult)
    ensures Summaries(cs + [c]) == Summaries(cs) + [Summarize(c)]
  {
  }

  /** Summarising commutes with inserting one record. */
  lemma {:induction false} SummariesOfInsert(s: seq<ConversionResult>, x: ConversionResult)
    ensures multiset(Summaries(Insert(s, x))) == multiset(Summaries(s)) + multiset{Summarize(x)}
    decreases |s|
  {
    if s != [] {
      var init, last := s[..|s| - 1], s[|s| - 1];
      assert s == init + [last];
      SummariesAppend(init, last);
      if CompareResults(last, x) > 0 {
        SummariesOfInsert(init, x);
        SummariesAppend(Insert(init, x), last);
      } else {
        SummariesAppend(s, x);
      }
    } else {
      assert Insert(s, x) == [] + [x];
      SummariesAppend([], x);
    }
  }

  /** The sorted summaries are a permutation of the summaries of the conversions. */
  lemma {:induction false} SummariesOfSort(s: seq<ConversionResult>)
    ensures multiset(Summaries(SortResults(s))) == multiset(Summaries(s))
    decreases |s|
  {
    if s != [] {
      var init, last := s[..|s| - 1], s[|s| - 1];
      SummariesOfSort(init);
      SummariesOfInsert(SortResults(init), last);
      assert s == init + [last];
      SummariesAppend(init, last);
    }
  }

  /**
   * The listed conversions are the successful conversions, each once, in
   * order of folder and then of converted file name.
   */
  lemma RespondSorted(entries: seq<FormEntry>, transcode: Bytes -> Transcoded)
    requires Respond(entries, transcode).Ok?
    ensures var b := Respond(entries, transcode).body;
            && multiset(b.convertedImages) == multiset(Summaries(LedgerOf(entries, transcode).convertedImages))
            && forall i, j :: 0 <= i < j < |b.convertedImages| ==>
                 var x, y := b.convertedImages[i], b.convertedImages[j];
                 && CompareStrings(x.folder, y.folder) <= 0
                 && (x.folder == y.folder ==> CompareStrings(x.fileName, y.fileName) <= 0)
  {
    var cs := LedgerOf(entries, transcode).convertedImages;
    var sorted := SortResults(cs);
    SummariesOfSort(cs);
    SortResultsSorted(cs);
    var ss := Summaries(sorted);
    forall i, j | 0 <= i < j < |ss|
      ensures CompareStrings(ss[i].folder, ss[j].folder) <= 0
      ensures ss[i].folder == ss[j].folder ==> CompareStrings(ss[i].fileName, ss[j].fileName) <= 0
    {
      assert CompareResults(sorted[i], sorted[j]) <= 0;
    }
  }

  /**
   * Every listed summary comes from an image file part whose transcoding
   * succeeded: it carries that part's file name, folder and converted name,
   * the WebP MIME type, and the length of the converted bytes as its size.
   */
  lemma RespondSummaryOrigin(entries: seq<FormEntry>, transcode: Bytes -> Transcoded, k: nat)
    requires Respond(entries, transcode).Ok?
    requires k < |Respond(entries, transcode).body.convertedImages|
    ensures exists j, webp :: 0 <= j < |entries| && SummarizedFrom(Respond(entries, transcode).body.convertedImages[k], entries[j], transcode, webp)
  {
    var sorted := SortResults(LedgerOf(entries, transcode).convertedImages);
    RespondListsSorted(entries, transcode);
    SortedConversionOrigin(entries, transcode, k);
    var j :| 0 <= j < |entries| && ConvertedFrom(sorted[k], entries[j], transcode);
    SummaryOfConversion(sorted[k], entries[j], transcode);
  }

  /** The listed summaries are those of the sorted conversions. */
  lemma RespondListsSorted(entries: seq<FormEntry>, transcode: Bytes -> Transcoded)
    requires Respond(entries, transcode).Ok?
    ensures var sorted := SortResults(LedgerOf(entries, transcode).convertedImages);
            && |sorted| == |Respond(entries, transcode).body.convertedImages|
            && forall k :: 0 <= k < |sorted| ==> Respond(entries, transcode).body.convertedImages[k] == Summarize(sorted[k])
  {
  }

  /** Every sorted conversion comes from an image file part whose transcoding succeeded. */
  lemma SortedConversionOrigin(entries: seq<FormEntry>, transcode: Bytes -> Transcoded, k: nat)
    requires k < |SortResults(LedgerOf(entries, transcode).convertedImages)|
    ensures exists j :: 0 <= j < |entries| && ConvertedFrom(SortResults(LedgerOf(entries, transcode).convertedImages)[k], entries[j], transcode)
  {
    var cs := LedgerOf(entries, transcode).convertedImages;
    var sorted := SortResults(cs);
    SortResultsPermutes(cs);
    var c := sorted[k];
    assert c in multiset(cs);
    var m :| 0 <= m < |cs| && cs[m] == c;
    ConversionOrigin(entries, transcode, m);
  }

  /** The summary of a conversion carries what that conversion came from. */
  lemma SummaryOfConversion(c: ConversionResult, entry: FormEntry, transcode: Bytes -> Transcoded)
    requires ConvertedFrom(c, entry, transcode)
    ensures SummarizedFrom(Summarize(c), entry, transcode, c.convertedBuffer)
  {
  }

  /** `s` summarises the conversion of the image file part `entry` into `webp`. */
  predicate SummarizedFrom(s: Summary, entry: FormEntry, transcode: Bytes -> Transcoded, webp: Bytes)
  {
    && IsImageEntry(entry)
    && transcode(entry.bytes) == Encoded(webp)
    && var fileName := FileNameOf(entry.name);
    s == Summary(fileName, OutputName(fileName), FolderOf(entry.name), WEBP_MIME_TYPE, |webp|)
  }

  /** Summarising commutes with taking one folder's records. */
  lemma {:induction false} SummariesOfInFolder(cs: seq<ConversionResult>, f: string)
    ensures Summaries(InFolder(cs, f)) == SummariesInFolder(Summaries(cs), f)
    decreases |cs|
  {
    if cs != [] {
      var init, last := cs[..|cs| - 1], cs[|cs| - 1];
      SummariesOfInFolder(init, f);
      assert Summaries(cs)[..|cs| - 1] == Summaries(init);
      if last.folder == f {
        SummariesAppend(InFolder(init, f), last);
      } else {
        assert InFolder(cs, f) == InFolder(init, f) + [];
      }
    }
  }

  /** A summary occurs in its own folder's group as often as in the whole list. */
  lemma {:induction false} SummariesInFolderCounts(ss: seq<Summary>, s: Summary)
    ensures multiset(SummariesInFolder(ss, s.folder))[s] == multiset(ss)[s]
    decreases |ss|
  {
    if ss != [] {
      var init, last := ss[..|ss| - 1], ss[|ss| - 1];
      SummariesInFolderCounts(init, s);
      assert ss == init + [last];
    }
  }

  /** `fs` lists every key of `groups` exactly once. */
  ghost predicate ListsKeysOnce(fs: seq<string>, groups: map<string, seq<Summary>>)
  {
    && (forall f :: f in fs <==> f in groups)
    && (forall i, j :: 0 <= i < j < |fs| ==> fs[i] != fs[j])
  }

  /** Total size of the groups of the folders listed in `fs`. */
  function TotalSize(groups: map<string, seq<Summary>>, fs: seq<string>): nat
    requires forall f :: f in fs ==> f in groups
  {
    if fs == [] then 0
    else TotalSize(groups, fs[..|fs| - 1]) + |groups[fs[|fs| - 1]]|
  }

  lemma {:induction false} TotalSizeOfGroups(sorted: seq<ConversionResult>, fs: seq<string>)
    requires forall f :: f in fs ==> f in FoldersOf(sorted)
    ensures var groups := GroupSummaries(GroupsOf(sorted));
            TotalSize(groups, fs) == GroupSizes(sorted, fs)
    decreases |fs|
  {
    if fs != [] {
      var init, f := fs[..|fs| - 1], fs[|fs| - 1];
      TotalSizeOfGroups(sorted, init);
      var groups := GroupSummaries(GroupsOf(sorted));
      assert f in fs;
      assert |groups[f]| == |InFolder(sorted, f)|;
    }
  }

  /**
   * Grouping: the keys are the folders of the listed conversions; each group
   * is the list's summaries of that folder in list order, so every summary
   * is in its own folder's group as often as in the list and in no other;
   * and the group sizes, each folder once, add up to `convertedCount`.
   */
  lemma RespondGroups(entries: seq<FormEntry>, transcode: Bytes -> Transcoded)
    requires Respond(entries, transcode).Ok?
    ensures var b := Respond(entries, transcode).body;
            && b.groupedResults.Keys == (set s | s in b.convertedImages :: s.folder)
            && (forall f :: f in b.groupedResults ==> b.groupedResults[f] == SummariesInFolder(b.convertedImages, f))
            && (forall s :: s in b.convertedImages ==>
                  multiset(b.groupedResults[s.folder])[s] == multiset(b.convertedImages)[s])
            && (forall f, s :: f in b.groupedResults && s in b.groupedResults[f] ==> s.folder == f)
            && exists fs :: ListsKeysOnce(fs, b.groupedResults) && TotalSize(b.groupedResults, fs) == b.convertedCount
  {
    var cs := LedgerOf(entries, transcode).convertedImages;
    var sorted := SortResults(cs);
    GroupKeys(sorted);
    GroupContents(sorted);
    GroupsTotalSize(sorted);
    SortResultsPermutes(cs);
  }

  /** The group keys are the folders of the summaries. */
  lemma GroupKeys(sorted: seq<ConversionResult>)
    ensures GroupSummaries(GroupsOf(sorted)).Keys == (set s | s in Summaries(sorted) :: s.folder)
  {
    var ss := Summaries(sorted);
    forall f | f in FoldersOf(sorted) ensures f in (set s | s in ss :: s.folder) {
      var r :| r in sorted && r.folder == f;
      var i :| 0 <= i < |sorted| && sorted[i] == r;
      assert ss[i] in ss;
    }
    forall s | s in ss ensures s.folder in FoldersOf(sorted) {
      var i :| 0 <= i < |ss| && ss[i] == s;
      assert sorted[i] in sorted;
    }
  }

  /** Each group is the summaries of its folder, in list order, and so a partition. */
  lemma GroupContents(sorted: seq<ConversionResult>)
    ensures var ss, groups := Summaries(sorted), GroupSummaries(GroupsOf(sorted));
            && (forall f :: f in groups ==> groups[f] == SummariesInFolder(ss, f))
            && (forall s :: s in ss ==> multiset(groups[s.folder])[s] == multiset(ss)[s])
            && (forall f, s :: f in groups && s in groups[f] ==> s.folder == f)
  {
    var ss := Summaries(sorted);
    var groups := GroupSummaries(GroupsOf(sorted));
    forall f | f in groups ensures groups[f] == SummariesInFolder(ss, f) {
      SummariesOfInFolder(sorted, f);
    }
    GroupKeys(sorted);
    forall s | s in ss ensures multiset(groups[s.folder])[s] == multiset(ss)[s] {
      SummariesInFolderCounts(ss, s);
    }
  }

  /** The group sizes, each folder once, add up to the number of conversions. */
  lemma GroupsTotalSize(sorted: seq<ConversionResult>)
    ensures var groups := GroupSummaries(GroupsOf(sorted));
            exists fs :: ListsKeysOnce(fs, groups) && TotalSize(groups, fs) == |sorted|
  {
    var fs := DistinctFolders(sorted);
    TotalSizeOfGroups(sorted, fs);
    GroupSizesSum(sorted);
    assert ListsKeysOnce(fs, GroupSummaries(GroupsOf(sorted)));
  }

  /**
   * The archive: present exactly when at least one image converted, with
   * one entry per listed conversion in the same order, at the path
   * `folder/fileName` (or `fileName` at the root), holding as many bytes as
   * the summary's size.
   */
  lemma RespondArchive(entries: seq<FormEntry>, transcode: Bytes -> Transcoded)
    requires Respond(entries, transcode).Ok?
    ensures var b := Respond(entries, transcode).body;
            && (b.zipData.Some? <==> b.convertedCount > 0)
            && (b.zipData.Some? ==>
                  var zs := b.zipData.value;
                  && |zs| == b.convertedCount
                  && forall i :: 0 <= i < |zs| ==>
                       var s := b.convertedImages[i];
                       && zs[i].name == (if s.folder != "" then s.folder + [SEPARATOR] + s.fileName else s.fileName)
                       && |zs[i].data| == s.size)
  {
    SortResultsPermutes(LedgerOf(entries, transcode).convertedImages);
  }

  /**
   * The archive path of a converted upload is its uploaded name with the
   * extension after the last '.' replaced by ".webp", unless the name's only
   * separator is a leading one, which the path split drops.
   */
  lemma ArchivePathOfUpload(name: string)
    requires IsImageFile(FileNameOf(name))
    requires LastIndexOf(name, SEPARATOR) != 0
    ensures var d := LastIndexOf(name, '.');
            && d >= 0
            && JoinPath(FolderOf(name), OutputName(FileNameOf(name))) == name[..d] + WEBP_EXTENSION
  {
    var k := LastIndexOf(name, SEPARATOR);
    if k == |name| - 1 && k >= 0 {
      TrailingSlashIsNotImage(name);
      assert false;
    }
    var fileName := FileNameOf(name);
    OutputNameOfImage(fileName);
    ArchivePathOfDotted(name, k, fileName, LastIndexOf(fileName, '.'));
  }

  /** `ArchivePathOfUpload` for a file name with a '.' at position `d`. */
  lemma ArchivePathOfDotted(name: string, k: int, fileName: string, d: nat)
    requires k == LastIndexOf(name, SEPARATOR) && k != 0 && k < |name| - 1
    requires fileName == FileNameOf(name)
    requires d == LastIndexOf(fileName, '.')
    requires OutputName(fileName) == fileName[..d] + WEBP_EXTENSION
    ensures LastIndexOf(name, '.') >= 0
    ensures JoinPath(FolderOf(name), OutputName(fileName)) == name[..LastIndexOf(name, '.')] + WEBP_EXTENSION
  {
    if k > 0 {
      ArchivePathInFolder(name, k, fileName, d);
    }
  }

  /** The case of `ArchivePathOfUpload` where the name has a folder. */
  lemma ArchivePathInFolder(name: string, k: nat, fileName: string, d: nat)
    requires k < |name| && name[k] == SEPARATOR && fileName == name[k + 1..]
    requires d == LastIndexOf(fileName, '.')
    ensures LastIndexOf(name, '.') == k + 1 + d
    ensures name[..k] + [SEPARATOR] + (fileName[..d] + WEBP_EXTENSION) == name[..k + 1 + d] + WEBP_EXTENSION
  {
    LastIndexOfInSuffix(name, '.', k + 1);
    BeforeLastSeparator(name, SEPARATOR, k, fileName, d);
  }
}
