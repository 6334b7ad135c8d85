/**
 * The per-file loop of the upload route: every file part of the submission
 * goes into the manifest; every image among them is handed to the
 * transcoder, and its outcome becomes either a conversion result or an
 * error message, so that one failing image never stops the batch.
 */
module Processing {
  import opened JsStrings
  import opened Paths
  import opened Classify

  type Bytes = seq<bv8>

  /** One entry of the submitted form: a file part, or a plain text field. */
  datatype FormEntry = FilePart(name: string, bytes: Bytes) | TextField(value: string)

  /** What the image codec gives back: WebP bytes, or the error it threw. */
  datatype Transcoded = Encoded(webp: Bytes) | Failed(reason: string)

  /** `ConversionResult`: one successfully converted image. */
  datatype ConversionResult = ConversionResult(
    originalName: string,
    convertedBuffer: Bytes,
    folder: string,
    fileName: string,
    mimeType: string)

  /** The three arrays the loop appends to. */
  datatype Ledger = Ledger(
    uploadedFiles: seq<string>,
    convertedImages: seq<ConversionResult>,
    processingErrors: seq<string>)

  const WEBP_MIME_TYPE: string := "image/webp"
  const ERROR_PREFIX: string := "Lỗi khi chuyển đổi "
  const ERROR_SEPARATOR: string := ": "

  /** The message recorded for a failed conversion; it names the file that failed. */
  function ErrorMessage(fileName: string, reason: string): (msg: string)
    ensures |msg| == |ERROR_PREFIX| + |fileName| + |ERROR_SEPARATOR| + |reason|
    ensures msg[..|ERROR_PREFIX|] == ERROR_PREFIX
    ensures msg[|ERROR_PREFIX|..|ERROR_PREFIX| + |fileName|] == fileName
    ensures msg[|ERROR_PREFIX| + |fileName|..|ERROR_PREFIX| + |fileName| + |ERROR_SEPARATOR|] == ERROR_SEPARATOR
    ensures msg[|ERROR_PREFIX| + |fileName| + |ERROR_SEPARATOR|..] == reason
  {
    ERROR_PREFIX + fileName + ERROR_SEPARATOR + reason
  }

  /** The result recorded when the image uploaded under `name` converts to `webp`. */
  function ConversionOf(name: string, webp: Bytes): ConversionResult
  {
    var fileName := FileNameOf(name);
    ConversionResult(fileName, webp, FolderOf(name), OutputName(fileName), WEBP_MIME_TYPE)
  }

  /** Whether an entry is a file part whose file name is classified as an image. */
  predicate IsImageEntry(entry: FormEntry)
  {
    entry.FilePart? && IsImageFile(FileNameOf(entry.name))
  }

  /** Concatenation of two ledgers, field by field. */
  function Concat(a: Ledger, b: Ledger): Ledger
  {
    Ledger(a.uploadedFiles + b.uploadedFiles,
           a.convertedImages + b.convertedImages,
           a.processingErrors + b.processingErrors)
  }

  /** What one entry adds to the ledger in one turn of the loop (lines 52-86). */
  function Contribution(entry: FormEntry, transcode: Bytes -> Transcoded): Ledger
  {
    match entry
    case TextField(_) => Ledger([], [], [])
    case FilePart(name, bytes) =>
      var fileName := FileNameOf(name);
      if !IsImageFile(fileName) then Ledger([RelativePathOf(name)], [], [])
      else match transcode(bytes)
        case Encoded(webp) => Ledger([RelativePathOf(name)], [ConversionOf(name, webp)], [])
        case Failed(reason) => Ledger([RelativePathOf(name)], [], [ErrorMessage(fileName, reason)])
  }

  /** The ledger after the loop has gone over `entries` in order, starting empty. */
  function LedgerOf(entries: seq<FormEntry>, transcode: Bytes -> Transcoded): Ledger
  {
    if entries == [] then Ledger([], [], [])
    else Concat(LedgerOf(entries[..|entries| - 1], transcode), Contribution(entries[|entries| - 1], transcode))
  }

  /** Number of file parts among the entries. */
  function FileCount(entries: seq<FormEntry>): (n: nat)
    ensures n <= |entries|
  {
    if entries == [] then 0
    else FileCount(entries[1..]) + (if entries[0].FilePart? then 1 else 0)
  }

  /** Number of file parts among the entries whose file name is an image name. */
  function ImageCount(entries: seq<FormEntry>): (n: nat)
    ensures n <= FileCount(entries)
  {
    if entries == [] then 0
    else ImageCount(entries[1..]) + (if IsImageEntry(entries[0]) then 1 else 0)
  }

  /** The manifest as the route describes it: the relative path of every file part, in input order. */
  function Manifest(entries: seq<FormEntry>): seq<string>
  {
    if entries == [] then []
    else (if entries[0].FilePart? then [RelativePathOf(entries[0].name)] else []) + Manifest(entries[1..])
  }

  /**
   * Lines 57-59: split the name on '/', pop the last piece as the file name
   * (falling back to the whole name when it is empty) and join the rest as
   * the folder.
   */
  method SplitPath(name: string) returns (folderPath: string, fileName: string)
    ensures folderPath == FolderOf(name) && fileName == FileNameOf(name)
  {
    var pathParts := Split(name, SEPARATOR);
    var last := pathParts[|pathParts| - 1];
    pathParts := pathParts[..|pathParts| - 1];
    fileName := if last != "" then last else name;
    folderPath := Join(pathParts, SEPARATOR);
  }

  /**
   * The loop of lines 51-87: for each file part, split its name into folder
   * and file name, record the relative path, and for an image record either
   * the conversion or the error.
   */
  method ProcessEntries(entries: seq<FormEntry>, transcode: Bytes -> Transcoded)
    returns (uploadedFiles: seq<string>, convertedImages: seq<ConversionResult>, processingErrors: seq<string>)
    ensures Ledger(uploadedFiles, convertedImages, processingErrors) == LedgerOf(entries, transcode)
  {
    uploadedFiles, convertedImages, processingErrors := [], [], [];
    for i := 0 to |entries|
      invariant Ledger(uploadedFiles, convertedImages, processingErrors) == LedgerOf(entries[..i], transcode)
    {
      ghost var before := Ledger(uploadedFiles, convertedImages, processingErrors);
      assert entries[..i + 1][..i] == entries[..i];
      assert LedgerOf(entries[..i + 1], transcode) == Concat(before, Contribution(entries[i], transcode));
      match entries[i]
      case TextField(_) =>
      case FilePart(name, bytes) =>
        var folderPath, fileName := SplitPath(name);
        uploadedFiles := uploadedFiles + [JoinPath(folderPath, fileName)];
        if IsImageFile(fileName) {
          match transcode(bytes)
          case Encoded(webp) =>
            var convertedFileName := OutputName(fileName);
            convertedImages := convertedImages
              + [ConversionResult(fileName, webp, folderPath, convertedFileName, WEBP_MIME_TYPE)];
          case Failed(reason) =>
            processingErrors := processingErrors + [ErrorMessage(fileName, reason)];
        }
    }
    assert entries[..|entries|] == entries;
  }

  /**
   * Batch isolation: the ledger of a batch is the ledger of its first part
   * followed by the ledger of the rest, so what happens to one file cannot
   * change what is recorded for another.
   */
  lemma {:induction false} LedgerOfConcat(a: seq<FormEntry>, b: seq<FormEntry>, transcode: Bytes -> Transcoded)
    ensures LedgerOf(a + b, transcode) == Concat(LedgerOf(a, transcode), LedgerOf(b, transcode))
    decreases |b|
  {
    if b == [] {
      assert a + b == a;
      ConcatEmpty(LedgerOf(a, transcode));
    } else {
      var b', last := b[..|b| - 1], b[|b| - 1];
      assert (a + b)[..|a + b| - 1] == a + b';
      assert (a + b)[|a + b| - 1] == last;
      var x := Contribution(last, transcode);
      calc {
        LedgerOf(a + b, transcode);
        Concat(LedgerOf(a + b', transcode), x);
        { LedgerOfConcat(a, b', transcode); }
        Concat(Concat(LedgerOf(a, transcode), LedgerOf(b', transcode)), x);
        { ConcatAssociative(LedgerOf(a, transcode), LedgerOf(b', transcode), x); }
        Concat(LedgerOf(a, transcode), Concat(LedgerOf(b', transcode), x));
      }
    }
  }

  lemma ConcatEmpty(l: Ledger)
    ensures Concat(l, Ledger([], [], [])) == l
  {
    assert l.uploadedFiles + [] == l.uploadedFiles;
    assert l.convertedImages + [] == l.convertedImages;
    assert l.processingErrors + [] == l.processingErrors;
  }

  lemma ConcatAssociative(a: Ledger, b: Ledger, c: Ledger)
    ensures Concat(Concat(a, b), c) == Concat(a, Concat(b, c))
  {
    assert (a.uploadedFiles + b.uploadedFiles) + c.uploadedFiles == a.uploadedFiles + (b.uploadedFiles + c.uploadedFiles);
    assert (a.convertedImages + b.convertedImages) + c.convertedImages == a.convertedImages + (b.convertedImages + c.convertedImages);
    assert (a.processingErrors + b.processingErrors) + c.processingErrors == a.processingErrors + (b.processingErrors + c.processingErrors);
  }

  /**
   * Per-item outcome: a file part adds its relative path to the manifest; an
   * image adds exactly one entry to the conversions or to the errors, never
   * both, according to whether the transcoder succeeded; anything else adds
   * neither. A text field adds nothing at all.
   */
  lemma SingleEntry(entry: FormEntry, transcode: Bytes -> Transcoded)
    ensures var l := LedgerOf([entry], transcode);
            && l.uploadedFiles == (if entry.FilePart? then [RelativePathOf(entry.name)] else [])
            && (IsImageEntry(entry) && transcode(entry.bytes).Encoded? ==>
                  l.convertedImages == [ConversionOf(entry.name, transcode(entry.bytes).webp)]
                  && l.processingErrors == [])
            && (IsImageEntry(entry) && transcode(entry.bytes).Failed? ==>
                  l.convertedImages == []
                  && l.processingErrors == [ErrorMessage(FileNameOf(entry.name), transcode(entry.bytes).reason)])
            && (!IsImageEntry(entry) ==> l.convertedImages == [] && l.processingErrors == [])
  {
    LedgerOfOne(entry, transcode);
    var x := Contribution(entry, transcode);
    match entry
    case TextField(_) =>
      assert x == Ledger([], [], []);
    case FilePart(name, bytes) =>
      if !IsImageFile(FileNameOf(name)) {
        assert x == Ledger([RelativePathOf(name)], [], []);
      } else {
        match transcode(bytes)
        case Encoded(webp) =>
          assert x == Ledger([RelativePathOf(name)], [ConversionOf(name, webp)], []);
        case Failed(reason) =>
          assert x == Ledger([RelativePathOf(name)], [], [ErrorMessage(FileNameOf(name), reason)]);
      }
  }

  /** The ledger of a single entry is what that entry contributes. */
  lemma LedgerOfOne(entry: FormEntry, transcode: Bytes -> Transcoded)
    ensures LedgerOf([entry], transcode) == Contribution(entry, transcode)
  {
    assert [entry][..0] == [];
    EmptyConcat(Contribution(entry, transcode));
  }

  lemma EmptyConcat(l: Ledger)
    ensures Concat(Ledger([], [], []), l) == l
  {
    assert [] + l.uploadedFiles == l.uploadedFiles;
    assert [] + l.convertedImages == l.convertedImages;
    assert [] + l.processingErrors == l.processingErrors;
  }

  /**
   * Counting: the manifest has one entry per file part, and the conversions
   * and errors together have one per image file part.
   */
  lemma {:induction false} LedgerCounts(entries: seq<FormEntry>, transcode: Bytes -> Transcoded)
    ensures var l := LedgerOf(entries, transcode);
            && |l.uploadedFiles| == FileCount(entries)
            && |l.convertedImages| + |l.processingErrors| == ImageCount(entries)
            && ImageCount(entries) <= FileCount(entries) <= |entries|
    decreases |entries|
  {
    if entries != [] {
      LedgerCounts(entries[1..], transcode);
      LedgerOfConcat([entries[0]], entries[1..], transcode);
      assert [entries[0]] + entries[1..] == entries;
      SingleEntry(entries[0], transcode);
    }
  }

  /** The loop records exactly the manifest: one relative path per file part, in input order. */
  lemma {:induction false} ManifestInOrder(entries: seq<FormEntry>, transcode: Bytes -> Transcoded)
    ensures LedgerOf(entries, transcode).uploadedFiles == Manifest(entries)
    ensures |Manifest(entries)| == FileCount(entries)
    decreases |entries|
  {
    if entries != [] {
      ManifestInOrder(entries[1..], transcode);
      LedgerOfConcat([entries[0]], entries[1..], transcode);
      assert [entries[0]] + entries[1..] == entries;
      SingleEntry(entries[0], transcode);
    }
  }

  /** `c` is what the image file part `entry` converted into. */
  predicate ConvertedFrom(c: ConversionResult, entry: FormEntry, transcode: Bytes -> Transcoded)
  {
    && IsImageEntry(entry)
    && transcode(entry.bytes) == Encoded(c.convertedBuffer)
    && c == ConversionOf(entry.name, c.convertedBuffer)
  }

  /** `msg` is the error recorded for the image file part `entry`. */
  predicate FailedFrom(msg: string, entry: FormEntry, transcode: Bytes -> Transcoded)
  {
    && IsImageEntry(entry)
    && transcode(entry.bytes).Failed?
    && msg == ErrorMessage(FileNameOf(entry.name), transcode(entry.bytes).reason)
  }

  /** What one entry contributes comes from that entry. */
  lemma ContributionOrigin(entry: FormEntry, transcode: Bytes -> Transcoded)
    ensures var x := Contribution(entry, transcode);
            && (forall c :: c in x.convertedImages ==> ConvertedFrom(c, entry, transcode))
            && (forall msg :: msg in x.processingErrors ==> FailedFrom(msg, entry, transcode))
  {
    LedgerOfOne(entry, transcode);
    SingleEntry(entry, transcode);
  }

  /**
   * Every conversion comes from an image file part whose transcoding
   * succeeded, and carries that part's folder, file name and converted name.
   */
  lemma {:induction false} ConversionOrigin(entries: seq<FormEntry>, transcode: Bytes -> Transcoded, k: nat)
    requires k < |LedgerOf(entries, transcode).convertedImages|
    ensures exists j :: 0 <= j < |entries|
              && ConvertedFrom(LedgerOf(entries, transcode).convertedImages[k], entries[j], transcode)
    decreases |entries|
  {
    var n := |entries| - 1;
    var init := entries[..n];
    var prev := LedgerOf(init, transcode).convertedImages;
    var x := Contribution(entries[n], transcode).convertedImages;
    var all := LedgerOf(entries, transcode).convertedImages;
    assert all == prev + x;
    if k < |prev| {
      ConversionOrigin(init, transcode, k);
      var j :| 0 <= j < n && ConvertedFrom(prev[k], init[j], transcode);
      assert all[k] == prev[k] && init[j] == entries[j];
    } else {
      assert all[k] == x[k - |prev|] && x[k - |prev|] in x;
      ContributionConversion(entries[n], transcode, all[k]);
    }
  }

  lemma ContributionConversion(entry: FormEntry, transcode: Bytes -> Transcoded, c: ConversionResult)
    requires c in Contribution(entry, transcode).convertedImages
    ensures ConvertedFrom(c, entry, transcode)
  {
    ContributionOrigin(entry, transcode);
  }

  /**
   * Every error message comes from an image file part whose transcoding
   * failed, and names that part's file.
   */
  lemma {:induction false} ErrorOrigin(entries: seq<FormEntry>, transcode: Bytes -> Transcoded, k: nat)
    requires k < |LedgerOf(entries, transcode).processingErrors|
    ensures exists j :: 0 <= j < |entries|
              && FailedFrom(LedgerOf(entries, transcode).processingErrors[k], entries[j], transcode)
    decreases |entries|
  {
    var n := |entries| - 1;
    var init := entries[..n];
    var prev := LedgerOf(init, transcode).processingErrors;
    var x := Contribution(entries[n], transcode).processingErrors;
    var all := LedgerOf(entries, transcode).processingErrors;
    assert all == prev + x;
    if k < |prev| {
      ErrorOrigin(init, transcode, k);
      var j :| 0 <= j < n && FailedFrom(prev[k], init[j], transcode);
      assert all[k] == prev[k] && init[j] == entries[j];
    } else {
      ContributionOrigin(entries[n], transcode);
      assert all[k] == x[k - |prev|] && x[k - |prev|] in x;
      assert FailedFrom(all[k], entries[n], transcode);
    }
  }
}
