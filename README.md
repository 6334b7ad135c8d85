# Folder upload to WebP: the batch pipeline of the upload route

This project models, in Dafny, the server side of the folder uploader: the
`POST` handler of `src/app/api/upload/route.ts`. The handler receives the
files of a chosen folder in one form submission. Each file's name carries its
path relative to that folder. The handler does the following:

- rejects an empty submission with a 400 answer;
- splits every name into a folder and a file name, and records the rebuilt
  relative path in the manifest;
- converts every file whose name has an image extension to WebP, one at a
  time. A failed conversion becomes an error message and the batch goes on;
- sorts the conversions by folder, then by converted file name;
- groups them by folder, in a plain object `{}`. A folder named like a
  member every object inherits (`constructor`, `toString`, `__proto__`, …)
  finds that member instead of `undefined`. The `push` onto it throws, and
  the handler answers 500;
- answers with a summary of each conversion, its size in place of its bytes;
- when at least one image converted, lists the conversions in a ZIP archive
  at `folder/fileName`.

The model is in eight modules, one per part of the pipeline:

| module | file | what it holds |
|---|---|---|
| `JsStrings` | js_strings.dfy | `lastIndexOf`, `substring`, `toLowerCase`, `split` and `join` as JavaScript defines them |
| `Paths` | paths.dfy | the folder and file name of an uploaded name, and the `folder/fileName` path |
| `Classify` | classify.dfy | `isImageFile` and the converted file name |
| `Processing` | processing.dfy | the per-file loop: a method, and the fold `LedgerOf` that specifies it |
| `Ordering` | ordering.dfy | the comparator; the stable sort `SortResults`; the in-place array sort |
| `Grouping` | grouping.dfy | the `reduce` into groups keyed by folder |
| `Archive` | archive.dfy | the archive as a class whose entries grow by `Append` |
| `Upload` | upload.dfy | the whole handler: `Post`, and the answer `Respond` it is proved to give |

The handler's imperative parts are methods: the loop, the in-place sort, the
grouping `reduce` and the archive loop. Each one is proved equal to a
function. The properties of the handler are lemmas about those functions.
The image codec is a parameter `transcode` that either gives WebP bytes or
fails with a reason.

## Model

| member | source | states |
|---|---|---|
| JsStrings.LastIndexOf | src/app/api/upload/route.ts:17 | the result is -1 or a position holding the character, and no later position holds it |
| JsStrings.Substring | src/app/api/upload/route.ts:69 | `substring` clamps both bounds into the string and takes the text between them, swapping them when reversed |
| JsStrings.SubstringFrom | src/app/api/upload/route.ts:17 | `substring(start)` is the suffix from the clamped start, so -1 gives the whole string |
| JsStrings.ToLower | src/app/api/upload/route.ts:17 | lower-casing keeps the length and lowers each ASCII capital |
| JsStrings.Split | src/app/api/upload/route.ts:57 | `split` always gives at least one piece, so `pop()` always has one |
| JsStrings.JoinSplit | src/app/api/upload/route.ts:57-59 | joining the pieces of a split with the same separator gives the string back |
| JsStrings.SplitLastPiece | src/app/api/upload/route.ts:57-58 | the piece `pop()` takes is the text after the last separator |
| JsStrings.SplitInitPieces | src/app/api/upload/route.ts:57-59 | the pieces left after `pop()`, joined, are the text before the last separator, or "" when there is none |
| Paths.FolderOf | src/app/api/upload/route.ts:57-59 | the folder is the text before the last '/', or "" (the root) when there is none |
| Paths.FileNameOf | src/app/api/upload/route.ts:57-58 | the file name is the text after the last '/'; the whole name when that text is empty; it has no '/' unless the name ends in '/' |
| Paths.RelativePathOfName | src/app/api/upload/route.ts:57-63 | the manifest entry is the uploaded name, except that a single leading '/' is dropped and a name ending in '/' gets its folder written in front again |
| Paths.SplitThenJoin | src/app/api/upload/route.ts:57-62 | for a name that neither starts nor ends with '/', the manifest entry is the name, `folder + "/" + fileName` rebuilds it, and the file name has no '/' |
| Classify.IsImageFileIff | src/app/api/upload/route.ts:15-19 | a name is classified as an image exactly when it ends, ignoring letter case, in one of the seven extensions |
| Classify.ImageFileHasExtension | src/app/api/upload/route.ts:15-19 | a name classified as an image ends in an image extension, ignoring case |
| Classify.ExtensionMakesImageFile | src/app/api/upload/route.ts:15-19 | a name that ends in an image extension, in any letter case, is classified as an image |
| Classify.ExtensionAfterLastDot | src/app/api/upload/route.ts:17 | when a name ends in '.' and letters, that '.' is its last one and the lower-cased suffix from there is that ending |
| Classify.ExtensionShape | src/app/api/upload/route.ts:16 | every extension on the list is a '.' followed by lower-case letters |
| Classify.NoDotIsNotImage | src/app/api/upload/route.ts:15-19 | a name without a '.' is never an image, although `substring(-1)` then yields the whole name |
| Classify.TrailingSlashIsNotImage | src/app/api/upload/route.ts:15-19 | a name that ends in '/' is never an image |
| Classify.OutputName | src/app/api/upload/route.ts:69 | the converted name ends in ".webp"; before it is a prefix of the file name, cut at its last '.', or "" when there is no '.' |
| Classify.OutputNameOfImage | src/app/api/upload/route.ts:66-69 | an image name has a '.', and its converted name is its text before the last '.' followed by ".webp" |
| Classify.OutputNameIsImage | src/app/api/upload/route.ts:69 | a converted name is itself classified as an image |
| Classify.WebpExtension | src/app/api/upload/route.ts:16 | ".webp" is on the list and is already lower-case |
| Processing.ErrorMessage | src/app/api/upload/route.ts:81 | the error text is the fixed prefix, the file name, ": " and the reason, each at its own place |
| Processing.FileCount | src/app/api/upload/route.ts:51-52 | the number of file parts is at most the number of entries |
| Processing.ImageCount | src/app/api/upload/route.ts:66 | the number of image file parts is at most the number of file parts |
| Processing.SplitPath | src/app/api/upload/route.ts:57-59 | the split, the `pop()` with its fallback to the whole name, and the `join` give `FolderOf` and `FileNameOf` of the name |
| Processing.ProcessEntries | src/app/api/upload/route.ts:46-87 | the three arrays the loop fills are exactly the fold `LedgerOf` of the entries |
| Processing.LedgerOfConcat | src/app/api/upload/route.ts:51-87 | isolation: the loop over a batch gives the ledger of its first part followed by the ledger of the rest |
| Processing.SingleEntry | src/app/api/upload/route.ts:52-85 | one entry: a file part adds its path; an image adds one conversion or one error, never both; nothing else adds either |
| Processing.LedgerCounts | src/app/api/upload/route.ts:51-87 | the manifest has one path per file part; conversions plus errors number the image parts, at most the file parts |
| Processing.ManifestInOrder | src/app/api/upload/route.ts:51-63 | the manifest is the relative path of every file part, in input order |
| Processing.ContributionOrigin | src/app/api/upload/route.ts:66-85 | whatever one entry adds comes from that entry and its transcoding |
| Processing.ConversionOrigin | src/app/api/upload/route.ts:66-77 | every conversion comes from an image part whose transcoding succeeded, with its file name, folder, converted name and bytes |
| Processing.ErrorOrigin | src/app/api/upload/route.ts:80-82 | every error comes from an image part whose transcoding failed, and names its file and the reason |
| Ordering.CompareStrings | src/app/api/upload/route.ts:93-95 | the comparison answers -1, 0 or 1, and 0 exactly for equal strings |
| Ordering.CompareStringsFlip | src/app/api/upload/route.ts:93-95 | swapping the arguments negates the comparison |
| Ordering.CompareStringsTransitive | src/app/api/upload/route.ts:93-95 | "before or equal" is transitive |
| Ordering.CompareResults | src/app/api/upload/route.ts:90-96 | the comparator answers -1, 0 or 1, and 0 exactly for equal folder and file name |
| Ordering.CompareResultsFlip | src/app/api/upload/route.ts:90-96 | the comparator is antisymmetric |
| Ordering.CompareResultsTransitive | src/app/api/upload/route.ts:90-96 | the comparator is transitive, a consistent order for `sort` |
| Ordering.InsertPermutes | src/app/api/upload/route.ts:90-96 | inserting a record adds exactly that record |
| Ordering.InsertSorted | src/app/api/upload/route.ts:90-96 | inserting into a sorted list keeps it sorted |
| Ordering.SortResultsPermutes | src/app/api/upload/route.ts:90-96 | the sorted list is a permutation of the conversions |
| Ordering.SortResultsSorted | src/app/api/upload/route.ts:90-96 | the sorted list is ordered by folder, then by file name |
| Ordering.InsertKeepsKeyOrder | src/app/api/upload/route.ts:90-96 | inserting keeps the order of the records with any given key |
| Ordering.SortResultsStable | src/app/api/upload/route.ts:90-96 | records with equal folder and file name keep their upload order |
| Ordering.StableSortUnique | src/app/api/upload/route.ts:90-96 | any permutation that is sorted by the comparator and keeps the upload order of equal records is `SortResults`, so every stable sort gives this result |
| Ordering.SortedStableEqual | src/app/api/upload/route.ts:90-96 | two sorted permutations of each other that agree on the order of every key's records are equal |
| Ordering.SortByFolderThenName | src/app/api/upload/route.ts:90-96 | sorting the array in place leaves it equal to `SortResults` of its old contents |
| Ordering.InsertInPlace | src/app/api/upload/route.ts:90-96 | one pass moves a record left to its place among the sorted ones before it and leaves the rest alone |
| Ordering.InsertAt | src/app/api/upload/route.ts:90-96 | the record goes after the last record that does not exceed it and before all that do |
| Grouping.InFolder | src/app/api/upload/route.ts:99-105 | a group is a subsequence of the list, all of one folder |
| Grouping.Lookup | src/app/api/upload/route.ts:99-102 | `groups[f]` finds the own group when there is one, `undefined` exactly when there is none and `f` is not an inherited member's name, and the inherited member otherwise |
| Grouping.HasInheritedFolderIff | src/app/api/upload/route.ts:98-105 | the list has a folder named like an inherited member exactly when one of its records has such a folder |
| Grouping.GroupByFolder | src/app/api/upload/route.ts:98-105 | the `reduce` completes exactly when no folder is named like an inherited member, and then keys exactly the folders of the list, each to its records in list order; otherwise the `push` throws on such a folder of the list |
| Grouping.GroupStep | src/app/api/upload/route.ts:99-103 | one turn that does not throw: creating the missing group and pushing the record gives the groups of the longer list |
| Grouping.AppendToGroup | src/app/api/upload/route.ts:100-103 | pushing the next record onto its folder's group gives the groups of the longer list |
| Grouping.InFolderMissing | src/app/api/upload/route.ts:100-102 | a folder that does not occur has an empty group |
| Grouping.InFolderCounts | src/app/api/upload/route.ts:99-105 | partition: a record occurs in its own folder's group as often as in the list |
| Grouping.InFolderSorted | src/app/api/upload/route.ts:99-105 | a group taken from the sorted list is sorted by file name |
| Grouping.DistinctFolders | src/app/api/upload/route.ts:141 | the folders of a list, each once |
| Grouping.GroupSizesSum | src/app/api/upload/route.ts:99-105 | the group sizes, one per folder, add up to the length of the list |
| Archive.ZipArchive.constructor | src/app/api/upload/route.ts:163 | a new archive has no entries |
| Archive.ZipArchive.Append | src/app/api/upload/route.ts:178 | `append` adds one entry with that name and those bytes after the others |
| Upload.Summaries | src/app/api/upload/route.ts:133-139 | one summary per conversion |
| Upload.SummariesInFolder | src/app/api/upload/route.ts:142-148 | the summaries of one folder all come from the list |
| Upload.Respond | src/app/api/upload/route.ts:34-191 | the answer is the 400 error exactly for an empty submission; a 500 answer carries the fixed server error text; otherwise it carries the success message |
| Upload.Post | src/app/api/upload/route.ts:34-191 | the handler's loop, sort, grouping, summaries and archive give the answer `Respond`, the 500 one when the grouping throws |
| Upload.RespondServerError | src/app/api/upload/route.ts:98-191 | the answer is the 500 one exactly when the submission is not empty and some converted image's folder is named like an inherited member |
| Upload.RespondOk | src/app/api/upload/route.ts:38-184 | the answer is the 200 one exactly when the submission is not empty and no converted image's folder is named like an inherited member |
| Upload.InheritedFolderFails | src/app/api/upload/route.ts:57-191 | a single image that converts, in a folder named like an inherited member, makes the whole upload answer 500 |
| Upload.ConstructorFolderFails | src/app/api/upload/route.ts:57-191 | uploading just "constructor/a.jpg", with a conversion that succeeds, answers 500 |
| Upload.BuildArchive | src/app/api/upload/route.ts:161-182 | the archive loop appends one entry per sorted conversion, in order, at `folder/fileName` |
| Upload.RespondCounts | src/app/api/upload/route.ts:129-158 | `files` is the manifest and `count` its length; `convertedCount` counts the summaries; conversions plus errors number the images, at most `count` |
| Upload.RespondSorted | src/app/api/upload/route.ts:90-139 | the listed summaries are those of the conversions, each once, in folder then file-name order |
| Upload.RespondListsSorted | src/app/api/upload/route.ts:133-139 | the listed summaries are those of the sorted conversions, in the same order |
| Upload.SortedConversionOrigin | src/app/api/upload/route.ts:66-96 | every sorted conversion comes from an image part whose transcoding succeeded |
| Upload.RespondSummaryOrigin | src/app/api/upload/route.ts:66-139 | every summary carries its upload's file name, folder and converted name, the WebP type, and its converted byte length as its size |
| Upload.SummaryOfConversion | src/app/api/upload/route.ts:133-139 | the summary of a conversion carries what the conversion came from, with the byte length as size |
| Upload.SummariesOfSort | src/app/api/upload/route.ts:90-139 | summarising the sorted list gives the summaries of the conversions, permuted |
| Upload.SummariesOfInFolder | src/app/api/upload/route.ts:141-149 | summarising one folder's group gives that folder's summaries, in order |
| Upload.SummariesInFolderCounts | src/app/api/upload/route.ts:141-156 | a summary occurs in its folder's group as often as in the list |
| Upload.TotalSizeOfGroups | src/app/api/upload/route.ts:140-156 | the summarised groups have the sizes of the groups of conversions |
| Upload.RespondGroups | src/app/api/upload/route.ts:99-156 | the group keys are the listed folders; each group is its folder's summaries in list order; each summary is in its own group as often as in the list and in no other; the sizes add up to `convertedCount` |
| Upload.GroupKeys | src/app/api/upload/route.ts:141 | the group keys are the folders of the summaries |
| Upload.GroupContents | src/app/api/upload/route.ts:141-149 | each group is its folder's summaries, so the groups partition the list |
| Upload.GroupsTotalSize | src/app/api/upload/route.ts:140-156 | the group sizes, one per key, add up to the number of conversions |
| Upload.RespondArchive | src/app/api/upload/route.ts:161-182 | `zipData` exists exactly when an image converted; it has one entry per summary, in order, at `folder/fileName` or `fileName`, of the summary's size |
| Upload.ArchivePathOfUpload | src/app/api/upload/route.ts:176-177 | an image's archive path is its uploaded name with the text after the last '.' replaced by "webp", unless its only '/' leads the name |

## Left out

- The WebP codec (`convertImageToWebp`, lines 22-32) is not modelled. It is the parameter `transcode`: bytes in, WebP bytes or a failure reason out. The text of `${err}` in the error message is taken to be that reason.
- The archive's compression, the `data` and `end` events and the base64 text of `zipData` belong to the archiving library. `zipData` is modelled as the list of entries appended, in order.
- Upload.Respond: `zipData` is taken as set once the archive is finalised. The `end` callback's timing relative to the JSON answer is not modelled.
- The request and response transport is not modelled: reading the form, reading each file's bytes, JSON serialisation, the status codes and the console logging. The `GET` handler (lines 195-197) is left out too.
- Upload.Respond: the 500 answer (lines 186-191) is modelled for the one exception the handler's own code raises, the `push` onto an inherited member. Exceptions from reading the form or the files, or from the codec outside its own `try`, are transport or codec failures and are not modelled.
- Grouping.Lookup: the inherited names are the members of `Object.prototype` in current JavaScript engines. A runtime that adds members to `Object.prototype` would add names to that list.
- JSON key order of `groupedResults` is not modelled. The groups are a `map` from folder to summaries.
- Ordering.CompareStrings: `localeCompare` is taken as lexicographic order on characters, not locale collation, because collation depends on the platform.
- JsStrings.ToLower: lowers ASCII letters only, not the full Unicode case mapping. Lengths are therefore preserved.
- Strings are sequences of characters, not of UTF-16 code units.
- The engine's own sort algorithm is not visible. The model sorts by insertion. `SortResultsStable` and `StableSortUnique` together prove that any stable sort with this comparator gives the same result.
- Whether converting a converted image again changes it depends on the codec. Only the name side is proved (`OutputNameIsImage`).
- The user interface, `src/components/FolderUpload.tsx` and `src/app/page.tsx`, is not part of this model.
