/**
 * How the upload route turns an uploaded file's name, which carries its
 * path relative to the chosen folder, into a folder and a file name, and
 * how it puts the two back together for the manifest and for the archive.
 */
module Paths {
  import opened JsStrings

  /** The path separator the route splits names on. */
  const SEPARATOR: char := '/'

  /**
   * The folder of an uploaded name: every piece of `name.split('/')` but the
   * last, joined again with '/'. It is the text before the last separator,
   * or the empty string (the root) when there is none.
   */
  function FolderOf(name: string): (folder: string)
    ensures var k := LastIndexOf(name, SEPARATOR);
            folder == if k < 0 then "" else name[..k]
  {
    var parts := Split(name, SEPARATOR);
    SplitInitPieces(name, SEPARATOR);
    Join(parts[..|parts| - 1], SEPARATOR)
  }

  /**
   * The file name of an uploaded name: the last piece of `name.split('/')`,
   * or the whole name when that piece is empty (`pop() || file.name`).
   */
  function FileNameOf(name: string): (fileName: string)
    ensures var k := LastIndexOf(name, SEPARATOR);
            fileName == if k < |name| - 1 then name[k + 1..] else name
    ensures LastIndexOf(name, SEPARATOR) < |name| - 1 ==> SEPARATOR !in fileName
  {
    var parts := Split(name, SEPARATOR);
    SplitLastPiece(name, SEPARATOR);
    var last := parts[|parts| - 1];
    if last != "" then last else name
  }

  /** `folder ? `${folder}/${fileName}` : fileName`, written twice in the route. */
  function JoinPath(folder: string, fileName: string): string
  {
    if folder != "" then folder + [SEPARATOR] + fileName else fileName
  }

  /** The manifest entry recorded for an uploaded name. */
  function RelativePathOf(name: string): string
  {
    JoinPath(FolderOf(name), FileNameOf(name))
  }

  /**
   * The manifest entry gives the uploaded name back, except in two corner
   * cases: a single leading separator is dropped, and a name that ends in a
   * separator has its folder written in front of it once more.
   */
  lemma RelativePathOfName(name: string)
    ensures var k := LastIndexOf(name, SEPARATOR);
            RelativePathOf(name) ==
              if k == 0 && |name| > 1 then name[1..]
              else if 0 < k == |name| - 1 then name[..k] + [SEPARATOR] + name
              else name
  {
    var k := LastIndexOf(name, SEPARATOR);
    var folder, fileName := FolderOf(name), FileNameOf(name);
    if k < 0 {
      assert folder == "";
      assert fileName == name;
    } else if k == 0 {
      assert folder == "";
    } else if k < |name| - 1 {
      assert folder == name[..k] && fileName == name[k + 1..];
      Around(name, k);
    } else {
      assert folder == name[..k] && fileName == name;
    }
  }

  /** A string is the text before position `k`, the character at `k` and the text after it. */
  lemma Around(s: string, k: nat)
    requires k < |s|
    ensures s == s[..k] + [s[k]] + s[k + 1..]
  {
  }

  /**
   * Splitting a name that neither starts nor ends with a separator, then
   * joining folder and file name, gives the name back.
   */
  lemma SplitThenJoin(name: string)
    requires |name| > 0 && name[0] != SEPARATOR && name[|name| - 1] != SEPARATOR
    ensures RelativePathOf(name) == name
    ensures FolderOf(name) != "" ==> name == FolderOf(name) + [SEPARATOR] + FileNameOf(name)
    ensures SEPARATOR !in FileNameOf(name)
  {
    RelativePathOfName(name);
  }
}
