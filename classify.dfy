/**
 * Which uploaded files the route treats as images, and the name a converted
 * image gets.
 */
module Classify {
  import opened JsStrings

  /** The extensions, lower-case and with their dot, that mark an image. */
  const IMAGE_EXTENSIONS: seq<string> := [".jpg", ".jpeg", ".png", ".gif", ".bmp", ".tiff", ".webp"]

  /** The extension every converted image gets. */
  const WEBP_EXTENSION: string := ".webp"

  /**
   * `isImageFile`: the lower-cased name from its last '.' on (the whole name
   * when there is no '.', since `substring(-1)` starts at 0) must be one of
   * the image extensions.
   */
  function IsImageFile(filename: string): bool
  {
    var ext := SubstringFrom(ToLower(filename), LastIndexOf(filename, '.'));
    ext in IMAGE_EXTENSIONS
  }

  /** `s` ends in `suffix` once its ASCII letters are lower-cased. */
  predicate EndsWithIgnoringCase(s: string, suffix: string)
  {
    |suffix| <= |s| && ToLower(s[|s| - |suffix|..]) == suffix
  }

  /** Reference reading of the rule: the name ends in an image extension, in any letter case. */
  predicate HasImageExtension(filename: string)
  {
    exists i :: 0 <= i < |IMAGE_EXTENSIONS| && EndsWithIgnoringCase(filename, IMAGE_EXTENSIONS[i])
  }

  /** Each image extension is a '.' followed by letters only. */
  lemma ExtensionShape(i: nat)
    requires i < |IMAGE_EXTENSIONS|
    ensures var e := IMAGE_EXTENSIONS[i];
            && |e| >= 2 && e[0] == '.'
            && forall j :: 0 < j < |e| ==> 'a' <= e[j] <= 'z'
  {
  }

  /** Lower-casing keeps a '.' and makes nothing else one. */
  lemma LowerDot(c: char)
    ensures LowerChar(c) == '.' <==> c == '.'
  {
  }

  /** Lower-casing commutes with taking a suffix. */
  lemma ToLowerSuffix(s: string, k: nat)
    requires k <= |s|
    ensures ToLower(s)[k..] == ToLower(s[k..])
  {
  }

  /** The classification is exactly "ends in an image extension, ignoring case". */
  lemma IsImageFileIff(filename: string)
    ensures IsImageFile(filename) <==> HasImageExtension(filename)
  {
    if IsImageFile(filename) {
      ImageFileHasExtension(filename);
    }
    if HasImageExtension(filename) {
      ExtensionMakesImageFile(filename);
    }
  }

  /** The name of an image ends in an image extension, ignoring case. */
  lemma ImageFileHasExtension(filename: string)
    requires IsImageFile(filename)
    ensures HasImageExtension(filename)
  {
    var k := LastIndexOf(filename, '.');
    var lower := ToLower(filename);
    var ext := SubstringFrom(lower, k);
    var i :| 0 <= i < |IMAGE_EXTENSIONS| && IMAGE_EXTENSIONS[i] == ext;
    ExtensionShape(i);
    if k < 0 {
      assert ext == lower;
      LowerDot(filename[0]);
      assert false;
    }
    ToLowerSuffix(filename, k);
    assert filename[|filename| - |ext|..] == filename[k..];
    assert EndsWithIgnoringCase(filename, IMAGE_EXTENSIONS[i]);
  }

  /** A name that ends in an image extension, in any letter case, is an image. */
  lemma ExtensionMakesImageFile(filename: string)
    requires HasImageExtension(filename)
    ensures IsImageFile(filename)
  {
    var i :| 0 <= i < |IMAGE_EXTENSIONS| && EndsWithIgnoringCase(filename, IMAGE_EXTENSIONS[i]);
    var e := IMAGE_EXTENSIONS[i];
    ExtensionShape(i);
    ExtensionAfterLastDot(filename, e);
    assert e in IMAGE_EXTENSIONS;
  }

  /**
   * When a name ends in a '.' followed by letters, in any case, that '.' is
   * its last one and the lower-cased name from there on is that ending.
   */
  lemma ExtensionAfterLastDot(filename: string, e: string)
    requires |e| >= 1 && e[0] == '.' && forall j :: 0 < j < |e| ==> 'a' <= e[j] <= 'z'
    requires EndsWithIgnoringCase(filename, e)
    ensures SubstringFrom(ToLower(filename), LastIndexOf(filename, '.')) == e
  {
    var p := |filename| - |e|;
    assert ToLower(filename[p..])[0] == e[0];
    LowerDot(filename[p]);
    forall j | p < j < |filename| ensures filename[j] != '.' {
      assert ToLower(filename[p..])[j - p] == e[j - p];
      LowerDot(filename[j]);
    }
    LastIndexOfAt(filename, '.', p);
    ToLowerSuffix(filename, p);
  }

  /** A name without a '.' is never an image. */
  lemma NoDotIsNotImage(filename: string)
    requires '.' !in filename
    ensures !IsImageFile(filename)
  {
    IsImageFileIff(filename);
    if HasImageExtension(filename) {
      var i :| 0 <= i < |IMAGE_EXTENSIONS| && EndsWithIgnoringCase(filename, IMAGE_EXTENSIONS[i]);
      var e := IMAGE_EXTENSIONS[i];
      ExtensionShape(i);
      var p := |filename| - |e|;
      assert ToLower(filename[p..])[0] == '.';
      LowerDot(filename[p]);
    }
  }

  /** A name that ends in '/' is never an image: every extension ends in a letter. */
  lemma TrailingSlashIsNotImage(filename: string)
    requires |filename| > 0 && filename[|filename| - 1] == '/'
    ensures !IsImageFile(filename)
  {
    IsImageFileIff(filename);
    if HasImageExtension(filename) {
      var i :| 0 <= i < |IMAGE_EXTENSIONS| && EndsWithIgnoringCase(filename, IMAGE_EXTENSIONS[i]);
      ExtensionShape(i);
    }
  }

  /**
   * The converted file name: the name up to its last '.', then ".webp"
   * (`substring(0, lastIndexOf('.'))`, which is empty when there is no '.').
   */
  function OutputName(fileName: string): (r: string)
    ensures |r| >= |WEBP_EXTENSION| && r[|r| - |WEBP_EXTENSION|..] == WEBP_EXTENSION
    ensures var stem := r[..|r| - |WEBP_EXTENSION|];
            && stem <= fileName
            && ('.' in fileName ==>
                  |stem| < |fileName| && fileName[|stem|] == '.' && forall j :: |stem| < j < |fileName| ==> fileName[j] != '.')
            && ('.' !in fileName ==> stem == "")
  {
    var stem := Substring(fileName, 0, LastIndexOf(fileName, '.'));
    assert (stem + WEBP_EXTENSION)[..|stem|] == stem;
    stem + WEBP_EXTENSION
  }

  /** An image name has a '.', and its converted name is its text before the last '.', then ".webp". */
  lemma OutputNameOfImage(fileName: string)
    requires IsImageFile(fileName)
    ensures var d := LastIndexOf(fileName, '.');
            d >= 0 && OutputName(fileName) == fileName[..d] + WEBP_EXTENSION
  {
    if LastIndexOf(fileName, '.') < 0 {
      NoDotIsNotImage(fileName);
    }
  }

  /** A converted file name is itself classified as an image. */
  lemma OutputNameIsImage(fileName: string)
    ensures IsImageFile(OutputName(fileName))
  {
    var r := OutputName(fileName);
    WebpExtension();
    assert EndsWithIgnoringCase(r, IMAGE_EXTENSIONS[6]);
    IsImageFileIff(r);
  }

  /** ".webp" is one of the image extensions and is already lower-case. */
  lemma WebpExtension()
    ensures IMAGE_EXTENSIONS[6] == WEBP_EXTENSION && ToLower(WEBP_EXTENSION) == WEBP_EXTENSION
  {
  }
}
