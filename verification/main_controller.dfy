/** The string helpers of `MainController`: a file's extension, the media
    type it reports, and the name of a cached thumbnail. */
module MainControllers {

  import opened Wrappers
  import opened JavaStrings
  import opened FileWalkerUtils
  import opened MediaServices

  /** `getFileExtension`: the text after the last `.` of the name, or `""`
      when the name has no `.` or its only `.` leads it. */
  function GetFileExtension(fileName: string): (r: string)
    ensures '.' !in r
    ensures '.' !in fileName ==> r == ""
    ensures LastIndexOf(fileName, '.') == 0 ==> r == ""
    ensures LastIndexOf(fileName, '.') > 0 ==> EndsWith(fileName, "." + r)
  {
    var dot := LastIndexOf(fileName, '.');
    if dot != -1 && dot != 0 then
      assert fileName[dot..] == "." + fileName[dot + 1..];
      fileName[dot + 1..]
    else ""
  }

  /** A name is split at its last dot: a non-empty stem, the dot, and the
      extension. */
  lemma ExtensionSplit(fileName: string)
    requires LastIndexOf(fileName, '.') > 0
    ensures var i := |fileName| - |GetFileExtension(fileName)| - 1;
            0 < i && fileName == fileName[..i] + "." + GetFileExtension(fileName)
  {
    var dot := LastIndexOf(fileName, '.');
    var ext := GetFileExtension(fileName);
    assert ext == fileName[dot + 1..];
    assert |fileName| - |ext| - 1 == dot;
    assert fileName == fileName[..dot] + "." + ext;
  }

  /** Putting a stem and an extension together and taking the extension
      gives the extension back, whatever dots the stem holds. */
  lemma ExtensionOfComposed(stem: string, ext: string)
    requires stem != "" && '.' !in ext
    ensures GetFileExtension(stem + "." + ext) == ext
  {
    var name := stem + "." + ext;
    var dot := LastIndexOf(name, '.');
    assert name[|stem|] == '.';
    assert name[|stem| + 1..] == ext;
  }

  /** `.hidden` has no extension; `photo.tar.jpg` has `jpg`. */
  lemma ExtensionExamples()
    ensures GetFileExtension(".hidden") == ""
    ensures GetFileExtension("photo.tar.jpg") == "jpg"
  {
    HiddenFileExtension();
    ComposedFileExtension();
  }

  /** A name whose only dot leads it has no extension. */
  lemma HiddenFileExtension()
    ensures GetFileExtension(".hidden") == ""
  {
    assert LastIndexOf(".hidden", '.') == 0 by {
      assert ".hidden"[0] == '.';
      assert '.' !in ".hidden"[1..];
    }
  }

  /** Only the text after the last of several dots is the extension. */
  lemma ComposedFileExtension()
    ensures GetFileExtension("photo.tar.jpg") == "jpg"
  {
    ExtensionOfComposed("photo.tar", "jpg");
    assert "photo.tar" + "." + "jpg" == "photo.tar.jpg";
  }

  /** The `type` the media-type endpoint reports for a file name, `None`
      for a missing file. */
  function MediaType(fileName: Option<string>): (r: string)
    ensures r == "unknown" <==> fileName.None?
    ensures r == "vid" <==> fileName.Some? && (EndsWith(fileName.value, ".mp4") || EndsWith(fileName.value, ".mov"))
    ensures r == "img" <==> fileName.Some? && !EndsWith(fileName.value, ".mp4") && !EndsWith(fileName.value, ".mov")
  {
    match fileName
    case None => "unknown"
    case Some(name) => if EndsWith(name, ".mp4") || EndsWith(name, ".mov") then "vid" else "img"
  }

  /** A name counts as a video exactly when the walker's extension filter
      over `mp4` and `mov` lets it through. */
  lemma VideoAgreesWithFilter(fileName: string)
    ensures MediaType(Some(fileName)) == "vid" <==> ExtensionMatches(["mp4", "mov"], fileName)
  {
    assert "mp4"[..1][0] != "."[0];
    assert "mov"[..1][0] != "."[0];
    assert NormalizeExtension("mp4") == ".mp4";
    assert NormalizeExtension("mov") == ".mov";
    assert ["mp4", "mov"][0] == "mp4" && ["mp4", "mov"][1..] == ["mov"];
    assert ["mov"][0] == "mov" && ["mov"][1..] == [];
    assert ExtensionMatches(["mov"], fileName) == EndsWith(fileName, ".mov");
    assert ExtensionMatches(["mp4", "mov"], fileName) == (EndsWith(fileName, ".mp4") || EndsWith(fileName, ".mov"));
  }

  /** The part of a thumbnail's name before its extension:
      `<size>-<hash of the path>`. */
  function ThumbnailStem(size: int, absolutePath: string): string
  {
    Decimal(size) + "-" + Decimal(HashOf(absolutePath))
  }

  /** The file name of a thumbnail: `<size>-<hash of the path>.<extension>`. */
  function ThumbnailName(size: int, absolutePath: string): string
  {
    ThumbnailStem(size, absolutePath) + ("." + GetFileExtension(FileName(absolutePath)))
  }

  /** A thumbnail keeps the extension of the file it shows. */
  lemma ThumbnailKeepsExtension(size: int, absolutePath: string)
    ensures GetFileExtension(ThumbnailName(size, absolutePath)) == GetFileExtension(FileName(absolutePath))
  {
    var stem := ThumbnailStem(size, absolutePath);
    var ext := GetFileExtension(FileName(absolutePath));
    assert stem != "";
    ExtensionOfComposed(stem, ext);
    Assoc(stem, ".", ext);
  }

  /** Thumbnails of one file at two sizes have different names. */
  lemma ThumbnailSizesDiffer(size1: int, size2: int, absolutePath: string)
    requires size1 != size2
    ensures ThumbnailName(size1, absolutePath) != ThumbnailName(size2, absolutePath)
  {
    var h := Decimal(HashOf(absolutePath));
    var ext := GetFileExtension(FileName(absolutePath));
    var tail := "-" + h + ("." + ext);
    DecimalRoundTrip(size1);
    DecimalRoundTrip(size2);
    Regroup(Decimal(size1), "-", h, "." + ext);
    Regroup(Decimal(size2), "-", h, "." + ext);
    SameTail(Decimal(size1), Decimal(size2), tail);
  }

  lemma Assoc(a: string, b: string, c: string)
    ensures a + (b + c) == (a + b) + c
  {
  }

  lemma Regroup(a: string, b: string, c: string, d: string)
    ensures a + b + c + d == a + (b + c + d)
  {
  }

  lemma SameTail(a: string, b: string, tail: string)
    ensures a + tail == b + tail ==> a == b
  {
    if a + tail == b + tail {
      assert a == (a + tail)[..|a|];
    }
  }
}
