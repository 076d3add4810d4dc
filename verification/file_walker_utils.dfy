/** `FileWalkerUtils.extensionFilter`: which walked paths count as media. */
module FileWalkerUtils {

  import opened JavaStrings

  /** An extension as the filter compares it: with a leading dot. */
  function NormalizeExtension(extension: string): (r: string)
    ensures StartsWith(r, ".")
    ensures StartsWith(extension, ".") ==> r == extension
    ensures !StartsWith(extension, ".") ==> r == "." + extension
  {
    if StartsWith(extension, ".") then extension else "." + extension
  }

  /** `path.getFileName()`: the text after the last `/`. */
  function FileName(path: string): (r: string)
    ensures '/' !in r
    ensures EndsWith(path, r)
  {
    var i := LastIndexOf(path, '/');
    path[i + 1..]
  }

  /** The predicate `extensionFilter(extensions…)` returns, applied to a
      file name: some normalised extension ends the name. */
  function ExtensionMatches(extensions: seq<string>, fileName: string): bool
  {
    |extensions| > 0
    && (EndsWith(fileName, NormalizeExtension(extensions[0])) || ExtensionMatches(extensions[1..], fileName))
  }

  /** The extensions `rescanMedia` indexes. */
  const MEDIA_EXTENSIONS: seq<string> := ["jpg", "jpeg", "png", "gif", "mov", "mp4"]

  /** A name matches exactly when it ends with one of the normalised
      extensions. */
  lemma {:induction false} ExtensionMatchesSpec(extensions: seq<string>, fileName: string)
    ensures ExtensionMatches(extensions, fileName)
            <==> exists i :: 0 <= i < |extensions| && EndsWith(fileName, NormalizeExtension(extensions[i]))
  {
    if |extensions| > 0 {
      ExtensionMatchesSpec(extensions[1..], fileName);
      if ExtensionMatches(extensions[1..], fileName) {
        var i :| 0 <= i < |extensions[1..]| && EndsWith(fileName, NormalizeExtension(extensions[1..][i]));
        assert EndsWith(fileName, NormalizeExtension(extensions[i + 1]));
      }
      if exists i :: 0 <= i < |extensions| && EndsWith(fileName, NormalizeExtension(extensions[i])) {
        var i :| 0 <= i < |extensions| && EndsWith(fileName, NormalizeExtension(extensions[i]));
        if i > 0 {
          assert extensions[1..][i - 1] == extensions[i];
        }
      }
    }
  }

  /** Normalising twice is normalising once; `jpg` and `.jpg` filter
      alike. */
  lemma NormalizeIdempotent(extension: string)
    ensures NormalizeExtension(NormalizeExtension(extension)) == NormalizeExtension(extension)
    ensures NormalizeExtension(extension) == NormalizeExtension("." + extension) || StartsWith(extension, ".")
  {
    assert StartsWith("." + extension, ".");
  }

  /** No extension, no match. */
  lemma EmptyMatchesNothing(fileName: string)
    ensures !ExtensionMatches([], fileName)
  {
  }

  /** A media file's name matches the media extensions. */
  lemma MatchesJpg()
    ensures ExtensionMatches(MEDIA_EXTENSIONS, "x.jpg")
  {
    assert "jpg"[..1][0] != "."[0];
    assert NormalizeExtension("jpg") == ".jpg";
    assert "x.jpg"[1..] == ".jpg";
  }

  /** Matching is case-sensitive: `x.JPG` is not a `jpg` file. */
  lemma CaseSensitive()
    ensures !ExtensionMatches(["jpg"], "x.JPG")
  {
    assert "jpg"[..1][0] != "."[0];
    assert NormalizeExtension("jpg") == ".jpg";
    assert "x.JPG"[1..] != ".jpg" by {
      assert "x.JPG"[1..][1] == 'J';
    }
  }

  /** The dot is part of the match: a file named just `jpg` does not
      match. */
  lemma DotRequired()
    ensures !ExtensionMatches(["jpg"], "jpg")
  {
    assert "jpg"[..1][0] != "."[0];
    assert NormalizeExtension("jpg") == ".jpg";
  }

  /** One path a walk visits, directories included, with its modification
      time in epoch milliseconds. */
  datatype WalkEntry = WalkEntry(path: string, lastModified: int)

  /** The entries of `Files.walk(dir)` the extension filter lets through, in
      walk order: what `walkFileTreeMultiThreaded`'s single task hands to the
      consumer. */
  function Walk(extensions: seq<string>, entries: seq<WalkEntry>): (r: seq<WalkEntry>)
    ensures |r| <= |entries|
    ensures forall e :: e in r <==> e in entries && ExtensionMatches(extensions, FileName(e.path))
  {
    if entries == [] then []
    else (if ExtensionMatches(extensions, FileName(entries[0].path)) then [entries[0]] else [])
         + Walk(extensions, entries[1..])
  }
}
