/**
 * The naming rules of the converter: which archive entries are images, the
 * name an image gets once converted, and the output archive name proposed
 * from the input archive name (`update_output_suffix`).
 */
module Naming {
  import opened PosixPath

  function LowerChar(c: char): char
  {
    if 'A' <= c <= 'Z' then (c as int - 'A' as int + 'a' as int) as char else c
  }

  /** `s.lower()`, for the ASCII letters. */
  function Lower(s: string): (r: string)
    ensures |r| == |s| && forall i :: 0 <= i < |s| ==> r[i] == LowerChar(s[i])
  {
    seq(|s|, i requires 0 <= i < |s| => LowerChar(s[i]))
  }

  predicate EndsWith(s: string, suffix: string)
  {
    |suffix| <= |s| && s[|s| - |suffix|..] == suffix
  }

  /** The two target formats offered by the format selector. */
  datatype Format = WebP | AVIF
  {
    /** The name shown in the selector and handed to the encoder. */
    function Name(): string
    {
      match this
      case WebP => "WebP"
      case AVIF => "AVIF"
    }

    /** `format.lower()`: the file extension and output-name suffix. */
    function Suffix(): (r: string)
      ensures r == (if this == WebP then "webp" else "avif")
    {
      Lower(Name())
    }
  }

  /** A file name whose lower-cased form ends in ".jpg", ".jpeg" or ".png". */
  predicate IsImageName(name: string)
  {
    var l := Lower(name);
    EndsWith(l, ".jpg") || EndsWith(l, ".jpeg") || EndsWith(l, ".png")
  }

  /** An archive entry is converted when its file name (the last path component) is an image name. */
  predicate IsImageEntry(path: string)
  {
    IsImageName(Basename(path))
  }

  /** Lower-casing leaves text without capital letters alone. */
  lemma LowerOfLowercase(s: string)
    requires forall i :: 0 <= i < |s| ==> !('A' <= s[i] <= 'Z')
    ensures Lower(s) == s
  {
  }

  /** The image extensions are recognised whatever their letter case. */
  lemma ImageExtensionAnyCase(name: string, ext: string)
    requires Lower(ext) == ".jpg" || Lower(ext) == ".jpeg" || Lower(ext) == ".png"
    ensures IsImageName(name + ext)
  {
    var l := Lower(name + ext);
    assert l[|l| - |ext|..] == Lower(ext);
  }

  /** Names ending in one of the three image extensions as written are images. */
  lemma ImageExtension(name: string, ext: string)
    requires ext == ".jpg" || ext == ".jpeg" || ext == ".png"
    ensures IsImageName(name + ext)
  {
    LowerOfLowercase(ext);
    ImageExtensionAnyCase(name, ext);
  }

  /** A name ending in ".webp" or ".avif" is never taken for an image. */
  lemma TargetNameIsNotImage(name: string, format: Format)
    requires EndsWith(name, "." + format.Suffix())
    ensures !IsImageName(name)
  {
    var l := Lower(name);
    var n := |name|;
    assert name[n - 5..] == "." + format.Suffix();
    assert l[n - 4] == LowerChar(name[n - 4]) == name[n - 4];
    assert l[n - 5] == '.';
  }

  /**
   * The file an image is converted to: in the image's directory, named by
   * the `splitext` stem of the image's file name, a dot and the lower-cased
   * format.
   */
  function ConvertedPath(path: string, format: Format): string
  {
    var parts := Split(path);
    Join(parts.head, SplitExt(parts.tail).stem + "." + format.Suffix())
  }

  /**
   * A converted file stays in the directory of its image, is named by the
   * image's stem (letter case kept) followed by "." and the lower-cased
   * format, and is therefore never itself taken for an image.
   */
  lemma ConvertedPathParts(path: string, format: Format)
    ensures var r := ConvertedPath(path, format);
            Split(r) == Parts(Split(path).head, SplitExt(Basename(path)).stem + "." + format.Suffix()) &&
            EndsWith(r, "." + format.Suffix()) &&
            !IsImageEntry(r)
  {
    var parts := Split(path);
    SplitFacts(path);
    SplitExtFacts(parts.tail);
    ConvertedNameFacts(parts.head, SplitExt(parts.tail).stem, format);
  }

  lemma ConvertedNameFacts(dir: string, stem: string, format: Format)
    requires IsHead(dir) && '/' !in stem
    ensures var name := stem + "." + format.Suffix();
            Split(Join(dir, name)) == Parts(dir, name) &&
            EndsWith(Join(dir, name), "." + format.Suffix()) &&
            !IsImageName(name)
  {
    var name := stem + "." + format.Suffix();
    SplitJoin(dir, name);
    assert EndsWith(name, "." + format.Suffix());
    TargetNameIsNotImage(name, format);
    JoinEndsWith(dir, name, "." + format.Suffix());
  }

  lemma JoinEndsWith(a: string, b: string, suffix: string)
    requires EndsWith(b, suffix)
    ensures EndsWith(Join(a, b), suffix)
  {
    var j := Join(a, b);
    assert j[|j| - |b|..] == b;
    assert j[|j| - |suffix|..] == b[|b| - |suffix|..];
  }

  /**
   * `update_output_suffix`: with an input path, the output path becomes
   * `dir/name_<format><ext>` next to the input; with an empty input path the
   * output path is left as it is.
   */
  function DefaultOutputPath(inputPath: string, format: Format, current: string): string
  {
    if inputPath == "" then current
    else
      var parts := Split(inputPath);
      var file := SplitExt(parts.tail);
      Join(parts.head, file.stem + "_" + format.Suffix() + file.ext)
  }

  /**
   * The proposed output archive sits in the input archive's directory and is
   * named by the input's stem, "_", the lower-cased format and the input's
   * extension; an empty input path leaves the output path as it was.
   */
  lemma DefaultOutputPathParts(inputPath: string, format: Format, current: string)
    ensures inputPath == "" ==> DefaultOutputPath(inputPath, format, current) == current
    ensures inputPath != "" ==>
              var file := SplitExt(Basename(inputPath));
              Split(DefaultOutputPath(inputPath, format, current)) ==
                Parts(Split(inputPath).head, file.stem + "_" + format.Suffix() + file.ext)
  {
    if inputPath != "" {
      var parts := Split(inputPath);
      var file := SplitExt(parts.tail);
      SplitFacts(inputPath);
      SplitExtFacts(parts.tail);
      SplitJoin(parts.head, file.stem + "_" + format.Suffix() + file.ext);
    }
  }

  /** `splitext` on a name with a real extension gives that name and extension back. */
  lemma SplitExtOfStemAndExt(stem: string, ext: string)
    requires '/' !in stem && HasNonDot(stem)
    requires |ext| > 0 && ext[0] == '.' && '.' !in ext[1..] && '/' !in ext
    ensures SplitExt(stem + ext) == StemExt(stem, ext)
  {
    var p := stem + ext;
    var dot := LastIndexOf(p, '.');
    LastIndexOfFacts(p, '.');
    assert p[|stem|] == '.';
    LastIndexAbsent(p, '/');
    var i :| 0 <= i < |stem| && stem[i] != '.';
    assert p[i] != '.';
    assert p[..dot] == stem && p[dot..] == ext;
  }

  /** An image `dir/name.ext` is converted to `dir/name.<format>`. */
  lemma ConvertedPathOfImage(dir: string, stem: string, ext: string, format: Format)
    requires IsHead(dir)
    requires '/' !in stem && HasNonDot(stem)
    requires |ext| > 0 && ext[0] == '.' && '.' !in ext[1..] && '/' !in ext
    ensures ConvertedPath(Join(dir, stem + ext), format) == Join(dir, stem + "." + format.Suffix())
  {
    SplitJoin(dir, stem + ext);
    SplitExtOfStemAndExt(stem, ext);
  }

  /** An input archive `dir/name.ext` proposes the output archive `dir/name_<format>.ext`. */
  lemma DefaultOutputPathOfArchive(dir: string, stem: string, ext: string, format: Format, current: string)
    requires IsHead(dir)
    requires '/' !in stem && HasNonDot(stem)
    requires |ext| > 0 && ext[0] == '.' && '.' !in ext[1..] && '/' !in ext
    ensures DefaultOutputPath(Join(dir, stem + ext), format, current) == Join(dir, stem + "_" + format.Suffix() + ext)
  {
    SplitJoin(dir, stem + ext);
    SplitExtOfStemAndExt(stem, ext);
  }
}
