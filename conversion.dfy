/**
 * Converting one image file: the output-path derivation, the rule that
 * flattens RGBA images for the JPEG family, and the shape of the result.
 * The imaging library is an oracle: its open, convert and save operations
 * are function values that either produce a value or raise an exception
 * with a message.
 */
module Conversion {
  import opened Paths

  /** The target formats offered in the format selector. */
  const SupportedFormats: seq<string> :=
    ["JPEG", "JPG", "PNG", "WEBP", "GIF", "BMP", "ICO", "TIFF", "PPM", "TGA"]

  /** A decoded image: its colour mode (such as "RGBA") and its size. */
  datatype Image = Image(mode: string, width: nat, height: nat)

  /** The outcome of a library call: a value, or an exception and its text. */
  datatype Attempt<T> = Done(value: T) | Raised(message: string)

  /** The imaging library's operations the converter calls. */
  datatype Library = Library(
    open: string -> Attempt<Image>,
    convert: (Image, string) -> Attempt<Image>,
    save: (Image, string, string) -> Attempt<()>)

  /** What converting one file yields: the written path, or why it failed. */
  datatype ConversionResult = Success(path: string) | Failure(input: string, reason: string)

  /** The input's base name with only its final extension removed. */
  function Stem(input: string): string
  {
    SplitExt(Basename(input)).0
  }

  /** The name of the file written for `input`. */
  function OutputName(input: string, format: string): string
  {
    Stem(input) + [ExtSep] + Lower(format)
  }

  /** The full path of the file written for `input`. */
  function OutputPath(input: string, format: string, outputDir: string): string
  {
    Join(outputDir, OutputName(input, format))
  }

  /**
   * The stem is the base name minus at most one extension: it holds no
   * separator, and what was cut off is empty or a single dot-led suffix
   * with no further dot.
   */
  lemma StemIsBasenameWithoutFinalExtension(input: string)
    ensures Sep !in Stem(input)
    ensures exists ext :: Basename(input) == Stem(input) + ext
                          && (ext == [] || (ext[0] == ExtSep && ExtSep !in ext[1..]))
  {
    var parts := SplitExt(Basename(input));
    assert Basename(input) == Stem(input) + parts.1;
    forall i | 0 <= i < |Stem(input)| ensures Stem(input)[i] != Sep {
      assert Stem(input)[i] == Basename(input)[i];
    }
  }

  /** The output name never starts with a separator. */
  lemma OutputNameIsRelative(input: string, format: string)
    ensures var name := OutputName(input, format); |name| > 0 && name[0] != Sep
  {
    StemIsBasenameWithoutFinalExtension(input);
    var name := OutputName(input, format);
    if |Stem(input)| > 0 {
      assert name[0] == Stem(input)[0];
    }
  }

  /**
   * The output file lands directly in the output directory: the path is
   * the directory, one separator when the directory does not already end
   * in one, then the output name.
   */
  lemma OutputPathInOutputDir(input: string, format: string, outputDir: string)
    ensures var path := OutputPath(input, format, outputDir);
            var name := OutputName(input, format);
            && |path| >= |name|
            && path[|path| - |name|..] == name
            && (outputDir == [] ==> path == name)
            && (outputDir != [] ==>
                  path[..|path| - |name|] ==
                    (if outputDir[|outputDir| - 1] == Sep then outputDir else outputDir + [Sep]))
  {
    OutputNameIsRelative(input, format);
  }

  lemma {:induction false} JoinKeepsSuffix(dir: string, name: string, ext: string)
    requires |name| >= |ext| && name[|name| - |ext|..] == ext
    ensures var path := Join(dir, name); |path| >= |ext| && path[|path| - |ext|..] == ext
  {
    var path := Join(dir, name);
    assert path[|path| - |ext|..] == path[|path| - |name|..][|name| - |ext|..];
  }

  lemma {:induction false} NameEndsWithExtension(stem: string, format: string)
    ensures var name := stem + [ExtSep] + Lower(format);
            var ext := [ExtSep] + Lower(format);
            |name| >= |ext| && name[|name| - |ext|..] == ext
  {
    var ext := [ExtSep] + Lower(format);
    assert stem + [ExtSep] + Lower(format) == stem + ext;
  }

  lemma {:induction false} JoinedNameEndsWithExtension(dir: string, stem: string, format: string)
    ensures var path := Join(dir, stem + [ExtSep] + Lower(format));
            var ext := [ExtSep] + Lower(format);
            |path| >= |ext| && path[|path| - |ext|..] == ext
  {
    NameEndsWithExtension(stem, format);
    JoinKeepsSuffix(dir, stem + [ExtSep] + Lower(format), [ExtSep] + Lower(format));
  }

  /** The output path ends with "." and the lower-cased format. */
  lemma OutputPathEndsWithFormat(input: string, format: string, outputDir: string)
    ensures var path := OutputPath(input, format, outputDir);
            var ext := [ExtSep] + Lower(format);
            |path| >= |ext| && path[|path| - |ext|..] == ext
  {
    JoinedNameEndsWithExtension(outputDir, Stem(input), format);
  }

  lemma NameWithoutSeparator(stem: string, format: string)
    requires Sep !in stem && Sep !in format
    ensures Sep !in stem + [ExtSep] + Lower(format)
  {
    assert Sep !in Lower(format) by {
      forall i | 0 <= i < |format| ensures Lower(format)[i] != Sep {
        assert format[i] != Sep;
      }
    }
  }

  /**
   * When the format holds no separator, the base name of the output path is
   * exactly the output name, so the success line shows the stem and the
   * lower-cased format.
   */
  lemma OutputBasenameIsOutputName(input: string, format: string, outputDir: string)
    requires Sep !in format
    ensures Basename(OutputPath(input, format, outputDir)) == OutputName(input, format)
  {
    StemIsBasenameWithoutFinalExtension(input);
    NameWithoutSeparator(Stem(input), format);
    JoinedBasename(outputDir, OutputName(input, format));
  }

  /** Two inputs with the same base name are written to the same file. */
  lemma SameBasenameSameOutput(a: string, b: string, format: string, outputDir: string)
    requires Basename(a) == Basename(b)
    ensures OutputPath(a, format, outputDir) == OutputPath(b, format, outputDir)
  {
  }

  /** The image is flattened to RGB before saving. */
  predicate NeedsFlatten(format: string, mode: string)
  {
    Upper(format) in ["JPEG", "JPG"] && mode == "RGBA"
  }

  /**
   * Flattening happens exactly for an RGBA image and a format that is
   * "jpeg" or "jpg" in any letter case.
   */
  lemma FlattenExactlyForRgbaJpeg(format: string, mode: string)
    ensures NeedsFlatten(format, mode) <==> mode == "RGBA" && Lower(format) in ["jpeg", "jpg"]
  {
    UpperMatchesIffLowerMatches(format, "JPEG");
    UpperMatchesIffLowerMatches(format, "JPG");
    assert Lower("JPEG") == "jpeg";
    assert Lower("JPG") == "jpg";
  }

  /** Among the offered formats, only JPEG and JPG flatten an RGBA image. */
  lemma FlattenAmongSupportedFormats(format: string)
    requires format in SupportedFormats
    ensures NeedsFlatten(format, "RGBA") <==> format == "JPEG" || format == "JPG"
  {
    assert IsUpperWord(format);
    UpperOfUpperWord(format);
  }

  lemma JpegExtension(stem: string, format: string)
    requires Lower(format) in ["jpeg", "jpg"]
    ensures var name := stem + [ExtSep] + Lower(format);
            name == stem + ".jpeg" || name == stem + ".jpg"
  {
    if Lower(format) == "jpeg" {
      assert [ExtSep] + Lower(format) == ".jpeg";
    } else {
      assert [ExtSep] + Lower(format) == ".jpg";
    }
  }

  /** A flattened image is always written to a ".jpeg" or ".jpg" file. */
  lemma FlattenedOutputIsJpeg(input: string, format: string, mode: string)
    requires NeedsFlatten(format, mode)
    ensures var name := OutputName(input, format);
            name == Stem(input) + ".jpeg" || name == Stem(input) + ".jpg"
  {
    FlattenExactlyForRgbaJpeg(format, mode);
    JpegExtension(Stem(input), format);
  }

  /** The image handed to save: flattened to RGB when required, else as decoded. */
  function ImageToSave(lib: Library, image: Image, format: string): (r: Attempt<Image>)
    ensures !NeedsFlatten(format, image.mode) ==> r == Done(image)
  {
    if NeedsFlatten(format, image.mode) then lib.convert(image, "RGB") else Done(image)
  }

  /** The library's RGB conversion yields an RGB image of the same size. */
  ghost predicate ConvertsToRgb(lib: Library)
  {
    forall image: Image :: lib.convert(image, "RGB").Done? ==>
      var converted := lib.convert(image, "RGB").value;
      converted.mode == "RGB" && converted.width == image.width && converted.height == image.height
  }

  /**
   * For a JPEG-family target the image handed to save is never an RGBA
   * image, and it keeps the decoded image's size. Other modes with alpha
   * (such as "LA") are not flattened and reach save as decoded.
   */
  lemma JpegNeverSavedAsRgba(lib: Library, image: Image, format: string)
    requires ConvertsToRgb(lib)
    requires Upper(format) in ["JPEG", "JPG"]
    ensures ImageToSave(lib, image, format).Done? ==>
              var saved := ImageToSave(lib, image, format).value;
              saved.mode != "RGBA" && saved.width == image.width && saved.height == image.height
  {
  }

  /**
   * Python's `convert_image`: open, derive the output path, flatten when
   * required, save; any exception becomes a failure carrying its text.
   */
  function ConvertImage(lib: Library, input: string, format: string, outputDir: string): (r: ConversionResult)
    ensures r.Success? ==> r.path == OutputPath(input, format, outputDir)
    ensures r.Failure? ==> r.input == input
    ensures lib.open(input).Raised? ==> r == Failure(input, lib.open(input).message)
    ensures lib.open(input).Done? && ImageToSave(lib, lib.open(input).value, format).Raised? ==>
              r == Failure(input, ImageToSave(lib, lib.open(input).value, format).message)
    ensures lib.open(input).Done? && ImageToSave(lib, lib.open(input).value, format).Done? ==>
              var saved := lib.save(ImageToSave(lib, lib.open(input).value, format).value,
                                    OutputPath(input, format, outputDir), format);
              saved.Raised? ==> r == Failure(input, saved.message)
    ensures r.Success? <==>
              && lib.open(input).Done?
              && ImageToSave(lib, lib.open(input).value, format).Done?
              && lib.save(ImageToSave(lib, lib.open(input).value, format).value,
                          OutputPath(input, format, outputDir), format).Done?
  {
    match lib.open(input)
    case Raised(e) => Failure(input, e)
    case Done(image) =>
      var outputFile := OutputPath(input, format, outputDir);
      match ImageToSave(lib, image, format)
      case Raised(e) => Failure(input, e)
      case Done(toSave) =>
        match lib.save(toSave, outputFile, format)
        case Raised(e) => Failure(input, e)
        case Done(_) => Success(outputFile)
  }

  /**
   * When saving into the output directory always raises (a missing or
   * read-only directory), every file fails, each with its own path.
   */
  lemma UnwritableDirectoryFailsEveryFile(lib: Library, format: string, outputDir: string, input: string)
    requires forall image: Image, name: string :: lib.save(image, Join(outputDir, name), format).Raised?
    ensures ConvertImage(lib, input, format, outputDir) == Failure(input, ConvertImage(lib, input, format, outputDir).reason)
  {
  }

  /** One line of the results box. */
  datatype ReportLine = Converted(name: string) | Failed(path: string, reason: string)

  /** The line reported for `file` given what converting it yielded. */
  function Report(file: string, result: ConversionResult): ReportLine
  {
    match result
    case Success(path) => Converted(Basename(path))
    case Failure(_, reason) => Failed(file, reason)
  }
}
