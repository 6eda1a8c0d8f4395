/** The image normaliser (backend/src/utils/crop.js): derives the output name
    from the staged upload, has the image resized to exactly the caller's
    dimensions next to the staged file, discards the staged file best-effort
    and returns the public path under "/uploads/". */
module Crop {
  import opened Wrappers
  import opened Strings
  import opened NodePath

  /** Pixel dimensions of a stored image. */
  datatype Image = Image(width: nat, height: nat)

  /** The file object multer hands to the route: where the upload was staged
      (`path`), the generated staged name (`filename`), the client's name for
      the file (`originalname`, possibly absent), and the image it holds. */
  datatype UploadedFile = UploadedFile(
    path: string, filename: string, originalname: Option<string>, image: Image)

  /** The local filesystem, as the image stored at each path. */
  class Disk {
    var files: map<string, Image>

    constructor (files0: map<string, Image>)
      ensures files == files0
    {
      files := files0;
    }
  }

  const NoFileMessage := "No file provided"
  const FallbackName := ".jpg"
  const CroppedSuffix := "-cropped"
  const UploadsPrefix := "/uploads/"

  /** `file.originalname || ".jpg"`. */
  function SourceName(file: UploadedFile): (n: string)
    ensures n != ""
    ensures file.originalname.None? || file.originalname.value == "" ==> n == FallbackName
  {
    if file.originalname.Some? && file.originalname.value != "" then file.originalname.value
    else FallbackName
  }

  /** `ext = path.extname(file.originalname || ".jpg")`. */
  function Ext(file: UploadedFile): string {
    Extname(SourceName(file))
  }

  /** `outputName = basename(file.filename, ext) + "-cropped" + ext`. */
  function OutputName(file: UploadedFile): string {
    Basename(file.filename, Ext(file)) + CroppedSuffix + Ext(file)
  }

  /** `outputPath = join(dirname(file.path), outputName)`. */
  function OutputPath(file: UploadedFile): string {
    JoinPath(Dirname(file.path), OutputName(file))
  }

  /** `publicPath = "/uploads/" + outputName`. */
  function PublicPath(file: UploadedFile): (p: string)
    ensures StartsWith(p, UploadsPrefix) && p[|UploadsPrefix|..] == OutputName(file)
  {
    var p := UploadsPrefix + OutputName(file);
    assert p[..|UploadsPrefix|] == UploadsPrefix;
    p
  }

  /** `fs.unlink(p, () => {})`: removes `p` when the call succeeds; a failure
      is ignored. */
  function Unlink(files: map<string, Image>, p: string, unlinkOk: bool): (r: map<string, Image>)
    ensures forall q :: q != p ==> (q in r <==> q in files) && (q in r ==> r[q] == files[q])
    ensures p in r <==> p in files && !unlinkOk
  {
    if unlinkOk then files - {p} else files
  }

  /** The filesystem after a successful crop: the output written with exactly
      the target dimensions, then the staged input unlinked best-effort. */
  function AfterCrop(files: map<string, Image>, file: UploadedFile, width: nat, height: nat,
                     unlinkOk: bool): (r: map<string, Image>)
    ensures OutputPath(file) != file.path ==>
              OutputPath(file) in r && r[OutputPath(file)] == Image(width, height)
    ensures file.path in r <==> !unlinkOk && (file.path in files || file.path == OutputPath(file))
    ensures forall q :: q != file.path && q != OutputPath(file) ==>
              (q in r <==> q in files) && (q in r ==> r[q] == files[q])
  {
    Unlink(files[OutputPath(file) := Image(width, height)], file.path, unlinkOk)
  }

  /** `cropAndSave(file, {width, height})`. `resizeError` is the outcome of the
      resize library: `None` when it wrote the output, `Some(message)` when it
      threw. A missing file throws before anything is derived or written; a
      failed resize throws before the staged file is unlinked. */
  method CropAndSave(disk: Disk, file: Option<UploadedFile>, width: nat, height: nat,
                     resizeError: Option<string>, unlinkOk: bool)
    returns (r: Result<string, string>)
    modifies disk
    ensures file.None? ==> r == Failure(NoFileMessage) && disk.files == old(disk.files)
    ensures file.Some? && resizeError.Some? ==>
              r == Failure(resizeError.value) && disk.files == old(disk.files)
    ensures file.Some? && resizeError.None? ==>
              r == Success(PublicPath(file.value)) &&
              disk.files == AfterCrop(old(disk.files), file.value, width, height, unlinkOk)
  {
    if file.None? {
      return Failure(NoFileMessage);
    }
    var f := file.value;
    var inputPath := f.path;
    var ext := Extname(SourceName(f));
    var outputName := Basename(f.filename, ext) + CroppedSuffix + ext;
    var outputPath := JoinPath(Dirname(inputPath), outputName);
    if resizeError.Some? {
      return Failure(resizeError.value);
    }
    disk.files := disk.files[outputPath := Image(width, height)];
    disk.files := Unlink(disk.files, inputPath, unlinkOk);
    r := Success(UploadsPrefix + outputName);
  }

  // ---------------------------------------------------------------------------
  // Properties of the derived names

  /** With a staged name free of '/', the output name is that name with one
      trailing `ext` removed, followed by "-cropped" and `ext`. */
  lemma OutputNameOfPlainFilename(file: UploadedFile)
    requires '/' !in file.filename
    ensures var x := Ext(file);
      OutputName(file) ==
        (if x != "" && EndsWith(file.filename, x)
         then file.filename[..|file.filename| - |x|] else file.filename)
        + CroppedSuffix + x
  {
    BasenameOfPlainName(file.filename, Ext(file));
  }

  /** Without an original name the ".jpg" fallback applies, and Node's
      `extname(".jpg")` is "": the output name gets no extension at all. */
  lemma FallbackHasNoExtension(file: UploadedFile)
    requires file.originalname.None? || file.originalname.value == ""
    requires '/' !in file.filename
    ensures Ext(file) == ""
    ensures OutputName(file) == file.filename + CroppedSuffix
  {
    DotFileHasNoExtension();
    OutputNameOfPlainFilename(file);
  }

  /** With a staged name free of '/', the output name is a plain file name. */
  lemma OutputNameIsPlain(file: UploadedFile)
    requires '/' !in file.filename
    ensures OutputName(file) != "" && '/' !in OutputName(file)
    ensures EndsWith(OutputName(file), CroppedSuffix + Ext(file))
  {
    var stem, x := Basename(file.filename, Ext(file)), Ext(file);
    StemIsPlain(file);
    ExtHasNoSlash(SourceName(file));
    PlainName(stem, x);
  }

  lemma ExtHasNoSlash(p: string)
    ensures '/' !in Extname(p)
  {
    ExtnameShape(p);
  }

  lemma PlainName(stem: string, x: string)
    requires '/' !in stem && '/' !in x
    ensures var n := stem + CroppedSuffix + x;
      n != "" && '/' !in n && EndsWith(n, CroppedSuffix + x)
  {
    NoSlashConcat(CroppedSuffix, x);
    NoSlashConcat(stem, CroppedSuffix + x);
    assert stem + CroppedSuffix + x == stem + (CroppedSuffix + x);
  }

  lemma StemIsPlain(file: UploadedFile)
    requires '/' !in file.filename
    ensures '/' !in Basename(file.filename, Ext(file))
  {
    var x, f := Ext(file), file.filename;
    BasenameOfPlainName(f, x);
    if x != "" && EndsWith(f, x) {
      assert forall i :: 0 <= i < |f| - |x| ==> Basename(f, x)[i] == f[i];
    }
  }

  lemma NoSlashConcat(a: string, b: string)
    requires '/' !in a && '/' !in b
    ensures '/' !in a + b
    ensures EndsWith(a + b, b)
  {
    assert (a + b)[|a|..] == b;
  }

  /** The output is written in the staged file's directory, and the public
      path names that same file: both end in the output name. */
  lemma OutputBesideStagedInput(file: UploadedFile)
    requires '/' !in file.filename
    requires var d := Dirname(file.path); d[|d| - 1] != '/'
    ensures Dirname(OutputPath(file)) == Dirname(file.path)
    ensures LastComponent(OutputPath(file)) == OutputName(file)
    ensures StartsWith(PublicPath(file), UploadsPrefix)
    ensures PublicPath(file)[|UploadsPrefix|..] == OutputName(file)
  {
    var dir, name := Dirname(file.path), OutputName(file);
    OutputNameIsPlain(file);
    DirnameNonEmpty(file.path);
    JoinPathParts(dir, name);
    assert OutputPath(file) == JoinPath(dir, name);
    assert PublicPath(file) == UploadsPrefix + name;
  }

  lemma DirnameNonEmpty(p: string)
    ensures Dirname(p) != ""
  {
  }
}
