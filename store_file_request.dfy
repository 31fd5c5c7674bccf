/**
 * Validation of an upload request: the rules on `file` and `description`, the
 * message each failed rule is reported with, and the authorisation hook.
 */
module StoreFileRequest {
  import opened Common
  import opened Strings
  import opened FileNames

  /** `max:10240` on a file: kilobytes. */
  const MaxFileKilobytes: int := 10240

  /** `max:500` on the description: characters. */
  const MaxDescriptionLength: int := 500

  /** The `mimes` allow-list. */
  const AllowedExtensions: seq<string> := ["pdf", "doc", "docx", "xls", "xlsx", "txt", "jpg", "jpeg", "png", "gif", "webp"]

  /** Client extensions `mimes` refuses whatever the content is, unless `php` itself is allowed. */
  const PhpExtensions: seq<string> := ["php", "php3", "php4", "php5", "php7", "php8", "phtml", "phar"]

  /**
   * The `file` field of the request: absent, a plain value that is not a file, or an
   * upload. An upload carries whether it succeeded (`isValid()`) and the extension
   * guessed from its content, which is what `mimes` looks up.
   */
  datatype FileField = NoFile | NotAFile(value: string) | Uploaded(upload: Upload, isValid: bool, guessedExtension: string)

  /** The request: the file and the description (absent and null are both `None`). */
  datatype StoreRequest = StoreRequest(file: FileField, description: Option<string>)

  /** One failed rule. `FileUploadFailed` is the validator's own `uploaded` failure. */
  datatype Violation = FileRequired | FileUploadFailed | FileNotValid | FileTooLarge | FileTypeNotAllowed | DescriptionTooLong

  /** The size rule compares kilobytes, computed as bytes divided by 1024. */
  predicate WithinSizeLimit(sizeBytes: nat)
  {
    (sizeBytes as real) / 1024.0 <= MaxFileKilobytes as real
  }

  /** In whole bytes the limit is 10 MiB: 10485760 bytes pass, one more fails. */
  lemma WithinSizeLimitBytes(sizeBytes: nat)
    ensures WithinSizeLimit(sizeBytes) <==> sizeBytes <= 10485760
  {
  }

  /** The client name has a PHP extension, compared trimmed and in lower case. */
  predicate PhpUpload(u: Upload)
  {
    Trim(AsciiLower(Extension(u.clientOriginalName))) in PhpExtensions
  }

  /** `mimes`: not a PHP client name, and the content's extension is on the list. */
  predicate TypeAllowed(u: Upload, guessedExtension: string)
  {
    !PhpUpload(u) && guessedExtension in AllowedExtensions
  }

  /**
   * The failed rules, in rule order.
   * - A missing or blank `file` fails `required` only: the other rules are not run on it.
   * - A failed upload fails `uploaded` only: the validator stops checking the field.
   * - A value that is not a file fails `file` and `mimes`; `max` measures it in characters.
   * - A null, absent or blank description is not checked.
   */
  function Violations(req: StoreRequest): seq<Violation>
  {
    var fileViolations :=
      match req.file
      case NoFile => [FileRequired]
      case NotAFile(v) =>
        if Blank(v) then [FileRequired]
        else [FileNotValid] + (if |v| <= MaxFileKilobytes then [] else [FileTooLarge]) + [FileTypeNotAllowed]
      case Uploaded(u, valid, ext) =>
        if !valid then [FileUploadFailed]
        else
          (if WithinSizeLimit(|u.content|) then [] else [FileTooLarge])
          + (if TypeAllowed(u, ext) then [] else [FileTypeNotAllowed]);
    var descriptionViolations :=
      if req.description.Some? && !Blank(req.description.value) && |req.description.value| > MaxDescriptionLength
      then [DescriptionTooLong] else [];
    fileViolations + descriptionViolations
  }

  /** The request passes when no rule fails. */
  predicate Passes(req: StoreRequest)
  {
    Violations(req) == []
  }

  /**
   * A request passes exactly when a file was uploaded successfully, is at most
   * 10240 KB, has an allowed content type and no PHP client extension, and any
   * non-blank description has at most 500 characters.
   */
  lemma PassesIff(req: StoreRequest)
    ensures Passes(req) <==>
      && req.file.Uploaded?
      && req.file.isValid
      && |req.file.upload.content| <= MaxFileKilobytes * 1024
      && req.file.guessedExtension in AllowedExtensions
      && !PhpUpload(req.file.upload)
      && (req.description.None? || Blank(req.description.value) || |req.description.value| <= MaxDescriptionLength)
  {
    if req.file.Uploaded? {
      WithinSizeLimitBytes(|req.file.upload.content|);
    }
  }

  /** The field a failed rule is reported on. */
  function Attribute(v: Violation): string
  {
    if v == DescriptionTooLong then "description" else "file"
  }

  /**
   * The custom message of each failed rule. `uploaded` has no custom message; it gets
   * the framework's English default.
   */
  function Message(v: Violation): string
  {
    match v
    case FileRequired => "A file is required."
    case FileUploadFailed => "The file failed to upload."
    case FileNotValid => "The uploaded file is not valid."
    case FileTooLarge => "The file size must not exceed 10MB."
    case FileTypeNotAllowed => "The file must be one of the following types: PDF, Word, Excel, text, or image."
    case DescriptionTooLong => "The description must not exceed 500 characters."
  }

  /** Each failed rule has its own message. */
  lemma MessageInjective(v1: Violation, v2: Violation)
    requires Message(v1) == Message(v2)
    ensures v1 == v2
  {
    assert Message(v1)[4] == Message(v2)[4];
    assert Message(v1)[9] == Message(v2)[9];
  }

  /** `authorize()`: this layer admits every request. */
  function Authorize(): (ok: bool)
    ensures ok
  {
    true
  }

  /** Without a file the only error is `required`, reported on `file`. */
  lemma MissingFileRejected(description: Option<string>)
    requires description.None? || |description.value| <= MaxDescriptionLength
    ensures Violations(StoreRequest(NoFile, description)) == [FileRequired]
    ensures Attribute(FileRequired) == "file"
  {
  }

  /** An 11000 KB upload fails the size rule, on `file`. */
  lemma OversizedFileRejected(u: Upload, ext: string)
    requires |u.content| == 11000 * 1024
    ensures FileTooLarge in Violations(StoreRequest(Uploaded(u, true, ext), None))
  {
  }

  /** A file whose type is `exe` fails the type rule, on `file`. */
  lemma ExecutableRejected(u: Upload)
    ensures FileTypeNotAllowed in Violations(StoreRequest(Uploaded(u, true, "exe"), None))
  {
    assert "exe" !in AllowedExtensions;
  }

  /** With a 100 KB text upload, a 501-character description is rejected on `description`; 500 characters pass. */
  lemma DescriptionLimit(u: Upload, base: string, s: string)
    requires |u.content| == 100 * 1024 && u.clientOriginalName == base + ".txt"
    requires |s| == 501 && !IsPhpSpace(s[0])
    ensures Violations(StoreRequest(Uploaded(u, true, "txt"), Some(s))) == [DescriptionTooLong]
    ensures Attribute(DescriptionTooLong) == "description"
    ensures Passes(StoreRequest(Uploaded(u, true, "txt"), Some(s[..500])))
  {
    TextFileAllowed(u, base);
    WithinSizeLimitBytes(|u.content|);
  }

  /** A `.txt` client name with text content passes the type rule. */
  lemma TextFileAllowed(u: Upload, base: string)
    requires u.clientOriginalName == base + ".txt"
    ensures TypeAllowed(u, "txt")
  {
    ClientExtension(u, base, "txt");
    TxtIsNotPhp();
    assert "txt" in AllowedExtensions;
  }

  lemma TxtIsNotPhp()
    ensures Trim(AsciiLower("txt")) !in PhpExtensions
  {
    assert AsciiLower("txt") == "txt";
    TrimNoSpaceEnds("txt");
  }

  lemma PhpIsPhp()
    ensures Trim(AsciiLower("php")) in PhpExtensions
  {
    assert AsciiLower("php") == "php";
    TrimNoSpaceEnds("php");
    assert PhpExtensions[0] == "php";
  }

  /** `PHTML` lower-cases to `phtml`. */
  lemma LowerPhtml()
    ensures AsciiLower("PHTML") == "phtml"
  {
    var l := AsciiLower("PHTML");
    assert l[0] == 'p' && l[1] == 'h' && l[2] == 't' && l[3] == 'm' && l[4] == 'l';
  }

  /** The client extension of `base.ext`, when `ext` has no dot. */
  lemma ClientExtension(u: Upload, base: string, ext: string)
    requires u.clientOriginalName == base + "." + ext && '.' !in ext
    ensures Extension(u.clientOriginalName) == ext
  {
    assert u.clientOriginalName == base + ['.'] + ext;
    LastIndexOfSeparator(base, '.', ext);
  }

  /** A failed upload is reported once, with the default `uploaded` message; size and type are not checked. */
  lemma FailedUploadReportedOnce(u: Upload, ext: string)
    ensures Violations(StoreRequest(Uploaded(u, false, ext), None)) == [FileUploadFailed]
    ensures Attribute(FileUploadFailed) == "file" && Message(FileUploadFailed) == "The file failed to upload."
  {
  }

  /** A non-blank value that is not a file fails `file` and `mimes`. */
  lemma PlainValueRejected(v: string)
    requires |v| > 0 && !IsPhpSpace(v[0])
    ensures var errs := Violations(StoreRequest(NotAFile(v), None));
      FileNotValid in errs && FileTypeNotAllowed in errs && FileRequired !in errs
  {
  }

  /** A client name with a PHP extension is refused, whatever its content is detected as. */
  lemma PhpExtensionRejected(u: Upload, guessed: string)
    requires PhpUpload(u)
    ensures FileTypeNotAllowed in Violations(StoreRequest(Uploaded(u, true, guessed), None))
  {
  }

  /** Any `.php` client name is refused, even when its content is detected as an allowed type. */
  lemma PhpClientNameRejected(u: Upload, base: string, guessed: string)
    requires u.clientOriginalName == base + ".php"
    ensures FileTypeNotAllowed in Violations(StoreRequest(Uploaded(u, true, guessed), None))
  {
    ClientExtension(u, base, "php");
    PhpIsPhp();
    PhpExtensionRejected(u, guessed);
  }

  /**
   * The PHP test ignores case: a client extension that lower-cases to `phtml`
   * (`PHTML`, say) is refused like `phtml` itself.
   */
  lemma UpperCasePhpRejected(u: Upload, base: string, ext: string, guessed: string)
    requires u.clientOriginalName == base + "." + ext && '.' !in ext
    requires AsciiLower(ext) == "phtml"
    ensures FileTypeNotAllowed in Violations(StoreRequest(Uploaded(u, true, guessed), None))
  {
    ClientExtension(u, base, ext);
    TrimNoSpaceEnds("phtml");
    assert PhpExtensions[6] == "phtml";
    PhpExtensionRejected(u, guessed);
  }

  /** A `.PHTML` client name is refused, whatever its content is detected as. */
  lemma UpperCasePhtmlNameRejected(u: Upload, base: string, guessed: string)
    requires u.clientOriginalName == base + ".PHTML"
    ensures FileTypeNotAllowed in Violations(StoreRequest(Uploaded(u, true, guessed), None))
  {
    LowerPhtml();
    UpperCasePhpRejected(u, base, "PHTML", guessed);
  }

  /** Rules other than `required` skip blank values: 501 spaces do not fail the description rule. */
  lemma BlankDescriptionNotChecked(s: string)
    requires |s| == 501 && forall i :: 0 <= i < |s| ==> s[i] == ' '
    ensures DescriptionTooLong !in Violations(StoreRequest(NoFile, Some(s)))
  {
  }
}
