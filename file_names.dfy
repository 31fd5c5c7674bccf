/**
 * Construction of the storage file name for an upload:
 * `slug(basename) + "_" + time + "_" + random8 + "." + extension`, stored under `files/`.
 * The slug function, the clock reading and the random token come from outside.
 */
module FileNames {
  import opened Common
  import opened Strings

  /** The directory of the public disk that uploads are stored in. */
  const Directory: string := "files"

  /**
   * The extension of a client file name: the text after its last `.`, or the empty
   * string when it has none (`pathinfo(..., PATHINFO_EXTENSION)`).
   */
  function Extension(name: string): (ext: string)
    ensures '.' !in ext
  {
    var k := LastIndexOf(name, '.');
    if k < 0 then "" else name[k + 1..]
  }

  /** The file name without its extension: the text before the last `.` (`PATHINFO_FILENAME`). */
  function BaseName(name: string): string
  {
    var k := LastIndexOf(name, '.');
    if k < 0 then name else name[..k]
  }

  /** A name is its base name, then (when it has a dot) the dot and the extension. */
  lemma {:induction false} SplitAtLastDot(name: string)
    ensures name == BaseName(name) + (if '.' in name then "." + Extension(name) else "")
    ensures '.' !in name ==> BaseName(name) == name && Extension(name) == ""
  {
    var k := LastIndexOf(name, '.');
    if k >= 0 {
      assert BaseName(name) == name[..k] && Extension(name) == name[k + 1..];
      assert '.' in name by {
        assert name[k] == '.';
      }
      assert name == name[..k] + "." + name[k + 1..] by {
        assert name[..k] + [name[k]] + name[k + 1..] == name;
      }
    } else {
      assert BaseName(name) == name && Extension(name) == "";
      assert '.' !in name;
    }
  }

  predicate IsAlphaNumeric(c: char)
  {
    ('0' <= c <= '9') || ('a' <= c <= 'z') || ('A' <= c <= 'Z')
  }

  /** What `Str::random(8)` returns: eight letters or digits. */
  predicate IsRandomToken(t: string)
  {
    |t| == 8 && forall k :: 0 <= k < |t| ==> IsAlphaNumeric(t[k])
  }

  /**
   * The generated file name. The dot before the extension is always written, so a
   * client name without an extension yields a name ending in `.`.
   */
  function UniqueFilename(originalName: string, slug: string -> string, time: nat, token: string): string
    requires IsRandomToken(token)
  {
    slug(BaseName(originalName)) + "_" + Decimal(time) + "_" + token + "." + Extension(originalName)
  }

  /** The path `storeAs('files', $filename)` writes to. */
  function StoragePath(filename: string): string
  {
    Directory + "/" + filename
  }

  /**
   * The generated name ends in `.` followed by the client extension, and it has the
   * same extension as the client name, whatever the slug is.
   */
  lemma UniqueFilenameExtension(originalName: string, slug: string -> string, time: nat, token: string)
    requires IsRandomToken(token)
    ensures var f := UniqueFilename(originalName, slug, time, token);
      var ext := Extension(originalName);
      |f| > |ext| && f[|f| - |ext| - 1..] == "." + ext && Extension(f) == ext
  {
    var ext := Extension(originalName);
    var stem := slug(BaseName(originalName)) + "_" + Decimal(time) + "_" + token;
    var f := UniqueFilename(originalName, slug, time, token);
    assert f == stem + ['.'] + ext;
    LastIndexOfSeparator(stem, '.', ext);
    assert f[LastIndexOf(f, '.') + 1..] == ext;
  }

  // ---------------------------------------------------------------------------
  // Reading a generated name back

  /** The four components of a generated file name. */
  datatype FilenameParts = FilenameParts(slug: string, time: nat, token: string, extension: string)

  /**
   * Splits `slug_time_token.ext`: the slug runs to the first `_`, the time to the
   * next `_`, the token is the eight characters that follow, then `.` and the extension.
   */
  function ParseFilename(f: string): Option<FilenameParts>
  {
    var i := IndexOf(f, '_');
    if i < 0 then None else ParseTime(f[..i], f[i + 1..])
  }

  function ParseTime(slug: string, rest: string): Option<FilenameParts>
  {
    var j := IndexOf(rest, '_');
    if j < 0 || !AllDigits(rest[..j]) then None
    else ParseToken(slug, DecimalValue(rest[..j]), rest[j + 1..])
  }

  function ParseToken(slug: string, time: nat, tail: string): Option<FilenameParts>
  {
    if |tail| < 9 || tail[8] != '.' then None
    else Some(FilenameParts(slug, time, tail[..8], tail[9..]))
  }

  lemma DecimalHasNoUnderscore(n: nat)
    ensures '_' !in Decimal(n)
  {
    var s := Decimal(n);
    assert forall k :: 0 <= k < |s| ==> IsDigit(s[k]);
  }

  /** Renders the four components as `slug_time_token.ext`. */
  function Render(p: FilenameParts): string
  {
    p.slug + "_" + Decimal(p.time) + "_" + p.token + "." + p.extension
  }

  lemma ParseFilenameSlug(slug: string, rest: string)
    requires '_' !in slug
    ensures ParseFilename(slug + ['_'] + rest) == ParseTime(slug, rest)
  {
    var f := slug + ['_'] + rest;
    IndexOfSeparator(slug, '_', rest);
    assert f[..|slug|] == slug;
    assert f[|slug| + 1..] == rest;
  }

  lemma ParseTimeDigits(slug: string, time: nat, tail: string)
    ensures ParseTime(slug, Decimal(time) + ['_'] + tail) == ParseToken(slug, time, tail)
  {
    var digits := Decimal(time);
    var rest := digits + ['_'] + tail;
    DecimalHasNoUnderscore(time);
    IndexOfSeparator(digits, '_', tail);
    assert rest[..|digits|] == digits;
    assert rest[|digits| + 1..] == tail;
    DecimalRoundTrip(time);
  }

  lemma ParseTokenExtension(slug: string, time: nat, token: string, ext: string)
    requires |token| == 8
    ensures ParseToken(slug, time, token + ['.'] + ext) == Some(FilenameParts(slug, time, token, ext))
  {
    var tail := token + ['.'] + ext;
    assert tail[..8] == token && tail[8] == '.' && tail[9..] == ext;
  }

  /** A rendered name whose slug has no `_` and whose token has eight characters parses back. */
  lemma ParseRender(p: FilenameParts)
    requires '_' !in p.slug && |p.token| == 8
    ensures ParseFilename(Render(p)) == Some(p)
  {
    var tail := p.token + ['.'] + p.extension;
    var rest := Decimal(p.time) + ['_'] + tail;
    assert Render(p) == p.slug + ['_'] + rest;
    ParseFilenameSlug(p.slug, rest);
    ParseTimeDigits(p.slug, p.time, tail);
    ParseTokenExtension(p.slug, p.time, p.token, p.extension);
  }

  /**
   * When the slug has no `_` (Laravel's slug turns `_` into its separator), the
   * generated name determines the slug, the time, the token and the extension.
   */
  lemma ParseUniqueFilename(originalName: string, slug: string -> string, time: nat, token: string)
    requires IsRandomToken(token)
    requires '_' !in slug(BaseName(originalName))
    ensures ParseFilename(UniqueFilename(originalName, slug, time, token))
      == Some(FilenameParts(slug(BaseName(originalName)), time, token, Extension(originalName)))
  {
    var p := FilenameParts(slug(BaseName(originalName)), time, token, Extension(originalName));
    assert UniqueFilename(originalName, slug, time, token) == Render(p);
    ParseRender(p);
  }

  /**
   * Two names generated from slugs without `_` coincide only when clock reading,
   * token, slug and extension all coincide: a fresh clock reading or a fresh token
   * always gives a fresh name.
   */
  lemma UniqueFilenameInjective(
    name1: string, slug1: string -> string, time1: nat, token1: string,
    name2: string, slug2: string -> string, time2: nat, token2: string)
    requires IsRandomToken(token1) && IsRandomToken(token2)
    requires '_' !in slug1(BaseName(name1)) && '_' !in slug2(BaseName(name2))
    requires UniqueFilename(name1, slug1, time1, token1) == UniqueFilename(name2, slug2, time2, token2)
    ensures time1 == time2 && token1 == token2
    ensures slug1(BaseName(name1)) == slug2(BaseName(name2)) && Extension(name1) == Extension(name2)
  {
    ParseUniqueFilename(name1, slug1, time1, token1);
    ParseUniqueFilename(name2, slug2, time2, token2);
  }

  /** Distinct file names give distinct storage paths. */
  lemma StoragePathInjective(f1: string, f2: string)
    requires StoragePath(f1) == StoragePath(f2)
    ensures f1 == f2
  {
    var prefix := Directory + "/";
    assert StoragePath(f1)[|prefix|..] == f1;
    assert StoragePath(f2)[|prefix|..] == f2;
  }

  /** `Report v2.txt` splits into the base name `Report v2` and the extension `txt`. */
  lemma ReportNameParts()
    ensures BaseName("Report v2.txt") == "Report v2" && Extension("Report v2.txt") == "txt"
  {
    assert "Report v2.txt" == "Report v2" + ['.'] + "txt";
    LastIndexOfSeparator("Report v2", '.', "txt");
  }

  /** `Report v2.txt` with slug `report-v2` is stored as `files/report-v2_<time>_<token>.txt`. */
  lemma ReportExample(slug: string -> string, time: nat, token: string)
    requires IsRandomToken(token)
    requires slug("Report v2") == "report-v2"
    ensures StoragePath(UniqueFilename("Report v2.txt", slug, time, token))
      == "files/report-v2_" + Decimal(time) + "_" + token + ".txt"
  {
    ReportNameParts();
    var d := Decimal(time);
    var f := UniqueFilename("Report v2.txt", slug, time, token);
    assert f == "report-v2" + "_" + d + "_" + token + "." + "txt";
    assert StoragePath(f) == "files/" + f;
  }


}
