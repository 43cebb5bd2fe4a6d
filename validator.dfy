/** The release check (test_extension.js): an `ExtensionValidator` that runs
    five checks over the extension directory and collects what it finds in
    an error list and a warning list that only ever grow. The file system
    and `JSON.parse` are parameters. */
module Validator {
  import opened Wrappers
  import opened Strings

  /** What the checks ask of `fs`: `existsSync` is membership in `paths`,
      `readFileSync` and `statSync` give the file's text or size, or the
      message of the error they throw. */
  datatype FileSystem = FileSystem(
    paths: set<string>,
    read: string -> Result<string, string>,
    stat: string -> Result<nat, string>)

  /** A value `JSON.parse` can return. */
  datatype Json =
    | JNull
    | JBool(b: bool)
    | JNumber(n: real)
    | JString(s: string)
    | JArray(items: seq<Json>)
    | JObject(fields: map<string, Json>)

  /** JavaScript truthiness of a parsed value (JSON has no NaN). */
  predicate Truthy(v: Json)
  {
    match v
    case JNull => false
    case JBool(b) => b
    case JNumber(n) => n != 0.0
    case JString(s) => s != ""
    case JArray(_) => true
    case JObject(_) => true
  }

  /** `value[key]` on a value that is not null: an object's own member, and
      `undefined` (None) for everything else. */
  function Get(v: Json, key: string): Option<Json>
  {
    if v.JObject? && key in v.fields then Some(v.fields[key]) else None
  }

  const ExtensionDir := "extension"

  const RequiredFiles: seq<string> := [
    "manifest.json", "popup.html", "popup.css", "popup.js", "background.js",
    "content.js", "icon16.png", "icon48.png", "icon128.png"]

  const RequiredFields: seq<string> := ["manifest_version", "name", "version", "permissions"]

  const JsFiles: seq<string> := ["popup.js", "background.js", "content.js"]

  /** An icon to check; the expected size is declared but never compared. */
  datatype IconSpec = IconSpec(file: string, expectedSize: nat)

  const Icons: seq<IconSpec> := [IconSpec("icon16.png", 16), IconSpec("icon48.png", 48), IconSpec("icon128.png", 128)]

  /** `path.join(extensionDir, file)` with the POSIX separator. */
  function Path(file: string): string
  {
    ExtensionDir + "/" + file
  }

  /** The message V8 gives the `TypeError` of reading a property of null. */
  function NullPropertyMessage(key: string): string
  {
    "Cannot read properties of null (reading '" + key + "')"
  }

  /** The message V8 gives the `TypeError` of calling `includes` on a value
      that has no such method. */
  const NotAFunctionMessage := "manifest.permissions.includes is not a function"

  /** Everything the checks report. */
  datatype Issue =
    | DirectoryNotFound(dir: string)
    | MissingFile(file: string)
    | HtmlUnreadable(message: string)
    | MissingDoctype
    | MissingCssLink
    | MissingJsLink
    | JsUnreadable(file: string, message: string)
    | NoChromeApis(file: string)
    | EmptyIcon(file: string)
    | IconInaccessible(file: string, message: string)
    | InvalidManifest(message: string)
    | MissingField(field: string)
    | NotManifestV3
    | MissingCookiesPermission
  {
    /** The kinds the checks push onto `errors`; the rest go to `warnings`. */
    predicate IsError()
    {
      !(MissingDoctype? || MissingCssLink? || NoChromeApis? || EmptyIcon? || NotManifestV3?)
    }

    /** The text pushed, marked with a cross or a warning sign. */
    function Text(): string
    {
      match this
      case DirectoryNotFound(dir) => Cross + " Extension directory '" + dir + "' not found"
      case MissingFile(file) => Cross + " " + file + " - Missing"
      case HtmlUnreadable(message) => Cross + " Error reading popup.html: " + message
      case MissingDoctype => Warn + "  popup.html missing DOCTYPE"
      case MissingCssLink => Warn + "  popup.html missing CSS link"
      case MissingJsLink => Cross + " popup.html missing JavaScript link"
      case JsUnreadable(file, message) => Cross + " Error reading " + file + ": " + message
      case NoChromeApis(file) => Warn + "  " + file + " doesn't seem to use Chrome APIs"
      case EmptyIcon(file) => Warn + "  " + file + " is empty"
      case IconInaccessible(file, message) => Cross + " " + file + " not accessible: " + message
      case InvalidManifest(message) => Cross + " Invalid manifest.json: " + message
      case MissingField(field) => Cross + " manifest.json missing required field: " + field
      case NotManifestV3 => Warn + "  Not using Manifest V3"
      case MissingCookiesPermission => Cross + " Missing cookies permission"
    }
  }

  /** The cross mark and the warning sign (with its variation selector). */
  const Cross := "\U{274C}"
  const Warn := "\U{26A0}\U{FE0F}"

  /** The texts tell errors from warnings by their first character. */
  lemma TextMarksSeverity(issue: Issue)
    ensures issue.IsError() <==> StartsWith(issue.Text(), Cross)
    ensures !issue.IsError() <==> StartsWith(issue.Text(), Warn)
  {
    var t := issue.Text();
    if issue.IsError() {
      assert t[..1] == Cross;
      assert t[0] != Warn[0];
    } else {
      assert t[..2] == Warn;
      assert t[0] != Cross[0];
    }
  }

  /** What a check adds to the two lists. */
  datatype Report = Report(errors: seq<Issue>, warnings: seq<Issue>)
  {
    /** This check followed by another. */
    function Then(next: Report): Report
    {
      Report(errors + next.errors, warnings + next.warnings)
    }
  }

  /** Every error of the report is of an error kind, and every warning of a
      warning kind. */
  predicate WellSorted(r: Report)
  {
    (forall i :: 0 <= i < |r.errors| ==> r.errors[i].IsError())
    && (forall i :: 0 <= i < |r.warnings| ==> !r.warnings[i].IsError())
  }

  lemma ThenWellSorted(a: Report, b: Report)
    requires WellSorted(a) && WellSorted(b)
    ensures WellSorted(a.Then(b))
  {
    var r := a.Then(b);
    forall i | 0 <= i < |r.errors| ensures r.errors[i].IsError() {
      if i >= |a.errors| {
        assert r.errors[i] == b.errors[i - |a.errors|];
      }
    }
    forall i | 0 <= i < |r.warnings| ensures !r.warnings[i].IsError() {
      if i >= |a.warnings| {
        assert r.warnings[i] == b.warnings[i - |a.warnings|];
      }
    }
  }

  // ---------------------------------------------------------------- files

  /** The "Missing" errors for `files`, one per absent file, in order. */
  function MissingFiles(files: seq<string>, fs: FileSystem): (r: seq<Issue>)
    ensures |r| <= |files|
    decreases |files|
  {
    if files == [] then []
    else
      var n := |files| - 1;
      MissingFiles(files[..n], fs) + (if Path(files[n]) in fs.paths then [] else [MissingFile(files[n])])
  }

  /** One more file name adds its error, if any, at the end. */
  lemma MissingFilesStep(files: seq<string>, i: nat, fs: FileSystem)
    requires i < |files|
    ensures MissingFiles(files[..i + 1], fs)
      == MissingFiles(files[..i], fs) + (if Path(files[i]) in fs.paths then [] else [MissingFile(files[i])])
  {
    assert files[..i + 1][..i] == files[..i];
  }

  /** Exactly the absent files are reported, each as a "Missing" error. */
  lemma {:induction false} MissingFilesIff(files: seq<string>, fs: FileSystem)
    ensures forall x :: x in MissingFiles(files, fs) ==> x.MissingFile? && x.file in files && Path(x.file) !in fs.paths
    ensures forall f :: f in files && Path(f) !in fs.paths ==> MissingFile(f) in MissingFiles(files, fs)
    decreases |files|
  {
    if files != [] {
      var n := |files| - 1;
      MissingFilesIff(files[..n], fs);
      assert files == files[..n] + [files[n]];
      assert forall f :: f in files <==> f in files[..n] || f == files[n];
    }
  }

  /** The errors of two runs of file names are those of their
      concatenation, so the errors follow the order of the names. */
  lemma {:induction false} MissingFilesAppend(a: seq<string>, b: seq<string>, fs: FileSystem)
    ensures MissingFiles(a + b, fs) == MissingFiles(a, fs) + MissingFiles(b, fs)
    decreases |b|
  {
    if b == [] {
      assert a + b == a;
    } else {
      var n := |b| - 1;
      MissingFilesAppend(a, b[..n], fs);
      assert (a + b)[..|a + b| - 1] == a + b[..n];
      assert (a + b)[|a + b| - 1] == b[n];
    }
  }

  lemma MissingFileSingle(f: string, fs: FileSystem)
    ensures MissingFiles([f], fs) == if Path(f) in fs.paths then [] else [MissingFile(f)]
  {
    assert [f][..0] == [];
  }

  /** `validateFiles`: a missing directory gives one error and nothing else;
      otherwise one "Missing" error per absent required file. */
  function FilesReport(fs: FileSystem): Report
  {
    if ExtensionDir !in fs.paths then Report([DirectoryNotFound(ExtensionDir)], [])
    else Report(MissingFiles(RequiredFiles, fs), [])
  }

  /** With every required file present the file check finds nothing. */
  lemma AllFilesPresent(fs: FileSystem)
    requires ExtensionDir in fs.paths
    requires forall f :: f in RequiredFiles ==> Path(f) in fs.paths
    ensures FilesReport(fs) == Report([], [])
  {
    NoneMissing(RequiredFiles, fs);
  }

  lemma {:induction false} NoneMissing(files: seq<string>, fs: FileSystem)
    requires forall f :: f in files ==> Path(f) in fs.paths
    ensures MissingFiles(files, fs) == []
    decreases |files|
  {
    if files != [] {
      var n := |files| - 1;
      assert files[n] in files;
      assert forall f :: f in files[..n] ==> f in files;
      NoneMissing(files[..n], fs);
    }
  }

  // ----------------------------------------------------------------- html

  /** `validateHTML`: a missing DOCTYPE or CSS link warns, a missing script
      link is an error, and an unreadable page is one error. */
  function HtmlReport(fs: FileSystem): Report
  {
    match fs.read(Path("popup.html"))
    case Err(m) => Report([HtmlUnreadable(m)], [])
    case Ok(html) =>
      Report(
        if Contains(html, "popup.js") then [] else [MissingJsLink],
        (if Contains(html, "<!DOCTYPE html>") then [] else [MissingDoctype])
        + (if Contains(html, "popup.css") then [] else [MissingCssLink]))
  }

  // ----------------------------------------------------------- javascript

  /** The check of one script: unreadable is an error, no "chrome." a
      warning. */
  function JsFileReport(file: string, fs: FileSystem): (r: Report)
    ensures |r.errors| + |r.warnings| <= 1
  {
    match fs.read(Path(file))
    case Err(m) => Report([JsUnreadable(file, m)], [])
    case Ok(js) => Report([], if Contains(js, "chrome.") then [] else [NoChromeApis(file)])
  }

  /** The checks of the scripts in order, at most one message each. */
  function JsReport(files: seq<string>, fs: FileSystem): (r: Report)
    ensures |r.errors| + |r.warnings| <= |files|
    decreases |files|
  {
    if files == [] then Report([], [])
    else
      var n := |files| - 1;
      JsReport(files[..n], fs).Then(JsFileReport(files[n], fs))
  }

  lemma JsStep(files: seq<string>, i: nat, fs: FileSystem)
    requires i < |files|
    ensures JsReport(files[..i + 1], fs) == JsReport(files[..i], fs).Then(JsFileReport(files[i], fs))
  {
    assert files[..i + 1][..i] == files[..i];
  }

  // ---------------------------------------------------------------- icons

  /** The check of one icon: at most one message, an error when `statSync`
      throws and a warning when the file has no bytes. */
  function IconReport(icon: IconSpec, fs: FileSystem): (r: Report)
    ensures |r.errors| + |r.warnings| <= 1
    ensures |r.errors| == 1 <==> fs.stat(Path(icon.file)).Err?
    ensures |r.warnings| == 1 <==> fs.stat(Path(icon.file)) == Ok(0)
  {
    match fs.stat(Path(icon.file))
    case Err(m) => Report([IconInaccessible(icon.file, m)], [])
    case Ok(size) => if size > 0 then Report([], []) else Report([], [EmptyIcon(icon.file)])
  }

  function IconsReport(icons: seq<IconSpec>, fs: FileSystem): Report
    decreases |icons|
  {
    if icons == [] then Report([], [])
    else
      var n := |icons| - 1;
      IconsReport(icons[..n], fs).Then(IconReport(icons[n], fs))
  }

  lemma IconsStep(icons: seq<IconSpec>, i: nat, fs: FileSystem)
    requires i < |icons|
    ensures IconsReport(icons[..i + 1], fs) == IconsReport(icons[..i], fs).Then(IconReport(icons[i], fs))
  {
    assert icons[..i + 1][..i] == icons[..i];
  }

  /** The icons give at most one message each; icons that all have bytes
      give none. */
  lemma {:induction false} IconMessagesBound(icons: seq<IconSpec>, fs: FileSystem)
    ensures |IconsReport(icons, fs).errors| + |IconsReport(icons, fs).warnings| <= |icons|
    ensures (forall i :: 0 <= i < |icons| ==> fs.stat(Path(icons[i].file)).Ok? && fs.stat(Path(icons[i].file)).value > 0)
      ==> IconsReport(icons, fs) == Report([], [])
    decreases |icons|
  {
    if icons != [] {
      var n := |icons| - 1;
      IconMessagesBound(icons[..n], fs);
      if forall i :: 0 <= i < |icons| ==> fs.stat(Path(icons[i].file)).Ok? && fs.stat(Path(icons[i].file)).value > 0 {
        assert forall i :: 0 <= i < n ==> icons[..n][i] == icons[i];
        assert IconReport(icons[n], fs) == Report([], []);
      }
    }
  }

  // ------------------------------------------------------------- manifest

  /** The required-field errors, one per field that is absent or falsy. */
  function MissingFields(fields: seq<string>, manifest: Json): (r: seq<Issue>)
    ensures |r| <= |fields|
    ensures forall i :: 0 <= i < |r| ==> r[i].MissingField? && r[i].field in fields
    decreases |fields|
  {
    if fields == [] then []
    else
      var n := |fields| - 1;
      var v := Get(manifest, fields[n]);
      assert forall f :: f in fields[..n] ==> f in fields;
      MissingFields(fields[..n], manifest) + (if v.Some? && Truthy(v.value) then [] else [MissingField(fields[n])])
  }

  lemma MissingFieldsStep(fields: seq<string>, i: nat, manifest: Json)
    requires i < |fields|
    ensures MissingFields(fields[..i + 1], manifest) == MissingFields(fields[..i], manifest)
      + (if Get(manifest, fields[i]).Some? && Truthy(Get(manifest, fields[i]).value) then [] else [MissingField(fields[i])])
  {
    assert fields[..i + 1][..i] == fields[..i];
  }

  /** A field is reported exactly when it is absent or falsy, and a field
      named once is reported at most once. */
  lemma {:induction false} MissingFieldsIff(fields: seq<string>, manifest: Json, f: string)
    ensures MissingField(f) in MissingFields(fields, manifest) <==>
      f in fields && !(Get(manifest, f).Some? && Truthy(Get(manifest, f).value))
    decreases |fields|
  {
    if fields != [] {
      var n := |fields| - 1;
      MissingFieldsIff(fields[..n], manifest, f);
      assert fields == fields[..n] + [fields[n]];
      assert f in fields <==> f in fields[..n] || f == fields[n];
    }
  }

  /** The permission check: no (or a falsy) list is one error; an array
      must hold the string "cookies", a string must contain it; any other
      truthy value has no `includes` method and throws. */
  function PermissionErrors(manifest: Json): (r: seq<Issue>)
    ensures |r| <= 1
    ensures r == [] <==> GrantsCookies(Get(manifest, "permissions"))
    ensures r != [] ==> r == [MissingCookiesPermission] || r == [InvalidManifest(NotAFunctionMessage)]
  {
    var p := Get(manifest, "permissions");
    if p.None? || !Truthy(p.value) then [MissingCookiesPermission]
    else match p.value
      case JArray(items) => if JString("cookies") in items then [] else [MissingCookiesPermission]
      case JString(s) =>
        ContainsIff(s, "cookies");
        if Contains(s, "cookies") then [] else [MissingCookiesPermission]
      case _ => [InvalidManifest(NotAFunctionMessage)]
  }

  /** What passes the permission check: an array holding the string
      "cookies", or a string in which "cookies" occurs. */
  predicate GrantsCookies(permissions: Option<Json>)
  {
    permissions.Some? &&
    match permissions.value
    case JArray(items) => JString("cookies") in items
    case JString(s) => exists i :: 0 <= i <= |s| && OccursAt(s, "cookies", i)
    case _ => false
  }

  /** `validateManifest`. */
  function ManifestReport(fs: FileSystem, parse: string -> Result<Json, string>): Report
  {
    match fs.read(Path("manifest.json"))
    case Err(m) => Report([InvalidManifest(m)], [])
    case Ok(text) =>
      match parse(text)
      case Err(m) => Report([InvalidManifest(m)], [])
      case Ok(manifest) =>
        if manifest.JNull? then Report([InvalidManifest(NullPropertyMessage(RequiredFields[0]))], [])
        else
          Report(
            MissingFields(RequiredFields, manifest) + PermissionErrors(manifest),
            if Get(manifest, "manifest_version") == Some(JNumber(3.0)) then [] else [NotManifestV3])
  }

  /** A manifest that cannot be read, cannot be parsed or is `null` gives
      exactly one error and no field checks. */
  lemma UnusableManifest(fs: FileSystem, parse: string -> Result<Json, string>)
    requires fs.read(Path("manifest.json")).Err?
      || parse(fs.read(Path("manifest.json")).value).Err?
      || parse(fs.read(Path("manifest.json")).value) == Ok(JNull)
    ensures |ManifestReport(fs, parse).errors| == 1 && ManifestReport(fs, parse).errors[0].InvalidManifest?
    ensures ManifestReport(fs, parse).warnings == []
  {
  }

  /** The manifest's version only ever adds a warning: two manifests that
      differ only in a truthy `manifest_version` give the same errors, and
      the one without version 3 warns. */
  lemma VersionOnlyWarns(fs: FileSystem, parse: string -> Result<Json, string>, fields: map<string, Json>, v: Json)
    requires fs.read(Path("manifest.json")).Ok?
    requires parse(fs.read(Path("manifest.json")).value) == Ok(JObject(fields))
    requires "manifest_version" in fields && Truthy(fields["manifest_version"]) && Truthy(v)
    ensures var altered := JObject(fields["manifest_version" := v]);
      ManifestReport(fs, parse).errors == MissingFields(RequiredFields, altered) + PermissionErrors(altered)
    ensures ManifestReport(fs, parse).warnings == [NotManifestV3] <==> fields["manifest_version"] != JNumber(3.0)
  {
    var original, altered := JObject(fields), JObject(fields["manifest_version" := v]);
    assert PermissionErrors(altered) == PermissionErrors(original) by {
      assert Get(altered, "permissions") == Get(original, "permissions");
    }
    SameTruthyFields(RequiredFields, original, altered);
  }

  lemma {:induction false} SameTruthyFields(fields: seq<string>, a: Json, b: Json)
    requires forall f :: f in fields ==> (Get(a, f).Some? && Truthy(Get(a, f).value)) == (Get(b, f).Some? && Truthy(Get(b, f).value))
    ensures MissingFields(fields, a) == MissingFields(fields, b)
    decreases |fields|
  {
    if fields != [] {
      var n := |fields| - 1;
      assert fields[n] in fields;
      assert forall f :: f in fields[..n] ==> f in fields;
      SameTruthyFields(fields[..n], a, b);
    }
  }

  /** A permission array without "cookies" is one error, whatever else the
      manifest says. */
  lemma ArrayWithoutCookies(fs: FileSystem, parse: string -> Result<Json, string>, fields: map<string, Json>, items: seq<Json>)
    requires fs.read(Path("manifest.json")).Ok?
    requires parse(fs.read(Path("manifest.json")).value) == Ok(JObject(fields))
    requires "permissions" in fields && fields["permissions"] == JArray(items)
    requires JString("cookies") !in items
    ensures ManifestReport(fs, parse).errors == MissingFields(RequiredFields, JObject(fields)) + [MissingCookiesPermission]
  {
  }

  /** A permission array holding "cookies" adds no error: only the field
      errors remain. */
  lemma ArrayWithCookies(fs: FileSystem, parse: string -> Result<Json, string>, fields: map<string, Json>, items: seq<Json>)
    requires fs.read(Path("manifest.json")).Ok?
    requires parse(fs.read(Path("manifest.json")).value) == Ok(JObject(fields))
    requires "permissions" in fields && fields["permissions"] == JArray(items)
    requires JString("cookies") in items
    ensures ManifestReport(fs, parse).errors == MissingFields(RequiredFields, JObject(fields))
  {
  }

  /** A permission string in which "cookies" occurs passes `includes` too,
      and adds no error. */
  lemma StringWithCookies(fs: FileSystem, parse: string -> Result<Json, string>, fields: map<string, Json>, s: string, i: int)
    requires fs.read(Path("manifest.json")).Ok?
    requires parse(fs.read(Path("manifest.json")).value) == Ok(JObject(fields))
    requires "permissions" in fields && fields["permissions"] == JString(s)
    requires OccursAt(s, "cookies", i)
    ensures ManifestReport(fs, parse).errors == MissingFields(RequiredFields, JObject(fields))
  {
  }

  /** A required field is reported exactly when it is absent or falsy. */
  lemma FieldErrorsIff(fs: FileSystem, parse: string -> Result<Json, string>, manifest: Json, f: string)
    requires fs.read(Path("manifest.json")).Ok?
    requires parse(fs.read(Path("manifest.json")).value) == Ok(manifest) && !manifest.JNull?
    ensures MissingField(f) in ManifestReport(fs, parse).errors <==>
      f in RequiredFields && !(Get(manifest, f).Some? && Truthy(Get(manifest, f).value))
  {
    MissingFieldsIff(RequiredFields, manifest, f);
    assert MissingField(f) !in PermissionErrors(manifest);
  }

  // ------------------------------------------------------------------ run

  /** `run`: the five checks in order. */
  function RunReport(fs: FileSystem, parse: string -> Result<Json, string>): Report
  {
    FilesReport(fs).Then(HtmlReport(fs)).Then(JsReport(JsFiles, fs)).Then(IconsReport(Icons, fs)).Then(ManifestReport(fs, parse))
  }

  lemma FilesWellSorted(fs: FileSystem)
    ensures WellSorted(FilesReport(fs))
  {
    MissingFilesIff(RequiredFiles, fs);
    var r := FilesReport(fs);
    forall i | 0 <= i < |r.errors| ensures r.errors[i].IsError() {
      assert r.errors[i] in r.errors;
    }
  }

  lemma ManifestWellSorted(fs: FileSystem, parse: string -> Result<Json, string>)
    ensures WellSorted(ManifestReport(fs, parse))
  {
    if fs.read(Path("manifest.json")).Ok? && parse(fs.read(Path("manifest.json")).value).Ok? {
      var m := parse(fs.read(Path("manifest.json")).value).value;
      if !m.JNull? {
        var fields := MissingFields(RequiredFields, m);
        var e := fields + PermissionErrors(m);
        assert ManifestReport(fs, parse).errors == e;
        forall i | 0 <= i < |e| ensures e[i].IsError() {
          if i < |fields| {
            assert e[i] == fields[i];
          }
        }
      }
    }
  }

  lemma HtmlWellSorted(fs: FileSystem)
    ensures WellSorted(HtmlReport(fs))
  {
    var r := HtmlReport(fs);
    assert forall i :: 0 <= i < |r.warnings| ==> r.warnings[i] in {MissingDoctype, MissingCssLink};
  }

  lemma {:induction false} JsWellSorted(files: seq<string>, fs: FileSystem)
    ensures WellSorted(JsReport(files, fs))
    decreases |files|
  {
    if files != [] {
      var n := |files| - 1;
      JsWellSorted(files[..n], fs);
      ThenWellSorted(JsReport(files[..n], fs), JsFileReport(files[n], fs));
    }
  }

  lemma {:induction false} IconsWellSorted(icons: seq<IconSpec>, fs: FileSystem)
    ensures WellSorted(IconsReport(icons, fs))
    decreases |icons|
  {
    if icons != [] {
      var n := |icons| - 1;
      IconsWellSorted(icons[..n], fs);
      ThenWellSorted(IconsReport(icons[..n], fs), IconReport(icons[n], fs));
    }
  }

  /** Every check pushes errors onto `errors` and warnings onto `warnings`. */
  lemma RunWellSorted(fs: FileSystem, parse: string -> Result<Json, string>)
    ensures WellSorted(RunReport(fs, parse))
  {
    var files, html, js, icons, manifest := FilesReport(fs), HtmlReport(fs), JsReport(JsFiles, fs), IconsReport(Icons, fs), ManifestReport(fs, parse);
    FilesWellSorted(fs);
    HtmlWellSorted(fs);
    JsWellSorted(JsFiles, fs);
    IconsWellSorted(Icons, fs);
    ManifestWellSorted(fs, parse);
    ThenWellSorted(files, html);
    ThenWellSorted(files.Then(html), js);
    ThenWellSorted(files.Then(html).Then(js), icons);
    ThenWellSorted(files.Then(html).Then(js).Then(icons), manifest);
  }

  lemma RunReportParts(fs: FileSystem, parse: string -> Result<Json, string>)
    ensures RunReport(fs, parse).errors == FilesReport(fs).errors + HtmlReport(fs).errors
      + JsReport(JsFiles, fs).errors + IconsReport(Icons, fs).errors + ManifestReport(fs, parse).errors
    ensures RunReport(fs, parse).warnings == FilesReport(fs).warnings + HtmlReport(fs).warnings
      + JsReport(JsFiles, fs).warnings + IconsReport(Icons, fs).warnings + ManifestReport(fs, parse).warnings
  {
  }

  lemma Associate(o: seq<Issue>, a: seq<Issue>, b: seq<Issue>, c: seq<Issue>, d: seq<Issue>, e: seq<Issue>)
    ensures o + a + b + c + d + e == o + (a + b + c + d + e)
    ensures o <= o + (a + b + c + d + e)
  {
  }

  /** A missing extension directory adds exactly one error to the file
      check and skips every per-file existence test. */
  lemma MissingDirectory(fs: FileSystem)
    requires ExtensionDir !in fs.paths
    ensures FilesReport(fs) == Report([DirectoryNotFound(ExtensionDir)], [])
  {
  }

  /** The validator: the two lists every check appends to. */
  class ExtensionValidator {
    var errors: seq<Issue>
    var warnings: seq<Issue>

    constructor()
      ensures errors == [] && warnings == []
    {
      errors := [];
      warnings := [];
    }

    method ValidateFiles(fs: FileSystem)
      modifies this
      ensures errors == old(errors) + FilesReport(fs).errors
      ensures warnings == old(warnings) + FilesReport(fs).warnings
    {
      if ExtensionDir !in fs.paths {
        errors := errors + [DirectoryNotFound(ExtensionDir)];
        return;
      }
      var i := 0;
      while i < |RequiredFiles|
        invariant 0 <= i <= |RequiredFiles|
        invariant errors == old(errors) + MissingFiles(RequiredFiles[..i], fs)
        invariant warnings == old(warnings)
      {
        MissingFilesStep(RequiredFiles, i, fs);
        CheckFile(RequiredFiles[i], fs);
        i := i + 1;
      }
      assert RequiredFiles[..i] == RequiredFiles;
    }

    /** The existence test for one required file of `validateFiles`. */
    method CheckFile(file: string, fs: FileSystem)
      modifies this
      ensures errors == old(errors) + (if Path(file) in fs.paths then [] else [MissingFile(file)])
      ensures warnings == old(warnings)
    {
      if Path(file) !in fs.paths {
        errors := errors + [MissingFile(file)];
      }
    }

    method ValidateHtml(fs: FileSystem)
      modifies this
      ensures errors == old(errors) + HtmlReport(fs).errors
      ensures warnings == old(warnings) + HtmlReport(fs).warnings
    {
      var content := fs.read(Path("popup.html"));
      if content.Err? {
        errors := errors + [HtmlUnreadable(content.error)];
        return;
      }
      var html := content.value;
      if !Contains(html, "<!DOCTYPE html>") {
        warnings := warnings + [MissingDoctype];
      }
      if !Contains(html, "popup.css") {
        warnings := warnings + [MissingCssLink];
      }
      if !Contains(html, "popup.js") {
        errors := errors + [MissingJsLink];
      }
    }

    method ValidateJavaScript(fs: FileSystem)
      modifies this
      ensures errors == old(errors) + JsReport(JsFiles, fs).errors
      ensures warnings == old(warnings) + JsReport(JsFiles, fs).warnings
    {
      var i := 0;
      while i < |JsFiles|
        invariant 0 <= i <= |JsFiles|
        invariant errors == old(errors) + JsReport(JsFiles[..i], fs).errors
        invariant warnings == old(warnings) + JsReport(JsFiles[..i], fs).warnings
      {
        JsStep(JsFiles, i, fs);
        CheckScript(JsFiles[i], fs);
        i := i + 1;
      }
      assert JsFiles[..i] == JsFiles;
    }

    /** The `try` block for one script of `validateJavaScript`. */
    method CheckScript(file: string, fs: FileSystem)
      modifies this
      ensures errors == old(errors) + JsFileReport(file, fs).errors
      ensures warnings == old(warnings) + JsFileReport(file, fs).warnings
    {
      var content := fs.read(Path(file));
      if content.Err? {
        errors := errors + [JsUnreadable(file, content.error)];
      } else if !Contains(content.value, "chrome.") {
        warnings := warnings + [NoChromeApis(file)];
      }
    }

    method ValidateIcons(fs: FileSystem)
      modifies this
      ensures errors == old(errors) + IconsReport(Icons, fs).errors
      ensures warnings == old(warnings) + IconsReport(Icons, fs).warnings
    {
      var i := 0;
      while i < |Icons|
        invariant 0 <= i <= |Icons|
        invariant errors == old(errors) + IconsReport(Icons[..i], fs).errors
        invariant warnings == old(warnings) + IconsReport(Icons[..i], fs).warnings
      {
        IconsStep(Icons, i, fs);
        CheckIcon(Icons[i], fs);
        i := i + 1;
      }
      assert Icons[..i] == Icons;
    }

    /** The `try` block for one icon of `validateIcons`. */
    method CheckIcon(icon: IconSpec, fs: FileSystem)
      modifies this
      ensures errors == old(errors) + IconReport(icon, fs).errors
      ensures warnings == old(warnings) + IconReport(icon, fs).warnings
    {
      var stats := fs.stat(Path(icon.file));
      if stats.Err? {
        errors := errors + [IconInaccessible(icon.file, stats.error)];
      } else if stats.value == 0 {
        warnings := warnings + [EmptyIcon(icon.file)];
      }
    }

    method ValidateManifest(fs: FileSystem, parse: string -> Result<Json, string>)
      modifies this
      ensures errors == old(errors) + ManifestReport(fs, parse).errors
      ensures warnings == old(warnings) + ManifestReport(fs, parse).warnings
    {
      var content := fs.read(Path("manifest.json"));
      if content.Err? {
        errors := errors + [InvalidManifest(content.error)];
        return;
      }
      var parsed := parse(content.value);
      if parsed.Err? {
        errors := errors + [InvalidManifest(parsed.error)];
        return;
      }
      var manifest := parsed.value;
      if manifest.JNull? {
        errors := errors + [InvalidManifest(NullPropertyMessage(RequiredFields[0]))];
        return;
      }
      CheckRequiredFields(manifest);
      if Get(manifest, "manifest_version") != Some(JNumber(3.0)) {
        warnings := warnings + [NotManifestV3];
      }
      CheckPermissions(manifest);
    }

    /** The loop of `validateManifest` over the required fields. */
    method CheckRequiredFields(manifest: Json)
      modifies this
      ensures errors == old(errors) + MissingFields(RequiredFields, manifest)
      ensures warnings == old(warnings)
    {
      var i := 0;
      while i < |RequiredFields|
        invariant 0 <= i <= |RequiredFields|
        invariant errors == old(errors) + MissingFields(RequiredFields[..i], manifest)
        invariant warnings == old(warnings)
      {
        MissingFieldsStep(RequiredFields, i, manifest);
        CheckField(RequiredFields[i], manifest);
        i := i + 1;
      }
      assert RequiredFields[..i] == RequiredFields;
    }

    /** The test for one required field of `validateManifest`. */
    method CheckField(field: string, manifest: Json)
      modifies this
      ensures errors == old(errors)
        + (if Get(manifest, field).Some? && Truthy(Get(manifest, field).value) then [] else [MissingField(field)])
      ensures warnings == old(warnings)
    {
      var value := Get(manifest, field);
      if !(value.Some? && Truthy(value.value)) {
        errors := errors + [MissingField(field)];
      }
    }

    /** The permission test of `validateManifest`, where calling `includes`
        on a value without that method throws to the `catch`. */
    method CheckPermissions(manifest: Json)
      modifies this
      ensures errors == old(errors) + PermissionErrors(manifest)
      ensures warnings == old(warnings)
    {
      var permissions := Get(manifest, "permissions");
      if permissions.None? || !Truthy(permissions.value) {
        errors := errors + [MissingCookiesPermission];
      } else if permissions.value.JArray? {
        if JString("cookies") !in permissions.value.items {
          errors := errors + [MissingCookiesPermission];
        }
      } else if permissions.value.JString? {
        if !Contains(permissions.value.s, "cookies") {
          errors := errors + [MissingCookiesPermission];
        }
      } else {
        errors := errors + [InvalidManifest(NotAFunctionMessage)];
      }
    }

    /** `run`: the checks in the order files, HTML, scripts, icons,
        manifest; both lists only grow. */
    method Run(fs: FileSystem, parse: string -> Result<Json, string>)
      modifies this
      ensures errors == old(errors) + RunReport(fs, parse).errors
      ensures warnings == old(warnings) + RunReport(fs, parse).warnings
      ensures old(errors) <= errors && old(warnings) <= warnings
    {
      ghost var errors0, warnings0 := errors, warnings;
      ValidateFiles(fs);
      ValidateHtml(fs);
      ValidateJavaScript(fs);
      ValidateIcons(fs);
      ValidateManifest(fs, parse);
      RunReportParts(fs, parse);
      Associate(errors0, FilesReport(fs).errors, HtmlReport(fs).errors, JsReport(JsFiles, fs).errors,
        IconsReport(Icons, fs).errors, ManifestReport(fs, parse).errors);
      Associate(warnings0, FilesReport(fs).warnings, HtmlReport(fs).warnings, JsReport(JsFiles, fs).warnings,
        IconsReport(Icons, fs).warnings, ManifestReport(fs, parse).warnings);
    }
  }
}
