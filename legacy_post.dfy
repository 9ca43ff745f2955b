/** A post of the older single-module blog: its checks run as a list of
    validators that stop at the first failure, the metadata is checked by a
    schema that depends on whether the text has fenced code with a language,
    and the post is built from the text with its image paths rewritten. */
module LegacyPost {
  import opened Wrappers
  import opened Text
  import opened BlogUtil
  import opened RootUtil
  import Fs
  import FaultBase
  import Json
  import License
  import Pattern
  import Container
  import LegacyReadTime

  /** The exceptions a legacy post can raise or a validator can catch:
      an `OSError` (a missing file and a directory opened as a file are
      ones, naming the path), a `UnicodeDecodeError`, a `JSONDecodeError`,
      the `ValueError` of a time out of range, and the `AttributeError` of
      formatting an hour or more. */
  datatype Exception =
    | OsError(error: FaultBase.IoError)
    | UnicodeDecodeError
    | JsonDecodeError(decodeError: FaultBase.JsonDecodeError)
    | ValueError
    | AttributeError

  /** `open(path, "r").read()`. */
  function ReadText(fs: Fs.FileSystem, p: Fs.Path): (r: Result<string, Exception>)
    ensures r.Ok? <==> p in fs && fs[p].File? && fs[p].read.Readable?
    ensures r.Ok? ==> r.value == fs[p].read.text
    ensures p !in fs || fs[p].Dir? ==> r == Err(OsError(FaultBase.IoError(Some(Fs.PathString(p)))))
  {
    if p !in fs then Err(OsError(FaultBase.IoError(Some(Fs.PathString(p)))))
    else
      match fs[p]
      case Dir => Err(OsError(FaultBase.IoError(Some(Fs.PathString(p)))))
      case File(read) =>
        match read
        case Readable(text) => Ok(text)
        case OpenFails(e) => Err(OsError(e))
        case ReadFails(e) => Err(OsError(e))
        case Undecodable => Err(UnicodeDecodeError)
  }

  // ---------------------------------------------------------------------
  // validate
  // ---------------------------------------------------------------------

  /** `Validator`: a check to call, and the message reported when it
      returns something false. The check returns a truth value or raises. */
  datatype Validator = Validator(check: () -> Result<bool, Exception>, error: string)

  /** `ValidationResult`. */
  datatype ValidationResult = ValidationResult(success: bool, error: Option<string>, exception: Option<Exception>)

  /** The position of the first validator that does not pass, `|vs|` when
      all pass. */
  function FirstFailing(vs: seq<Validator>): (i: nat)
    ensures i <= |vs|
    ensures forall j :: 0 <= j < i ==> vs[j].check() == Ok(true)
    ensures i < |vs| ==> vs[i].check() != Ok(true)
  {
    if vs == [] then 0
    else if vs[0].check() != Ok(true) then 0
    else 1 + FirstFailing(vs[1..])
  }

  /** The first failing position is the one a left-to-right walk stops at. */
  lemma FirstFailingAt(vs: seq<Validator>, k: nat)
    requires k <= |vs| && forall j :: 0 <= j < k ==> vs[j].check() == Ok(true)
    requires k < |vs| ==> vs[k].check() != Ok(true)
    ensures FirstFailing(vs) == k
  {
  }

  /** What `validate` reports: success when every check passes; otherwise
      the first check that does not pass decides, with its message when it
      returned false and with the exception (and no message) when it raised. */
  function FirstFailure(vs: seq<Validator>): (r: ValidationResult)
    ensures r.success <==> forall j :: 0 <= j < |vs| ==> vs[j].check() == Ok(true)
    ensures r.success ==> r.error.None? && r.exception.None?
    ensures !r.success ==>
              var i := FirstFailing(vs);
              && i < |vs|
              && (vs[i].check().Err? ==> r.error.None? && r.exception == Some(vs[i].check().error))
              && (vs[i].check() == Ok(false) ==> r.error == Some(vs[i].error) && r.exception.None?)
  {
    var i := FirstFailing(vs);
    if i == |vs| then ValidationResult(true, None, None)
    else
      match vs[i].check()
      case Err(e) => ValidationResult(false, None, Some(e))
      case Ok(_) => ValidationResult(false, Some(vs[i].error), None)
  }

  /** `validate(validators)`: call each check in turn, stopping at the
      first that returns false or raises; `ran` is how many were called. */
  method Validate(vs: seq<Validator>) returns (r: ValidationResult, ran: nat)
    ensures r == FirstFailure(vs)
    ensures ran == (if r.success then |vs| else FirstFailing(vs) + 1)
  {
    var k := 0;
    while k < |vs|
      invariant 0 <= k <= |vs|
      invariant forall j :: 0 <= j < k ==> vs[j].check() == Ok(true)
    {
      var outcome := vs[k].check();
      if outcome.Err? {
        FirstFailingAt(vs, k);
        return ValidationResult(false, None, Some(outcome.error)), k + 1;
      }
      if !outcome.value {
        FirstFailingAt(vs, k);
        return ValidationResult(false, Some(vs[k].error), None), k + 1;
      }
      k := k + 1;
    }
    FirstFailingAt(vs, k);
    return ValidationResult(true, None, None), k;
  }

  // ---------------------------------------------------------------------
  // Post.valid: the text checks
  // ---------------------------------------------------------------------

  const PATH_ERROR := "path to post does not exist"
  const HEADING_ERROR := "post has no heading"

  /** The second validator: read the text and match its first line against
      `VALID_MARKDOWN`. */
  function HeadingCheck(fs: Fs.FileSystem, textPath: Fs.Path): (r: Result<bool, Exception>)
    ensures r.Ok? <==> ReadText(fs, textPath).Ok?
    ensures r.Ok? ==> (r.value <==> Pattern.ValidMarkdown(FirstLine(ReadText(fs, textPath).value)))
  {
    match ReadText(fs, textPath)
    case Err(e) => Err(e)
    case Ok(text) => Ok(Pattern.ValidMarkdown(FirstLine(text)))
  }

  /** The validators of `Post.valid` as written: the first returns the
      bound method `text_path.exists` instead of calling it, and a method
      is always true, so it passes whether or not the file exists. */
  function TextChecksAsWritten(fs: Fs.FileSystem, path: Fs.Path): seq<Validator> {
    [Validator(() => Ok(true), PATH_ERROR),
     Validator(() => HeadingCheck(fs, Container.TextPath(path)), HEADING_ERROR)]
  }

  /** The validators as evidently intended: the first calls `exists()`. */
  function TextChecks(fs: Fs.FileSystem, path: Fs.Path): seq<Validator> {
    [Validator(() => Ok(Container.TextPath(path) in fs), PATH_ERROR),
     Validator(() => HeadingCheck(fs, Container.TextPath(path)), HEADING_ERROR)]
  }

  /** The text of a post whose text file reads and starts with a heading. */
  predicate HasHeading(fs: Fs.FileSystem, path: Fs.Path) {
    ReadText(fs, Container.TextPath(path)).Ok?
    && Pattern.ValidMarkdown(FirstLine(ReadText(fs, Container.TextPath(path)).value))
  }

  /** As written, a missing text file is not reported by its own message:
      the second check raises `FileNotFoundError`, so the result carries
      the exception and no message (the warning prints `None`). */
  lemma TextChecksAsWrittenMissing(fs: Fs.FileSystem, path: Fs.Path)
    requires Container.TextPath(path) !in fs
    ensures FirstFailure(TextChecksAsWritten(fs, path))
            == ValidationResult(false, None, Some(OsError(FaultBase.IoError(Some(Fs.PathString(Container.TextPath(path)))))))
  {
    var vs := TextChecksAsWritten(fs, path);
    assert vs[0].check() == Ok(true);
    FirstFailingAt(vs, 1);
  }

  /** Corrected, a missing text file fails the first check with its
      message, and that message is reported exactly when the file is
      missing. */
  lemma TextChecksMissing(fs: Fs.FileSystem, path: Fs.Path)
    ensures Container.TextPath(path) !in fs ==>
              FirstFailure(TextChecks(fs, path)) == ValidationResult(false, Some(PATH_ERROR), None)
    ensures FirstFailure(TextChecks(fs, path)).error == Some(PATH_ERROR) <==> Container.TextPath(path) !in fs
  {
    var vs := TextChecks(fs, path);
    if Container.TextPath(path) !in fs {
      FirstFailingAt(vs, 0);
    } else {
      assert vs[0].check() == Ok(true);
      assert HEADING_ERROR != PATH_ERROR by { assert HEADING_ERROR[1] != PATH_ERROR[1]; }
    }
  }

  /** Both versions pass exactly when the text reads and starts with a
      heading, so the slip changes the reported reason, never the verdict;
      with the file present they report the same. */
  lemma {:induction false} TextChecksAgree(fs: Fs.FileSystem, path: Fs.Path)
    ensures FirstFailure(TextChecks(fs, path)).success <==> HasHeading(fs, path)
    ensures FirstFailure(TextChecksAsWritten(fs, path)).success <==> HasHeading(fs, path)
    ensures Container.TextPath(path) in fs ==>
              FirstFailure(TextChecksAsWritten(fs, path)) == FirstFailure(TextChecks(fs, path))
  {
    var written := TextChecksAsWritten(fs, path);
    var fixed := TextChecks(fs, path);
    assert written[0].check() == Ok(true);
    assert written[1].check() == fixed[1].check();
    if Container.TextPath(path) in fs {
      assert fixed[0].check() == Ok(true);
      assert FirstFailing(written) == FirstFailing(fixed) by {
        FirstFailingAt(fixed, FirstFailing(written));
      }
    } else {
      FirstFailingAt(fixed, 0);
    }
  }

  // ---------------------------------------------------------------------
  // Post.has_code
  // ---------------------------------------------------------------------

  /** A character `\w` matches (its ASCII part). */
  predicate IsWord(c: char) {
    ('a' <= c <= 'z') || ('A' <= c <= 'Z') || ('0' <= c <= '9') || c == '_'
  }

  /** `\w+\n` matches at `j`: a run of word characters ending in a newline. */
  predicate WordsThenNewline(s: string, j: nat)
    decreases |s| - j
  {
    j + 1 < |s| && IsWord(s[j]) && (s[j + 1] == '\n' || WordsThenNewline(s, j + 1))
  }

  /** `HAS_CODE` matches at `i`: a fence followed by a language name and a
      newline. */
  predicate FenceAt(s: string, i: nat) {
    i + 3 <= |s| && s[i..i + 3] == "```" && WordsThenNewline(s, i + 3)
  }

  /** `Post.has_code(text)`: `HAS_CODE` matches somewhere, so a fence
      without a language does not count. */
  predicate HasCode(s: string) {
    exists i: nat | i <= |s| :: FenceAt(s, i)
  }

  lemma {:induction false} WordsThenNewlineShift(s: string, t: string, j: nat)
    requires WordsThenNewline(t, j)
    ensures WordsThenNewline(s + t, |s| + j)
    decreases |t| - j
  {
    if t[j + 1] != '\n' {
      WordsThenNewlineShift(s, t, j + 1);
    }
  }

  lemma {:induction false} WordsThenNewlineExtend(s: string, t: string, j: nat)
    requires WordsThenNewline(s, j)
    ensures WordsThenNewline(s + t, j)
    decreases |s| - j
  {
    if s[j + 1] != '\n' {
      WordsThenNewlineExtend(s, t, j + 1);
    }
  }

  /** The check is a search: code found in either part of a text is found
      in the whole. */
  lemma HasCodeConcat(s: string, t: string)
    ensures HasCode(s) || HasCode(t) ==> HasCode(s + t)
  {
    if HasCode(s) {
      var i: nat :| i <= |s| && FenceAt(s, i);
      assert WordsThenNewline(s, i + 3);
      WordsThenNewlineExtend(s, t, i + 3);
      assert (s + t)[i..i + 3] == s[i..i + 3];
      assert FenceAt(s + t, i);
    } else if HasCode(t) {
      var i: nat :| i <= |t| && FenceAt(t, i);
      assert WordsThenNewline(t, i + 3);
      WordsThenNewlineShift(s, t, i + 3);
      assert (s + t)[|s| + i..|s| + i + 3] == t[i..i + 3];
      assert FenceAt(s + t, |s| + i);
    }
  }

  /** A fenced block with a language is code; a fence with nothing after it
      on its line is not. */
  lemma HasCodeExamples()
    ensures HasCode("```py\n")
    ensures !HasCode("```\n")
  {
    var s := "```py\n";
    assert s[0..3] == "```";
    assert WordsThenNewline(s, 4);
    assert FenceAt(s, 0);
    var t := "```\n";
    forall i: nat ensures !FenceAt(t, i) {
      if i == 0 {
        assert t[3] == '\n';
      }
    }
  }

  // ---------------------------------------------------------------------
  // PostMetadata: the schema
  // ---------------------------------------------------------------------

  /** `PostMetadata._PostMetadata`; the licences are the members whose
      values `TEXT_LICENSES` and `CODE_LICENSES` hold. */
  datatype LegacyMetadata = LegacyMetadata(
    date: int,
    tags: seq<string>,
    textLicense: License.TextLicenses,
    codeLicense: Option<License.CodeLicenses>,
    description: string,
    section: string,
    author: string,
    hidden: bool)

  /** The keys every metadata document must have, and those it may have. */
  const REQUIRED_KEYS: set<string> := {"description", "section", "author", "date", "tags", "license"}
  const KNOWN_KEYS: set<string> := REQUIRED_KEYS + {"hidden"}

  /** The only key of `CODE_LICENSES`. */
  const MIT_KEY := "mit"

  /** The text licence a key of `TEXT_LICENSES` names. */
  function TextKey(key: string): (r: Option<License.TextLicenses>)
    ensures r.Some? ==> License.CcKey(r.value) == key
    ensures r.None? ==> forall m :: License.CcKey(m) != key
  {
    License.MemberSets();
    FindTextKey(License.TEXT_MEMBERS, key)
  }

  function FindTextKey(members: seq<License.TextLicenses>, key: string): (r: Option<License.TextLicenses>)
    ensures r.Some? ==> License.CcKey(r.value) == key
    ensures r.None? ==> forall m :: m in members ==> License.CcKey(m) != key
  {
    if members == [] then None
    else if License.CcKey(members[0]) == key then Some(members[0])
    else FindTextKey(members[1..], key)
  }

  /** `str`: a JSON string. */
  function StringOf(j: Json.Json): Option<string> {
    if j.JString? then Some(j.s) else None
  }

  /** `[str]`: a list whose every element is a string. */
  function StringsOf(items: seq<Json.Json>): (r: Option<seq<string>>)
    ensures r.Some? <==> forall k :: 0 <= k < |items| ==> items[k].JString?
    ensures r.Some? ==> |r.value| == |items| && forall k :: 0 <= k < |items| ==> items[k] == Json.JString(r.value[k])
  {
    if items == [] then Some([])
    else if !items[0].JString? then None
    else
      match StringsOf(items[1..])
      case None => None
      case Some(rest) => Some([items[0].s] + rest)
  }

  /** `All(int, Range(min=1))`: an integer of at least one; `true` is an
      `int` in Python and equals one. */
  function DateOf(j: Json.Json): (r: Option<int>)
    ensures r.Some? ==> r.value >= 1
    ensures r.Some? <==> (j.JInt? && j.i >= 1) || j == Json.JBool(true)
  {
    if j.JInt? && j.i >= 1 then Some(j.i)
    else if j == Json.JBool(true) then Some(1)
    else None
  }

  /** `Optional("hidden", default=False): bool`. */
  function HiddenOf(fields: map<string, Json.Json>): Option<bool> {
    if "hidden" !in fields then Some(false)
    else if fields["hidden"].JBool? then Some(fields["hidden"].b)
    else None
  }

  /** The `license` object: exactly `text`, plus `code` when the post has
      code; `text` one of the keys of `TEXT_LICENSES`, `code` the key of
      `CODE_LICENSES`. */
  function LicenseOf(j: Json.Json, hasCode: bool): (r: Option<(License.TextLicenses, Option<License.CodeLicenses>)>)
    ensures r.Some? ==> j.JObject? && j.fields.Keys == (if hasCode then {"text", "code"} else {"text"})
    ensures r.Some? ==> j.fields["text"] == Json.JString(License.CcKey(r.value.0))
    ensures r.Some? ==> (r.value.1.Some? <==> hasCode) && (hasCode ==> r.value.1 == Some(License.MIT))
  {
    if !j.JObject? || j.fields.Keys != (if hasCode then {"text", "code"} else {"text"}) then None
    else
      var text := j.fields["text"];
      if !text.JString? || TextKey(text.s).None? then None
      else if hasCode && j.fields["code"] != Json.JString(MIT_KEY) then None
      else Some((TextKey(text.s).value, if hasCode then Some(License.MIT) else None))
  }

  /** `VALIDATION_SCHEMA_WITH_CODE` when the post has code, otherwise
      `VALIDATION_SCHEMA_WITHOUT_CODE`, applied to the decoded document; the
      metadata, or `None` when the schema rejects it. Every key but
      `hidden` is required and no other key is allowed. */
  function Schema(j: Json.Json, hasCode: bool): (r: Option<LegacyMetadata>)
    ensures r.Some? ==> j.JObject? && REQUIRED_KEYS <= j.fields.Keys <= KNOWN_KEYS
    ensures r.Some? ==> r.value.date >= 1 && (r.value.codeLicense.Some? <==> hasCode)
    ensures r.Some? ==> "license" in j.fields && j.fields["license"].JObject?
                        && ("code" in j.fields["license"].fields <==> hasCode)
    ensures r.Some? ==> && j.fields["description"] == Json.JString(r.value.description)
                        && j.fields["section"] == Json.JString(r.value.section)
                        && j.fields["author"] == Json.JString(r.value.author)
    ensures r.Some? && "hidden" !in j.fields ==> !r.value.hidden
    ensures !j.JObject? ==> r.None?
  {
    if !j.JObject? then None
    else
      var f := j.fields;
      if !(REQUIRED_KEYS <= f.Keys <= KNOWN_KEYS) then None
      else
        var description := StringOf(f["description"]);
        var section := StringOf(f["section"]);
        var author := StringOf(f["author"]);
        var date := DateOf(f["date"]);
        var tags := if f["tags"].JArray? then StringsOf(f["tags"].items) else None;
        var hidden := HiddenOf(f);
        var licensing := LicenseOf(f["license"], hasCode);
        if description.Some? && section.Some? && author.Some? && date.Some? && tags.Some?
           && hidden.Some? && licensing.Some?
        then Some(LegacyMetadata(date.value, tags.value, licensing.value.0, licensing.value.1,
                                 description.value, section.value, author.value, hidden.value))
        else None
  }

  /** The JSON document that describes a metadata value. */
  function Encode(m: LegacyMetadata): Json.Json {
    var license := map["text" := Json.JString(License.CcKey(m.textLicense))];
    Json.JObject(map[
      "description" := Json.JString(m.description),
      "section" := Json.JString(m.section),
      "author" := Json.JString(m.author),
      "date" := Json.JInt(m.date),
      "tags" := Json.JArray(Strings(m.tags)),
      "hidden" := Json.JBool(m.hidden),
      "license" := Json.JObject(if m.codeLicense.Some? then license["code" := Json.JString(MIT_KEY)] else license)])
  }

  function Strings(tags: seq<string>): (r: seq<Json.Json>)
    ensures |r| == |tags| && forall k :: 0 <= k < |tags| ==> r[k] == Json.JString(tags[k])
  {
    seq(|tags|, k requires 0 <= k < |tags| => Json.JString(tags[k]))
  }

  /** Every metadata value with a positive date and the MIT licence for
      code, if any, is accepted back from its document by the schema the
      presence of code selects. */
  lemma SchemaEncode(m: LegacyMetadata)
    requires m.date >= 1 && (m.codeLicense == None || m.codeLicense == Some(License.MIT))
    ensures Schema(Encode(m), m.codeLicense.Some?) == Some(m)
  {
    var f := Encode(m).fields;
    assert REQUIRED_KEYS <= f.Keys <= KNOWN_KEYS;
    EncodeLicense(m);
    StringsOfStrings(m.tags);
    assert HiddenOf(f) == Some(m.hidden);
  }

  /** The licence object of the encoding is accepted back. */
  lemma EncodeLicense(m: LegacyMetadata)
    requires m.codeLicense == None || m.codeLicense == Some(License.MIT)
    ensures LicenseOf(Encode(m).fields["license"], m.codeLicense.Some?) == Some((m.textLicense, m.codeLicense))
  {
    var lic := Encode(m).fields["license"];
    License.CcKeyRoundTrip(m.textLicense);
    var t := TextKey(License.CcKey(m.textLicense));
    assert t == Some(m.textLicense) by {
      if t.value != m.textLicense {
        TextKeyUnique(t.value, m.textLicense);
      }
    }
    if m.codeLicense.Some? {
      assert lic.fields.Keys == {"text", "code"};
    } else {
      assert lic.fields.Keys == {"text"};
    }
  }

  lemma StringsOfStrings(tags: seq<string>)
    ensures StringsOf(Strings(tags)) == Some(tags)
  {
    var r := StringsOf(Strings(tags));
    assert r.Some?;
    assert r.value == tags;
  }

  /** Distinct text licences have distinct keys. */
  lemma TextKeyUnique(a: License.TextLicenses, b: License.TextLicenses)
    requires License.CcKey(a) == License.CcKey(b)
    ensures a == b
  {
    match a
    case BY_NC_ND =>
    case BY_NC_SA =>
    case BY_NC => assert |License.CcKey(a)| == 5 && License.CcKey(a)[4] == 'c';
    case BY_ND => assert |License.CcKey(a)| == 5 && License.CcKey(a)[4] == 'd';
    case BY_SA =>
    case BY =>
  }

  /** A post with code needs a code licence and one without must not have
      one: the same document cannot pass both schemas. */
  lemma SchemaChoosesByCode(j: Json.Json)
    ensures !(Schema(j, true).Some? && Schema(j, false).Some?)
  {
  }

  /** `PostMetadata(path, has_code)`: read and decode the file (both may
      raise), then apply the schema. */
  function LoadMetadata(fs: Fs.FileSystem, p: Fs.Path, hasCode: bool,
                        loads: string -> Result<Json.Json, FaultBase.JsonDecodeError>): (r: Outcome<Option<LegacyMetadata>, Exception>)
    ensures ReadText(fs, p).Err? ==> r == Raised(ReadText(fs, p).error)
    ensures ReadText(fs, p).Ok? && loads(ReadText(fs, p).value).Err? ==>
              r == Raised(JsonDecodeError(loads(ReadText(fs, p).value).error))
    ensures r.Returned? ==> ReadText(fs, p).Ok? && loads(ReadText(fs, p).value).Ok?
                            && r.value == Schema(loads(ReadText(fs, p).value).value, hasCode)
  {
    match ReadText(fs, p)
    case Err(e) => Raised(e)
    case Ok(text) =>
      match loads(text)
      case Err(e) => Raised(JsonDecodeError(e))
      case Ok(j) => Returned(Schema(j, hasCode))
  }

  /** `Post.valid(path)`: the text checks as written (whose exceptions are
      caught and make the post invalid; `TextChecksAgree` shows the corrected
      checks reach the same verdict), then the metadata file must exist and pass the
      schema chosen by the text's code. Reading or decoding the metadata is
      not guarded, so its errors escape. */
  function Valid(fs: Fs.FileSystem, path: Fs.Path,
                 loads: string -> Result<Json.Json, FaultBase.JsonDecodeError>): (r: Outcome<bool, Exception>)
    ensures !HasHeading(fs, path) ==> r == Returned(false)
    ensures HasHeading(fs, path) && Container.MetadataPath(path) !in fs ==> r == Returned(false)
    ensures HasHeading(fs, path) && Container.MetadataPath(path) in fs ==>
              var text := ReadText(fs, Container.TextPath(path)).value;
              match LoadMetadata(fs, Container.MetadataPath(path), HasCode(text), loads)
              case Raised(e) => r == Raised(e)
              case Returned(m) => r == Returned(m.Some?)
  {
    TextChecksAgree(fs, path);
    var checks := FirstFailure(TextChecksAsWritten(fs, path));
    var text := ReadText(fs, Container.TextPath(path));
    if !checks.success || text.Err? then Returned(false)
    else if Container.MetadataPath(path) !in fs then Returned(false)
    else
      match LoadMetadata(fs, Container.MetadataPath(path), HasCode(text.value), loads)
      case Raised(e) => Raised(e)
      case Returned(m) => Returned(m.Some?)
  }

  // ---------------------------------------------------------------------
  // Post.__new__
  // ---------------------------------------------------------------------

  /** `Image._Image`: where the file is and the URL it is served at. */
  datatype LegacyImage = LegacyImage(path: Fs.Path, url: Url)

  /** The components `pathlib` makes of a relative path: the pieces
      between slashes, without empty and `.` pieces. */
  function Components(pieces: seq<string>): (r: seq<string>)
    ensures forall k :: 0 <= k < |r| ==> r[k] != "" && r[k] != "."
  {
    if pieces == [] then []
    else (if pieces[0] == "" || pieces[0] == "." then [] else [pieces[0]]) + Components(pieces[1..])
  }

  /** An `href` that `pathlib` reads as an absolute path. */
  predicate Absolute(href: string) {
    href != [] && href[0] == '/'
  }

  /** The root of an absolute `href`: exactly two leading slashes are kept,
      one or three and more make a single one. */
  function RootOf(href: string): (r: string)
    requires Absolute(href)
    ensures Fs.IsRoot(r)
  {
    if |href| >= 2 && href[1] == '/' && (|href| == 2 || href[2] != '/') then "//" else "/"
  }

  /** `content_path / Path(href)`: a relative `href` is joined under the
      content folder, an absolute one replaces it. */
  function ImagePath(contentPath: Fs.Path, href: string): (r: Fs.Path)
    ensures !Absolute(href) ==>
              |r.parts| >= |contentPath.parts| && r.parts[..|contentPath.parts|] == contentPath.parts
    ensures Absolute(href) ==> |r.parts| >= 1 && r.parts[0] == RootOf(href)
  {
    var pieces := Components(Split(href, '/'));
    if Absolute(href) then Fs.Path([RootOf(href)] + pieces) else Fs.Path(contentPath.parts + pieces)
  }

  /** For an absolute `href` the content folder plays no part. */
  lemma AbsoluteImagePath(contentPath: Fs.Path, other: Fs.Path, href: string)
    requires Absolute(href)
    ensures ImagePath(contentPath, href) == ImagePath(other, href)
  {
  }

  /** `Post.find_images`: one image per `IMAGE_HREF` match, its path the
      matched group joined to the content folder and its URL the base URL
      with the last component of that path. */
  function LegacyImages(content: string, contentPath: Fs.Path, base: Url,
                        imageHref: string -> seq<(string, string)>): (r: seq<LegacyImage>)
    ensures var hrefs := imageHref(content);
            && |r| == |hrefs|
            && forall i :: 0 <= i < |r| ==>
                 && r[i].path == ImagePath(contentPath, if hrefs[i].0 != "" then hrefs[i].0 else hrefs[i].1)
                 && r[i].url.origin == base.origin
                 && r[i].url.segments == base.segments + [Fs.Name(r[i].path)]
  {
    var hrefs := imageHref(content);
    seq(|hrefs|, i requires 0 <= i < |hrefs| =>
      var p := ImagePath(contentPath, if hrefs[i].0 != "" then hrefs[i].0 else hrefs[i].1);
      LegacyImage(p, Div(base, Fs.Name(p))))
  }

  lemma {:induction false} SplitWithout(s: string, sep: char)
    requires sep !in s
    ensures Split(s, sep) == [s]
  {
    if s != [] {
      assert sep !in s[1..];
      SplitWithout(s[1..], sep);
      assert s == [s[0]] + s[1..];
    }
  }

  /** For an image path that is a plain file name, the older blog serves
      the image at the same URL as the newer one. */
  lemma LegacyImagesAgree(content: string, contentPath: Fs.Path, base: Url,
                          imageHref: string -> seq<(string, string)>, i: nat)
    requires i < |imageHref(content)|
    requires var h := imageHref(content)[i];
             var href := if h.0 != "" then h.0 else h.1;
             '/' !in href && href != "" && href != "."
    ensures LegacyImages(content, contentPath, base, imageHref)[i].url
            == Container.FindImages(content, base, imageHref)[i].url
  {
    var h := imageHref(content)[i];
    var href := if h.0 != "" then h.0 else h.1;
    SplitWithout(href, '/');
    assert Components([href]) == [href];
  }

  /** The libraries a legacy post is built with: `json.loads`, the
      matchers, and the Markdown renderer. */
  datatype Libraries = Libraries(
    loads: string -> Result<Json.Json, FaultBase.JsonDecodeError>,
    matchers: Pattern.Matchers,
    markdown: string -> string)

  /** `Post._Post`. `html` is the rendered body (the source's `markdown`
      field). */
  datatype LegacyPost = LegacyPost(
    name: string,
    title: string,
    metadata: LegacyMetadata,
    html: string,
    images: seq<LegacyImage>,
    hasCode: bool,
    readTime: LegacyReadTime.LegacyReadTime)

  /** The exception a failed read time raises. */
  function ReadTimeException(e: LegacyReadTime.ReadTimeError): Exception {
    match e
    case TimeOutOfRange => ValueError
    case FormatFails => AttributeError
  }

  /** `Post(post_path, image_base_url)`: `None` for an invalid post;
      otherwise the post, its title the first line of the rewritten text
      and its body the rest rendered; images only when the content folder
      is a directory; the read time on the original text, whose failure
      raises. */
  function New(fs: Fs.FileSystem, path: Fs.Path, imageBase: Url, libs: Libraries): Outcome<Option<LegacyPost>, Exception> {
    match Valid(fs, path, libs.loads)
    case Raised(e) => Raised(e)
    case Returned(valid) =>
      var text := ReadText(fs, Container.TextPath(path));
      if !valid then Returned(None)
      else
        // A valid post has a readable text with a heading.
        assert text.Ok?;
        var content := text.value;
        var hasCode := HasCode(content);
        var metadata := LoadMetadata(fs, Container.MetadataPath(path), hasCode, libs.loads);
        // `Valid` loaded the same metadata under the same code flag and accepted it.
        assert metadata.Returned? && metadata.value.Some?;
        var name := Fs.Name(path);
        var contentPath := Fs.Child(path, Container.CONTENT_FOLDER);
        var base := Container.PostStaticUrl(imageBase, name);
        var images := if contentPath in fs && fs[contentPath].Dir?
                      then LegacyImages(content, contentPath, base, libs.matchers.imageHref) else [];
        var modified := Container.Rewritten(content, base, libs.matchers.rewriteAt, 2);
        var lines := Split(modified, '\n');
        match LegacyReadTime.New(content, libs.matchers.finditer)
        case Err(e) => Raised(ReadTimeException(e))
        case Ok(readTime) =>
          Returned(Some(LegacyPost(name, Container.Title(modified), metadata.value.value,
                                   libs.markdown(Join("\n", lines[1..])), images, hasCode, readTime)))
  }

  /** A post is built exactly when it is valid and its read time can be
      formed; it is `None` exactly when it is not valid; it raises when
      checking raised or the read time failed. The post is named after its
      directory, its metadata is what the schema made of its metadata file,
      and its code flag is that of its text. */
  lemma NewSpec(fs: Fs.FileSystem, path: Fs.Path, imageBase: Url, libs: Libraries)
    ensures var r := New(fs, path, imageBase, libs);
            && (r == Returned(None) <==> Valid(fs, path, libs.loads) == Returned(false))
            && (r.Returned? && r.value.Some? <==>
                  Valid(fs, path, libs.loads) == Returned(true)
                  && LegacyReadTime.New(ReadText(fs, Container.TextPath(path)).value, libs.matchers.finditer).Ok?)
            && (Valid(fs, path, libs.loads).Raised? ==> r == Raised(Valid(fs, path, libs.loads).exception))
    ensures var r := New(fs, path, imageBase, libs);
            r.Returned? && r.value.Some? ==>
              var text := ReadText(fs, Container.TextPath(path)).value;
              var p := r.value.value;
              && HasHeading(fs, path)
              && p.name == Fs.Name(path)
              && p.hasCode == HasCode(text)
              && LoadMetadata(fs, Container.MetadataPath(path), HasCode(text), libs.loads) == Returned(Some(p.metadata))
              && p.readTime == LegacyReadTime.New(text, libs.matchers.finditer).value
  {
  }
}
