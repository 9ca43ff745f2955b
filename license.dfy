/** The closed sets of text and code licences a post may carry, their URLs,
    and the key adapter that lets metadata name a member as `"by-nc-nd"`. */
module License {
  import opened Text
  import opened BlogUtil
  import opened Wrappers

  const LICENSE_VERSION := "4.0"
  const LICENSE_BASE_URL := "https://creativecommons.org/licenses/"
  const LICENSE_END_URL := LICENSE_VERSION + "/"
  const LICENSE_IMAGE_BASE_URL := "https://licensebuttons.net/i/l/"
  const LICENSE_IMAGE_END_URL := "transparent/00/00/00/88x31.png"

  /** `_cc_license_urls(key)`: the licence deed `<base>/<key>/4.0/` and its
      button image `<button base>/<key>/transparent/00/00/00/88x31.png`. */
  function CcLicenseUrls(key: string): (r: (Url, Url))
    ensures r.0.origin == LICENSE_BASE_URL && r.0.segments == [key, "4.0/"]
    ensures r.1.origin == LICENSE_IMAGE_BASE_URL
            && r.1.segments == [key, "transparent/00/00/00/88x31.png"]
  {
    assert LICENSE_END_URL == "4.0/";
    (Div(Div(Url(LICENSE_BASE_URL, []), key), LICENSE_END_URL),
     Div(Div(Url(LICENSE_IMAGE_BASE_URL, []), key), LICENSE_IMAGE_END_URL))
  }

  datatype TextLicense = TextLicense(name: string, descriptionUrl: Url, imageUrl: Url)
  datatype CodeLicense = CodeLicense(name: string, descriptionUrl: Url)

  /** The members of `TextLicenses`. */
  datatype TextLicenses = BY_NC_ND | BY_NC_SA | BY_NC | BY_ND | BY_SA | BY

  /** The members of `CodeLicenses`. */
  datatype CodeLicenses = AGPL_V3 | GPL_V3 | LGPL_V3 | MIT | UNLICENSE | UNLICENSED

  /** The members in declaration order, as `__members__` lists them. */
  const TEXT_MEMBERS: seq<TextLicenses> := [BY_NC_ND, BY_NC_SA, BY_NC, BY_ND, BY_SA, BY]
  const CODE_MEMBERS: seq<CodeLicenses> := [AGPL_V3, GPL_V3, LGPL_V3, MIT, UNLICENSE, UNLICENSED]

  function TextMemberName(m: TextLicenses): string {
    match m
    case BY_NC_ND => "BY_NC_ND"
    case BY_NC_SA => "BY_NC_SA"
    case BY_NC => "BY_NC"
    case BY_ND => "BY_ND"
    case BY_SA => "BY_SA"
    case BY => "BY"
  }

  function CodeMemberName(m: CodeLicenses): string {
    match m
    case AGPL_V3 => "AGPL_V3"
    case GPL_V3 => "GPL_V3"
    case LGPL_V3 => "LGPL_V3"
    case MIT => "MIT"
    case UNLICENSE => "UNLICENSE"
    case UNLICENSED => "UNLICENSED"
  }

  /** The Creative Commons key each text licence's URLs are built from. */
  function CcKey(m: TextLicenses): string {
    match m
    case BY_NC_ND => "by-nc-nd"
    case BY_NC_SA => "by-nc-sa"
    case BY_NC => "by-nc"
    case BY_ND => "by-nd"
    case BY_SA => "by-sa"
    case BY => "by"
  }

  /** The display name of each text licence. */
  function TextName(m: TextLicenses): string {
    match m
    case BY_NC_ND => "Attribution-NonCommercial-NoDerivatives 4.0 International"
    case BY_NC_SA => "Attribution-NonCommercial-ShareAlike 4.0 International"
    case BY_NC => "Attribution-NonCommercial 4.0 International"
    case BY_ND => "Attribution-NoDerivatives 4.0 International"
    case BY_SA => "Attribution-ShareAlike 4.0 International"
    case BY => "Attribution 4.0 International"
  }

  /** The value of each `TextLicenses` member: its name and the URLs built
      from its key. */
  function TextValue(m: TextLicenses): TextLicense {
    var urls := CcLicenseUrls(CcKey(m));
    TextLicense(TextName(m), urls.0, urls.1)
  }

  /** The value of each `CodeLicenses` member; `UNLICENSED` has the value `None`. */
  function CodeValue(m: CodeLicenses): Option<CodeLicense> {
    match m
    case AGPL_V3 => Some(CodeLicense("AGLPv3", Url("https://choosealicense.com/licenses/agpl-3.0/", [])))
    case GPL_V3 => Some(CodeLicense("GPLv3", Url("https://choosealicense.com/licenses/gpl-3.0/", [])))
    case LGPL_V3 => Some(CodeLicense("LGPLv3", Url("https://choosealicense.com/licenses/lgpl-3.0/", [])))
    case MIT => Some(CodeLicense("MIT", Url("https://choosealicense.com/licenses/mit/", [])))
    case UNLICENSE => Some(CodeLicense("Unlicense", Url("https://choosealicense.com/licenses/unlicense/", [])))
    case UNLICENSED => None
  }

  /** The key `_missing_` looks up: upper-cased, every `-` turned into `_`. */
  function AdaptKey(value: string): (r: string)
    ensures |r| == |value|
    ensures forall i :: 0 <= i < |value| ==>
              r[i] == (if value[i] == '-' then '_' else UpperChar(value[i]))
  {
    ReplaceChar(Upper(value), '-', '_')
  }

  /** The first of `members` whose name is `key`, as `__members__.get(key, None)`. */
  function FindText(members: seq<TextLicenses>, key: string): (r: Option<TextLicenses>)
    ensures r.Some? ==> r.value in members && TextMemberName(r.value) == key
    ensures r.None? ==> forall m :: m in members ==> TextMemberName(m) != key
  {
    if members == [] then None
    else if TextMemberName(members[0]) == key then Some(members[0])
    else FindText(members[1..], key)
  }

  function FindCode(members: seq<CodeLicenses>, key: string): (r: Option<CodeLicenses>)
    ensures r.Some? ==> r.value in members && CodeMemberName(r.value) == key
    ensures r.None? ==> forall m :: m in members ==> CodeMemberName(m) != key
  {
    if members == [] then None
    else if CodeMemberName(members[0]) == key then Some(members[0])
    else FindCode(members[1..], key)
  }

  /** `TextLicenses._missing_(value)`: the member named by the adapted key, or `None`. */
  function TextFromKey(value: string): (r: Option<TextLicenses>)
    ensures r.Some? <==> exists m :: TextMemberName(m) == AdaptKey(value)
    ensures r.Some? ==> TextMemberName(r.value) == AdaptKey(value)
  {
    MemberSets();
    FindText(TEXT_MEMBERS, AdaptKey(value))
  }

  /** `CodeLicenses._missing_(value)`: the member named by the adapted key, or `None`. */
  function CodeFromKey(value: string): (r: Option<CodeLicenses>)
    ensures r.Some? <==> exists m :: CodeMemberName(m) == AdaptKey(value)
    ensures r.Some? ==> CodeMemberName(r.value) == AdaptKey(value)
  {
    MemberSets();
    FindCode(CODE_MEMBERS, AdaptKey(value))
  }

  /** Member names are distinct, so the adapted key determines the member. */
  lemma TextMemberNamesDistinct(a: TextLicenses, b: TextLicenses)
    ensures TextMemberName(a) == TextMemberName(b) ==> a == b
  {
  }

  /** `"by-nc-nd"` adapts to `BY_NC_ND`. */
  lemma AdaptByNcNd()
    ensures AdaptKey("by-nc-nd") == "BY_NC_ND"
    ensures TextFromKey("by-nc-nd") == Some(BY_NC_ND)
  {
    var a := AdaptKey("by-nc-nd");
    assert a[0] == 'B' && a[1] == 'Y' && a[2] == '_' && a[3] == 'N';
    assert a[4] == 'C' && a[5] == '_' && a[6] == 'N' && a[7] == 'D';
    assert a == "BY_NC_ND";
    TextMemberNamesDistinct(TextFromKey("by-nc-nd").value, BY_NC_ND);
  }

  /** A key adapts to `expected` when it does so character by character. */
  lemma AdaptsTo(value: string, expected: string)
    requires |value| == |expected|
    requires forall i :: 0 <= i < |value| ==> expected[i] == (if value[i] == '-' then '_' else UpperChar(value[i]))
    ensures AdaptKey(value) == expected
  {
  }

  /** Each licence's key adapts to its member name. */
  lemma CcKeyAdapts(m: TextLicenses)
    ensures AdaptKey(CcKey(m)) == TextMemberName(m)
  {
    match m
    case BY_NC_ND => AdaptsTo("by-nc-nd", "BY_NC_ND");
    case BY_NC_SA => AdaptsTo("by-nc-sa", "BY_NC_SA");
    case BY_NC => AdaptsTo("by-nc", "BY_NC");
    case BY_ND => AdaptsTo("by-nd", "BY_ND");
    case BY_SA => AdaptsTo("by-sa", "BY_SA");
    case BY => AdaptsTo("by", "BY");
  }

  /** The key each text licence builds its URLs from looks that licence up again. */
  lemma CcKeyRoundTrip(m: TextLicenses)
    ensures TextFromKey(CcKey(m)) == Some(m)
    ensures TextValue(m).descriptionUrl.segments[0] == CcKey(m)
            && TextValue(m).imageUrl.segments[0] == CcKey(m)
  {
    CcKeyAdapts(m);
    TextMemberNamesDistinct(TextFromKey(CcKey(m)).value, m);
  }

  /** A key naming no member yields `None`, not an error. */
  lemma UnknownTextKey()
    ensures TextFromKey("gpl-v3") == None
  {
    var a := AdaptKey("gpl-v3");
    assert a[0] == 'G';
    forall m ensures TextMemberName(m) != a { assert TextMemberName(m)[0] == 'B'; }
  }

  /** `TextLicenses` has exactly six members, `CodeLicenses` six with
      `UNLICENSED` the one whose value is `None`. */
  lemma MemberSets()
    ensures |TEXT_MEMBERS| == 6 && forall m :: m in TEXT_MEMBERS
    ensures forall i, j :: 0 <= i < j < |TEXT_MEMBERS| ==> TEXT_MEMBERS[i] != TEXT_MEMBERS[j]
    ensures |CODE_MEMBERS| == 6 && forall m :: m in CODE_MEMBERS
    ensures forall m :: CodeValue(m) == None <==> m == UNLICENSED
  {
    forall m: TextLicenses ensures m in TEXT_MEMBERS {
      match m
      case BY_NC_ND => assert TEXT_MEMBERS[0] == m;
      case BY_NC_SA => assert TEXT_MEMBERS[1] == m;
      case BY_NC => assert TEXT_MEMBERS[2] == m;
      case BY_ND => assert TEXT_MEMBERS[3] == m;
      case BY_SA => assert TEXT_MEMBERS[4] == m;
      case BY => assert TEXT_MEMBERS[5] == m;
    }
    forall m: CodeLicenses ensures m in CODE_MEMBERS {
      match m
      case AGPL_V3 => assert CODE_MEMBERS[0] == m;
      case GPL_V3 => assert CODE_MEMBERS[1] == m;
      case LGPL_V3 => assert CODE_MEMBERS[2] == m;
      case MIT => assert CODE_MEMBERS[3] == m;
      case UNLICENSE => assert CODE_MEMBERS[4] == m;
      case UNLICENSED => assert CODE_MEMBERS[5] == m;
    }
  }
}
