/** The metadata stored next to each post in `metadata.json`, and the
    generic loader every on-disk model goes through. */
module Metadata {
  import opened Wrappers
  import License
  import FaultBase
  import ModelFault
  import Fs
  import Json

  /** `ReadTimeHint`: HTML tags whose content read time ignores. */
  datatype ReadTimeHint = ReadTimeHint(excludedTags: seq<string>)

  /** `Licensing`: the text licence, and an optional code licence. */
  datatype Licensing = Licensing(text: License.TextLicenses, code: Option<License.CodeLicenses>)

  /** `PostMetadata`. The date is kept as its POSIX timestamp in seconds. */
  datatype PostMetadata = PostMetadata(
    description: string,
    section: string,
    tags: seq<string>,
    author: Option<string>,
    date: int,
    license: Licensing,
    readTimeHint: ReadTimeHint,
    hidden: bool)

  /** `ReadTimeHint.into()`: the read-time hint carries the same tag list. */
  function HintTags(h: ReadTimeHint): seq<string> {
    h.excludedTags
  }

  /** The two library steps of loading a model: `json.loads`, and
      `parse_obj` with its list of validation errors. */
  datatype Parsers = Parsers(
    loads: string -> Result<Json.Json, FaultBase.JsonDecodeError>,
    parseObj: Json.Json -> Result<PostMetadata, seq<ModelFault.ErrorEntry>>)

  /** What a call can do besides returning: raise an exception the caller
      does not catch. */
  datatype Loaded<T> = Loaded(result: Result<T, ModelFault.Fault>) | Escapes

  /** `ConfiguredBaseModel.new(open(path))`: failing to open propagates; a read error
      becomes an `IoFault`, a decode error a `JsonDecodeFault`, a schema
      error a `ValidationFault`; anything else propagates. */
  function New(read: Fs.Read, parsers: Parsers): (r: Loaded<PostMetadata>)
    ensures read.ReadFails? ==> r == Loaded(Err(ModelFault.IoFault(read.error)))
    ensures read.OpenFails? || read.Undecodable? <==> r.Escapes?
    ensures read.Readable? && parsers.loads(read.text).Err? ==>
              r == Loaded(Err(ModelFault.JsonDecodeFault(parsers.loads(read.text).error)))
    ensures read.Readable? && parsers.loads(read.text).Ok?
            && parsers.parseObj(parsers.loads(read.text).value).Err? ==>
              r == Loaded(Err(ModelFault.ValidationFault(parsers.parseObj(parsers.loads(read.text).value).error)))
    ensures r.Loaded? && r.result.Ok? ==>
              read.Readable? && parsers.loads(read.text).Ok?
              && parsers.parseObj(parsers.loads(read.text).value) == Ok(r.result.value)
  {
    match read
    case OpenFails(_) => Escapes
    case Undecodable => Escapes
    case ReadFails(e) => Loaded(Err(ModelFault.IoFault(e)))
    case Readable(raw) =>
      match parsers.loads(raw)
      case Err(e) => Loaded(Err(ModelFault.JsonDecodeFault(e)))
      case Ok(parsed) =>
        match parsers.parseObj(parsed)
        case Err(errors) => Loaded(Err(ModelFault.ValidationFault(errors)))
        case Ok(instance) => Loaded(Ok(instance))
  }
}
