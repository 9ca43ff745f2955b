/** Faults a post reports when it fails validation. */
module PostFault {
  import opened Text
  import Fs
  import FaultBase
  import ModelFault

  datatype Fault =
    | PathFault(path: Fs.Path)
    | IoFault(io: FaultBase.IoError)
    | MissingHeadingFault
    | MetadataMissingFault(path: Fs.Path)
    | MetadataFault(fault: ModelFault.Fault)

  const PATH_PREFIX := "path to post does not exist ("
  const MISSING_HEADING := "post has no heading"
  const METADATA_MISSING_PREFIX := "post metadata does not exist (expected at "

  /** `Fault.description` for each kind of post fault. The fixed message of
      a missing heading is not the description of any other fault, and the
      wrapped faults keep the shared opening of the model faults. */
  function Description(f: Fault): (r: string)
    ensures r == MISSING_HEADING <==> f.MissingHeadingFault?
    ensures f.IoFault? || f.MetadataFault? ==>
              |r| > |FaultBase.SHARED_OPENING| && r[..|FaultBase.SHARED_OPENING|] == FaultBase.SHARED_OPENING
  {
    match f
    case PathFault(path) =>
      var d := PATH_PREFIX + Fs.PathString(path) + ")";
      ModelFault.PrefixAt(d, PATH_PREFIX, 1);
      d
    case IoFault(io) =>
      var d := FaultBase.IoDescription(io);
      ModelFault.PrefixOfPrefix(d, FaultBase.SHARED_OPENING, "performing i/o");
      ModelFault.PrefixAt(d, FaultBase.SHARED_OPENING, 0);
      d
    case MissingHeadingFault => MISSING_HEADING
    case MetadataMissingFault(path) =>
      var d := METADATA_MISSING_PREFIX + Fs.PathString(path) + ")";
      ModelFault.PrefixAt(d, METADATA_MISSING_PREFIX, 5);
      d
    case MetadataFault(fault) =>
      var d := ModelFault.Description(fault);
      ModelFault.PrefixAt(d, FaultBase.SHARED_OPENING, 0);
      d
  }

  /** `MetadataFault.into()`: the wrapped model fault. */
  function Into(f: Fault): (r: ModelFault.Fault)
    requires f.MetadataFault?
    ensures Description(f) == ModelFault.Description(r)
  {
    f.fault
  }

  /** The path in a path or missing-metadata description reads back out of it. */
  lemma PathRoundTrip(f: Fault)
    requires f.PathFault? || f.MetadataMissingFault?
    ensures var d := Description(f);
            var n := if f.PathFault? then |PATH_PREFIX| else |METADATA_MISSING_PREFIX|;
            n < |d| && d[n..|d| - 1] == Fs.PathString(f.path) && d[|d| - 1] == ')'
  {
    var d := Description(f);
    var p := Fs.PathString(f.path);
    if f.PathFault? {
      assert d == PATH_PREFIX + p + ")";
      assert d[|PATH_PREFIX|..|d| - 1] == p;
    } else {
      assert d == METADATA_MISSING_PREFIX + p + ")";
      assert d[|METADATA_MISSING_PREFIX|..|d| - 1] == p;
    }
  }

  /** A post's own I/O fault and a metadata fault wrapping a model I/O fault
      describe the same error identically. */
  lemma IoDescriptionsCoincide(e: FaultBase.IoError)
    ensures Description(IoFault(e)) == Description(MetadataFault(ModelFault.IoFault(e)))
    ensures IoFault(e) != MetadataFault(ModelFault.IoFault(e))
  {
  }

  /** Wrapping a model fault and taking it out again gives it back. */
  lemma IntoWrap(m: ModelFault.Fault)
    ensures Into(MetadataFault(m)) == m
  {
  }
}
