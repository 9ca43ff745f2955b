/** Faults raised while building a model from JSON: I/O, JSON decoding, and
    model validation, whose description lists every validation error. */
module ModelFault {
  import opened Wrappers
  import opened Text
  import FaultBase

  /** One element of a `loc` tuple: a field name or a list index. */
  datatype LocItem = Field(name: string) | Index(i: int)

  /** One error dictionary of a `ValidationError`; each key may be absent. */
  datatype ErrorEntry = ErrorEntry(msg: Option<string>, kind: Option<string>, loc: Option<seq<LocItem>>)

  datatype Fault =
    | IoFault(io: FaultBase.IoError)
    | JsonDecodeFault(json: FaultBase.JsonDecodeError)
    | ValidationFault(errors: seq<ErrorEntry>)

  const VALIDATION_PREFIX := FaultBase.SHARED_OPENING + "validating model input"

  /** An f-string rendering of a `loc` element. */
  function LocItemString(l: LocItem): string {
    match l
    case Field(name) => name
    case Index(i) => IntToString(i)
  }

  function MsgPart(e: ErrorEntry): string {
    if e.msg.Some? then e.msg.value else ""
  }

  function TypePart(e: ErrorEntry): string {
    if e.kind.Some? then "(type=" + e.kind.value + ")" else ""
  }

  /** Only the first element of a non-empty `loc` is shown. */
  function LocPart(e: ErrorEntry): string {
    if e.loc.Some? && |e.loc.value| > 0 then "(loc=" + LocItemString(e.loc.value[0]) + ")" else ""
  }

  /** `a + (b + c + d)` written left to right. */
  lemma Regroup(a: string, b: string, c: string, d: string)
    ensures a + (b + c + d) == a + b + c + d
  {
  }

  /** One rendered error: message, type and location joined by single
      spaces, empty parts included, so there are always two separators. */
  function RenderError(e: ErrorEntry): (r: string)
    ensures r == MsgPart(e) + " " + TypePart(e) + " " + LocPart(e)
    ensures |r| == |MsgPart(e)| + |TypePart(e)| + |LocPart(e)| + 2
  {
    var a, b, c := MsgPart(e), TypePart(e), LocPart(e);
    var parts := [a, b, c];
    assert parts[1..] == [b, c] && [b, c][1..] == [c];
    assert Join(" ", [b, c]) == b + " " + c;
    Regroup(a + " ", b, " ", c);
    Join(" ", parts)
  }

  /** Each error rendered, in order. */
  function Rendered(errors: seq<ErrorEntry>): (r: seq<string>)
    ensures |r| == |errors| && forall i :: 0 <= i < |errors| ==> r[i] == RenderError(errors[i])
  {
    seq(|errors|, i requires 0 <= i < |errors| => RenderError(errors[i]))
  }

  /** `ValidationFault.description`. */
  function ValidationDescription(errors: seq<ErrorEntry>): (r: string)
    ensures |r| >= |VALIDATION_PREFIX| && r[..|VALIDATION_PREFIX|] == VALIDATION_PREFIX
    ensures errors == [] <==> r == VALIDATION_PREFIX
  {
    var rendered := Rendered(errors);
    VALIDATION_PREFIX + (if |rendered| > 0 then " (" + Join(", ", rendered) + ")" else "")
  }

  /** Appending to the last piece is appending after all of them. */
  lemma RegroupTail(a: string, b: string, j: string, sep: string, x: string)
    ensures a + b + (j + sep + x) + ")" == a + b + j + sep + x + ")"
  {
  }

  /** A further error follows the others after `", "`, inside the same
      parentheses: the errors are listed in order. */
  lemma ValidationDescriptionAppend(errors: seq<ErrorEntry>, e: ErrorEntry)
    requires errors != []
    ensures var d := ValidationDescription(errors);
            |d| > 0 && ValidationDescription(errors + [e]) == d[..|d| - 1] + ", " + RenderError(e) + ")"
  {
    var rendered := Rendered(errors);
    assert Rendered(errors + [e]) == rendered + [RenderError(e)];
    JoinAppend(", ", rendered, RenderError(e));
    var j := Join(", ", rendered);
    var d := ValidationDescription(errors);
    var head := VALIDATION_PREFIX + " (" + j;
    Regroup(VALIDATION_PREFIX, " (", j, ")");
    assert d[..|d| - 1] == head by {
      assert d == head + ")";
    }
    Regroup(VALIDATION_PREFIX, " (", j + ", " + RenderError(e), ")");
    RegroupTail(VALIDATION_PREFIX, " (", j, ", ", RenderError(e));
  }

  /** `Fault.description` for each kind of model fault; whatever the kind,
      it opens with the shared words. */
  function Description(f: Fault): (r: string)
    ensures |r| > |FaultBase.SHARED_OPENING| && r[..|FaultBase.SHARED_OPENING|] == FaultBase.SHARED_OPENING
  {
    match f
    case IoFault(io) =>
      var d := FaultBase.IoDescription(io);
      PrefixOfPrefix(d, FaultBase.SHARED_OPENING, "performing i/o");
      d
    case JsonDecodeFault(json) =>
      var d := FaultBase.JsonDescription(json);
      JsonMarked(json);
      PrefixOfPrefix(d, FaultBase.SHARED_OPENING, "decoding JSON");
      d
    case ValidationFault(errors) =>
      var d := ValidationDescription(errors);
      PrefixOfPrefix(d, FaultBase.SHARED_OPENING, "validating model input");
      d
  }

  /** A single validation error is rendered inside one pair of parentheses
      after the fixed prefix. */
  lemma SingleValidationError(e: ErrorEntry)
    ensures Description(ValidationFault([e])) == VALIDATION_PREFIX + " (" + RenderError(e) + ")"
  {
    var rendered := Rendered([e]);
    assert rendered == [RenderError(e)];
    assert Join(", ", rendered) == RenderError(e);
    assert Description(ValidationFault([e])) == ValidationDescription([e]);
  }

  /** An error with none of its keys still contributes two spaces. */
  lemma EmptyErrorRendersSpaces()
    ensures RenderError(ErrorEntry(None, None, None)) == "  "
    ensures RenderError(ErrorEntry(None, None, Some([]))) == "  "
  {
  }

  /** The rendering depends on the first `loc` element only. */
  lemma OnlyFirstLocShown(e: ErrorEntry, rest: seq<LocItem>)
    requires e.loc.Some? && |e.loc.value| > 0
    ensures RenderError(e.(loc := Some([e.loc.value[0]] + rest))) == RenderError(e)
  {
  }

  /** A character inside a known prefix is the prefix's own. */
  lemma PrefixAt(d: string, p: string, k: nat)
    requires |p| <= |d| && d[..|p|] == p && k < |p|
    ensures d[k] == p[k]
  {
    assert d[k] == d[..|p|][k];
  }

  /** A string that starts with `p + q` starts with `p`. */
  lemma PrefixOfPrefix(d: string, p: string, q: string)
    requires |p| + |q| <= |d| && d[..|p| + |q|] == p + q
    ensures d[..|p|] == p
  {
    assert d[..|p|] == d[..|p| + |q|][..|p|];
  }

  /** The character right after the shared opening (index 21) marks the
      kind of fault: `p` for I/O, `d` for decoding, `v` for validation. */
  lemma IoMarked(io: FaultBase.IoError)
    ensures FaultBase.IoDescription(io)[21] == 'p'
  {
    PrefixAt(FaultBase.IoDescription(io), FaultBase.IO_PREFIX, 21);
  }

  lemma JsonMarked(json: FaultBase.JsonDecodeError)
    ensures FaultBase.JsonDescription(json)[..|FaultBase.JSON_PREFIX|] == FaultBase.JSON_PREFIX
    ensures FaultBase.JsonDescription(json)[21] == 'd'
  {
    var d := FaultBase.JsonDescription(json);
    PrefixOfPrefix(d, FaultBase.JSON_PREFIX, ": ");
    PrefixAt(d, FaultBase.JSON_PREFIX, 21);
  }

  lemma ValidationMarked(errors: seq<ErrorEntry>)
    ensures ValidationDescription(errors)[21] == 'v'
  {
    PrefixAt(ValidationDescription(errors), VALIDATION_PREFIX, 21);
  }

  /** The three kinds of model fault have pairwise different descriptions
      in their leading text. */
  lemma KindsDistinguishable(f: Fault)
    ensures f.IoFault? ==> Description(f)[..|FaultBase.IO_PREFIX|] == FaultBase.IO_PREFIX
    ensures f.JsonDecodeFault? ==> Description(f)[..|FaultBase.JSON_PREFIX|] == FaultBase.JSON_PREFIX
    ensures f.ValidationFault? ==> Description(f)[..|VALIDATION_PREFIX|] == VALIDATION_PREFIX
    ensures Description(f)[21] == (if f.IoFault? then 'p' else if f.JsonDecodeFault? then 'd' else 'v')
  {
    match f
    case IoFault(io) => IoMarked(io);
    case JsonDecodeFault(json) => JsonMarked(json);
    case ValidationFault(errors) => ValidationMarked(errors);
  }
}
