/** The faults shared by the post and model fault families: an I/O failure
    and a JSON decoding failure, each carrying the exception as its context. */
module FaultBase {
  import opened Wrappers
  import opened Text
  import opened BlogUtil

  /** The part of an `IOError` that descriptions read. */
  datatype IoError = IoError(filename: Option<string>)

  /** The parts of a `JSONDecodeError` that descriptions read. */
  datatype JsonDecodeError = JsonDecodeError(msg: string, lineno: int, colno: int, pos: int)

  /** The words every fault description built from an exception opens with. */
  const SHARED_OPENING := "error occurred while "
  const IO_PREFIX := SHARED_OPENING + "performing i/o"
  const FILE_OPEN := " (file: "
  const JSON_PREFIX := SHARED_OPENING + "decoding JSON"

  /** `CommonIoFault.description`. */
  function IoDescription(c: IoError): (r: string)
    ensures |r| >= |IO_PREFIX| && r[..|IO_PREFIX|] == IO_PREFIX
    ensures c.filename.None? <==> r == IO_PREFIX
  {
    var additional := if c.filename.Some? then FILE_OPEN + c.filename.value + ")" else "";
    IO_PREFIX + additional
  }

  /** Reads the filename back out of an I/O description. */
  function FilenameOf(description: string): Option<string> {
    if |description| < |IO_PREFIX| + |FILE_OPEN| + 1 then None
    else Some(description[|IO_PREFIX| + |FILE_OPEN|..|description| - 1])
  }

  /** The I/O description keeps the filename recoverable: it appears exactly
      when the error has one. */
  lemma IoDescriptionRoundTrip(c: IoError)
    ensures FilenameOf(IoDescription(c)) == c.filename
  {
    var r := IoDescription(c);
    if c.filename.Some? {
      assert r == IO_PREFIX + FILE_OPEN + c.filename.value + ")";
      assert r[|IO_PREFIX| + |FILE_OPEN|..|r| - 1] == c.filename.value;
    }
  }

  /** The position part of a JSON decoding description: line, column and
      character offset, in parentheses. */
  function JsonPosition(c: JsonDecodeError): (r: string)
    ensures |r| > 8 && r[..8] == " (line: " && r[|r| - 1] == ')'
  {
    " (line: " + IntToString(c.lineno) + ", column: " + IntToString(c.colno)
      + ", char: " + IntToString(c.pos) + ")"
  }

  /** The position after a text, piece by piece. */
  lemma PositionPieces(p: string, c: JsonDecodeError)
    ensures p + JsonPosition(c)
            == p + " (line: " + IntToString(c.lineno) + ", column: " + IntToString(c.colno)
               + ", char: " + IntToString(c.pos) + ")"
    ensures p + " (line: " + IntToString(c.lineno) + ", column: " + IntToString(c.colno)
            == p + " (line: " + IntToString(c.lineno) + ", column: " + IntToString(c.colno) + []
    ensures p + " (line: " + IntToString(c.lineno) == p + " (line: " + IntToString(c.lineno) + []
  {
    Regroup7(p, " (line: ", IntToString(c.lineno), ", column: ", IntToString(c.colno), ", char: ",
             IntToString(c.pos), ")");
  }

  lemma Regroup7(p: string, a: string, b: string, c: string, d: string, e: string, f: string, g: string)
    ensures p + (a + b + c + d + e + f + g) == p + a + b + c + d + e + f + g
  {
  }

  /** The three numbers can be read back from the end of any text that
      ends in a position: equal texts have equal numbers and agree on what
      precedes the position. */
  lemma JsonPositionInjective(pa: string, a: JsonDecodeError, pb: string, b: JsonDecodeError)
    requires pa + JsonPosition(a) == pb + JsonPosition(b)
    ensures pa == pb && a.lineno == b.lineno && a.colno == b.colno && a.pos == b.pos
  {
    var la, ca, za := IntToString(a.lineno), IntToString(a.colno), IntToString(a.pos);
    var lb, cb, zb := IntToString(b.lineno), IntToString(b.colno), IntToString(b.pos);
    PositionPieces(pa, a);
    PositionPieces(pb, b);
    PeelNumeral(pa + " (line: " + la + ", column: " + ca, ", char: ", za,
                pb + " (line: " + lb + ", column: " + cb, zb, ")");
    PeelNumeral(pa + " (line: " + la, ", column: ", ca, pb + " (line: " + lb, cb, []);
    PeelNumeral(pa, " (line: ", la, pb, lb, []);
    IntToStringInjective(a.lineno, b.lineno);
    IntToStringInjective(a.colno, b.colno);
    IntToStringInjective(a.pos, b.pos);
  }

  /** `CommonJsonDecodeFault.description`: the fixed prefix, then `: `, then
      the message with its first letter lowered, then the position. */
  function JsonDescription(c: JsonDecodeError): (r: string)
    ensures |r| > |JSON_PREFIX| + 2 + |c.msg|
    ensures r[..|JSON_PREFIX| + 2] == JSON_PREFIX + ": "
    ensures r[|JSON_PREFIX| + 2..|JSON_PREFIX| + 2 + |c.msg|] == Uncapitalize(c.msg)
    ensures r[|JSON_PREFIX| + 2 + |c.msg|..] == JsonPosition(c)
  {
    var head := JSON_PREFIX + ": ";
    var u := Uncapitalize(c.msg);
    var tail := JsonPosition(c);
    var r := head + u + tail;
    ConcatPieces(head, u, tail);
    r
  }

  /** Equal JSON descriptions come from the same message (up to its first
      letter's case) at the same line, column and character. */
  lemma JsonDescriptionInjective(a: JsonDecodeError, b: JsonDecodeError)
    requires JsonDescription(a) == JsonDescription(b)
    ensures Uncapitalize(a.msg) == Uncapitalize(b.msg)
    ensures a.lineno == b.lineno && a.colno == b.colno && a.pos == b.pos
  {
    var head := JSON_PREFIX + ": ";
    var ua, ub := Uncapitalize(a.msg), Uncapitalize(b.msg);
    assert JsonDescription(a) == (head + ua) + JsonPosition(a);
    assert JsonDescription(b) == (head + ub) + JsonPosition(b);
    JsonPositionInjective(head + ua, a, head + ub, b);
    assert ua == (head + ua)[|head|..];
    assert ub == (head + ub)[|head|..];
  }
}
