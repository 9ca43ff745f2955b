/** The helpers of the blog package: CDATA wrapping, `uncapitalize`, and the
    URL type whose `/` appends a path segment. */
module BlogUtil {
  import opened Text

  /** A URL as its origin and the path segments appended to it with `/`. */
  datatype Url = Url(origin: string, segments: seq<string>)

  /** `url / segment`: one more path segment, everything else kept. */
  function Div(u: Url, segment: string): (r: Url)
    ensures r.origin == u.origin
    ensures |r.segments| == |u.segments| + 1 && r.segments[..|u.segments|] == u.segments
    ensures r.segments[|u.segments|] == segment
  {
    Url(u.origin, u.segments + [segment])
  }

  /** The last path segment of a URL, `""` when there is none. */
  function LastSegment(u: Url): string {
    if u.segments == [] then "" else u.segments[|u.segments| - 1]
  }

  /** `str(url)`: the origin with each segment appended after a `/`. */
  function UrlString(u: Url): (r: string)
    ensures |r| >= |u.origin| && r[..|u.origin|] == u.origin
    decreases |u.segments|
  {
    if u.segments == [] then u.origin
    else UrlString(Url(u.origin, u.segments[..|u.segments| - 1])) + "/" + u.segments[|u.segments| - 1]
  }

  /** `html.escape` (with `quote=True`) of a single character. */
  function EscapeHtmlChar(c: char): string {
    if c == '&' then "&amp;"
    else if c == '<' then "&lt;"
    else if c == '>' then "&gt;"
    else if c == '"' then "&quot;"
    else if c == '\'' then "&#x27;"
    else [c]
  }

  /** `html.escape(s)`. */
  function EscapeHtml(s: string): string {
    if s == [] then [] else EscapeHtmlChar(s[0]) + EscapeHtml(s[1..])
  }

  const CDATA_START := "<![CDATA["
  const CDATA_END := "]]>"
  const ESCAPED_CDATA_END := EscapeHtml(CDATA_END)

  /** The escaped terminator is `]]&gt;`. */
  lemma EscapedCdataEnd()
    ensures ESCAPED_CDATA_END == "]]&gt;"
  {
    assert CDATA_END == [']'] + [']'] + ['>'];
    assert EscapeHtml("]]>") == "]" + EscapeHtml("]>");
    assert EscapeHtml("]>") == "]" + EscapeHtml(">");
    assert EscapeHtml(">") == "&gt;" + EscapeHtml("");
  }

  /** The CDATA terminator `]]>` starts at index `i` of `s`. */
  predicate TerminatorAt(s: string, i: int) {
    0 <= i && i + 3 <= |s| && s[i] == ']' && s[i + 1] == ']' && s[i + 2] == '>'
  }

  /** `text.replace(CDATA_END, ESCAPED_CDATA_END)`. */
  function EscapeTerminators(text: string): string {
    EscapedCdataEnd();
    Replace(text, CDATA_END, ESCAPED_CDATA_END)
  }

  /** Escaping never shortens the text and keeps its first two characters,
      because both `]]>` and `]]&gt;` begin with `]]`. */
  lemma {:induction false} EscapeKeepsHead(s: string)
    ensures |EscapeTerminators(s)| >= |s|
    ensures forall k :: 0 <= k < 2 && k < |s| ==> EscapeTerminators(s)[k] == s[k]
  {
    EscapedCdataEnd();
    if |s| >= 3 {
      if s[..3] == CDATA_END {
        EscapeKeepsHead(s[3..]);
        assert s[0] == ']' && s[1] == ']';
      } else {
        EscapeKeepsHead(s[1..]);
      }
    }
  }

  /** After escaping, the text holds no `]]>` anywhere. */
  lemma {:induction false} EscapedHasNoTerminator(s: string)
    ensures forall i :: !TerminatorAt(EscapeTerminators(s), i)
  {
    EscapedCdataEnd();
    var r := EscapeTerminators(s);
    if |s| < 3 {
      assert r == s;
    } else if s[..3] == CDATA_END {
      var t := EscapeTerminators(s[3..]);
      EscapedHasNoTerminator(s[3..]);
      assert r == "]]&gt;" + t;
      forall i ensures !TerminatorAt(r, i) {
        if i >= 6 && TerminatorAt(r, i) { assert TerminatorAt(t, i - 6); }
      }
    } else {
      var t := EscapeTerminators(s[1..]);
      EscapedHasNoTerminator(s[1..]);
      EscapeKeepsHead(s[1..]);
      assert t[0] == s[1..][0] == s[1] && t[1] == s[1..][1] == s[2];
      assert r == [s[0]] + t;
      forall i ensures !TerminatorAt(r, i) {
        if i >= 1 && TerminatorAt(r, i) {
          assert TerminatorAt(t, i - 1);
        } else if i == 0 && |r| >= 3 {
          assert r[0] == s[0] && r[1] == s[1] && r[2] == s[2];
          assert s[..3] == [s[0], s[1], s[2]];
        }
      }
    }
  }

  /** `encode_as_cdata(text)`: the text, with every `]]>` escaped, inside one
      CDATA section that ends exactly at the final terminator. */
  function EncodeAsCdata(text: string): (r: string)
    ensures |r| >= |CDATA_START| + |CDATA_END| && r[..|CDATA_START|] == CDATA_START
    ensures r[|r| - 3..] == CDATA_END && TerminatorAt(r, |r| - 3)
    ensures forall i :: 0 <= i < |r| - 3 ==> !TerminatorAt(r, i)
  {
    var body := EscapeTerminators(text);
    var r := CDATA_START + body + CDATA_END;
    EscapedHasNoTerminator(text);
    assert forall i :: 0 <= i < |r| - 3 ==> !TerminatorAt(r, i) by {
      forall i | 0 <= i < |r| - 3 ensures !TerminatorAt(r, i) {
        if i < 9 {
          assert r[i] == CDATA_START[i];
        } else if i + 3 <= 9 + |body| {
          assert r[i..i + 3] == body[i - 9..i - 6];
          assert !TerminatorAt(body, i - 9);
        } else {
          assert r[i + 2] == ']';
        }
      }
    }
    r
  }

  /** Text that holds no `]]>` is wrapped unchanged. */
  lemma EncodeAsCdataVerbatim(text: string)
    requires !Contains(text, CDATA_END)
    ensures EncodeAsCdata(text) == CDATA_START + text + CDATA_END
  {
    EscapedCdataEnd();
    ReplaceAbsent(text, CDATA_END, ESCAPED_CDATA_END);
  }

  /** `uncapitalize(text)`: the first character lower-cased, the rest and the
      length kept; `""` stays `""`. */
  function Uncapitalize(text: string): (r: string)
    ensures |r| == |text| && (text == [] ==> r == [])
    ensures text != [] ==> r[0] == LowerChar(text[0]) && r[1..] == text[1..]
  {
    if |text| > 0 then [LowerChar(text[0])] + text[1..] else text
  }

  /** Uncapitalizing twice is uncapitalizing once. */
  lemma UncapitalizeIdempotent(text: string)
    ensures Uncapitalize(Uncapitalize(text)) == Uncapitalize(text)
  {
    if text != [] {
      var u := Uncapitalize(text);
      assert LowerChar(u[0]) == u[0];
      assert Uncapitalize(u) == [u[0]] + u[1..];
    }
  }
}
