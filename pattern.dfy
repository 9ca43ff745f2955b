/** The regular expressions of the blog. Only `VALID_MARKDOWN` is written out;
    the others are matchers supplied from outside, described by what the
    rest of the model reads from them. */
module Pattern {
  import opened Wrappers

  /** The read-time patterns. */
  datatype Regex = IMAGE | CODE_BLOCK | CAPTION | DEFAULT

  /** `VALID_MARKDOWN.match(line)` for `^#.*$` without `MULTILINE`, applied to
      the first line of a text: `.*` runs to the end of the line and `$`
      matches there, so only the leading `#` decides. */
  predicate ValidMarkdown(line: string) {
    |line| > 0 && line[0] == '#'
  }

  /** The matchers of the other patterns.
      - `finditer(p, s)`: the spans of the successive matches of `p` in `s`;
        `p.sub("", s)` deletes exactly these.
      - `rewriteAt(k, s)`: for each match of `IMAGE_REWRITE[k]`, the index in
        `s` where its second group (the image path) starts.
      - `imageHref(s)`: `IMAGE_HREF.findall(s)`, one pair of groups per match.
      - `heading(s)`: the span of the first match of `HEADING_PATTERN`. */
  datatype Matchers = Matchers(
    finditer: (Regex, string) -> seq<(int, int)>,
    rewriteAt: (nat, string) -> seq<int>,
    imageHref: string -> seq<(string, string)>,
    heading: string -> Option<(int, int)>)

  /** Lines starting with `#` are headings; any other first line is not. */
  lemma ValidMarkdownExamples()
    ensures ValidMarkdown("# Title") && ValidMarkdown("#")
    ensures !ValidMarkdown("") && !ValidMarkdown(" # Title")
  {
  }
}
