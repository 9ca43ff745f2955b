/** A blog post on disk: checking a post directory (`Post.valid`), building
    the post from what the check read (`Post.new`), and rendering it with its
    image paths rewritten under the post's static URL. */
module Container {
  import opened Wrappers
  import opened Text
  import opened BlogUtil
  import opened Pattern
  import Fs
  import FaultBase
  import PostFault
  import Metadata
  import ReadTime
  import BlogTime

  const BLOG_TEXT := "text.md"
  const BLOG_METADATA := "metadata.json"
  const CONTENT_FOLDER := "content"

  /** `Image`: where an image of the post is served. */
  datatype Image = Image(url: Url)

  /** `Post._ValidSentinel`: what a successful check read from disk. */
  datatype ValidSentinel = ValidSentinel(path: Fs.Path, content: string, metadata: Metadata.PostMetadata)

  /** `Post._RenderedPost`: the HTML and the images in the order they appear. */
  datatype RenderedPost = RenderedPost(html: string, images: seq<Image>)

  /** `Post`. */
  datatype Post = Post(name: string, title: string, content: string,
                       metadata: Metadata.PostMetadata, readTime: ReadTime.ReadTime)

  /** What `Post.valid` does: return a result, or raise an exception it
      does not catch. */
  datatype Checked = Checked(result: Result<ValidSentinel, PostFault.Fault>) | Raises

  /** The text file of a post directory. */
  function TextPath(path: Fs.Path): Fs.Path {
    Fs.Child(path, BLOG_TEXT)
  }

  /** The metadata file of a post directory. */
  function MetadataPath(path: Fs.Path): Fs.Path {
    Fs.Child(path, BLOG_METADATA)
  }

  /** The text file exists and reads; its text. */
  predicate TextReads(fs: Fs.FileSystem, path: Fs.Path) {
    TextPath(path) in fs && fs[TextPath(path)].File? && fs[TextPath(path)].read.Readable?
  }

  /** `Post.valid(path)`. The checks run in order, and the first that fails
      decides: the text file must exist, open and read (an I/O error is
      reported with it; opening a directory is one, naming the path), its
      first line must be a heading, the metadata file must exist, and it
      must load. Opening the metadata file happens outside any handler, so
      a failure to open it escapes, as does text that fails to decode. */
  function Valid(fs: Fs.FileSystem, path: Fs.Path, parsers: Metadata.Parsers): (r: Checked)
    ensures TextPath(path) !in fs ==> r == Checked(Err(PostFault.PathFault(TextPath(path))))
    ensures TextPath(path) in fs && fs[TextPath(path)].Dir? ==>
              r == Checked(Err(PostFault.IoFault(FaultBase.IoError(Some(Fs.PathString(TextPath(path)))))))
    ensures TextPath(path) in fs && fs[TextPath(path)].File?
            && (fs[TextPath(path)].read.OpenFails? || fs[TextPath(path)].read.ReadFails?) ==>
              r == Checked(Err(PostFault.IoFault(fs[TextPath(path)].read.error)))
    ensures TextReads(fs, path) && !ValidMarkdown(FirstLine(fs[TextPath(path)].read.text)) ==>
              r == Checked(Err(PostFault.MissingHeadingFault))
    ensures TextReads(fs, path) && ValidMarkdown(FirstLine(fs[TextPath(path)].read.text))
            && MetadataPath(path) !in fs ==>
              r == Checked(Err(PostFault.MetadataMissingFault(MetadataPath(path))))
    ensures r.Raises? <==>
              (TextPath(path) in fs && fs[TextPath(path)] == Fs.File(Fs.Undecodable))
              || (TextReads(fs, path) && ValidMarkdown(FirstLine(fs[TextPath(path)].read.text))
                  && MetadataPath(path) in fs
                  && (fs[MetadataPath(path)].Dir? || Metadata.New(fs[MetadataPath(path)].read, parsers).Escapes?))
    ensures r.Checked? && r.result.Ok? ==>
              && TextReads(fs, path)
              && r.result.value.path == path
              && r.result.value.content == fs[TextPath(path)].read.text
              && ValidMarkdown(FirstLine(r.result.value.content))
              && MetadataPath(path) in fs && fs[MetadataPath(path)].File?
              && Metadata.New(fs[MetadataPath(path)].read, parsers) == Metadata.Loaded(Ok(r.result.value.metadata))
    ensures r.Checked? && r.result.Err? && r.result.error.MetadataFault? ==>
              MetadataPath(path) in fs && fs[MetadataPath(path)].File?
              && Metadata.New(fs[MetadataPath(path)].read, parsers) == Metadata.Loaded(Err(r.result.error.fault))
    ensures TextReads(fs, path) && ValidMarkdown(FirstLine(fs[TextPath(path)].read.text))
            && MetadataPath(path) in fs && fs[MetadataPath(path)].File? ==>
              match Metadata.New(fs[MetadataPath(path)].read, parsers)
              case Loaded(Ok(m)) => r == Checked(Ok(ValidSentinel(path, fs[TextPath(path)].read.text, m)))
              case Loaded(Err(f)) => r == Checked(Err(PostFault.MetadataFault(f)))
              case Escapes => r == Raises
  {
    var textPath := TextPath(path);
    var metadataPath := MetadataPath(path);
    if textPath !in fs then Checked(Err(PostFault.PathFault(textPath)))
    else
      match fs[textPath]
      case Dir => Checked(Err(PostFault.IoFault(FaultBase.IoError(Some(Fs.PathString(textPath))))))
      case File(read) =>
        match read
        case OpenFails(e) => Checked(Err(PostFault.IoFault(e)))
        case ReadFails(e) => Checked(Err(PostFault.IoFault(e)))
        case Undecodable => Raises
        case Readable(content) =>
          if !ValidMarkdown(FirstLine(content)) then Checked(Err(PostFault.MissingHeadingFault))
          else if metadataPath !in fs then Checked(Err(PostFault.MetadataMissingFault(metadataPath)))
          else
            match fs[metadataPath]
            case Dir => Raises
            case File(metadataRead) =>
              match Metadata.New(metadataRead, parsers)
              case Escapes => Raises
              case Loaded(Err(fault)) => Checked(Err(PostFault.MetadataFault(fault)))
              case Loaded(Ok(metadata)) => Checked(Ok(ValidSentinel(path, content, metadata)))
  }

  /** The title of a heading line: its leading `#`s dropped, then stripped
      of surrounding whitespace. It is a piece of the line. */
  function HeadingTitle(line: string): (r: string)
    ensures Contains(line, r)
  {
    var bare := LStripChar(line, '#');
    var r := Strip(bare);
    StripOccurs(bare);
    LStripCharOccurs(line, '#');
    OccursWithin(line, bare, r, |line| - |bare|, |bare| - |LStripSpace(bare)|);
    r
  }

  /** The title has no whitespace at either end. */
  lemma TitleTrimmed(line: string)
    ensures var r := HeadingTitle(line);
            r == [] || (!IsSpace(r[0]) && !IsSpace(r[|r| - 1]))
  {
    var bare := LStripChar(line, '#');
    assert HeadingTitle(line) == Strip(bare);
    StripTrimmed(bare);
  }

  /** The title of a post: that of its first line. */
  function Title(content: string): (r: string)
    ensures Contains(FirstLine(content), r)
  {
    HeadingTitle(FirstLine(content))
  }

  /** The title is a single line. */
  lemma TitleOneLine(content: string)
    ensures '\n' !in Title(content)
  {
    var r := Title(content);
    var line := FirstLine(content);
    var i :| 0 <= i <= |line| && OccursAt(line, r, i);
    AbsentFromPiece(line, r, i, '\n');
  }

  /** A heading written as `#`s, spaces and a title reads back as that title. */
  lemma {:induction false} TitleOfHeading(hashes: nat, spaces: nat, title: string, rest: string)
    requires hashes >= 1
    requires title != [] && title[0] != '#' && !IsSpace(title[0]) && !IsSpace(title[|title| - 1])
    requires '\n' !in title
    ensures Title(seq(hashes, _ => '#') + seq(spaces, _ => ' ') + title + "\n" + rest) == title
  {
    var hs: string := seq(hashes, _ => '#');
    var sp: string := seq(spaces, _ => ' ');
    var afterHashes := sp + title;
    var line := hs + afterHashes;
    var content := line + "\n" + rest;
    assert hs + sp + title + "\n" + rest == content;
    FirstLineOf(line, rest);
    assert afterHashes[0] != '#' by {
      if spaces > 0 { assert afterHashes[0] == sp[0]; } else { assert afterHashes == title; }
    }
    LStripCharOf(hs, afterHashes, '#');
    LStripSpaceOf(sp, title);
    RStripSpaceOf(title);
    assert Title(content) == Strip(afterHashes);
  }

  /** The first line of a line followed by a newline is that line. */
  lemma {:induction false} FirstLineOf(line: string, rest: string)
    requires '\n' !in line
    ensures FirstLine(line + "\n" + rest) == line
  {
    if line != [] {
      assert (line + "\n" + rest)[1..] == line[1..] + "\n" + rest;
      FirstLineOf(line[1..], rest);
    }
  }

  /** `lstrip(c)` drops a run of `c` and stops at anything else. */
  lemma {:induction false} LStripCharOf(run: string, s: string, c: char)
    requires forall i :: 0 <= i < |run| ==> run[i] == c
    requires s == [] || s[0] != c
    ensures LStripChar(run + s, c) == s
  {
    if run != [] {
      assert (run + s)[1..] == run[1..] + s;
      LStripCharOf(run[1..], s, c);
    }
  }

  /** `lstrip()` drops a run of spaces and stops at anything else. */
  lemma {:induction false} LStripSpaceOf(run: string, s: string)
    requires forall i :: 0 <= i < |run| ==> run[i] == ' '
    requires s == [] || !IsSpace(s[0])
    ensures LStripSpace(run + s) == s
  {
    if run != [] {
      assert (run + s)[1..] == run[1..] + s;
      LStripSpaceOf(run[1..], s);
    }
  }

  /** `rstrip()` leaves text that ends in a non-space alone. */
  lemma RStripSpaceOf(s: string)
    requires s != [] && !IsSpace(s[|s| - 1])
    ensures RStripSpace(s) == s
  {
  }

  /** `Post.new(validated)`: the directory name, the title, the content and
      metadata as read, and the read time of the rendered content under the
      metadata's hint. A read time of a day or more raises `ValueError`,
      which `new` does not catch. */
  function New(validated: ValidSentinel, markdown: string -> string, strip: (string, seq<string>) -> string,
               finditer: (Regex, string) -> seq<(int, int)>): (r: Result<Post, BlogTime.TimeError>)
    ensures var hint := ReadTime.Hint(Metadata.HintTags(validated.metadata.readTimeHint));
            var readTime := ReadTime.Of(markdown(validated.content), hint, strip, finditer);
            && (r.Ok? <==> readTime.Ok?)
            && (r.Ok? ==> r.value == Post(Fs.Name(validated.path), Title(validated.content), validated.content,
                                          validated.metadata, readTime.value))
  {
    var hint := ReadTime.Hint(Metadata.HintTags(validated.metadata.readTimeHint));
    match ReadTime.Of(markdown(validated.content), hint, strip, finditer)
    case Err(e) => Err(e)
    case Ok(readTime) =>
      Ok(Post(Fs.Name(validated.path), Title(validated.content), validated.content, validated.metadata, readTime))
  }

  /** A post built from a checked directory is named after the directory
      and has the content that was read from its text file. */
  lemma NewFromValid(fs: Fs.FileSystem, path: Fs.Path, parsers: Metadata.Parsers, markdown: string -> string,
                     strip: (string, seq<string>) -> string, finditer: (Regex, string) -> seq<(int, int)>)
    requires Valid(fs, path, parsers).Checked? && Valid(fs, path, parsers).result.Ok?
    requires New(Valid(fs, path, parsers).result.value, markdown, strip, finditer).Ok?
    ensures var post := New(Valid(fs, path, parsers).result.value, markdown, strip, finditer).value;
            && post.name == Fs.Name(path)
            && post.content == fs[TextPath(path)].read.text
            && post.content != [] && post.content[0] == '#'
  {
  }

  /** `s` with `ins` put in front of each of `positions`, taken in order;
      a position outside the text is moved to its nearer end. */
  function InsertAt(s: string, positions: seq<int>, ins: string): (r: string)
    ensures |r| == |s| + |positions| * |ins|
    decreases |positions|
  {
    if positions == [] then s
    else
      var p := Clamp(positions[|positions| - 1], |s|);
      var front := InsertAt(s[..p], positions[..|positions| - 1], ins);
      assert |front| + |ins| == p + |positions| * |ins|;
      front + ins + s[p..]
  }

  /** `p` moved into `0..n`. */
  function Clamp(p: int, n: nat): (r: nat)
    ensures r <= n && (0 <= p <= n ==> r == p)
  {
    if p < 0 then 0 else if p > n then n else p
  }

  /** The inverse of `InsertAt`: the copy of `ins` each position received,
      found where the earlier insertions shifted it, is taken out again. */
  function EraseAt(r: string, positions: seq<int>, ins: string): string
    decreases |positions|
  {
    if positions == [] then r
    else
      var q := Clamp(positions[|positions| - 1] + (|positions| - 1) * |ins|, |r|);
      var e := Clamp(q + |ins|, |r|);
      EraseAt(r[..q], positions[..|positions| - 1], ins) + r[e..]
  }

  /** Positions in increasing order inside a text of length `n`. */
  predicate Ascending(positions: seq<int>, n: int) {
    (forall i :: 0 <= i < |positions| ==> 0 <= positions[i] <= n)
    && (forall i, j :: 0 <= i < j < |positions| ==> positions[i] <= positions[j])
  }

  /** Taking the inserted copies out again gives back the text. */
  lemma {:induction false} EraseInsert(s: string, positions: seq<int>, ins: string)
    requires Ascending(positions, |s|)
    ensures EraseAt(InsertAt(s, positions, ins), positions, ins) == s
    decreases |positions|
  {
    if positions != [] {
      var n := |positions| - 1;
      var p := positions[n];
      var front := InsertAt(s[..p], positions[..n], ins);
      var r := InsertAt(s, positions, ins);
      assert r == front + ins + s[p..];
      assert |front| == p + n * |ins|;
      assert r[..|front|] == front;
      assert r[|front| + |ins|..] == s[p..];
      EraseInsert(s[..p], positions[..n], ins);
      assert s[..p] + s[p..] == s;
    }
  }

  /** The text `rewrite_images` puts before an image path: the post's
      static URL and a `/`. */
  function ImagePrefix(base: Url): string {
    UrlString(base) + "/"
  }

  /** The text after the first `n` rewrite patterns ran, each on the output
      of the one before. */
  function Rewritten(content: string, base: Url, rewriteAt: (nat, string) -> seq<int>, n: nat): string {
    if n == 0 then content
    else
      var before := Rewritten(content, base, rewriteAt, n - 1);
      InsertAt(before, rewriteAt(n - 1, before), ImagePrefix(base))
  }

  /** `Post.rewrite_images`: each of the two `IMAGE_REWRITE` patterns in
      turn puts the static URL in front of the image paths it matches. */
  method RewriteImages(content: string, base: Url, rewriteAt: (nat, string) -> seq<int>) returns (r: string)
    ensures r == Rewritten(content, base, rewriteAt, 2)
  {
    r := content;
    var k := 0;
    while k < 2
      invariant 0 <= k <= 2 && r == Rewritten(content, base, rewriteAt, k)
    {
      r := InsertAt(r, rewriteAt(k, r), ImagePrefix(base));
      k := k + 1;
    }
  }

  /** When both patterns find their matches in order, rewriting can be
      undone: erasing the second pattern's insertions and then the first's
      gives back the content. */
  lemma RewriteUndone(content: string, base: Url, rewriteAt: (nat, string) -> seq<int>)
    requires Ascending(rewriteAt(0, content), |content|)
    requires Ascending(rewriteAt(1, Rewritten(content, base, rewriteAt, 1)), |Rewritten(content, base, rewriteAt, 1)|)
    ensures var once := Rewritten(content, base, rewriteAt, 1);
            var twice := Rewritten(content, base, rewriteAt, 2);
            EraseAt(EraseAt(twice, rewriteAt(1, once), ImagePrefix(base)), rewriteAt(0, content), ImagePrefix(base))
            == content
  {
    var once := Rewritten(content, base, rewriteAt, 1);
    EraseInsert(once, rewriteAt(1, once), ImagePrefix(base));
    EraseInsert(content, rewriteAt(0, content), ImagePrefix(base));
  }

  /** `Post.find_images`: one image per `IMAGE_HREF` match, at the
      Markdown path when that group matched and at the HTML path otherwise. */
  function FindImages(content: string, base: Url, imageHref: string -> seq<(string, string)>): (r: seq<Image>)
    ensures var hrefs := imageHref(content);
            && |r| == |hrefs|
            && forall i :: 0 <= i < |r| ==>
                 && r[i].url.origin == base.origin
                 && r[i].url.segments == base.segments + [if hrefs[i].0 != "" then hrefs[i].0 else hrefs[i].1]
  {
    var hrefs := imageHref(content);
    seq(|hrefs|, i requires 0 <= i < |hrefs| => Image(Div(base, if hrefs[i].0 != "" then hrefs[i].0 else hrefs[i].1)))
  }

  /** `Post.strip_heading`: the first heading match is deleted, and nothing
      else; without a match the text is unchanged. */
  function StripHeading(content: string, heading: string -> Option<(int, int)>): (r: string)
    ensures heading(content).None? ==> r == content
    ensures heading(content).Some? ==>
              var i := Clamp(heading(content).value.0, |content|);
              var j := Clamp(heading(content).value.1, |content|);
              i <= j ==> r == content[..i] + content[j..] && |r| == |content| - (j - i)
  {
    match heading(content)
    case None => content
    case Some((start, end)) =>
      var i := Clamp(start, |content|);
      var j := Clamp(end, |content|);
      if i <= j then content[..i] + content[j..] else content
  }

  /** The static URL of a post's own files: `<base>/<name>/content`. */
  function PostStaticUrl(base: Url, name: string): (r: Url)
    ensures r.origin == base.origin && r.segments == base.segments + [name, CONTENT_FOLDER]
  {
    Div(Div(base, name), CONTENT_FOLDER)
  }

  /** `Post.render`: images found in the original content, image paths
      rewritten under the post's static URL, the heading dropped unless
      asked for, then rendered by `markdown`. */
  method Render(post: Post, baseStatic: Url, includeHeading: bool, matchers: Matchers, markdown: string -> string)
    returns (r: RenderedPost)
    ensures var base := PostStaticUrl(baseStatic, post.name);
            var rewritten := Rewritten(post.content, base, matchers.rewriteAt, 2);
            && r.images == FindImages(post.content, base, matchers.imageHref)
            && r.html == markdown(if includeHeading then rewritten else StripHeading(rewritten, matchers.heading))
  {
    var base := PostStaticUrl(baseStatic, post.name);
    var images := FindImages(post.content, base, matchers.imageHref);
    var modified := RewriteImages(post.content, base, matchers.rewriteAt);
    if !includeHeading {
      modified := StripHeading(modified, matchers.heading);
    }
    r := RenderedPost(markdown(modified), images);
  }

  /** `Post.link(base)`: the base URL with the post's name appended. */
  function Link(post: Post, base: Url): (r: Url)
    ensures r.origin == base.origin && r.segments == base.segments + [post.name]
    ensures LastSegment(r) == post.name
  {
    Div(base, post.name)
  }
}
