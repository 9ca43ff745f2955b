/** The blog: the posts found under `<base>/post`, newest first, the posts
    of each tag, and the RSS feed, all rebuilt together on every refresh and
    swapped in at once. */
module Base {
  import opened Wrappers
  import opened BlogUtil
  import Fs
  import Pattern
  import Metadata
  import Container
  import Rss
  import opened Index

  type Post = Container.Post

  /** The date a post is sorted by (`date.timestamp()`). */
  function Date(p: Post): int {
    p.metadata.date
  }

  /** A post's tags, the labels it is bucketed under. */
  function TagsOf(p: Post): seq<string> {
    p.metadata.tags
  }

  /** `sorted(posts, key=date, reverse=True)`. */
  function SortByDate(posts: seq<Post>): seq<Post> {
    SortNewestFirst(posts, Date)
  }

  /** The tag buckets `__refresh` builds from the posts it found. */
  function TagBuckets(found: seq<Post>): map<string, seq<Post>> {
    Buckets(found, TagsOf)
  }

  /** `find_posts_by_tag(tag)`'s answer: the posts listing `tag`, each once, in order. */
  function Tagged(posts: seq<Post>, tag: string): seq<Post> {
    Labelled(posts, TagsOf, tag)
  }

  /** The name `find_post` compares. */
  function NameOf(p: Post): string {
    p.name
  }

  /** What the refresh depends on besides the blog's own settings: the
      filesystem, the entries of the post directory in listing order, the
      libraries, the feed serializer and the clock. */
  datatype Env = Env(
    fs: Fs.FileSystem,
    listing: seq<Fs.Path>,
    parsers: Metadata.Parsers,
    matchers: Pattern.Matchers,
    markdown: string -> string,
    strip: (string, seq<string>) -> string,
    serialize: Rss.Feed -> string,
    now: int)

  /** What the refresh loop does with one entry of the post directory. */
  datatype Step = Skip | Add(post: Post) | Raise

  /** One entry: skipped when it is not a directory or its post fails its
      check; raising when the check raises or the post's read time is a day
      or more; otherwise the post built from it. */
  function StepOf(env: Env, folder: Fs.Path): (r: Step)
    ensures r.Add? ==> folder in env.fs && env.fs[folder].Dir? && r.post.name == Fs.Name(folder)
                       && Container.TextReads(env.fs, folder)
                       && r.post.content == env.fs[Container.TextPath(folder)].read.text
    ensures !(folder in env.fs && env.fs[folder].Dir?) ==> r.Skip?
  {
    if !(folder in env.fs && env.fs[folder].Dir?) then Skip
    else
      match Container.Valid(env.fs, folder, env.parsers)
      case Raises => Raise
      case Checked(Err(_)) => Skip
      case Checked(Ok(sentinel)) =>
        match Container.New(sentinel, env.markdown, env.strip, env.matchers.finditer)
        case Err(_) => Raise
        case Ok(post) => Add(post)
  }

  /** A directory entry's step is decided by its check: a post whose check
      passes and whose post builds is added, a failed check is skipped, and a
      raising check or build raises; and an added post is exactly that. */
  lemma StepOfValid(env: Env, folder: Fs.Path)
    ensures StepOf(env, folder).Add? ==>
              var v := Container.Valid(env.fs, folder, env.parsers);
              && v.Checked? && v.result.Ok?
              && Container.New(v.result.value, env.markdown, env.strip, env.matchers.finditer) == Ok(StepOf(env, folder).post)
    ensures folder in env.fs && env.fs[folder].Dir? ==>
              match Container.Valid(env.fs, folder, env.parsers)
              case Raises => StepOf(env, folder) == Raise
              case Checked(Err(_)) => StepOf(env, folder) == Skip
              case Checked(Ok(s)) =>
                var built := Container.New(s, env.markdown, env.strip, env.matchers.finditer);
                StepOf(env, folder) == if built.Ok? then Add(built.value) else Raise
  {
  }

  /** The posts the refresh loop collects from the first entries, in
      listing order; `None` once one of them raises. */
  function Collect(env: Env, listing: seq<Fs.Path>): Option<seq<Post>> {
    if listing == [] then Some([])
    else
      match Collect(env, listing[..|listing| - 1])
      case None => None
      case Some(found) =>
        match StepOf(env, listing[|listing| - 1])
        case Raise => None
        case Skip => Some(found)
        case Add(post) => Some(found + [post])
  }

  /** Every collected post was built from a directory of the listing that
      passed its check: it is named after it and has its text. */
  lemma {:induction false} CollectedFromListing(env: Env, listing: seq<Fs.Path>)
    requires Collect(env, listing).Some?
    ensures forall p :: p in Collect(env, listing).value ==>
              exists folder :: folder in listing && p.name == Fs.Name(folder)
                               && Container.TextReads(env.fs, folder)
                               && p.content == env.fs[Container.TextPath(folder)].read.text
  {
    if listing != [] {
      var n := |listing| - 1;
      CollectedFromListing(env, listing[..n]);
      var folder := listing[n];
      forall p | p in Collect(env, listing).value
        ensures exists f :: f in listing && p.name == Fs.Name(f) && Container.TextReads(env.fs, f)
                            && p.content == env.fs[Container.TextPath(f)].read.text
      {
        if p !in Collect(env, listing[..n]).value {
          assert p.name == Fs.Name(folder) && folder in listing;
        } else {
          var f :| f in listing[..n] && p.name == Fs.Name(f) && Container.TextReads(env.fs, f)
                   && p.content == env.fs[Container.TextPath(f)].read.text;
          assert f in listing;
        }
      }
    }
  }

  /** Every entry whose step adds a post has that post collected: a valid
      directory is never dropped. */
  lemma {:induction false} CollectsEveryAdded(env: Env, listing: seq<Fs.Path>)
    requires Collect(env, listing).Some?
    ensures forall i :: 0 <= i < |listing| && StepOf(env, listing[i]).Add? ==>
              StepOf(env, listing[i]).post in Collect(env, listing).value
  {
    if listing != [] {
      var n := |listing| - 1;
      var init := listing[..n];
      var last := StepOf(env, listing[n]);
      var found := Collect(env, init).value;
      assert Collect(env, listing).value == found + (if last.Add? then [last.post] else []);
      CollectsEveryAdded(env, init);
      forall i | 0 <= i < |listing| && StepOf(env, listing[i]).Add?
        ensures StepOf(env, listing[i]).post in Collect(env, listing).value
      {
        var p := StepOf(env, listing[i]).post;
        if i < n {
          assert listing[i] == init[i];
          assert p in found;
        } else {
          assert i == n;
        }
        InAppended(p, found, if last.Add? then [last.post] else []);
      }
    }
  }

  /** What a refresh did: rebuilt everything, or raised before the swap. */
  datatype Refreshed = Done | Raised

  /** `Blog`: its settings, and the posts, tag buckets and feed text it serves. */
  class Blog {
    const basePath: Fs.Path
    const baseStaticUrl: Url
    const rssTitle: string
    const rssDescription: string
    const rssLanguage: string
    const rssBaseUrl: Url
    const rssUrl: Url
    const postPath: Fs.Path

    var posts: seq<Post>
    var tags: map<string, seq<Post>>
    var rss: string

    /** `Blog.__init__` up to its first refresh: the settings stored, the
        post directory under `post`, nothing served yet. */
    constructor(basePath: Fs.Path, baseStaticUrl: Url, rssTitle: string, rssDescription: string,
                rssLanguage: string, rssBaseUrl: Url, rssUrl: Url)
      ensures this.basePath == basePath && this.baseStaticUrl == baseStaticUrl
      ensures this.rssTitle == rssTitle && this.rssDescription == rssDescription && this.rssLanguage == rssLanguage
      ensures this.rssBaseUrl == rssBaseUrl && this.rssUrl == rssUrl
      ensures postPath == Fs.Child(basePath, "post")
      ensures posts == [] && tags == map[] && rss == ""
    {
      this.basePath := basePath;
      this.baseStaticUrl := baseStaticUrl;
      this.rssTitle := rssTitle;
      this.rssDescription := rssDescription;
      this.rssLanguage := rssLanguage;
      this.rssBaseUrl := rssBaseUrl;
      this.rssUrl := rssUrl;
      this.postPath := Fs.Child(basePath, "post");
      posts := [];
      tags := map[];
      rss := "";
    }

    /** `_build_feed`'s metadata: the feed links to the RSS URL, items link
        under the RSS base URL, images under the static URL. */
    function FeedMetadata(): Rss.FeedMetadata {
      Rss.FeedMetadata(rssTitle, rssUrl, rssDescription, rssLanguage, rssBaseUrl, baseStaticUrl)
    }

    /** The feed `_build_feed(posts)` builds at time `now`. */
    function FeedOf(sorted: seq<Post>, now: int): Rss.Feed {
      Rss.Feed(rssTitle, rssUrl, rssDescription, rssLanguage, now,
               Rss.Items(Rss.Visible(sorted), rssBaseUrl, baseStaticUrl),
               Rss.CONTENT_NAMESPACE, None, None)
    }

    /** `find_post(name)`: the first served post with that name. */
    method FindPost(name: string) returns (r: Option<Post>)
      ensures r == FirstNamed(posts, NameOf, name)
    {
      var k := 0;
      while k < |posts|
        invariant 0 <= k <= |posts|
        invariant FirstNamed(posts, NameOf, name) == FirstNamed(posts[k..], NameOf, name)
      {
        if posts[k].name == name {
          return Some(posts[k]);
        }
        assert posts[k..][1..] == posts[k + 1..];
        k := k + 1;
      }
      return None;
    }

    /** `find_posts_by_tag(tag)`: the served posts listing the tag, newest first. */
    method FindPostsByTag(tag: string) returns (r: seq<Post>)
      ensures r == Tagged(posts, tag)
    {
      r := [];
      var k := 0;
      while k < |posts|
        invariant 0 <= k <= |posts|
        invariant r == Tagged(posts[..k], tag)
      {
        assert posts[..k + 1][..k] == posts[..k];
        if tag in posts[k].metadata.tags {
          r := r + [posts[k]];
        }
        k := k + 1;
      }
      assert posts[..k] == posts;
    }

    /** The `posts` property: a copy of the served posts. */
    method Posts() returns (r: seq<Post>)
      ensures r == posts
    {
      r := posts;
    }

    /** The `tags` property: a copy of the served buckets. */
    method Tags() returns (r: map<string, seq<Post>>)
      ensures r == tags
    {
      r := tags;
    }

    /** The `rss` property. */
    method RssText() returns (r: string)
      ensures r == rss
    {
      r := rss;
    }

    /** `__refresh`: walk the post directory, check and build each post,
        bucket it under its tags, then sort the posts newest first and swap
        in the posts, the buckets and the serialized feed together. When the
        post directory cannot be listed, or a post raises, nothing is
        swapped. */
    method Refresh(env: Env) returns (outcome: Refreshed)
      requires Fs.IsDir(env.fs, postPath) ==> Fs.IterDir(env.fs, postPath, env.listing)
      modifies this
      ensures !Fs.IsDir(env.fs, postPath) ==> outcome.Raised?
      ensures Fs.IsDir(env.fs, postPath) ==> (Collect(env, env.listing).None? <==> outcome.Raised?)
      ensures outcome.Raised? ==> posts == old(posts) && tags == old(tags) && rss == old(rss)
      ensures outcome.Done? ==>
                var found := Collect(env, env.listing).value;
                && posts == SortByDate(found)
                && tags == TagBuckets(found)
                && rss == env.serialize(FeedOf(SortByDate(found), env.now))
    {
      if !Fs.IsDir(env.fs, postPath) {
        return Raised;
      }
      var gathered, buckets := Gather(env);
      if gathered.None? {
        return Raised;
      }
      var found := gathered.value;
      var sorted := SortByDate(found);
      var feed := Rss.BuildFeed(sorted, FeedMetadata(), env.now);
      posts := sorted;
      tags := buckets;
      rss := env.serialize(feed);
      return Done;
    }
  }

  /** The loop of `__refresh` over the post directory: the posts found in
      listing order and their buckets, or `None` when an entry raises. */
  method Gather(env: Env) returns (found: Option<seq<Post>>, buckets: map<string, seq<Post>>)
    ensures found == Collect(env, env.listing)
    ensures found.Some? ==> buckets == TagBuckets(found.value)
  {
    var posts: seq<Post> := [];
    buckets := map[];
    var k := 0;
    while k < |env.listing|
      invariant 0 <= k <= |env.listing|
      invariant Collect(env, env.listing[..k]) == Some(posts)
      invariant buckets == TagBuckets(posts)
    {
      var raised;
      raised, posts, buckets := GatherEntry(env, k, posts, buckets);
      if raised {
        CollectNoneSticky(env, env.listing, k + 1);
        return None, buckets;
      }
      k := k + 1;
    }
    assert env.listing[..k] == env.listing;
    found := Some(posts);
  }

  /** One round of the loop of `__refresh`: the entry at `k` raises, is
      skipped, or adds its post to those found and to its tags' buckets. */
  method GatherEntry(env: Env, k: nat, posts: seq<Post>, buckets: map<string, seq<Post>>)
    returns (raised: bool, posts': seq<Post>, buckets': map<string, seq<Post>>)
    requires k < |env.listing| && Collect(env, env.listing[..k]) == Some(posts)
    requires buckets == TagBuckets(posts)
    ensures raised <==> Collect(env, env.listing[..k + 1]).None?
    ensures !raised ==> Collect(env, env.listing[..k + 1]) == Some(posts') && buckets' == TagBuckets(posts')
  {
    CollectStep(env, env.listing, k);
    var step := StepOf(env, env.listing[k]);
    raised, posts', buckets' := step.Raise?, posts, buckets;
    if step.Add? {
      buckets' := AddPostTags(buckets, step.post);
      BucketsAppend(posts, step.post, TagsOf);
      posts' := posts + [step.post];
    }
  }

  /** The inner loop of `__refresh`: the post appended to the bucket of
      each tag it lists, in order, creating missing buckets. */
  method AddPostTags(buckets: map<string, seq<Post>>, post: Post) returns (r: map<string, seq<Post>>)
    ensures r == AddLabels(buckets, post, TagsOf(post))
  {
    var ts := post.metadata.tags;
    r := buckets;
    var j := 0;
    while j < |ts|
      invariant 0 <= j <= |ts|
      invariant r == AddLabels(buckets, post, ts[..j])
    {
      assert ts[..j + 1][..j] == ts[..j];
      var tag := ts[j];
      if tag !in r {
        r := r[tag := []];
      }
      r := r[tag := r[tag] + [post]];
      j := j + 1;
    }
    assert ts[..j] == ts;
  }

  /** One more entry of the listing is one more step of the loop. */
  lemma CollectStep(env: Env, listing: seq<Fs.Path>, k: nat)
    requires k < |listing| && Collect(env, listing[..k]).Some?
    ensures var found := Collect(env, listing[..k]).value;
            var step := StepOf(env, listing[k]);
            && (step.Raise? ==> Collect(env, listing[..k + 1]).None?)
            && (step.Skip? ==> Collect(env, listing[..k + 1]) == Some(found))
            && (step.Add? ==> Collect(env, listing[..k + 1]) == Some(found + [step.post]))
  {
    assert listing[..k + 1][..k] == listing[..k];
  }

  /** Once an entry raises, the whole refresh raises. */
  lemma {:induction false} CollectNoneSticky(env: Env, listing: seq<Fs.Path>, k: nat)
    requires k <= |listing| && Collect(env, listing[..k]).None?
    ensures Collect(env, listing).None?
    decreases |listing| - k
  {
    if k < |listing| {
      assert listing[..k + 1][..k] == listing[..k];
      CollectNoneSticky(env, listing, k + 1);
    } else {
      assert listing[..k] == listing;
    }
  }
}
