/** The blog of the older single module: like the newer one it rebuilds
    everything on each refresh and swaps it in at once, but hidden posts are
    served without being indexed (no feed item, no tag or author bucket),
    posts are also bucketed by author, and feed items follow the listing
    order rather than the date order. */
module LegacyBlog {
  import opened Wrappers
  import opened BlogUtil
  import opened RootUtil
  import Fs
  import LegacyPost
  import FaultBase
  import opened Index

  type Post = LegacyPost.LegacyPost

  /** The date posts are sorted by (`date.unix_date`). */
  function UnixDate(p: Post): int {
    p.metadata.date
  }

  function NameOf(p: Post): string {
    p.name
  }

  function TagsOf(p: Post): seq<string> {
    p.metadata.tags
  }

  /** A post's author, the one label it is bucketed under by author. */
  function AuthorOf(p: Post): seq<string> {
    [p.metadata.author]
  }

  /** The posts that are not hidden, in order. */
  function Visible(posts: seq<Post>): (r: seq<Post>)
    ensures |r| <= |posts|
    ensures forall p :: p in r <==> p in posts && !p.metadata.hidden
  {
    if posts == [] then []
    else
      var n := |posts| - 1;
      assert posts == posts[..n] + [posts[n]];
      Visible(posts[..n]) + (if posts[n].metadata.hidden then [] else [posts[n]])
  }
  /** Each post that is not hidden is kept as often as it is listed. */
  lemma {:induction false} VisibleCounts(posts: seq<Post>)
    ensures forall p: Post :: !p.metadata.hidden ==> multiset(Visible(posts))[p] == multiset(posts)[p]
  {
    if posts != [] {
      var n := |posts| - 1;
      VisibleCounts(posts[..n]);
      assert posts == posts[..n] + [posts[n]];
      assert multiset(posts) == multiset(posts[..n]) + multiset{posts[n]};
    }
  }


  lemma VisibleAppend(posts: seq<Post>, p: Post)
    ensures Visible(posts + [p]) == Visible(posts) + (if p.metadata.hidden then [] else [p])
  {
    assert (posts + [p])[..|posts|] == posts;
  }

  /** An `rfeed.Item` as the refresh builds it. */
  datatype Item = Item(title: string, link: Url, description: string, guid: Url, pubDate: int,
                       categories: seq<string>)

  /** An `rfeed.Feed` as the refresh builds it. */
  datatype Feed = Feed(title: string, link: Url, description: string, language: string,
                       lastBuildDate: int, items: seq<Item>)

  /** The item of a post: linked, and identified, by the RSS base URL with
      the post's name. */
  function ItemOf(p: Post, rssBaseUrl: Url): (r: Item)
    ensures r.link == r.guid && r.link.segments == rssBaseUrl.segments + [p.name]
    ensures r.title == p.title && r.description == p.metadata.description
    ensures r.pubDate == p.metadata.date && r.categories == p.metadata.tags
  {
    var link := Div(rssBaseUrl, p.name);
    Item(p.title, link, p.metadata.description, link, p.metadata.date, p.metadata.tags)
  }

  function Items(posts: seq<Post>, rssBaseUrl: Url): (r: seq<Item>)
    ensures |r| == |posts| && forall i :: 0 <= i < |posts| ==> r[i] == ItemOf(posts[i], rssBaseUrl)
  {
    seq(|posts|, i requires 0 <= i < |posts| => ItemOf(posts[i], rssBaseUrl))
  }

  /** `sorted(posts, key=unix_date, reverse=True)`. */
  function SortByDate(found: seq<Post>): seq<Post> {
    SortNewestFirst(found, UnixDate)
  }

  /** The tag buckets of the posts found: only posts that are not hidden. */
  function TagBuckets(found: seq<Post>): map<string, seq<Post>> {
    Buckets(Visible(found), TagsOf)
  }

  /** The author buckets of the posts found: only posts that are not hidden. */
  function AuthorBuckets(found: seq<Post>): map<string, seq<Post>> {
    Buckets(Visible(found), AuthorOf)
  }

  /** A tag's bucket holds exactly the posts that are not hidden and
      list the tag; a hidden post is in no tag bucket. */
  lemma TagBucketsSpec(found: seq<Post>)
    ensures forall t, p :: t in TagBuckets(found) && p in TagBuckets(found)[t] <==>
              p in found && !p.metadata.hidden && t in p.metadata.tags
  {
    BucketsSpec(Visible(found), TagsOf);
    forall t, p | p in found && !p.metadata.hidden && t in p.metadata.tags
      ensures t in TagBuckets(found) && p in TagBuckets(found)[t]
    {
      assert p in Bucket(Visible(found), TagsOf, t);
    }
  }

  /** An author's bucket holds exactly the posts that are not hidden and
      were written by them; a hidden post is in no author bucket. */
  lemma AuthorBucketsSpec(found: seq<Post>)
    ensures forall a, p :: a in AuthorBuckets(found) && p in AuthorBuckets(found)[a] <==>
              p in found && !p.metadata.hidden && a == p.metadata.author
  {
    BucketsSpec(Visible(found), AuthorOf);
    forall a, p | p in found && !p.metadata.hidden && a == p.metadata.author
      ensures a in AuthorBuckets(found) && p in AuthorBuckets(found)[a]
    {
      assert a in AuthorOf(p);
      assert p in Bucket(Visible(found), AuthorOf, a);
    }
  }

  /** Every post that is not hidden has its item in the feed, and every
      item is that of a post that is not hidden. */
  lemma FeedItemsVisible(found: seq<Post>, rssBaseUrl: Url)
    ensures var items := Items(Visible(found), rssBaseUrl);
            && (forall p :: p in found && !p.metadata.hidden ==> ItemOf(p, rssBaseUrl) in items)
            && (forall i :: 0 <= i < |items| ==>
                  exists p :: p in found && !p.metadata.hidden && items[i] == ItemOf(p, rssBaseUrl))
  {
    var visible := Visible(found);
    var items := Items(visible, rssBaseUrl);
    forall p | p in found && !p.metadata.hidden ensures ItemOf(p, rssBaseUrl) in items {
      var i :| 0 <= i < |visible| && visible[i] == p;
      assert items[i] == ItemOf(p, rssBaseUrl);
    }
    forall i | 0 <= i < |items|
      ensures exists p :: p in found && !p.metadata.hidden && items[i] == ItemOf(p, rssBaseUrl)
    {
      assert visible[i] in visible;
    }
  }

  /** One more post that is not hidden goes into the buckets of its tags;
      a hidden one changes none. */
  lemma TagBucketsAppend(posts: seq<Post>, post: Post)
    ensures TagBuckets(posts + [post])
            == if post.metadata.hidden then TagBuckets(posts) else AddLabels(TagBuckets(posts), post, TagsOf(post))
  {
    var v := Visible(posts);
    VisibleAppend(posts, post);
    if !post.metadata.hidden {
      assert Visible(posts + [post]) == v + [post];
      BucketsAppend(v, post, TagsOf);
      assert TagBuckets(posts + [post]) == Buckets(v + [post], TagsOf);
    } else {
      assert Visible(posts + [post]) == v;
    }
  }

  /** One more post that is not hidden goes into its author's bucket; a
      hidden one changes none. */
  lemma AuthorBucketsAppend(posts: seq<Post>, post: Post)
    ensures AuthorBuckets(posts + [post])
            == if post.metadata.hidden then AuthorBuckets(posts) else AddTo(AuthorBuckets(posts), post.metadata.author, post)
  {
    var v := Visible(posts);
    VisibleAppend(posts, post);
    if !post.metadata.hidden {
      assert Visible(posts + [post]) == v + [post];
      BucketsAppend(v, post, AuthorOf);
      assert AuthorBuckets(posts + [post]) == Buckets(v + [post], AuthorOf);
      assert AuthorOf(post)[..0] == [];
      assert AddLabels(Buckets(v, AuthorOf), post, AuthorOf(post)) == AddTo(Buckets(v, AuthorOf), post.metadata.author, post);
    } else {
      assert Visible(posts + [post]) == v;
    }
  }

  /** One more post that is not hidden adds its item at the end; a hidden
      one adds none. */
  lemma ItemsAppend(posts: seq<Post>, post: Post, rssBaseUrl: Url)
    ensures Items(Visible(posts + [post]), rssBaseUrl)
            == Items(Visible(posts), rssBaseUrl) + if post.metadata.hidden then [] else [ItemOf(post, rssBaseUrl)]
  {
    var v := Visible(posts);
    VisibleAppend(posts, post);
    if post.metadata.hidden {
      assert Visible(posts + [post]) == v;
    } else {
      assert Visible(posts + [post]) == v + [post];
      ItemsConcat(v, [post], rssBaseUrl);
      assert Items([post], rssBaseUrl) == [ItemOf(post, rssBaseUrl)];
    }
  }

  /** The items of two runs of posts are the items of each, in order. */
  lemma ItemsConcat(xs: seq<Post>, ys: seq<Post>, rssBaseUrl: Url)
    ensures Items(xs + ys, rssBaseUrl) == Items(xs, rssBaseUrl) + Items(ys, rssBaseUrl)
  {
    var a := Items(xs + ys, rssBaseUrl);
    var b := Items(xs, rssBaseUrl) + Items(ys, rssBaseUrl);
    forall i | 0 <= i < |a| ensures a[i] == b[i] {
      if i < |xs| {
        assert (xs + ys)[i] == xs[i];
      } else {
        assert (xs + ys)[i] == ys[i - |xs|];
      }
    }
  }

  /** What the refresh depends on besides the blog's settings: the
      filesystem, the entries of the post directory in listing order, the
      libraries, the feed serializer and the clock. */
  datatype Env = Env(
    fs: Fs.FileSystem,
    listing: seq<Fs.Path>,
    libs: LegacyPost.Libraries,
    serialize: Feed -> string,
    now: int)

  /** What the refresh loop does with one entry of the post directory. */
  datatype Step = Skip | Add(post: Post) | Raise(exception: LegacyPost.Exception)

  /** One entry: skipped when it is not a directory or its post is invalid,
      raising when building the post raises, otherwise the post. */
  function StepOf(env: Env, imageBase: Url, folder: Fs.Path): (r: Step)
    ensures !(folder in env.fs && env.fs[folder].Dir?) ==> r.Skip?
    ensures r.Add? ==> folder in env.fs && env.fs[folder].Dir? && r.post.name == Fs.Name(folder)
                       && LegacyPost.Valid(env.fs, folder, env.libs.loads) == Returned(true)
  {
    if !(folder in env.fs && env.fs[folder].Dir?) then Skip
    else
      LegacyPost.NewSpec(env.fs, folder, imageBase, env.libs);
      match LegacyPost.New(env.fs, folder, imageBase, env.libs)
      case Raised(e) => Raise(e)
      case Returned(None) => Skip
      case Returned(Some(post)) => Add(post)
  }

  /** A directory entry's step is decided by building its post: a post is
      added, an invalid one skipped, and an exception raised. */
  lemma StepOfNew(env: Env, imageBase: Url, folder: Fs.Path)
    ensures folder in env.fs && env.fs[folder].Dir? ==>
              match LegacyPost.New(env.fs, folder, imageBase, env.libs)
              case Raised(e) => StepOf(env, imageBase, folder) == Raise(e)
              case Returned(None) => StepOf(env, imageBase, folder) == Skip
              case Returned(Some(p)) => StepOf(env, imageBase, folder) == Add(p)
  {
  }

  /** The posts the refresh loop collects from the entries, in listing
      order, or the exception of the first entry that raises. */
  function Collect(env: Env, imageBase: Url, listing: seq<Fs.Path>): Outcome<seq<Post>, LegacyPost.Exception> {
    if listing == [] then Returned([])
    else
      match Collect(env, imageBase, listing[..|listing| - 1])
      case Raised(e) => Raised(e)
      case Returned(found) =>
        match StepOf(env, imageBase, listing[|listing| - 1])
        case Raise(e) => Raised(e)
        case Skip => Returned(found)
        case Add(post) => Returned(found + [post])
  }

  /** Every collected post was built from a directory of the listing whose
      post is valid, and is named after it. */
  lemma {:induction false} CollectedFromListing(env: Env, imageBase: Url, listing: seq<Fs.Path>)
    requires Collect(env, imageBase, listing).Returned?
    ensures forall p :: p in Collect(env, imageBase, listing).value ==>
              exists folder :: folder in listing && p.name == Fs.Name(folder)
                               && LegacyPost.Valid(env.fs, folder, env.libs.loads) == Returned(true)
  {
    if listing != [] {
      var n := |listing| - 1;
      CollectedFromListing(env, imageBase, listing[..n]);
      var folder := listing[n];
      forall p | p in Collect(env, imageBase, listing).value
        ensures exists f :: f in listing && p.name == Fs.Name(f)
                            && LegacyPost.Valid(env.fs, f, env.libs.loads) == Returned(true)
      {
        if p !in Collect(env, imageBase, listing[..n]).value {
          assert folder in listing;
        } else {
          var f :| f in listing[..n] && p.name == Fs.Name(f)
                   && LegacyPost.Valid(env.fs, f, env.libs.loads) == Returned(true);
          assert f in listing;
        }
      }
    }
  }

  /** Every entry whose step adds a post has that post collected: a valid
      directory is never dropped. */
  lemma {:induction false} CollectsEveryAdded(env: Env, imageBase: Url, listing: seq<Fs.Path>)
    requires Collect(env, imageBase, listing).Returned?
    ensures forall i :: 0 <= i < |listing| && StepOf(env, imageBase, listing[i]).Add? ==>
              StepOf(env, imageBase, listing[i]).post in Collect(env, imageBase, listing).value
  {
    if listing != [] {
      var n := |listing| - 1;
      var init := listing[..n];
      var last := StepOf(env, imageBase, listing[n]);
      var found := Collect(env, imageBase, init).value;
      assert Collect(env, imageBase, listing).value == found + (if last.Add? then [last.post] else []);
      CollectsEveryAdded(env, imageBase, init);
      forall i | 0 <= i < |listing| && StepOf(env, imageBase, listing[i]).Add?
        ensures StepOf(env, imageBase, listing[i]).post in Collect(env, imageBase, listing).value
      {
        var p := StepOf(env, imageBase, listing[i]).post;
        if i < n {
          assert listing[i] == init[i];
          assert p in found;
        } else {
          assert i == n;
        }
        InAppended(p, found, if last.Add? then [last.post] else []);
      }
    }
  }

  /** What a refresh did: rebuilt everything, or raised before the swap. */
  datatype Refreshed = Done | Escaped(exception: LegacyPost.Exception)

  /** `Blog`: its settings, and the posts, tag and author buckets and feed
      text it serves. The older module repeats the newer one's accessors
      (`find_post`, `posts`, `tags`, `rss`) line for line over its own post
      type, and so does this class over `Base.Blog`'s. */
  class Blog {
    const basePath: Fs.Path
    const imageBaseUrl: Url
    const rssTitle: string
    const rssDescription: string
    const rssLanguage: string
    const rssBaseUrl: Url
    const rssUrl: Url
    const postPath: Fs.Path

    var posts: seq<Post>
    var tags: map<string, seq<Post>>
    var authors: map<string, seq<Post>>
    var rss: string

    /** `Blog.__init__` up to its first refresh: the settings stored, the
        post directory under `post`, nothing served yet. */
    constructor(basePath: Fs.Path, imageBaseUrl: Url, rssTitle: string, rssDescription: string,
                rssLanguage: string, rssBaseUrl: Url, rssUrl: Url)
      ensures this.basePath == basePath && this.imageBaseUrl == imageBaseUrl
      ensures this.rssTitle == rssTitle && this.rssDescription == rssDescription && this.rssLanguage == rssLanguage
      ensures this.rssBaseUrl == rssBaseUrl && this.rssUrl == rssUrl
      ensures postPath == Fs.Child(basePath, "post")
      ensures posts == [] && tags == map[] && authors == map[] && rss == ""
    {
      this.basePath := basePath;
      this.imageBaseUrl := imageBaseUrl;
      this.rssTitle := rssTitle;
      this.rssDescription := rssDescription;
      this.rssLanguage := rssLanguage;
      this.rssBaseUrl := rssBaseUrl;
      this.rssUrl := rssUrl;
      this.postPath := Fs.Child(basePath, "post");
      posts := [];
      tags := map[];
      authors := map[];
      rss := "";
    }

    /** The feed built at `now` from the posts found: one item per post that
        is not hidden, in listing order. */
    function FeedOf(found: seq<Post>, now: int): Feed {
      Feed(rssTitle, rssUrl, rssDescription, rssLanguage, now, Items(Visible(found), rssBaseUrl))
    }

    /** `find_post(name)`: the first served post with that name. */
    method FindPost(name: string) returns (r: Option<Post>)
      ensures r == FirstNamed(posts, NameOf, name)
    {
      var k := 0;
      while k < |posts|
        invariant 0 <= k <= |posts|
        invariant FirstNamed(posts, NameOf, name) == FirstNamed(posts[k..], NameOf, name)
      {
        if posts[k].name == name {
          return Some(posts[k]);
        }
        assert posts[k..][1..] == posts[k + 1..];
        k := k + 1;
      }
      return None;
    }

    /** `find_posts_by_tag(tag)`: the served posts listing the tag, newest
        first; hidden posts are served, so they are found too. */
    method FindPostsByTag(tag: string) returns (r: seq<Post>)
      ensures r == Labelled(posts, TagsOf, tag)
    {
      r := [];
      var k := 0;
      while k < |posts|
        invariant 0 <= k <= |posts|
        invariant r == Labelled(posts[..k], TagsOf, tag)
      {
        assert posts[..k + 1][..k] == posts[..k];
        if tag in posts[k].metadata.tags {
          r := r + [posts[k]];
        }
        k := k + 1;
      }
      assert posts[..k] == posts;
    }

    /** The `posts` property. */
    method Posts() returns (r: seq<Post>)
      ensures r == posts
    {
      r := posts;
    }

    /** The `tags` property. */
    method Tags() returns (r: map<string, seq<Post>>)
      ensures r == tags
    {
      r := tags;
    }

    /** The `authors` property. */
    method Authors() returns (r: map<string, seq<Post>>)
      ensures r == authors
    {
      r := authors;
    }

    /** The `rss` property. */
    method RssText() returns (r: string)
      ensures r == rss
    {
      r := rss;
    }

    /** `__refresh`: walk the post directory, build each post, index the
        ones that are not hidden, then swap in the posts sorted newest
        first, the buckets and the serialized feed. When the post directory
        cannot be listed (`iterdir` raises an `OSError` naming it), or a post
        raises, the exception escapes and nothing is swapped. */
    method Refresh(env: Env) returns (outcome: Refreshed)
      requires Fs.IsDir(env.fs, postPath) ==> Fs.IterDir(env.fs, postPath, env.listing)
      modifies this
      ensures !Fs.IsDir(env.fs, postPath) ==>
                outcome == Escaped(LegacyPost.OsError(FaultBase.IoError(Some(Fs.PathString(postPath)))))
      ensures Fs.IsDir(env.fs, postPath) ==>
              var c := Collect(env, imageBaseUrl, env.listing);
              && (c.Raised? <==> outcome.Escaped?)
              && (c.Raised? ==> outcome.exception == c.exception)
      ensures outcome.Escaped? ==>
                posts == old(posts) && tags == old(tags) && authors == old(authors) && rss == old(rss)
      ensures outcome.Done? ==>
                var found := Collect(env, imageBaseUrl, env.listing).value;
                && posts == SortByDate(found)
                && tags == TagBuckets(found)
                && authors == AuthorBuckets(found)
                && rss == env.serialize(FeedOf(found, env.now))
    {
      if !Fs.IsDir(env.fs, postPath) {
        return Escaped(LegacyPost.OsError(FaultBase.IoError(Some(Fs.PathString(postPath)))));
      }
      var gathered, byTag, byAuthor, items := Gather(env, imageBaseUrl, rssBaseUrl);
      if gathered.Raised? {
        return Escaped(gathered.exception);
      }
      var found := gathered.value;
      var feed := Feed(rssTitle, rssUrl, rssDescription, rssLanguage, env.now, items);
      assert feed == FeedOf(found, env.now);
      posts := SortByDate(found);
      tags := byTag;
      authors := byAuthor;
      rss := env.serialize(feed);
      return Done;
    }
  }

  /** The loop of `__refresh` over the post directory: the posts found in
      listing order, their tag and author buckets and their feed items, or
      the exception of the first entry that raises. */
  method Gather(env: Env, imageBase: Url, rssBaseUrl: Url)
    returns (found: Outcome<seq<Post>, LegacyPost.Exception>, byTag: map<string, seq<Post>>,
             byAuthor: map<string, seq<Post>>, items: seq<Item>)
    ensures found == Collect(env, imageBase, env.listing)
    ensures found.Returned? ==> && byTag == TagBuckets(found.value)
                                && byAuthor == AuthorBuckets(found.value)
                                && items == Items(Visible(found.value), rssBaseUrl)
  {
    var posts: seq<Post> := [];
    byTag, byAuthor, items := map[], map[], [];
    var k := 0;
    while k < |env.listing|
      invariant 0 <= k <= |env.listing|
      invariant Collect(env, imageBase, env.listing[..k]) == Returned(posts)
      invariant byTag == TagBuckets(posts) && byAuthor == AuthorBuckets(posts)
      invariant items == Items(Visible(posts), rssBaseUrl)
    {
      var raised;
      raised, posts, byTag, byAuthor, items := GatherEntry(env, imageBase, rssBaseUrl, k, posts, byTag, byAuthor, items);
      if raised.Some? {
        CollectRaisedSticky(env, imageBase, env.listing, k + 1);
        return Raised(raised.value), byTag, byAuthor, items;
      }
      k := k + 1;
    }
    assert env.listing[..k] == env.listing;
    found := Returned(posts);
  }

  /** One round of the loop over the listing: the entry raises, is skipped,
      or adds its post to those found, to its tags' and author's buckets and,
      when visible, to the feed items. */
  method GatherEntry(env: Env, imageBase: Url, rssBaseUrl: Url, k: nat, posts: seq<Post>,
                     byTag: map<string, seq<Post>>, byAuthor: map<string, seq<Post>>, items: seq<Item>)
    returns (raised: Option<LegacyPost.Exception>, posts': seq<Post>, byTag': map<string, seq<Post>>,
             byAuthor': map<string, seq<Post>>, items': seq<Item>)
    requires k < |env.listing| && Collect(env, imageBase, env.listing[..k]) == Returned(posts)
    requires byTag == TagBuckets(posts) && byAuthor == AuthorBuckets(posts)
    requires items == Items(Visible(posts), rssBaseUrl)
    ensures raised.Some? <==> Collect(env, imageBase, env.listing[..k + 1]).Raised?
    ensures raised.Some? ==> raised.value == Collect(env, imageBase, env.listing[..k + 1]).exception
    ensures raised.None? ==> && Collect(env, imageBase, env.listing[..k + 1]) == Returned(posts')
                             && byTag' == TagBuckets(posts') && byAuthor' == AuthorBuckets(posts')
                             && items' == Items(Visible(posts'), rssBaseUrl)
  {
    CollectStep(env, imageBase, env.listing, k);
    var step := StepOf(env, imageBase, env.listing[k]);
    raised, posts', byTag', byAuthor', items' := None, posts, byTag, byAuthor, items;
    if step.Raise? {
      raised := Some(step.exception);
    } else if step.Add? {
      byTag', byAuthor', items' := IndexPost(posts, step.post, byTag, byAuthor, items, rssBaseUrl);
      posts' := posts + [step.post];
    }
  }

  /** The body of the loop for a post that was built: a post that is not
      hidden gets a feed item and goes into the buckets of its tags and of
      its author; a hidden one is only served. */
  method IndexPost(posts: seq<Post>, post: Post, byTag: map<string, seq<Post>>, byAuthor: map<string, seq<Post>>,
                   items: seq<Item>, rssBaseUrl: Url)
    returns (byTag': map<string, seq<Post>>, byAuthor': map<string, seq<Post>>, items': seq<Item>)
    requires byTag == TagBuckets(posts) && byAuthor == AuthorBuckets(posts)
    requires items == Items(Visible(posts), rssBaseUrl)
    ensures byTag' == TagBuckets(posts + [post]) && byAuthor' == AuthorBuckets(posts + [post])
    ensures items' == Items(Visible(posts + [post]), rssBaseUrl)
  {
    TagBucketsAppend(posts, post);
    AuthorBucketsAppend(posts, post);
    ItemsAppend(posts, post, rssBaseUrl);
    byTag', byAuthor', items' := byTag, byAuthor, items;
    if !post.metadata.hidden {
      items' := items + [ItemOf(post, rssBaseUrl)];
      byTag' := AddPostTags(byTag, post);
      byAuthor' := AddTo(byAuthor, post.metadata.author, post);
    }
  }

  /** The inner loop over a post's tags, the same loop as `Base.AddPostTags`
      over this module's post type. */
  method AddPostTags(buckets: map<string, seq<Post>>, post: Post) returns (r: map<string, seq<Post>>)
    ensures r == AddLabels(buckets, post, TagsOf(post))
  {
    var ts := post.metadata.tags;
    r := buckets;
    var j := 0;
    while j < |ts|
      invariant 0 <= j <= |ts|
      invariant r == AddLabels(buckets, post, ts[..j])
    {
      assert ts[..j + 1][..j] == ts[..j];
      var tag := ts[j];
      if tag !in r {
        r := r[tag := []];
      }
      r := r[tag := r[tag] + [post]];
      j := j + 1;
    }
    assert ts[..j] == ts;
  }

  /** One more entry of the listing is one more step of the loop. */
  lemma CollectStep(env: Env, imageBase: Url, listing: seq<Fs.Path>, k: nat)
    requires k < |listing| && Collect(env, imageBase, listing[..k]).Returned?
    ensures var found := Collect(env, imageBase, listing[..k]).value;
            var step := StepOf(env, imageBase, listing[k]);
            && (step.Raise? ==> Collect(env, imageBase, listing[..k + 1]) == Raised(step.exception))
            && (step.Skip? ==> Collect(env, imageBase, listing[..k + 1]) == Returned(found))
            && (step.Add? ==> Collect(env, imageBase, listing[..k + 1]) == Returned(found + [step.post]))
  {
    assert listing[..k + 1][..k] == listing[..k];
  }

  /** Once an entry raises, the whole refresh raises that exception. */
  lemma {:induction false} CollectRaisedSticky(env: Env, imageBase: Url, listing: seq<Fs.Path>, k: nat)
    requires k <= |listing| && Collect(env, imageBase, listing[..k]).Raised?
    ensures Collect(env, imageBase, listing) == Collect(env, imageBase, listing[..k])
    decreases |listing| - k
  {
    if k < |listing| {
      assert listing[..k + 1][..k] == listing[..k];
      CollectRaisedSticky(env, imageBase, listing, k + 1);
    } else {
      assert listing[..k] == listing;
    }
  }
}
