/** The RSS feed of the blog: one item per post that is not hidden, each
    carrying the post's rendered HTML as a CDATA section. */
module Rss {
  import opened Wrappers
  import opened BlogUtil
  import opened Pattern
  import Container

  /** `FeedMetadata`. */
  datatype FeedMetadata = FeedMetadata(title: string, link: Url, description: string, language: string,
                                       baseUrl: Url, baseImageUrl: Url)

  /** `PostWrapper`: a post and the base URL its images are served under;
      it is published as the item's `content:encoded` element. */
  datatype PostWrapper = PostWrapper(post: Container.Post, baseImageUrl: Url)

  /** An RSS `Item`. */
  datatype Item = Item(title: string, link: Url, description: string, author: Option<string>,
                       guid: Url, pubDate: int, categories: seq<string>, enclosure: PostWrapper)

  /** An RSS `Feed`. */
  datatype Feed = Feed(title: string, link: Url, description: string, language: string,
                       lastBuildDate: int, items: seq<Item>, namespaces: map<string, string>,
                       docs: Option<string>, generator: Option<string>)

  /** `ContentExtension.get_namespace()`: the namespace of `<content:encoded>`. */
  const CONTENT_NAMESPACE: map<string, string> := map["xmlns:content" := "http://purl.org/rss/1.0/modules/content/"]

  const CONTENT_ELEMENT := "content:encoded"

  /** `PostWrapper.publish`: the element name and its text, the post
      rendered without its heading and wrapped in one CDATA section. */
  method Publish(w: PostWrapper, matchers: Matchers, markdown: string -> string) returns (element: string, text: string)
    ensures element == CONTENT_ELEMENT
    ensures var base := Container.PostStaticUrl(w.baseImageUrl, w.post.name);
            var rewritten := Container.Rewritten(w.post.content, base, matchers.rewriteAt, 2);
            text == EncodeAsCdata(markdown(Container.StripHeading(rewritten, matchers.heading)))
    ensures |text| >= |CDATA_START| + |CDATA_END| && text[..|CDATA_START|] == CDATA_START
    ensures forall i :: 0 <= i < |text| - 3 ==> !TerminatorAt(text, i)
  {
    var rendered := Container.Render(w.post, w.baseImageUrl, false, matchers, markdown);
    return CONTENT_ELEMENT, EncodeAsCdata(rendered.html);
  }

  /** `build_item(post, base_url, base_image_url)`: the post's link is both
      the item's link and its guid; title, description, author, date and
      tags come from the post. */
  function BuildItem(post: Container.Post, baseUrl: Url, baseImageUrl: Url): (r: Item)
    ensures r.link == r.guid == Container.Link(post, baseUrl)
    ensures LastSegment(r.link) == post.name
    ensures r.title == post.title && r.categories == post.metadata.tags
    ensures r.pubDate == post.metadata.date && r.author == post.metadata.author
    ensures r.description == post.metadata.description
    ensures r.enclosure == PostWrapper(post, baseImageUrl)
  {
    var link := Container.Link(post, baseUrl);
    Item(post.title, link, post.metadata.description, post.metadata.author, link,
         post.metadata.date, post.metadata.tags, PostWrapper(post, baseImageUrl))
  }

  /** The posts of a list that are not hidden, in order. */
  function Visible(posts: seq<Container.Post>): (r: seq<Container.Post>)
    ensures |r| <= |posts|
    ensures forall p :: p in r <==> p in posts && !p.metadata.hidden
  {
    if posts == [] then []
    else
      var front := Visible(posts[..|posts| - 1]);
      var last := posts[|posts| - 1];
      assert posts == posts[..|posts| - 1] + [last];
      if last.metadata.hidden then front else front + [last]
  }
  /** Each post that is not hidden is kept as often as it is listed. */
  lemma {:induction false} VisibleCounts(posts: seq<Container.Post>)
    ensures forall p: Container.Post :: !p.metadata.hidden ==> multiset(Visible(posts))[p] == multiset(posts)[p]
  {
    if posts != [] {
      var n := |posts| - 1;
      VisibleCounts(posts[..n]);
      assert posts == posts[..n] + [posts[n]];
      assert multiset(posts) == multiset(posts[..n]) + multiset{posts[n]};
    }
  }


  /** Dropping hidden posts keeps the order of the rest: the visible posts
      are those of the list at increasing positions. */
  lemma {:induction false} VisibleInOrder(posts: seq<Container.Post>)
    ensures exists pos: seq<nat> :: InOrderAt(posts, Visible(posts), pos)
  {
    if posts == [] {
      var pos: seq<nat> := [];
      assert InOrderAt(posts, Visible(posts), pos);
    } else {
      var n := |posts| - 1;
      var front := posts[..n];
      var v := Visible(front);
      VisibleInOrder(front);
      var pos: seq<nat> :| InOrderAt(front, v, pos);
      forall k | 0 <= k < |pos| ensures pos[k] < n && posts[pos[k]] == v[k] {
        assert front[pos[k]] == posts[pos[k]];
      }
      if posts[n].metadata.hidden {
        assert Visible(posts) == v;
        assert InOrderAt(posts, Visible(posts), pos);
      } else {
        var pos' := pos + [n];
        var v' := v + [posts[n]];
        assert Visible(posts) == v';
        forall k | 0 <= k < |pos'| ensures pos'[k] < |posts| && posts[pos'[k]] == v'[k] {
        }
        forall k, l | 0 <= k < l < |pos'| ensures pos'[k] < pos'[l] {
        }
        assert InOrderAt(posts, v', pos');
      }
    }
  }

  /** `sub` is `s` at the strictly increasing positions `pos`. */
  predicate InOrderAt(s: seq<Container.Post>, sub: seq<Container.Post>, pos: seq<nat>) {
    && |pos| == |sub|
    && (forall k :: 0 <= k < |pos| ==> pos[k] < |s| && s[pos[k]] == sub[k])
    && (forall k, l :: 0 <= k < l < |pos| ==> pos[k] < pos[l])
  }

  /** The items of a list of posts, in order. */
  function Items(posts: seq<Container.Post>, baseUrl: Url, baseImageUrl: Url): (r: seq<Item>)
    ensures |r| == |posts| && forall i :: 0 <= i < |posts| ==> r[i] == BuildItem(posts[i], baseUrl, baseImageUrl)
  {
    seq(|posts|, i requires 0 <= i < |posts| => BuildItem(posts[i], baseUrl, baseImageUrl))
  }

  /** `build_feed(posts, feed_metadata)`: an item for every post that is
      not hidden, in the order of `posts`, in a feed built at `now` with the
      content namespace and without `docs` or `generator`. */
  method BuildFeed(posts: seq<Container.Post>, metadata: FeedMetadata, now: int) returns (feed: Feed)
    ensures feed.items == Items(Visible(posts), metadata.baseUrl, metadata.baseImageUrl)
    ensures feed.title == metadata.title && feed.link == metadata.link
    ensures feed.description == metadata.description && feed.language == metadata.language
    ensures feed.lastBuildDate == now && feed.namespaces == CONTENT_NAMESPACE
    ensures feed.docs.None? && feed.generator.None?
  {
    var items: seq<Item> := [];
    var k := 0;
    while k < |posts|
      invariant 0 <= k <= |posts|
      invariant items == Items(Visible(posts[..k]), metadata.baseUrl, metadata.baseImageUrl)
    {
      assert posts[..k + 1][..k] == posts[..k];
      if !posts[k].metadata.hidden {
        items := items + [BuildItem(posts[k], metadata.baseUrl, metadata.baseImageUrl)];
      }
      k := k + 1;
    }
    assert posts[..k] == posts;
    feed := Feed(metadata.title, metadata.link, metadata.description, metadata.language, now, items,
                 CONTENT_NAMESPACE, None, None);
  }

  /** Every item of the feed links to a post that is not hidden, and every
      such post has an item. */
  lemma FeedCoversVisible(posts: seq<Container.Post>, baseUrl: Url, baseImageUrl: Url)
    ensures var items := Items(Visible(posts), baseUrl, baseImageUrl);
            && (forall i :: 0 <= i < |items| ==>
                  items[i].enclosure.post in posts && !items[i].enclosure.post.metadata.hidden)
            && (forall p :: p in posts && !p.metadata.hidden ==>
                  exists i :: 0 <= i < |items| && items[i].enclosure.post == p)
  {
    var visible := Visible(posts);
    var items := Items(visible, baseUrl, baseImageUrl);
    forall p | p in posts && !p.metadata.hidden
      ensures exists i :: 0 <= i < |items| && items[i].enclosure.post == p
    {
      var i :| 0 <= i < |visible| && visible[i] == p;
      assert items[i].enclosure.post == p;
    }
  }
}
