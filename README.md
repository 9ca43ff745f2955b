# Blog ingestion pipeline, modelled in Dafny

This project models the blog back end of a personal web site. The blog
reads a directory of posts from disk, one sub-directory per post, each
holding a `text.md` and a `metadata.json`. It checks every post, builds
the valid ones with their title, metadata and read-time estimate, and
indexes them:

- the posts newest first;
- the posts under each tag (and, in the older blog, under each author);
- an RSS feed.

All of this is rebuilt on every refresh and swapped in at once.

Two generations of the code are modelled:

- **The newer package.** One Dafny module per source file:
  - `Base`: the blog and its refresh;
  - `Container`: post checks, construction and rendering;
  - `ReadTime` and `BlogTime`: read time and durations;
  - `RenderPool`: the converter pool;
  - `Rss`: the feed;
  - `BlogUtil`: CDATA, `uncapitalize`, URLs;
  - `License`;
  - `FaultBase`, `ModelFault` and `PostFault`: the fault families;
  - `Metadata`: the pydantic loader.
- **The older single module.** `LegacyPost`, `LegacyReadTime` and `LegacyBlog`.

The repository-wide helpers are in `RootUtil`. Shared pieces are:

- `Index`: a stable newest-first sort, first-match search and label buckets. Both blogs use them.
- `Text`: Python string operations.
- `Fs`: paths and a filesystem as a map from path to what is there.
- `Json`: decoded documents.
- `Pattern`: the regular expressions.
- `Wrappers`: `Option` and `Result`.

Code that changes state step by step is modelled as methods with loops:

- the refresh loops;
- `find_post` and `find_posts_by_tag`;
- `validate`;
- the read-time accumulation;
- `all_match_condition` and `traverse_collection`;
- `build_feed`;
- the pool's claim and refill.

Each method is proved against a function that specifies it. The blogs are classes whose fields the refresh reassigns, and the pool is a class over two arrays. Pure code is functions and lemmas.

Libraries the code calls are parameters of the model:

- regex matching: `finditer`, `sub` positions, `findall` and the heading match;
- Markdown conversion;
- BeautifulSoup tag stripping;
- `json.loads`;
- pydantic's `parse_obj`;
- the RSS serializer.

The same holds for the directory listing (its order) and the clock.

## Model

| member | source | states |
|---|---|---|
| Index.SortNewestFirst | bridges/blog/base.py:179-183 | the sorted posts are a permutation of the input and newest first |
| Index.SortStable | bridges/blog/base.py:179-183 | posts with equal dates keep their listing order (Python's sort is stable, also with `reverse=True`) |
| Index.FirstNamed | bridges/blog/base.py:97-107 | the answer is a post with that name with no earlier one having it; `None` exactly when no post has the name |
| Index.Bucket | bridges/blog/base.py:169-172 | a post is in a label's bucket exactly when it lists the label |
| Index.AddLabelsSpec | bridges/blog/base.py:169-172 | adding one post's tags creates exactly the missing buckets and appends the post once per occurrence of the tag in its list |
| Index.BucketsSpec | bridges/blog/base.py:169-174 | a bucket exists exactly for each tag some post lists, and holds the posts in listing order, repeated per duplicate tag |
| Index.Labelled | bridges/blog/base.py:109-118 | the posts listing a tag are exactly the posts (each once) whose tags contain it, never more than the input |
| Index.BucketsMatchLabelled | bridges/blog/base.py:169-183 | who is in a tag's bucket (built in listing order) is who `find_posts_by_tag` finds in the sorted posts |
| Base.StepOf | bridges/blog/base.py:163-176 | an entry yields a post only if it is a directory whose text reads, the post named after it and holding its text; a non-directory is skipped |
| Base.StepOfValid | bridges/blog/base.py:163-176 | for a directory, the step is decided by its check both ways: a passed check whose post builds adds exactly that post, a failed check skips, a raising check or build raises; an added post always comes from a passed check |
| Base.CollectedFromListing | bridges/blog/base.py:163-174 | every collected post comes from a listed directory whose text reads, is named after it and has its text |
| Base.CollectsEveryAdded | bridges/blog/base.py:163-174 | conversely, when the refresh does not raise, the post of every listed entry whose step adds it is among the collected posts |
| Base.CollectNoneSticky | bridges/blog/base.py:163-167 | once an entry raises, the whole refresh raises |
| Base.Blog.constructor | bridges/blog/base.py:60-89 | settings stored, post directory is `<base>/post`, nothing served yet |
| Base.Blog.FindPost | bridges/blog/base.py:97-107 | the loop with `break` returns the first served post with the name, `None` otherwise |
| Base.Blog.FindPostsByTag | bridges/blog/base.py:109-118 | the served posts that list the tag, in served order; an unknown tag gives `[]` |
| Base.Blog.Posts | bridges/blog/base.py:120-126 | the served posts (a value copy) |
| Base.Blog.Tags | bridges/blog/base.py:128-134 | the served buckets: a new dictionary with the same keys and the same bucket lists |
| Base.Blog.RssText | bridges/blog/base.py:136-142 | the served feed text |
| Base.Blog.Refresh | bridges/blog/base.py:157-191 | raises, changing nothing, when the post directory is missing or not a directory (`iterdir` raises); otherwise, over the entries `iterdir` lists for it (each a child of it, each once, exactly the children present): raises exactly when an entry raises, and then nothing changes; otherwise the posts are the collected posts sorted newest first, the tags their buckets in listing order, and the feed built from the same sorted list |
| Base.Gather | bridges/blog/base.py:160-176 | the loop collects exactly `Collect` of the listing and builds its tag buckets (hidden posts included) |
| Base.GatherEntry | bridges/blog/base.py:163-176 | one folder of the listing: it raises exactly when `Collect` of the listing up to it raises; otherwise the posts are `Collect` of that prefix and the tag buckets are theirs |
| Base.AddPostTags | bridges/blog/base.py:169-172 | the inner loop appends the post to each of its tags' buckets, creating missing ones |
| Container.Valid | bridges/blog/container.py:111-135 | checks in order: missing text gives `PathFault`, an unreadable one `IoFault`, a first line without `#` `MissingHeadingFault`, a missing metadata file `MetadataMissingFault`, a failed load `MetadataFault`; undecodable text or a metadata file that cannot be opened escapes; a readable heading text with a metadata file that loads gives success carrying the path, the text and the metadata, and success happens only then |
| Container.HeadingTitle | bridges/blog/container.py:95 | the title is a piece of the heading line |
| Container.TitleTrimmed | bridges/blog/container.py:95 | the title has no surrounding whitespace |
| Container.Title | bridges/blog/container.py:95 | the title is a piece of the first line |
| Container.TitleOneLine | bridges/blog/container.py:95 | the title holds no newline |
| Container.TitleOfHeading | bridges/blog/container.py:95 | `#`s, spaces, a title and a newline read back as that title |
| Container.New | bridges/blog/container.py:92-109 | the post has the directory's name, the title, the content and metadata unchanged, and the read time of the rendered content under the metadata's hint; it fails exactly when that read time does |
| Container.NewFromValid | bridges/blog/container.py:93-133 | a post built from a passed check is named after the directory, has its text, and that text starts with `#` |
| Container.InsertAt | bridges/blog/container.py:162-164 | one substitution adds one copy of the prefix per match |
| Container.EraseInsert | bridges/blog/container.py:160-166 | taking the inserted prefixes out again gives back the text |
| Container.RewriteImages | bridges/blog/container.py:159-166 | the loop applies the two rewrite patterns in order |
| Container.RewriteUndone | bridges/blog/container.py:159-166 | with ordered matches, the two rewrites can be undone in reverse order |
| Container.FindImages | bridges/blog/container.py:168-176 | one image per match, at the static URL plus group 1 when non-empty, else group 2 |
| Container.StripHeading | bridges/blog/container.py:178-181 | exactly the first heading match is deleted; no match leaves the text alone |
| Container.PostStaticUrl | bridges/blog/container.py:140 | the post's static URL is `<base>/<name>/content` |
| Container.Render | bridges/blog/container.py:137-153 | images from the original content, paths rewritten, heading stripped unless asked for, then converted |
| Container.Link | bridges/blog/container.py:183-184 | the base URL with the post's name as last segment |
| ReadTime.Label | bridges/blog/read_time.py:30-31 | the plural exactly when the count exceeds one |
| ReadTime.PerWordValue | bridges/blog/read_time.py:14-43 | a word weighs 60/275 = 12/55 seconds |
| ReadTime.WordsOf | bridges/blog/read_time.py:89 | a match has one more word than spaces, so at least one |
| ReadTime.TallyOf | bridges/blog/read_time.py:81-89 | the count is the number of matches and words are never fewer |
| ReadTime.SecondsValue | bridges/blog/read_time.py:91-98 | a pass weighs `per_occurrence*count + per_line*lines + per_word*words` |
| ReadTime.DeleteSpans | bridges/blog/read_time.py:102 | deleting matches never lengthens the text |
| ReadTime.DeleteConserves | bridges/blog/read_time.py:102 | deleted plus remaining characters are the whole text, so no character is counted by two patterns |
| ReadTime.DeleteNothing | bridges/blog/read_time.py:102 | no matches leave the text as it was |
| ReadTime.Passes | bridges/blog/read_time.py:76-102 | one tally per pattern |
| ReadTime.PassesEntry | bridges/blog/read_time.py:81-102 | pass `i` counts its matches in the text earlier passes left and leaves it with those matches deleted |
| ReadTime.WeighErrSticky | bridges/blog/read_time.py:91-100 | a pass or a sum of a day or more aborts the whole construction |
| ReadTime.WeighSums | bridges/blog/read_time.py:91-100 | one valid entry per pattern and the total is their exact sum from zero |
| ReadTime.RunSums | bridges/blog/read_time.py:68-100 | the same for a whole run |
| ReadTime.RunEntry | bridges/blog/read_time.py:76-102 | entry `i` is the count and weighed time of pattern `i` on what earlier patterns left |
| ReadTime.TallyPass | bridges/blog/read_time.py:77-89 | the inner loop computes the tally of the matches |
| ReadTime.Accumulate | bridges/blog/read_time.py:67-106 | the accumulation loop computes exactly the passes, weighed |
| ReadTime.PassesNext | bridges/blog/read_time.py:76-102 | the passes of one more pattern add its tally of what the earlier passes left, and leave that text with its matches deleted |
| ReadTime.AccumulateStep | bridges/blog/read_time.py:91-100 | weighing one more tally fails with the time's error, or with the sum's error, or appends its entry and adds its time to the total |
| ReadTime.New | bridges/blog/read_time.py:67-106 | the constructor strips hinted tags, then runs the `IMPACT` patterns |
| ReadTime.OfShape | bridges/blog/read_time.py:34-44 | a read time lists Image, Caption, Text in order and its total is the exact sum of the three |
| ReadTime.OfWordCount | bridges/blog/read_time.py:74-105 | the word count is the Text pass's words on what Image and Caption left |
| ReadTime.FormattedTimeBreakdown | bridges/blog/read_time.py:108-116 | never more entries than the breakdown |
| ReadTime.FormattedAppend | bridges/blog/read_time.py:108-116 | one more breakdown entry adds exactly its label and formatted time when its count is positive, and nothing otherwise |
| ReadTime.FormattedMembers | bridges/blog/read_time.py:108-116 | a pair is shown exactly when it is the label (singular for a count of one) and formatted time of an entry with a positive count |
| BlogTime.RoundMinuteNearest | bridges/blog/time.py:6-11 | rounding is to the nearest unit, halves up |
| BlogTime.Trunc | bridges/blog/time.py:27 | `int(x)` truncates toward zero |
| BlogTime.Construct | bridges/blog/time.py:27 | `datetime.time` accepts exactly in-range fields |
| BlogTime.FromSecondsInt | bridges/blog/time.py:18-27 | an int is accepted exactly in `[0, 86400)` and decomposes exactly with no microseconds |
| BlogTime.FromSecondsFloat | bridges/blog/time.py:18-27 | a float is accepted exactly in `[0, 86400)`; whole seconds decompose exactly and microseconds are the truncated fraction |
| BlogTime.AddExact | bridges/blog/time.py:48-58 | on valid times the sum succeeds exactly when under a day and its length is the sum of lengths |
| BlogTime.Format | bridges/blog/time.py:29-46 | the blog format always yields a non-empty text |
| BlogTime.FormatMinutes | bridges/blog/time.py:35-37 | under an hour and from a minute on, the minute rounded on the second and "Minute" or "Minutes"; that number is between 1 and 60 and is 1 exactly for one minute and under 30 seconds |
| BlogTime.Str | bridges/blog/time.py:60-61 | `str` is the formatted text |
| BlogTime.FormatSeconds | bridges/blog/time.py:31-34 | under a minute the seconds print unrounded, singular only for one |
| BlogTime.FormatNoCarry | bridges/blog/time.py:35-37 | 59 minutes 45 seconds prints as "60 Minutes" |
| BlogTime.FormatHours | bridges/blog/time.py:38-44 | past an hour the hour is rounded on the raw minute and the minute on the second |
| BlogTime.MillenniaOnlyOutOfRange | bridges/blog/time.py:31-45 | the fallback is reached exactly for negative hour, or zero hour with negative minute |
| RenderPool.CountUsed | bridges/blog/markdown.py:54 | the used count is zero exactly when every slot is unused |
| RenderPool.FirstUnused | bridges/blog/markdown.py:81 | the lowest unused slot, or none when all are used |
| RenderPool.CountUsedClaim | bridges/blog/markdown.py:100 | using a slot adds one to the used count |
| RenderPool.PressureIsEight | bridges/blog/markdown.py:39-57 | refilling needs at least eight used slots |
| RenderPool.Pool.constructor | bridges/blog/markdown.py:39-42 | 32 converters, every slot unused |
| RenderPool.Pool.Claim | bridges/blog/markdown.py:79-101 | the lowest unused slot is marked used and nothing else changes |
| RenderPool.Pool.Render | bridges/blog/markdown.py:77-107 | the text is converted by the converter of the claimed slot |
| RenderPool.Pool.Hydrate | bridges/blog/markdown.py:48-75 | below pressure nothing changes; otherwise every slot ends unused, unused slots keep their converter, used ones get fresh converters in slot order |
| RenderPool.Pool.Refill | bridges/blog/markdown.py:62-70 | the loop over the slots marks every slot unused and gives each used slot the fresh converter of its rank |
| RenderPool.RanksInRange | bridges/blog/markdown.py:54-70 | the fresh converters suffice for all used slots, and no two slots get the same one |
| Rss.Publish | bridges/blog/rss.py:39-46 | the element is `content:encoded`, its text the post rendered without heading inside one CDATA section |
| Rss.BuildItem | bridges/blog/rss.py:55-67 | link and guid are `base/<name>`; title, tags, date, author and description come from the post |
| Rss.Visible | bridges/blog/rss.py:73-77 | a post is kept exactly when it is not hidden |
| Rss.VisibleCounts | bridges/blog/rss.py:73-77 | every non-hidden post is kept as many times as it is listed |
| Rss.VisibleInOrder | bridges/blog/rss.py:71-77 | the kept posts keep their order |
| Rss.BuildFeed | bridges/blog/rss.py:70-91 | items for the non-hidden posts in order, the metadata fields, the content namespace, no docs or generator |
| Rss.FeedCoversVisible | bridges/blog/rss.py:71-77 | every item is a non-hidden post and every non-hidden post has an item |
| BlogUtil.Div | bridges/blog/util.py:34-40 | `/` appends exactly one path segment |
| BlogUtil.EscapedCdataEnd | bridges/blog/util.py:11-12 | the escaped terminator is `]]&gt;` |
| BlogUtil.EscapeKeepsHead | bridges/blog/util.py:31 | escaping never shortens and keeps the first two characters |
| BlogUtil.EscapedHasNoTerminator | bridges/blog/util.py:31 | escaped text holds no `]]>` |
| BlogUtil.EncodeAsCdata | bridges/blog/util.py:29-31 | the section starts with `<![CDATA[` and ends exactly at its final `]]>`, none before |
| BlogUtil.EncodeAsCdataVerbatim | bridges/blog/util.py:29-31 | text without `]]>` is wrapped unchanged |
| BlogUtil.Uncapitalize | bridges/blog/util.py:15-18 | `""` stays `""`; otherwise only the first character is lowered, length kept |
| BlogUtil.UncapitalizeIdempotent | bridges/blog/util.py:15-18 | uncapitalizing twice is uncapitalizing once |
| License.CcLicenseUrls | bridges/blog/license.py:7-20 | the deed URL `<cc base>/<key>/4.0/` and the button `<button base>/<key>/transparent/00/00/00/88x31.png` |
| License.AdaptKey | bridges/blog/license.py:46-47 | upper-cased with every `-` turned into `_` |
| License.TextFromKey | bridges/blog/license.py:43-50 | the text licence whose name is the adapted key, `None` exactly when there is none |
| License.CodeFromKey | bridges/blog/license.py:43-50 | the same for code licences |
| License.AdaptByNcNd | bridges/blog/license.py:46-48 | `"by-nc-nd"` adapts to `BY_NC_ND` and finds it |
| License.CcKeyRoundTrip | bridges/blog/license.py:53-71 | each text licence's URL key looks it up again |
| License.UnknownTextKey | bridges/blog/license.py:48 | an unknown key yields `None` |
| License.MemberSets | bridges/blog/license.py:53-86 | six text members, six code members, `UNLICENSED` alone has value `None` |
| FaultBase.IoDescription | bridges/blog/fault/base.py:30-37 | the fixed prefix, the file part exactly when there is a filename |
| FaultBase.IoDescriptionRoundTrip | bridges/blog/fault/base.py:34-37 | the filename reads back out of the description |
| FaultBase.JsonPosition | bridges/blog/fault/base.py:48-51 | the position part opens with ` (line: ` and ends in `)` |
| FaultBase.JsonPositionInjective | bridges/blog/fault/base.py:44-52 | line, column and character read back: equal texts ending in positions have equal heads and equal line, column and char numbers |
| FaultBase.JsonDescription | bridges/blog/fault/base.py:44-52 | the prefix, `: `, the uncapitalized message, then the position |
| FaultBase.JsonDescriptionInjective | bridges/blog/fault/base.py:44-52 | two decode errors with the same description have the same uncapitalized message and the same line, column and char |
| ModelFault.RenderError | bridges/blog/fault/model.py:30-38 | message, type and loc parts joined by single spaces, empty parts kept |
| ModelFault.ValidationDescription | bridges/blog/fault/model.py:28-42 | the fixed prefix; exactly that prefix when there are no errors |
| ModelFault.ValidationDescriptionAppend | bridges/blog/fault/model.py:39-42 | one more error is joined with `, ` inside the same parentheses, after the errors before it |
| ModelFault.Description | bridges/blog/fault/model.py:10-42 | every kind of model fault's description opens with `error occurred while ` |
| ModelFault.SingleValidationError | bridges/blog/fault/model.py:39-42 | one error renders inside one pair of parentheses |
| ModelFault.EmptyErrorRendersSpaces | bridges/blog/fault/model.py:30-38 | an error without keys renders as two spaces |
| ModelFault.OnlyFirstLocShown | bridges/blog/fault/model.py:35 | only `loc[0]` is shown |
| ModelFault.KindsDistinguishable | bridges/blog/fault/model.py:10-42 | each kind starts with its own prefix, and they differ |
| PostFault.Description | bridges/blog/fault/post.py:13-50 | the fixed no-heading message describes a missing heading and no other fault; I/O and metadata faults open with `error occurred while ` |
| PostFault.Into | bridges/blog/fault/post.py:45-50 | the wrapped fault has the same description |
| PostFault.IntoWrap | bridges/blog/fault/post.py:45-46 | `into` returns the wrapped fault unchanged |
| PostFault.PathRoundTrip | bridges/blog/fault/post.py:13-38 | the path reads back out of a path or missing-metadata description |
| PostFault.IoDescriptionsCoincide | bridges/blog/fault/post.py:22-23 | a post I/O fault and a wrapped model I/O fault describe alike but differ |
| Metadata.New | bridges/blog/helper.py:18-36 | read errors become `IoFault`, decode errors `JsonDecodeFault`, schema errors `ValidationFault`; a failed open or undecodable text escapes |
| Pattern.ValidMarkdownExamples | bridges/blog/pattern.py:7 | `#` first makes a heading, anything else does not |
| RootUtil.SafeExecute | util.py:17-21 | the call's value, the default for a handled exception, the exception otherwise |
| RootUtil.SafeExecuteContains | util.py:17-21 | a handled exception never escapes |
| RootUtil.AllMatchCondition | util.py:32-36 | true exactly when all elements pass; stops right after the first failure |
| RootUtil.ClampIndex | util.py:44-45 | a bound in range is kept, a negative one in range counts from the end, one past the end clamps to the length and one before the start to zero |
| RootUtil.IndexRangeFromPair | util.py:44-45 | `s[a:b]`, empty when the bounds cross |
| RootUtil.SliceFromEnd | util.py:44-45 | negative bounds count from the end |
| RootUtil.TraverseErrSticky | util.py:48-54 | the first failing subscript decides |
| RootUtil.TraverseCompose | util.py:48-54 | traversing by `a + b` is by `a` then `b` |
| RootUtil.TraverseCollection | util.py:48-54 | the loop subscripts left to right; no keys gives the collection itself |
| LegacyReadTime.Format | bridges/blog.py:213-239 | fails exactly unless hour is zero and minute non-negative (the `hours` attribute error) |
| LegacyReadTime.FormatAgrees | bridges/blog.py:213-244 | on valid times it fails exactly from an hour on, agrees with the newer format otherwise, never prints Millennia |
| LegacyReadTime.Pretty | bridges/blog.py:276-284 | succeeds exactly when every non-zero entry formats |
| LegacyReadTime.PrettyMatchesShown | bridges/blog.py:276-284 | under an hour it lists the same labels and texts as the newer breakdown |
| LegacyReadTime.NewOkUnderAnHour | bridges/blog.py:265-285 | the read time is built exactly when the passes succeed and the total is under an hour |
| LegacyReadTime.NewShape | bridges/blog.py:491-523 | Image, Code Block, Caption, Text in that order, exact total, words of the last pass |
| LegacyPost.ReadText | bridges/blog.py:386 | reading succeeds exactly for a readable file; missing or a directory raises an `OSError` naming the path |
| LegacyPost.FirstFailing | bridges/blog.py:115-118 | all before pass, the one at it does not |
| LegacyPost.FirstFailure | bridges/blog.py:114-122 | success exactly when all pass; else the first failure's message, or its exception and no message |
| LegacyPost.Validate | bridges/blog.py:114-122 | the loop returns that result, calling validators only up to the first failure |
| LegacyPost.HeadingCheck | bridges/blog.py:430-440 | raises exactly when the text cannot be read, else tells whether the first line is a heading |
| LegacyPost.TextChecksAsWrittenMissing | bridges/blog.py:426-429 | as written, a missing text reports the exception and no message |
| LegacyPost.TextChecksMissing | bridges/blog.py:426-429 | corrected, the message "path to post does not exist" is reported exactly when the text is missing |
| LegacyPost.TextChecksAgree | bridges/blog.py:424-444 | both versions pass exactly for a readable text with a heading, and agree when the file exists |
| LegacyPost.HasCodeConcat | bridges/blog.py:487-489 | code found in a part is found in the whole |
| LegacyPost.HasCodeExamples | bridges/blog.py:55-56 | a fence with a language is code, a bare fence is not |
| LegacyPost.TextKey | bridges/blog.py:142-161 | a key of `TEXT_LICENSES` names its licence; any other names none |
| LegacyPost.StringsOf | bridges/blog.py:306 | accepted exactly when every element is a string |
| LegacyPost.DateOf | bridges/blog.py:305 | an int of at least one (`true` counting as one) |
| LegacyPost.LicenseOf | bridges/blog.py:299-315 | exactly `text`, plus `code` (which must be `mit`) exactly when the post has code |
| LegacyPost.Schema | bridges/blog.py:299-351 | required keys present, no unknown key, date at least one, code licence exactly with code, strings kept, `hidden` defaults to false |
| LegacyPost.SchemaEncode | bridges/blog.py:299-351 | every metadata value with a positive date is accepted back from its document |
| LegacyPost.SchemaChoosesByCode | bridges/blog.py:309-315 | no document passes both schemas |
| LegacyPost.LoadMetadata | bridges/blog.py:328-351 | read and decode errors escape; otherwise the schema's verdict |
| LegacyPost.Valid | bridges/blog.py:416-457 | false without a readable heading text or without metadata; otherwise the metadata's verdict under the text's code flag, or its escaping error |
| LegacyPost.ImagePath | bridges/blog.py:474-475 | a relative href lies under the content folder; an absolute one replaces it and starts at its root, as pathlib's `/` does |
| LegacyPost.AbsoluteImagePath | bridges/blog.py:474-475 | for an absolute href the content folder makes no difference |
| LegacyPost.LegacyImages | bridges/blog.py:468-485 | one image per match, its path the href joined to the content folder, URL the base plus the file name |
| LegacyPost.LegacyImagesAgree | bridges/blog.py:294-295 | for a plain file name the URL is the newer blog's |
| LegacyPost.NewSpec | bridges/blog.py:379-411 | `None` exactly when invalid; a post exactly when valid with a read time; named after the directory, with its schema's metadata and code flag |
| LegacyBlog.Visible | bridges/blog.py:662 | a post is kept exactly when not hidden |
| LegacyBlog.VisibleCounts | bridges/blog.py:662 | every non-hidden post is kept as many times as it is listed |
| LegacyBlog.ItemOf | bridges/blog.py:660-675 | link and guid are `base/<name>`; title, description, date, tags from the post |
| LegacyBlog.TagBucketsSpec | bridges/blog.py:677-680 | a tag's bucket holds exactly the non-hidden posts listing it |
| LegacyBlog.AuthorBucketsSpec | bridges/blog.py:682-685 | an author's bucket holds exactly the non-hidden posts by them |
| LegacyBlog.FeedItemsVisible | bridges/blog.py:662-675 | every non-hidden post has its item, every item is a non-hidden post's |
| LegacyBlog.TagBucketsAppend | bridges/blog.py:677-680 | a hidden post changes no tag bucket |
| LegacyBlog.AuthorBucketsAppend | bridges/blog.py:682-685 | a hidden post changes no author bucket |
| LegacyBlog.ItemsAppend | bridges/blog.py:662-675 | a post that is not hidden adds its item at the end; a hidden post adds no item |
| LegacyBlog.StepOf | bridges/blog.py:654-659 | a post only from a directory whose post is valid, named after it |
| LegacyBlog.StepOfNew | bridges/blog.py:654-659 | for a directory, a built post is added, an invalid one (`None`) skipped, and an exception from `Post(...)` raised |
| LegacyBlog.CollectedFromListing | bridges/blog.py:654-687 | every collected post comes from a listed valid directory |
| LegacyBlog.CollectsEveryAdded | bridges/blog.py:654-687 | conversely, when no entry raises, the post of every listed entry whose step adds it is among the collected posts |
| LegacyBlog.CollectRaisedSticky | bridges/blog.py:654-656 | once an entry raises, the refresh raises that exception |
| LegacyBlog.Blog.constructor | bridges/blog.py:552-582 | settings stored, post directory `<base>/post`, nothing served yet |
| LegacyBlog.Blog.FindPost | bridges/blog.py:590-600 | the first served post with the name, else `None` |
| LegacyBlog.Blog.FindPostsByTag | bridges/blog.py:602-611 | the served posts listing the tag, hidden ones included |
| LegacyBlog.Blog.Posts | bridges/blog.py:613-619 | the served posts |
| LegacyBlog.Blog.Tags | bridges/blog.py:621-627 | the served tag buckets: a new dictionary with the same keys and the same bucket lists |
| LegacyBlog.Blog.Authors | bridges/blog.py:629-635 | the served author buckets, copied the same shallow way |
| LegacyBlog.Blog.RssText | bridges/blog.py:637-643 | the served feed text |
| LegacyBlog.Blog.Refresh | bridges/blog.py:645-705 | a missing or non-directory post directory escapes as an `OSError` naming it, changing nothing; otherwise, over the entries `iterdir` lists for it: raises exactly the first entry's exception, then nothing changes; otherwise the posts sorted newest first, buckets and feed of the non-hidden posts in listing order |
| LegacyBlog.Gather | bridges/blog.py:648-687 | the loop collects exactly `Collect`, with the buckets and items of its non-hidden posts |
| LegacyBlog.GatherEntry | bridges/blog.py:654-687 | one folder of the listing: it raises exactly when `Collect` of the listing up to it raises, with that exception; otherwise the posts are `Collect` of that prefix, with the tag and author buckets and the feed items of those not hidden |
| LegacyBlog.IndexPost | bridges/blog.py:659-687 | one loop round keeps buckets and items equal to those of the posts so far |
| LegacyBlog.AddPostTags | bridges/blog.py:677-680 | the inner loop appends the post to each of its tags' buckets |

## Left out

- RenderPool.Pool.Render: models a call that misses `render`'s `lru_cache`. A cache hit returns the earlier text without claiming a slot; the cache is not modelled.
- Base.Blog.Tags, LegacyBlog.Blog.Tags and LegacyBlog.Blog.Authors: `dict.copy()` is shallow, so the caller shares the bucket lists with the blog and could change them. The model returns map values and does not capture that aliasing.
- Concurrency is not modelled: the reader-writer lock and the legacy `Lock`, the render pool's lock, condition variable, event and hydration thread, and `render`'s wait when no slot is free. `RenderPool.Pool.Claim` reports that case as `None`, and `RenderPool.Pool.Hydrate` models one round of the thread's loop.
- RenderPool.Pool.Refill: the `IndexError` exit of the refill loop is not modelled. Without other threads claiming slots between the count and the refill, exactly as many converters are built as there are used slots, so it cannot be reached.
- Filesystem watching and the `Observer`, and the call to the first refresh made by both `__init__`s. The constructors stop before it; `Refresh` is the refresh.
- Directory listing order is the `listing` parameter of the refresh, which must be an `iterdir` of the post directory when that directory exists: its children, each once, in an order the model does not fix. The filesystem is a map from path to a directory or a file with the outcome of reading it.
- The regular expressions other than `VALID_MARKDOWN` and `HAS_CODE` are matchers passed in. So are Markdown conversion, BeautifulSoup tag stripping, `json.loads`, pydantic's `parse_obj` and the RSS/XML serializer. Markdown's `reset` in the older module is part of the oracle.
- `furl` URL encoding: a URL is an origin and its path segments, and `/` appends one segment.
- Floating point: weights, seconds and fractions are exact reals, not IEEE doubles.
- Dates: `datetime.now()` is a parameter, and a post's date is its POSIX timestamp (`constant.py` is not part of this model). `Date`'s `fromtimestamp` and `strftime` are left out.
- `\w` in `HAS_CODE` is its ASCII part; Python's Unicode word characters and case mapping are not modelled.
- Python dict order is modelled only where the source relies on it: the order of buckets and of `IMPACT`. The buckets are maps.
- Logging (`warning`, `info`, `capture_trace`) and the warning for images that do not exist.
- The legacy `Image` stores `path.absolute()`; the model keeps the path as joined, without resolving it against the working directory.
- Voluptuous' error messages: the legacy schema returns only whether it accepted the document.
- `LegacyPost.SchemaEncode`: stated only for a code licence of `None` or MIT, because `CODE_LICENSES` has no other key.
- `ReadTime.FormattedTimeBreakdown`: its own contract only bounds the length; what it contains is stated by `ReadTime.FormattedAppend` and `ReadTime.FormattedMembers`.
- `BlogTime.Format`: its own contract only says the text is non-empty; the branches are stated by `BlogTime.FormatSeconds`, `BlogTime.FormatMinutes`, `BlogTime.FormatNoCarry`, `BlogTime.FormatHours` and `BlogTime.MillenniaOnlyOutOfRange`.
- `FaultBase.JsonPosition`: its own contract states the frame ` (line: …)`; that the line, column and char numbers read back out of it is stated by `FaultBase.JsonPositionInjective`.
- `ReadTime.Passes`: its own contract only counts the tallies; what each pass does is stated by `ReadTime.PassesEntry`.
- The metadata models' other validators (pydantic field types) are part of the `parseObj` oracle.

## Findings

| source | as written | input that shows it | evidently intended | confidence | as-written member | corrected member |
|---|---|---|---|---|---|---|
| bridges/blog.py:427 | the first validator returns the bound method `text_path.exists` without calling it. A method object is always true, so the check never fails. | a post directory without `text.md`: the second validator raises `FileNotFoundError`, and the result carries that exception with no message | call `exists()`, so that a missing text is reported as "path to post does not exist" | high, not executed | LegacyPost.TextChecksAsWrittenMissing | LegacyPost.TextChecksMissing |
