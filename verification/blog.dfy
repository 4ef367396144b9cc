/** The post list of src/components/BlogList.tsx: every post named in the
    blog index is read, its front matter becomes a preview, the unpublished
    ones are dropped and the rest are ordered newest first.

    The fetches are parameters: `index` is the list of names the index file
    gave (`None` when the request was rejected or its body is not a JSON
    array) and `fetchPost` the text of a post (`None` when the request was
    rejected).  A post answered with an error status is not a failure, since
    no `response.ok` is checked: its text is the error page, which normally
    has no front matter and so becomes an unpublished preview that is
    dropped.  `time` stands for
    `new Date(date).getTime()`, an abstract timestamp of the optional date. */
module Blog {
  import opened Text
  import opened FrontMatter

  /** What the list shows of a post; a field is `None` where the front
      matter does not define it. */
  datatype Preview = Preview(
    title: Option<string>,
    date: Option<string>,
    author: Option<string>,
    excerpt: Option<string>,
    slug: Option<string>,
    published: bool)

  function Field(data: map<string, string>, k: string): (r: Option<string>)
    ensures r.Some? <==> k in data
    ensures r.Some? ==> r.value == data[k]
  {
    if k in data then Some(data[k]) else None
  }

  /** The preview of one post's front matter: a post is published exactly
      when its "published" value is the string "true". */
  function ToPreview(data: map<string, string>): (p: Preview)
    ensures p.published <==> "published" in data && data["published"] == "true"
    ensures p.title == Field(data, "title") && p.date == Field(data, "date")
    ensures p.author == Field(data, "author") && p.excerpt == Field(data, "excerpt")
    ensures p.slug == Field(data, "slug")
  {
    Preview(Field(data, "title"), Field(data, "date"), Field(data, "author"),
            Field(data, "excerpt"), Field(data, "slug"), Field(data, "published") == Some("true"))
  }

  /** Whether a front matter text publishes its post, read line by line: the
      last line that defines "published" decides, and it must say "true". */
  lemma {:induction false} PublishedByLastLine(text: string, i: nat)
    requires var lines := Split(text, '\n');
      && i < |lines| && Defines(lines[i], "published")
      && forall j :: i < j < |lines| ==> !Defines(lines[j], "published")
    ensures ToPreview(ParseData(text)).published <==> LineEntry(Split(text, '\n')[i]).value.1 == "true"
  {
    LastDefinitionWins(Split(text, '\n'), "published", i);
  }

  /** A front matter text where no line defines "published" leaves the post
      unpublished. */
  lemma {:induction false} UnpublishedWithoutLine(text: string)
    requires forall j :: 0 <= j < |Split(text, '\n')| ==> !Defines(Split(text, '\n')[j], "published")
    ensures !ToPreview(ParseData(text)).published
  {
    UndefinedKeyAbsent(Split(text, '\n'), "published");
    NotPublishedWithoutKey(ParseData(text));
  }

  /** Without a "published" key the post is not published. */
  lemma NotPublishedWithoutKey(data: map<string, string>)
    requires "published" !in data
    ensures !ToPreview(data).published
  {
  }

  // ---------------------------------------------------------------------
  // The published filter

  /** `loadedPosts.filter(post => post.published)`. */
  function Published(posts: seq<Preview>): (r: seq<Preview>)
    ensures |r| <= |posts|
  {
    if posts == [] then []
    else (if posts[0].published then [posts[0]] else []) + Published(posts[1..])
  }

  /** The filter works piece by piece. */
  lemma {:induction false} PublishedAppend(a: seq<Preview>, b: seq<Preview>)
    ensures Published(a + b) == Published(a) + Published(b)
    decreases |a|
  {
    if a != [] {
      assert (a + b)[0] == a[0];
      assert (a + b)[1..] == a[1..] + b;
      PublishedAppend(a[1..], b);
    } else {
      assert a + b == b;
    }
  }

  /** A post is kept exactly when it is published. */
  lemma {:induction false} PublishedMembers(posts: seq<Preview>, p: Preview)
    ensures p in Published(posts) <==> p in posts && p.published
    decreases |posts|
  {
    if posts != [] {
      PublishedMembers(posts[1..], p);
      assert posts == [posts[0]] + posts[1..];
    }
  }

  /** Every published post is kept, each as often as it occurs. */
  lemma {:induction false} PublishedKeepsCount(posts: seq<Preview>, p: Preview)
    ensures multiset(Published(posts))[p] == if p.published then multiset(posts)[p] else 0
    decreases |posts|
  {
    if posts != [] {
      PublishedKeepsCount(posts[1..], p);
      assert posts == [posts[0]] + posts[1..];
    }
  }

  // ---------------------------------------------------------------------
  // Newest first

  predicate NewestFirst(posts: seq<Preview>, time: Option<string> -> int) {
    forall i, j :: 0 <= i < j < |posts| ==> time(posts[i].date) >= time(posts[j].date)
  }

  /** The posts dated exactly `t`, in their order. */
  function SameTime(posts: seq<Preview>, time: Option<string> -> int, t: int): (r: seq<Preview>)
    ensures |r| <= |posts|
  {
    if posts == [] then []
    else (if time(posts[0].date) == t then [posts[0]] else []) + SameTime(posts[1..], time, t)
  }

  /** Puts `p` before the first post that is not newer than it. */
  function Insert(p: Preview, posts: seq<Preview>, time: Option<string> -> int): (r: seq<Preview>)
    ensures multiset(r) == multiset(posts) + multiset{p}
  {
    if posts == [] || time(posts[0].date) <= time(p.date) then [p] + posts
    else
      assert posts == [posts[0]] + posts[1..];
      [posts[0]] + Insert(p, posts[1..], time)
  }

  /** Inserting into a newest-first list keeps it newest first. */
  lemma {:induction false} InsertKeepsOrder(p: Preview, posts: seq<Preview>, time: Option<string> -> int)
    requires NewestFirst(posts, time)
    ensures NewestFirst(Insert(p, posts, time), time)
    decreases |posts|
  {
    if posts == [] || time(posts[0].date) <= time(p.date) {
      NewestFirstCons(p, posts, time);
    } else {
      NewestFirstTail(posts, time);
      InsertKeepsOrder(p, posts[1..], time);
      InsertBounded(p, posts[1..], time, time(posts[0].date));
      NewestFirstCons(posts[0], Insert(p, posts[1..], time), time);
    }
  }

  /** A newest-first list without its first post is still newest first, and
      that post is at least as new as all the others. */
  lemma NewestFirstTail(posts: seq<Preview>, time: Option<string> -> int)
    requires posts != [] && NewestFirst(posts, time)
    ensures NewestFirst(posts[1..], time)
    ensures forall i :: 0 <= i < |posts[1..]| ==> time(posts[1..][i].date) <= time(posts[0].date)
  {
    forall i, j | 0 <= i < j < |posts[1..]| ensures time(posts[1..][i].date) >= time(posts[1..][j].date) {
      assert posts[1..][i] == posts[i + 1] && posts[1..][j] == posts[j + 1];
    }
  }

  /** A post at least as new as every post of a newest-first list can go in
      front of it. */
  lemma NewestFirstCons(x: Preview, posts: seq<Preview>, time: Option<string> -> int)
    requires NewestFirst(posts, time)
    requires forall q :: q in posts ==> time(q.date) <= time(x.date)
    ensures NewestFirst([x] + posts, time)
  {
    var r := [x] + posts;
    forall i, j | 0 <= i < j < |r| ensures time(r[i].date) >= time(r[j].date) {
      assert r[j] == posts[j - 1];
      if i > 0 {
        assert r[i] == posts[i - 1];
      } else {
        assert r[j] in posts;
      }
    }
  }

  /** No post newer than a bound appears by inserting one that is not. */
  lemma InsertBounded(p: Preview, posts: seq<Preview>, time: Option<string> -> int, t: int)
    requires time(p.date) <= t
    requires forall i :: 0 <= i < |posts| ==> time(posts[i].date) <= t
    ensures forall q :: q in Insert(p, posts, time) ==> time(q.date) <= t
  {
    var r := Insert(p, posts, time);
    forall q | q in r ensures time(q.date) <= t {
      assert q in multiset(r);
      if q != p {
        assert q in multiset(posts);
      }
    }
  }

  /** `publishedPosts.sort((a, b) => time(b.date) - time(a.date))`: the
      comparison sort of JavaScript is stable, so posts of the same date keep
      their order; modelled as an insertion sort from the back. */
  function SortNewestFirst(posts: seq<Preview>, time: Option<string> -> int): (r: seq<Preview>)
    ensures multiset(r) == multiset(posts)
    ensures NewestFirst(r, time)
  {
    if posts == [] then []
    else
      assert posts == [posts[0]] + posts[1..];
      InsertKeepsOrder(posts[0], SortNewestFirst(posts[1..], time), time);
      Insert(posts[0], SortNewestFirst(posts[1..], time), time)
  }

  /** Inserting a post adds it to the front of its own date's posts and
      leaves the other dates' posts alone. */
  lemma {:induction false} InsertSameTime(p: Preview, posts: seq<Preview>, time: Option<string> -> int, t: int)
    ensures SameTime(Insert(p, posts, time), time, t)
      == (if time(p.date) == t then [p] else []) + SameTime(posts, time, t)
    decreases |posts|
  {
    if posts == [] || time(posts[0].date) <= time(p.date) {
      SameTimeCons(p, posts, time, t);
    } else {
      var rest := Insert(p, posts[1..], time);
      InsertSameTime(p, posts[1..], time, t);
      assert Insert(p, posts, time) == [posts[0]] + rest;
      SameTimeCons(posts[0], rest, time, t);
      assert posts == [posts[0]] + posts[1..];
      SameTimeCons(posts[0], posts[1..], time, t);
      var mine: seq<Preview> := if time(p.date) == t then [p] else [];
      var head: seq<Preview> := if time(posts[0].date) == t then [posts[0]] else [];
      assert head == [] || mine == [];
      assert head + (mine + SameTime(posts[1..], time, t)) == mine + (head + SameTime(posts[1..], time, t));
    }
  }

  /** The posts of one date in a list with a post in front. */
  lemma SameTimeCons(x: Preview, posts: seq<Preview>, time: Option<string> -> int, t: int)
    ensures SameTime([x] + posts, time, t) == (if time(x.date) == t then [x] else []) + SameTime(posts, time, t)
  {
    assert ([x] + posts)[0] == x && ([x] + posts)[1..] == posts;
  }

  /** Stability: the posts of any one date come out in the order they came
      in. */
  lemma {:induction false} SortIsStable(posts: seq<Preview>, time: Option<string> -> int, t: int)
    ensures SameTime(SortNewestFirst(posts, time), time, t) == SameTime(posts, time, t)
    decreases |posts|
  {
    if posts != [] {
      SortIsStable(posts[1..], time, t);
      InsertSameTime(posts[0], SortNewestFirst(posts[1..], time), time, t);
    }
  }

  /** A list that is already newest first is left as it is. */
  lemma {:induction false} SortKeepsOrdered(posts: seq<Preview>, time: Option<string> -> int)
    requires NewestFirst(posts, time)
    ensures SortNewestFirst(posts, time) == posts
    decreases |posts|
  {
    if posts != [] {
      assert NewestFirst(posts[1..], time);
      SortKeepsOrdered(posts[1..], time);
      var rest := posts[1..];
      assert rest == [] || time(rest[0].date) <= time(posts[0].date);
    }
  }

  // ---------------------------------------------------------------------
  // Loading the list

  /** `loadPosts`: a rejected request or an index that is not an array
      leaves the list empty (the error is only logged); otherwise the published previews, newest first, at most
      one per name in the index. */
  function LoadPosts(index: Option<seq<string>>, fetchPost: string -> Option<string>,
                     time: Option<string> -> int): (r: seq<Preview>)
    ensures NewestFirst(r, time)
    ensures forall p :: p in r ==> p.published
    ensures index.None? ==> r == []
    ensures index.Some? && (exists i :: 0 <= i < |index.value| && fetchPost(index.value[i]).None?) ==> r == []
    ensures index.Some? ==> |r| <= |index.value|
  {
    match index
    case None => []
    case Some(names) =>
      if exists i :: 0 <= i < |names| && fetchPost(names[i]).None? then []
      else
        var loaded := Previews(Texts(names, fetchPost));
        SortedPublished(loaded, time);
        SortNewestFirst(Published(loaded), time)
  }

  /** Sorting the published previews keeps only published ones and no more
      than there were. */
  lemma SortedPublished(loaded: seq<Preview>, time: Option<string> -> int)
    ensures var r := SortNewestFirst(Published(loaded), time);
      && (forall p :: p in r ==> p.published)
      && |r| <= |loaded|
  {
    var r := SortNewestFirst(Published(loaded), time);
    forall p | p in r ensures p.published {
      assert p in multiset(r);
      PublishedMembers(loaded, p);
    }
    assert |r| == |multiset(r)| == |multiset(Published(loaded))| == |Published(loaded)|;
  }

  /** The texts of the posts the index names, in index order. */
  function Texts(names: seq<string>, fetchPost: string -> Option<string>): (r: seq<string>)
    requires forall i :: 0 <= i < |names| ==> fetchPost(names[i]).Some?
    ensures |r| == |names|
    ensures forall i :: 0 <= i < |names| ==> Some(r[i]) == fetchPost(names[i])
  {
    seq(|names|, i requires 0 <= i < |names| => fetchPost(names[i]).value)
  }

  /** The preview of each text, in order. */
  function Previews(texts: seq<string>): (r: seq<Preview>)
    ensures |r| == |texts|
    ensures forall i :: 0 <= i < |texts| ==> r[i] == ToPreview(ParseFrontmatter(texts[i]).data)
  {
    seq(|texts|, i requires 0 <= i < |texts| => ToPreview(ParseFrontmatter(texts[i]).data))
  }

  /** When every request succeeds, the list holds each published preview as
      often as the index lists it, and no other, and the posts of one date
      keep their index order. */
  lemma LoadPostsContents(names: seq<string>, fetchPost: string -> Option<string>,
                          time: Option<string> -> int, p: Preview, t: int)
    requires forall i :: 0 <= i < |names| ==> fetchPost(names[i]).Some?
    ensures var loaded := Previews(Texts(names, fetchPost));
      var r := LoadPosts(Some(names), fetchPost, time);
      && multiset(r)[p] == (if p.published then multiset(loaded)[p] else 0)
      && SameTime(r, time, t) == SameTime(Published(loaded), time, t)
  {
    var loaded := Previews(Texts(names, fetchPost));
    assert LoadPosts(Some(names), fetchPost, time) == SortNewestFirst(Published(loaded), time);
    PublishedKeepsCount(loaded, p);
    SortIsStable(Published(loaded), time, t);
  }
}
