/**
  The post queries of src/lib/blog.ts: featured posts, substring search and related posts.
  `generateTOC` lives in module Toc.
*/
module Blog {
  import opened Wrappers
  import opened Seqs
  import opened Text
  import opened Posts
  import opened Mdx

  // ---------------------------------------------------------------- featured

  predicate IsFeatured(p: Post)
  {
    p.frontmatter.featured
  }

  /** `getFeaturedPosts`: the featured posts, in input order. */
  function FeaturedPosts(posts: seq<Post>): (r: seq<Post>)
    ensures IsSubseq(r, posts)
    ensures forall p {:trigger multiset(r)[p]} :: multiset(r)[p] == if p.frontmatter.featured then multiset(posts)[p] else 0
  {
    Filter(IsFeatured, posts)
  }

  /** Some post is featured exactly when `getFeaturedPosts` returns a post. */
  lemma FeaturedAny(posts: seq<Post>)
    ensures |FeaturedPosts(posts)| > 0 <==> exists p :: p in posts && p.frontmatter.featured
  {
    var r := FeaturedPosts(posts);
    if |r| > 0 {
      assert multiset(r)[r[0]] > 0;
    }
    if p :| p in posts && p.frontmatter.featured {
      assert multiset(r)[p] > 0;
    }
  }

  // ---------------------------------------------------------------- search

  /** The callback of `searchPosts`, given the already lowercased query. */
  predicate MatchesQuery(p: Post, lowerQuery: string)
  {
    || Contains(LowerStr(p.frontmatter.title), lowerQuery)
    || Contains(LowerStr(p.frontmatter.summary), lowerQuery)
    || exists i :: 0 <= i < |p.frontmatter.tags| && Contains(LowerStr(p.frontmatter.tags[i]), lowerQuery)
  }

  /**
    `searchPosts`: the posts whose lowercased title, summary or one of whose lowercased tags
    includes the lowercased query, in input order.
  */
  function SearchPosts(posts: seq<Post>, query: string): (r: seq<Post>)
    ensures IsSubseq(r, posts)
    ensures forall p {:trigger multiset(r)[p]} ::
      multiset(r)[p] == if MatchesQuery(p, LowerStr(query)) then multiset(posts)[p] else 0
  {
    var lowerQuery := LowerStr(query);
    Filter((p: Post) => MatchesQuery(p, lowerQuery), posts)
  }

  /** Every string includes `""`, so the empty query keeps every post. */
  lemma SearchEmptyQuery(posts: seq<Post>)
    ensures SearchPosts(posts, "") == posts
  {
    forall p | p in posts ensures MatchesQuery(p, LowerStr("")) {
      assert LowerStr("") == "";
      ContainsEmpty(LowerStr(p.frontmatter.title));
    }
    FilterAll((p: Post) => MatchesQuery(p, LowerStr("")), posts);
  }

  /** A post none of whose searched fields holds a space does not match the query `" "`. */
  lemma NoSpaceNoMatch(p: Post)
    requires ' ' !in p.frontmatter.title && ' ' !in p.frontmatter.summary
    requires forall i :: 0 <= i < |p.frontmatter.tags| ==> ' ' !in p.frontmatter.tags[i]
    ensures !MatchesQuery(p, LowerStr(" "))
  {
    assert LowerStr(" ") == " ";
    LowerStrSpace(p.frontmatter.title);
    LowerStrSpace(p.frontmatter.summary);
    ContainsChar(LowerStr(p.frontmatter.title), ' ');
    ContainsChar(LowerStr(p.frontmatter.summary), ' ');
    forall i | 0 <= i < |p.frontmatter.tags| ensures !Contains(LowerStr(p.frontmatter.tags[i]), " ") {
      LowerStrSpace(p.frontmatter.tags[i]);
      ContainsChar(LowerStr(p.frontmatter.tags[i]), ' ');
    }
  }

  /** The query is not trimmed: a single space is not the empty query. */
  lemma SearchSpaceNotIdentity()
    ensures var p := Post("a", Frontmatter("Intro", 0, ["ctf"], "Notes", None, None, false, false), "", "1 min read");
            SearchPosts([p], " ") == []
  {
    var p := Post("a", Frontmatter("Intro", 0, ["ctf"], "Notes", None, None, false, false), "", "1 min read");
    NoSpaceNoMatch(p);
  }

  // ---------------------------------------------------------------- related posts

  /** The default of `limit` in `getRelatedPosts(currentPost, allPosts, limit = 3)`. */
  const DefaultRelatedLimit := 3

  /** The number of `post`'s tags, duplicates included, whose lowercase is among `currentTags`. */
  function MatchCount(post: Post, currentTags: seq<string>): nat
  {
    |Filter((t: string) => LowerStr(t) in currentTags, post.frontmatter.tags)|
  }

  /** The score `getRelatedPosts` gives `post` with respect to `current`. */
  function Score(current: Post, post: Post): nat
  {
    MatchCount(post, LowerAll(current.frontmatter.tags))
  }

  function ScoreBy(current: Post): Post -> int
  {
    p => Score(current, p)
  }

  /** `post` and `current` share a tag, compared case-insensitively. */
  predicate SharesTag(current: Post, post: Post)
  {
    exists i, j :: 0 <= i < |post.frontmatter.tags| && 0 <= j < |current.frontmatter.tags|
      && LowerStr(post.frontmatter.tags[i]) == LowerStr(current.frontmatter.tags[j])
  }

  /** A positive score means exactly that the two posts share a tag. */
  lemma ScorePositive(current: Post, post: Post)
    ensures Score(current, post) > 0 <==> SharesTag(current, post)
  {
    var currentTags := LowerAll(current.frontmatter.tags);
    var tags := post.frontmatter.tags;
    var matching := Filter((t: string) => LowerStr(t) in currentTags, tags);
    if Score(current, post) > 0 {
      var t := matching[0];
      assert t in tags && LowerStr(t) in currentTags;
      var i :| 0 <= i < |tags| && tags[i] == t;
      var j :| 0 <= j < |currentTags| && currentTags[j] == LowerStr(t);
      assert LowerStr(tags[i]) == LowerStr(current.frontmatter.tags[j]);
    }
    if SharesTag(current, post) {
      var i, j :| 0 <= i < |tags| && 0 <= j < |current.frontmatter.tags|
        && LowerStr(tags[i]) == LowerStr(current.frontmatter.tags[j]);
      assert LowerStr(tags[i]) == currentTags[j];
      assert multiset(matching)[tags[i]] == multiset(tags)[tags[i]] > 0;
    }
  }

  /** The score counts duplicates: a post tagged `["CTF", "ctf"]` scores 2 against a post tagged `["ctf"]`. */
  lemma ScoreCountsDuplicates()
    ensures var current := Post("a", Frontmatter("A", 0, ["ctf"], "", None, None, false, false), "", "");
            var post := Post("b", Frontmatter("B", 0, ["CTF", "ctf"], "", None, None, false, false), "", "");
            Score(current, post) == 2
  {
    assert LowerStr("ctf") == "ctf";
    assert LowerStr("CTF") == "ctf";
    assert LowerAll(["ctf"]) == ["ctf"];
  }

  /** The candidates of `getRelatedPosts`: other slugs, positive score, in `allPosts` order. */
  function RelatedCandidates(current: Post, allPosts: seq<Post>): (r: seq<Post>)
    ensures forall p {:trigger multiset(r)[p]} ::
      multiset(r)[p] == if p.slug != current.slug && Score(current, p) > 0 then multiset(allPosts)[p] else 0
    ensures IsSubseq(r, allPosts)
  {
    var others := Filter((p: Post) => p.slug != current.slug, allPosts);
    var r := Filter((p: Post) => Score(current, p) > 0, others);
    IsSubseqTrans(r, others, allPosts);
    r
  }

  /**
    `getRelatedPosts`: the candidates ranked by score, highest first, ties in `allPosts` order
    (the sort is stable), cut by `slice(0, limit)`.
  */
  function RelatedPosts(current: Post, allPosts: seq<Post>, limit: int := DefaultRelatedLimit): (r: seq<Post>)
    ensures limit >= 0 ==> |r| == if limit < |RelatedCandidates(current, allPosts)| then limit else |RelatedCandidates(current, allPosts)|
    ensures forall p :: p in r ==> p in allPosts && p.slug != current.slug && SharesTag(current, p)
    ensures SortedDesc(r, ScoreBy(current))
    ensures forall d {:trigger KeyClass(r, ScoreBy(current), d)} ::
      KeyClass(r, ScoreBy(current), d) <= KeyClass(RelatedCandidates(current, allPosts), ScoreBy(current), d)
  {
    var candidates := RelatedCandidates(current, allPosts);
    var ranked := SortDesc(candidates, ScoreBy(current));
    var n := SliceEnd(|ranked|, limit);
    RelatedMembers(current, allPosts, candidates, ranked, n);
    SortedDescPrefix(ranked, n, ScoreBy(current));
    RelatedTies(candidates, ranked, n, ScoreBy(current));
    ranked[..n]
  }

  lemma RelatedMembers(current: Post, allPosts: seq<Post>, candidates: seq<Post>, ranked: seq<Post>, n: nat)
    requires candidates == RelatedCandidates(current, allPosts)
    requires multiset(ranked) == multiset(candidates)
    requires n <= |ranked|
    ensures forall p :: p in ranked[..n] ==> p in allPosts && p.slug != current.slug && SharesTag(current, p)
  {
    forall p | p in ranked[..n] ensures p in allPosts && p.slug != current.slug && SharesTag(current, p) {
      assert p in ranked;
      assert multiset(candidates)[p] > 0;
      assert multiset(allPosts)[p] > 0;
      ScorePositive(current, p);
    }
  }

  lemma RelatedTies(candidates: seq<Post>, ranked: seq<Post>, n: nat, key: Post -> int)
    requires ranked == SortDesc(candidates, key)
    requires n <= |ranked|
    ensures forall d {:trigger KeyClass(ranked[..n], key, d)} :: KeyClass(ranked[..n], key, d) <= KeyClass(candidates, key, d)
  {
    forall d ensures KeyClass(ranked[..n], key, d) <= KeyClass(candidates, key, d) {
      KeyClassPrefix(ranked, n, key, d);
      SortDescStable(candidates, key, d);
    }
  }

  /**
    The result is the top of the ranking: a candidate left out, or kept fewer times than it
    occurs, means `limit` posts were returned, each scoring at least as much as it.
  */
  lemma RelatedTopScored(current: Post, allPosts: seq<Post>, limit: int, p: Post)
    requires limit >= 0
    requires multiset(RelatedPosts(current, allPosts, limit))[p] < multiset(RelatedCandidates(current, allPosts))[p]
    ensures |RelatedPosts(current, allPosts, limit)| == limit
    ensures forall q :: q in RelatedPosts(current, allPosts, limit) ==> Score(current, q) >= Score(current, p)
  {
    var candidates := RelatedCandidates(current, allPosts);
    var ranked := SortDesc(candidates, ScoreBy(current));
    var n := SliceEnd(|ranked|, limit);
    assert RelatedPosts(current, allPosts, limit) == ranked[..n];
    SortedDescTop(ranked, n, ScoreBy(current), p);
  }

}
