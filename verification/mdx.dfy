/**
  The post index of src/lib/mdx.ts: the slug listing, the published and date-sorted
  collection of posts, the posts carrying a tag and the tag-frequency table.
  The directory listing and the per-slug loader (file read, frontmatter parsing and
  reading-time estimate) are inputs: `listing` is `None` when the directory cannot be read,
  and `load(slug)` is `None` when that post cannot be read or parsed.
*/
module Mdx {
  import opened Wrappers
  import opened Seqs
  import opened Text
  import opened Posts

  // ---------------------------------------------------------------- slugs

  predicate IsMdxFile(f: string)
  {
    EndsWith(f, ".mdx")
  }

  /** `f.replace(/\.mdx$/, "")` on a name that ends in `.mdx`: only the final extension goes. */
  function StripMdx(f: string): (slug: string)
    requires IsMdxFile(f)
    ensures slug + ".mdx" == f
  {
    f[..|f| - 4]
  }

  /** `getAllBlogSlugs`: the `.mdx` names of the listing, in listing order, without the extension. */
  function BlogSlugs(listing: Option<seq<string>>): (slugs: seq<string>)
    ensures listing.None? ==> slugs == []
    ensures listing.Some? ==>
      && |slugs| == |Filter(IsMdxFile, listing.value)|
      && forall i :: 0 <= i < |slugs| ==> slugs[i] + ".mdx" == Filter(IsMdxFile, listing.value)[i]
  {
    match listing
    case None => []
    case Some(files) =>
      StripAll(Filter(IsMdxFile, files))
  }

  /** `.map((f) => f.replace(/\.mdx$/, ""))` over names that all end in `.mdx`. */
  function StripAll(mdx: seq<string>): (slugs: seq<string>)
    requires forall f :: f in mdx ==> IsMdxFile(f)
    ensures |slugs| == |mdx|
    ensures forall i :: 0 <= i < |slugs| ==> slugs[i] + ".mdx" == mdx[i]
  {
    if mdx == [] then [] else [StripMdx(mdx[0])] + StripAll(mdx[1..])
  }

  // ---------------------------------------------------------------- all posts

  /** `Promise.all(slugs.map(getBlogPostBySlug))`. */
  function LoadAll(slugs: seq<string>, load: string -> Option<Post>): (loads: seq<Option<Post>>)
    ensures |loads| == |slugs|
  {
    seq(|slugs|, i requires 0 <= i < |slugs| => load(slugs[i]))
  }

  /** The two filters of `getAllBlogPosts`: failed loads and drafts are dropped, order is kept. */
  function Published(loads: seq<Option<Post>>): (posts: seq<Post>)
    ensures forall p {:trigger multiset(posts)[p]} ::
      multiset(posts)[p] == if p.frontmatter.draft then 0 else multiset(loads)[Some(p)]
    ensures forall p :: p in posts ==> !p.frontmatter.draft && Some(p) in loads
  {
    if loads == [] then []
    else
      var rest := Published(loads[1..]);
      assert loads == [loads[0]] + loads[1..];
      assert multiset(loads) == multiset{loads[0]} + multiset(loads[1..]);
      match loads[0]
      case None => rest
      case Some(p) =>
        if p.frontmatter.draft then rest
        else
          assert multiset([p] + rest) == multiset{p} + multiset(rest);
          [p] + rest
  }

  /** `Published` keeps the order of the loads: read back as loads, it is a subsequence of them. */
  lemma {:induction false} PublishedInOrder(loads: seq<Option<Post>>)
    ensures IsSubseq(AsLoads(Published(loads)), loads)
  {
    if loads != [] {
      PublishedInOrder(loads[1..]);
      var rest := Published(loads[1..]);
      if loads[0].Some? && !loads[0].value.frontmatter.draft {
        assert Published(loads) == [loads[0].value] + rest;
        assert AsLoads([loads[0].value] + rest)[1..] == AsLoads(rest);
      } else {
        assert Published(loads) == rest;
      }
    }
  }

  /** Posts as successful loads, in the same order. */
  function AsLoads(posts: seq<Post>): seq<Option<Post>>
  {
    seq(|posts|, i requires 0 <= i < |posts| => Some(posts[i]))
  }

  function DateKey(p: Post): int
  {
    p.frontmatter.date
  }

  /**
    `getAllBlogPosts`: every post that loads and is not a draft, most recent first;
    posts with the same date stay in listing order, as the sort is stable.
  */
  function AllBlogPosts(listing: Option<seq<string>>, load: string -> Option<Post>): (posts: seq<Post>)
    ensures forall p :: p in posts ==> !p.frontmatter.draft
    ensures multiset(posts) == multiset(Published(LoadAll(BlogSlugs(listing), load)))
    ensures SortedDesc(posts, DateKey)
    ensures forall d {:trigger KeyClass(posts, DateKey, d)} ::
      KeyClass(posts, DateKey, d) == KeyClass(Published(LoadAll(BlogSlugs(listing), load)), DateKey, d)
  {
    var survivors := Published(LoadAll(BlogSlugs(listing), load));
    SortDescStableAll(survivors, DateKey);
    var posts := SortDesc(survivors, DateKey);
    assert forall p :: p in posts ==> p in multiset(survivors);
    posts
  }

  /** An unreadable content directory yields an empty index, not a failure. */
  lemma AllBlogPostsNoDirectory(load: string -> Option<Post>)
    ensures AllBlogPosts(None, load) == []
  {
  }

  // ---------------------------------------------------------------- posts by tag

  function LowerAll(tags: seq<string>): (r: seq<string>)
    ensures |r| == |tags|
    ensures forall i :: 0 <= i < |tags| ==> r[i] == LowerStr(tags[i])
  {
    seq(|tags|, i requires 0 <= i < |tags| => LowerStr(tags[i]))
  }

  /** `p.frontmatter.tags.map(t => t.toLowerCase()).includes(tag.toLowerCase())`. */
  predicate HasTag(p: Post, tag: string)
  {
    LowerStr(tag) in LowerAll(p.frontmatter.tags)
  }

  /** HasTag is case-insensitive equality with one of the post's tags. */
  lemma HasTagMeans(p: Post, tag: string)
    ensures HasTag(p, tag) <==> exists t :: t in p.frontmatter.tags && LowerStr(t) == LowerStr(tag)
  {
    var tags := p.frontmatter.tags;
    if HasTag(p, tag) {
      var i :| 0 <= i < |tags| && LowerAll(tags)[i] == LowerStr(tag);
      assert tags[i] in tags;
    }
  }

  /** The filter of `getPostsByTag`: the posts having `tag`, in index order. */
  function PostsByTag(posts: seq<Post>, tag: string): (r: seq<Post>)
    ensures IsSubseq(r, posts)
    ensures forall p {:trigger multiset(r)[p]} :: multiset(r)[p] == if HasTag(p, tag) then multiset(posts)[p] else 0
  {
    Filter(p => HasTag(p, tag), posts)
  }

  /** `getPostsByTag("CTF")` and `getPostsByTag("ctf")` return the same posts. */
  lemma PostsByTagCaseInsensitive(posts: seq<Post>, tag1: string, tag2: string)
    requires LowerStr(tag1) == LowerStr(tag2)
    ensures PostsByTag(posts, tag1) == PostsByTag(posts, tag2)
  {
    FilterCongruent(p => HasTag(p, tag1), p => HasTag(p, tag2), posts);
  }

  /** `getPostsByTag`: the published posts with `tag`, most recent first. */
  function GetPostsByTag(listing: Option<seq<string>>, load: string -> Option<Post>, tag: string): (r: seq<Post>)
    ensures IsSubseq(r, AllBlogPosts(listing, load))
    ensures forall p :: p in r ==> HasTag(p, tag) && !p.frontmatter.draft
    ensures forall p :: p in AllBlogPosts(listing, load) && HasTag(p, tag) ==> p in r
  {
    var all := AllBlogPosts(listing, load);
    var r := PostsByTag(all, tag);
    assert forall p :: p in r ==> p in multiset(r);
    assert forall p :: p in all && HasTag(p, tag) ==> p in multiset(r);
    r
  }

  // ---------------------------------------------------------------- tag frequencies

  datatype TagCount = TagCount(tag: string, count: int)

  function CountKey(e: TagCount): int
  {
    e.count
  }

  /** The lowercased forms of `tags`. */
  function LowerSet(tags: seq<string>): set<string>
  {
    set t | t in tags :: LowerStr(t)
  }

  /** Every lowercased tag of `posts`. */
  function LoweredTags(posts: seq<Post>): (r: set<string>)
    ensures forall t :: t in r ==> LowerStr(t) == t
  {
    if posts == [] then {}
    else
      var last := posts[|posts| - 1];
      forall t | t in LowerSet(last.frontmatter.tags) ensures LowerStr(t) == t {
        var u :| u in last.frontmatter.tags && LowerStr(u) == t;
        LowerStrIdempotent(u);
      }
      LoweredTags(posts[..|posts| - 1]) + LowerSet(last.frontmatter.tags)
  }

  /** How many of `tags` lowercase to `t`, duplicates included. */
  function TagOcc(tags: seq<string>, t: string): (n: nat)
    ensures n > 0 <==> t in LowerSet(tags)
  {
    if tags == [] then 0
    else
      var init := tags[..|tags| - 1];
      assert tags == init + [tags[|tags| - 1]];
      assert LowerSet(tags) == LowerSet(init) + {LowerStr(tags[|tags| - 1])};
      TagOcc(init, t) + (if LowerStr(tags[|tags| - 1]) == t then 1 else 0)
  }

  /** How many tags of `posts`, over all posts, lowercase to `t`. */
  function Occurrences(posts: seq<Post>, t: string): (n: nat)
    ensures n > 0 <==> t in LoweredTags(posts)
  {
    if posts == [] then 0
    else Occurrences(posts[..|posts| - 1], t) + TagOcc(posts[|posts| - 1].frontmatter.tags, t)
  }

  /** The number of tags over all posts, duplicates included. */
  function TotalTags(posts: seq<Post>): nat
  {
    if posts == [] then 0
    else TotalTags(posts[..|posts| - 1]) + |posts[|posts| - 1].frontmatter.tags|
  }

  function SumCounts(entries: seq<TagCount>): int
  {
    if entries == [] then 0
    else SumCounts(entries[..|entries| - 1]) + entries[|entries| - 1].count
  }

  /** The counts of `keys` in `m`, summed. */
  function SumOver(keys: seq<string>, m: map<string, nat>): int
    requires forall k :: k in keys ==> k in m
  {
    if keys == [] then 0
    else SumOver(keys[..|keys| - 1], m) + m[keys[|keys| - 1]]
  }

  lemma {:induction false} SumOverUntouched(keys: seq<string>, m: map<string, nat>, t: string, v: nat)
    requires forall k :: k in keys ==> k in m
    requires t !in keys
    ensures SumOver(keys, m[t := v]) == SumOver(keys, m)
  {
    if keys != [] {
      SumOverUntouched(keys[..|keys| - 1], m, t, v);
    }
  }

  lemma {:induction false} SumOverBump(keys: seq<string>, m: map<string, nat>, t: string)
    requires forall k :: k in keys ==> k in m
    requires Distinct(keys) && t in keys
    ensures SumOver(keys, m[t := m[t] + 1]) == SumOver(keys, m) + 1
  {
    var init := keys[..|keys| - 1];
    var last := keys[|keys| - 1];
    if last == t {
      assert t !in init;
      SumOverUntouched(init, m, t, m[t] + 1);
    } else {
      assert t in init by {
        var k :| 0 <= k < |keys| && keys[k] == t;
        assert init[k] == t;
      }
      assert Distinct(init) by {
        forall a, b | 0 <= a < b < |init| ensures init[a] != init[b] {
          assert init[a] == keys[a] && init[b] == keys[b];
        }
      }
      SumOverBump(init, m, t);
    }
  }

  /** Counting `t` keeps the key order in step with the table and adds one to the sum of counts. */
  lemma KeyStep(keys: seq<string>, m: map<string, nat>, keys': seq<string>, m': map<string, nat>, t: string, seen: bool, prev: nat)
    requires Distinct(keys)
    requires forall k :: k in keys <==> k in m
    requires seen == (t in m)
    requires prev == if seen then m[t] else 0
    requires m' == m[t := prev + 1]
    requires keys' == if seen then keys else keys + [t]
    ensures keys <= keys' && Distinct(keys')
    ensures forall k :: k in keys' <==> k in m'
    ensures SumOver(keys', m') == SumOver(keys, m) + 1
  {
    if seen {
      SumOverBump(keys, m, t);
    } else {
      SumOverUntouched(keys, m, t, prev + 1);
      assert keys'[..|keys'| - 1] == keys;
    }
  }

  /** The unsorted `Object.entries(tagCount)` list, in insertion order. */
  function EntriesOf(keys: seq<string>, m: map<string, nat>): (entries: seq<TagCount>)
    requires forall k :: k in keys ==> k in m
    ensures |entries| == |keys|
    ensures forall n :: 0 <= n < |keys| ==> entries[n] == TagCount(keys[n], m[keys[n]])
    ensures SumCounts(entries) == SumOver(keys, m)
  {
    if keys == [] then []
    else
      var init := keys[..|keys| - 1];
      var r := EntriesOf(init, m) + [TagCount(keys[|keys| - 1], m[keys[|keys| - 1]])];
      assert r[..|r| - 1] == EntriesOf(init, m);
      r
  }

  lemma {:induction false} SumCountsRemove(s: seq<TagCount>, k: nat)
    requires k < |s|
    ensures SumCounts(s) == SumCounts(s[..k] + s[k + 1..]) + s[k].count
  {
    if k < |s| - 1 {
      var init := s[..|s| - 1];
      SumCountsRemove(init, k);
      assert s[..k] + s[k + 1..] == (init[..k] + init[k + 1..]) + [s[|s| - 1]];
      assert (s[..k] + s[k + 1..])[..|s| - 2] == init[..k] + init[k + 1..];
    } else {
      assert s[..k] + s[k + 1..] == s[..|s| - 1];
    }
  }

  /** Reordering the entries does not change the sum of their counts. */
  lemma {:induction false} SumCountsPermutation(a: seq<TagCount>, b: seq<TagCount>)
    requires multiset(a) == multiset(b)
    ensures SumCounts(a) == SumCounts(b)
    decreases |a|
  {
    if a != [] {
      var n := |a| - 1;
      var x := a[n];
      var init := a[..n];
      assert a == init + [x];
      assert x in multiset(b);
      var k :| 0 <= k < |b| && b[k] == x;
      var rest := b[..k] + b[k + 1..];
      RemoveMultiset(b, k);
      MultisetCancel(multiset(init), multiset(rest), x);
      SumCountsPermutation(init, rest);
      SumCountsRemove(b, k);
    } else {
      assert |b| == |multiset(b)|;
    }
  }

  lemma MultisetCancel<T>(p: multiset<T>, q: multiset<T>, x: T)
    requires p + multiset{x} == q + multiset{x}
    ensures p == q
  {
    assert p == (p + multiset{x}) - multiset{x};
    assert q == (q + multiset{x}) - multiset{x};
  }

  lemma RemoveMultiset<T>(s: seq<T>, k: nat)
    requires k < |s|
    ensures multiset(s) == multiset(s[..k] + s[k + 1..]) + multiset{s[k]}
  {
    assert s == s[..k] + [s[k]] + s[k + 1..];
  }

  /**
    The counting table after the posts `done` and then the tags `counted` of the current post:
    `keys` lists the table's keys, each once, in insertion order, and every key maps to the
    number of those tags that lowercase to it.
  */
  ghost predicate Tally(keys: seq<string>, m: map<string, nat>, done: seq<Post>, counted: seq<string>)
  {
    && Distinct(keys)
    && (forall k :: k in keys <==> k in m)
    && m.Keys == LoweredTags(done) + LowerSet(counted)
    && (forall k :: k in m ==> m[k] == Occurrences(done, k) + TagOcc(counted, k))
  }

  /** One step of the inner `forEach`: counting `x` keeps the table a tally, with one more tag. */
  lemma TallyStep(done: seq<Post>, before: seq<string>, counted: seq<string>, x: string,
                  keys: seq<string>, m: map<string, nat>, keys': seq<string>, m': map<string, nat>,
                  t: string, seen: bool, prev: nat)
    requires counted == before + [x] && t == LowerStr(x)
    requires Tally(keys, m, done, before)
    requires seen == (t in m)
    requires prev == if seen then m[t] else 0
    requires m' == m[t := prev + 1]
    requires keys' == if seen then keys else keys + [t]
    ensures Tally(keys', m', done, counted)
    ensures keys <= keys' && SumOver(keys', m') == SumOver(keys, m) + 1
  {
    KeyStep(keys, m, keys', m', t, seen, prev);
    CountStep(m, m', done, before, counted, x, t, prev);
  }

  /** Counting the tag `x` into `m`, giving `m'`, brings the table up to date with `counted == before + [x]`. */
  lemma CountStep(m: map<string, nat>, m': map<string, nat>, done: seq<Post>, before: seq<string>, counted: seq<string>, x: string, t: string, prev: nat)
    requires counted == before + [x] && t == LowerStr(x)
    requires m.Keys == LoweredTags(done) + LowerSet(before)
    requires forall k :: k in m ==> m[k] == Occurrences(done, k) + TagOcc(before, k)
    requires prev == if t in m then m[t] else 0
    requires m' == m[t := prev + 1]
    ensures m'.Keys == LoweredTags(done) + LowerSet(counted)
    ensures forall k :: k in m' ==> m'[k] == Occurrences(done, k) + TagOcc(counted, k)
  {
    TagOccSnoc(before, x);
    if t !in m {
      assert Occurrences(done, t) == 0 && TagOcc(before, t) == 0;
    }
  }

  /** Appending a tag adds its lowercase to the set and one to its count. */
  lemma TagOccSnoc(tags: seq<string>, x: string)
    ensures LowerSet(tags + [x]) == LowerSet(tags) + {LowerStr(x)}
    ensures forall k :: TagOcc(tags + [x], k) == TagOcc(tags, k) + (if LowerStr(x) == k then 1 else 0)
  {
    assert (tags + [x])[..|tags|] == tags;
  }

  lemma PrefixSnoc<T>(s: seq<T>, j: nat, next: nat)
    requires j < |s| && next == j + 1
    ensures s[..next] == s[..j] + [s[j]]
  {
  }

  /** The counts over `posts[..i + 1]` extend those over `posts[..i]` by the tags of `posts[i]`. */
  lemma PrefixStep(posts: seq<Post>, i: nat, next: nat)
    requires i < |posts| && next == i + 1
    ensures LoweredTags(posts[..next]) == LoweredTags(posts[..i]) + LowerSet(posts[i].frontmatter.tags)
    ensures forall k :: Occurrences(posts[..next], k) == Occurrences(posts[..i], k) + TagOcc(posts[i].frontmatter.tags, k)
    ensures TotalTags(posts[..next]) == TotalTags(posts[..i]) + |posts[i].frontmatter.tags|
  {
    assert posts[..next][..i] == posts[..i];
  }

  /**
    The nested loops and the final sort of `getAllTags` over the given posts: one entry per
    distinct lowercased tag, counting every occurrence, most frequent first.
  */
  method CountTags(posts: seq<Post>) returns (entries: seq<TagCount>)
    ensures forall e :: e in entries ==> e.tag == LowerStr(e.tag)
    ensures forall e :: e in entries ==> e.count == Occurrences(posts, e.tag) > 0
    ensures forall t :: t in LoweredTags(posts) <==> exists e :: e in entries && e.tag == t
    ensures forall i, j :: 0 <= i < j < |entries| ==> entries[i].tag != entries[j].tag
    ensures SumCounts(entries) == TotalTags(posts)
    ensures SortedDesc(entries, CountKey)
  {
    var tagCount: map<string, nat> := map[];
    var keys: seq<string> := [];
    var i := 0;
    while i < |posts|
      invariant i <= |posts|
      invariant Distinct(keys)
      invariant forall k :: k in keys <==> k in tagCount
      invariant tagCount.Keys == LoweredTags(posts[..i])
      invariant forall k :: k in tagCount ==> tagCount[k] == Occurrences(posts[..i], k)
      invariant SumOver(keys, tagCount) == TotalTags(posts[..i])
    {
      var nextPost := i + 1;
      PrefixStep(posts, i, nextPost);
      keys, tagCount := CountPostTags(posts[..i], posts[i].frontmatter.tags, keys, tagCount);
      i := nextPost;
    }
    assert posts[..|posts|] == posts;
    var unsorted := EntriesOf(keys, tagCount);
    entries := SortDesc(unsorted, CountKey);
    TagTableFacts(posts, keys, tagCount, unsorted, entries);
    TagTableDistinct(keys, tagCount, unsorted, entries);
    SumCountsPermutation(entries, unsorted);
  }

  /**
    The inner `forEach` of `getAllTags`: counts the tags of one post into the table `m0`
    (with key order `keys0`) that already counts the posts `done`.
  */
  method CountPostTags(done: seq<Post>, tags: seq<string>, keys0: seq<string>, m0: map<string, nat>)
    returns (keys: seq<string>, m: map<string, nat>)
    requires Distinct(keys0)
    requires forall k :: k in keys0 <==> k in m0
    requires m0.Keys == LoweredTags(done)
    requires forall k :: k in m0 ==> m0[k] == Occurrences(done, k)
    ensures keys0 <= keys && Distinct(keys)
    ensures forall k :: k in keys <==> k in m
    ensures m.Keys == LoweredTags(done) + LowerSet(tags)
    ensures forall k :: k in m ==> m[k] == Occurrences(done, k) + TagOcc(tags, k)
    ensures SumOver(keys, m) == SumOver(keys0, m0) + |tags|
  {
    keys, m := keys0, m0;
    assert tags[..0] == [];
    assert LowerSet(tags[..0]) == {};
    var j := 0;
    while j < |tags|
      invariant j <= |tags|
      invariant keys0 <= keys
      invariant Tally(keys, m, done, tags[..j])
      invariant SumOver(keys, m) == SumOver(keys0, m0) + j
    {
      var t := LowerStr(tags[j]);
      var seen := t in m;
      var prev := if seen then m[t] else 0;
      var m' := m[t := prev + 1];
      var keys' := if seen then keys else keys + [t];
      var next := j + 1;
      PrefixSnoc(tags, j, next);
      TallyStep(done, tags[..j], tags[..next], tags[j], keys, m, keys', m', t, seen, prev);
      keys, m, j := keys', m', next;
    }
    assert tags[..|tags|] == tags;
  }

  /** What the counting loops leave behind, carried through `Object.entries` and the sort. */
  lemma TagTableFacts(posts: seq<Post>, keys: seq<string>, tagCount: map<string, nat>, unsorted: seq<TagCount>, entries: seq<TagCount>)
    requires forall k :: k in keys <==> k in tagCount
    requires tagCount.Keys == LoweredTags(posts)
    requires forall k :: k in tagCount ==> tagCount[k] == Occurrences(posts, k)
    requires |unsorted| == |keys|
    requires forall n :: 0 <= n < |keys| ==> unsorted[n] == TagCount(keys[n], tagCount[keys[n]])
    requires multiset(entries) == multiset(unsorted)
    ensures forall e :: e in entries ==> e.tag == LowerStr(e.tag)
    ensures forall e :: e in entries ==> e.count == Occurrences(posts, e.tag) > 0
    ensures forall t :: t in LoweredTags(posts) <==> exists e :: e in entries && e.tag == t
  {
    forall e | e in entries ensures e in unsorted {
      assert e in multiset(entries);
    }
    forall t | t in LoweredTags(posts) ensures exists e :: e in entries && e.tag == t {
      var n :| 0 <= n < |keys| && keys[n] == t;
      assert unsorted[n] in multiset(entries);
    }
  }

  lemma TagTableDistinct(keys: seq<string>, tagCount: map<string, nat>, unsorted: seq<TagCount>, entries: seq<TagCount>)
    requires Distinct(keys)
    requires forall k :: k in keys ==> k in tagCount
    requires |unsorted| == |keys|
    requires forall n :: 0 <= n < |keys| ==> unsorted[n] == TagCount(keys[n], tagCount[keys[n]])
    requires multiset(entries) == multiset(unsorted)
    ensures forall i, j :: 0 <= i < j < |entries| ==> entries[i].tag != entries[j].tag
  {
    assert Distinct(unsorted) by {
      forall a, b | 0 <= a < b < |unsorted| ensures unsorted[a] != unsorted[b] {
        assert unsorted[a].tag == keys[a] && unsorted[b].tag == keys[b];
      }
    }
    DistinctPermutation(unsorted, entries);
    forall e | e in entries ensures e.tag in tagCount && e.count == tagCount[e.tag] {
      assert e in multiset(unsorted);
      var n :| 0 <= n < |unsorted| && unsorted[n] == e;
    }
  }

  /** `getAllTags`: the tag-frequency table of the published posts; drafts contribute nothing. */
  method GetAllTags(listing: Option<seq<string>>, load: string -> Option<Post>) returns (entries: seq<TagCount>)
    ensures forall e :: e in entries ==> e.tag == LowerStr(e.tag)
    ensures forall e :: e in entries ==> e.count == Occurrences(AllBlogPosts(listing, load), e.tag) > 0
    ensures forall t :: t in LoweredTags(AllBlogPosts(listing, load)) <==> exists e :: e in entries && e.tag == t
    ensures forall i, j :: 0 <= i < j < |entries| ==> entries[i].tag != entries[j].tag
    ensures SumCounts(entries) == TotalTags(AllBlogPosts(listing, load))
    ensures SortedDesc(entries, CountKey)
  {
    var posts := AllBlogPosts(listing, load);
    entries := CountTags(posts);
  }
}
