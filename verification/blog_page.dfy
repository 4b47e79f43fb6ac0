/**
  The blog index page of src/app/blog/page-client.tsx: the search query and the selected tag
  the page keeps as state, the click handlers that change them, the list of posts they let
  through, the featured section and the row of tag buttons.
  `allPosts` and `allTags` are the page's inputs; rendering and animation are not modelled.
*/
module BlogPage {
  import opened Wrappers
  import opened Seqs
  import opened Text
  import opened Posts
  import opened Mdx
  import opened Blog

  /** JavaScript truthiness of the selected tag: `null` and `""` are both falsy. */
  predicate Selected(tag: Option<string>)
  {
    tag.Some? && tag.value != ""
  }

  /** A post the page lists: it matches the query and, when a tag is selected, carries that tag. */
  predicate Passes(p: Post, searchQuery: string, selectedTag: Option<string>)
  {
    MatchesQuery(p, LowerStr(searchQuery)) && (Selected(selectedTag) ==> HasTag(p, selectedTag.value))
  }

  /** What the page lists: every post that passes both tests, in `allPosts` order. */
  function Listed(allPosts: seq<Post>, searchQuery: string, selectedTag: Option<string>): (r: seq<Post>)
    ensures IsSubseq(r, allPosts)
    ensures forall p {:trigger multiset(r)[p]} ::
      multiset(r)[p] == if Passes(p, searchQuery, selectedTag) then multiset(allPosts)[p] else 0
  {
    Filter((p: Post) => Passes(p, searchQuery, selectedTag), allPosts)
  }

  /**
    The `filteredPosts` memo: `posts` starts as `allPosts`, is searched when the query is
    non-empty and then filtered by the selected tag when one is selected.
  */
  method FilterPosts(allPosts: seq<Post>, searchQuery: string, selectedTag: Option<string>)
    returns (posts: seq<Post>)
    ensures posts == Listed(allPosts, searchQuery, selectedTag)
  {
    posts := allPosts;
    if searchQuery != "" {
      posts := SearchPosts(posts, searchQuery);
    } else {
      SearchEmptyQuery(posts);
    }
    ghost var lowerQuery := LowerStr(searchQuery);
    FilterCongruent((p: Post) => MatchesQuery(p, lowerQuery), (p: Post) => MatchesQuery(p, LowerStr(searchQuery)), allPosts);
    if Selected(selectedTag) {
      var tag := selectedTag.value;
      posts := PostsByTag(posts, tag);
      FilterFilter((p: Post) => MatchesQuery(p, LowerStr(searchQuery)), (p: Post) => HasTag(p, tag),
        (p: Post) => Passes(p, searchQuery, selectedTag), allPosts);
    } else {
      FilterCongruent((p: Post) => MatchesQuery(p, LowerStr(searchQuery)),
        (p: Post) => Passes(p, searchQuery, selectedTag), allPosts);
    }
  }

  /** With an empty query and no selected tag the page lists every post, in order. */
  lemma ListedEverything(allPosts: seq<Post>, selectedTag: Option<string>)
    requires !Selected(selectedTag)
    ensures Listed(allPosts, "", selectedTag) == allPosts
  {
    forall p | p in allPosts ensures Passes(p, "", selectedTag) {
      assert LowerStr("") == "";
      ContainsEmpty(LowerStr(p.frontmatter.title));
    }
    FilterAll((p: Post) => Passes(p, "", selectedTag), allPosts);
  }

  /** The tag test compares lowercased forms: selecting `"CTF"` or `"ctf"` lists the same posts. */
  lemma ListedTagCaseInsensitive(allPosts: seq<Post>, searchQuery: string, tag1: string, tag2: string)
    requires LowerStr(tag1) == LowerStr(tag2)
    ensures Listed(allPosts, searchQuery, Some(tag1)) == Listed(allPosts, searchQuery, Some(tag2))
  {
    FilterCongruent((p: Post) => Passes(p, searchQuery, Some(tag1)), (p: Post) => Passes(p, searchQuery, Some(tag2)), allPosts);
  }

  // ---------------------------------------------------------------- featured section

  /** `!searchQuery && !selectedTag && featuredPosts.length > 0`. */
  function ShowFeatured(allPosts: seq<Post>, searchQuery: string, selectedTag: Option<string>): (show: bool)
    ensures show <==> searchQuery == "" && !Selected(selectedTag) && exists p :: p in allPosts && p.frontmatter.featured
  {
    FeaturedAny(allPosts);
    searchQuery == "" && !Selected(selectedTag) && |FeaturedPosts(allPosts)| > 0
  }

  /** When the featured section shows, the list below it is the whole index. */
  lemma FeaturedShownListsAll(allPosts: seq<Post>, searchQuery: string, selectedTag: Option<string>)
    requires ShowFeatured(allPosts, searchQuery, selectedTag)
    ensures Listed(allPosts, searchQuery, selectedTag) == allPosts
  {
    ListedEverything(allPosts, selectedTag);
  }

  // ---------------------------------------------------------------- tag buttons

  /** `allTags.slice(0, 6)`: the tags offered as buttons. */
  function TagButtons(allTags: seq<TagCount>): (buttons: seq<TagCount>)
    ensures buttons <= allTags
    ensures |buttons| == if |allTags| < 6 then |allTags| else 6
  {
    allTags[..SliceEnd(|allTags|, 6)]
  }

  /** Over a table sorted by count, the buttons are the most frequent tags. */
  lemma TagButtonsMostFrequent(allTags: seq<TagCount>, b: TagCount, e: TagCount)
    requires SortedDesc(allTags, CountKey)
    requires b in TagButtons(allTags) && e in allTags && e !in TagButtons(allTags)
    ensures b.count >= e.count
  {
    var buttons := TagButtons(allTags);
    var i :| 0 <= i < |buttons| && buttons[i] == b;
    var j :| 0 <= j < |allTags| && allTags[j] == e;
    if j < |buttons| {
      assert buttons[j] == e;
    }
    assert allTags[i] == b;
  }

  // ---------------------------------------------------------------- selection

  /** A tag button's `onClick`: the selected tag is cleared, any other tag becomes selected. */
  function Toggle(selectedTag: Option<string>, tag: string): (next: Option<string>)
    ensures next.None? <==> selectedTag == Some(tag)
    ensures next.Some? ==> next.value == tag
  {
    if selectedTag == Some(tag) then None else Some(tag)
  }

  /** Clicking the same button twice restores a selection of that tag, and otherwise clears it. */
  lemma ToggleTwice(selectedTag: Option<string>, tag: string)
    ensures Toggle(Toggle(selectedTag, tag), tag) == if selectedTag == Some(tag) then selectedTag else None
  {
  }

  /** The state of `BlogClient`: its two props and its two `useState` hooks. */
  class BlogClient {
    const allPosts: seq<Post>
    const allTags: seq<TagCount>
    var searchQuery: string
    var selectedTag: Option<string>

    constructor (allPosts: seq<Post>, allTags: seq<TagCount>)
      ensures this.allPosts == allPosts && this.allTags == allTags
      ensures searchQuery == "" && selectedTag == None
    {
      this.allPosts := allPosts;
      this.allTags := allTags;
      searchQuery := "";
      selectedTag := None;
    }

    /** The search box's `onChange`. */
    method SetSearchQuery(value: string)
      modifies this
      ensures searchQuery == value && selectedTag == old(selectedTag)
    {
      searchQuery := value;
    }

    /** The "All Posts" button. */
    method ClickAllPosts()
      modifies this
      ensures selectedTag == None && searchQuery == old(searchQuery)
    {
      selectedTag := None;
    }

    /** One of the tag buttons, each of which carries a tag of `allTags.slice(0, 6)`. */
    method ClickTag(tag: string)
      requires exists b :: b in TagButtons(allTags) && b.tag == tag
      modifies this
      ensures selectedTag == Toggle(old(selectedTag), tag) && searchQuery == old(searchQuery)
    {
      selectedTag := if selectedTag == Some(tag) then None else Some(tag);
    }

    /** `filteredPosts` for the current state. */
    method Posts() returns (posts: seq<Post>)
      ensures posts == Listed(allPosts, searchQuery, selectedTag)
    {
      posts := FilterPosts(allPosts, searchQuery, selectedTag);
    }
  }
}
