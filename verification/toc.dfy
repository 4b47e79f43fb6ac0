/**
  `generateTOC` of src/lib/blog.ts and the anchor-id rule it shares with the `H2`/`H3`
  renderers of src/components/blog/MDXComponents.tsx:
  `text.toLowerCase().replace(/[^a-z0-9]+/g, '-').replace(/(^-|-$)/g, '')`.
*/
module Toc {
  import opened Wrappers
  import opened Seqs
  import opened Text

  // ---------------------------------------------------------------- the id rule

  /** The class `[a-z0-9]`. */
  predicate IsSlugChar(c: char)
  {
    'a' <= c <= 'z' || '0' <= c <= '9'
  }

  predicate NotSlugChar(c: char)
  {
    !IsSlugChar(c)
  }

  /** The length of the run of characters outside `[a-z0-9]` that starts at index `i`. */
  function OtherRun(s: string, i: nat): (n: nat)
    requires i <= |s|
    ensures i + n <= |s|
    ensures forall k {:trigger NotSlugChar(s[k])} :: i <= k < i + n ==> NotSlugChar(s[k])
    ensures i + n == |s| || IsSlugChar(s[i + n])
    decreases |s| - i
  {
    if i == |s| || IsSlugChar(s[i]) then 0 else 1 + OtherRun(s, i + 1)
  }

  /** No two consecutive dashes. */
  ghost predicate NoDoubleDash(s: string)
  {
    forall i, j :: 0 <= i < j < |s| && j == i + 1 ==> !(s[i] == '-' && s[j] == '-')
  }

  /** A well-formed id: `[a-z0-9-]` only, no `--`, no leading or trailing `-`. */
  ghost predicate IsSlug(s: string)
  {
    && (forall i :: 0 <= i < |s| ==> IsSlugChar(s[i]) || s[i] == '-')
    && NoDoubleDash(s)
    && (s != [] ==> s[0] != '-' && s[|s| - 1] != '-')
  }

  /**
    `.replace(/[^a-z0-9]+/g, '-')`: every maximal run of characters outside `[a-z0-9]` becomes
    one `-`; the letters and digits are kept, in order.
  */
  function Dashify(s: string): (r: string)
    ensures |r| <= |s|
    ensures forall i :: 0 <= i < |r| ==> IsSlugChar(r[i]) || r[i] == '-'
    ensures NoDoubleDash(r)
    ensures r == [] <==> s == []
    ensures r != [] ==> (r[0] == '-' <==> !IsSlugChar(s[0]))
    decreases |s|
  {
    if s == [] then []
    else if IsSlugChar(s[0]) then
      [s[0]] + Dashify(s[1..])
    else
      ['-'] + Dashify(s[OtherRun(s, 0)..])
  }

  /** The letters and digits survive `Dashify`, in order: only the runs between them change. */
  lemma {:induction false} DashifyKeepsLetters(s: string)
    ensures Filter(IsSlugChar, Dashify(s)) == Filter(IsSlugChar, s)
    decreases |s|
  {
    if s == [] {
    } else if IsSlugChar(s[0]) {
      var rest := Dashify(s[1..]);
      DashifyKeepsLetters(s[1..]);
      FilterCons(IsSlugChar, s[0], rest);
      assert s == [s[0]] + s[1..];
      FilterCons(IsSlugChar, s[0], s[1..]);
    } else {
      var n := OtherRun(s, 0);
      var rest := Dashify(s[n..]);
      DashifyKeepsLetters(s[n..]);
      FilterCons(IsSlugChar, '-', rest);
      FilterSkip(s, n);
    }
  }

  lemma FilterCons(f: char -> bool, x: char, s: string)
    ensures Filter(f, [x] + s) == (if f(x) then [x] else []) + Filter(f, s)
  {
    assert ([x] + s)[1..] == s;
  }

  /** Characters outside `[a-z0-9]` at the front do not survive the filter. */
  lemma {:induction false} FilterSkip(s: string, n: nat)
    requires n <= |s|
    requires forall k :: 0 <= k < n ==> NotSlugChar(s[k])
    ensures Filter(IsSlugChar, s) == Filter(IsSlugChar, s[n..])
  {
    if n > 0 {
      assert s[1..][n - 1..] == s[n..];
      FilterSkip(s[1..], n - 1);
      assert s == [s[0]] + s[1..];
      FilterCons(IsSlugChar, s[0], s[1..]);
    }
  }

  /** First pass of a reference reading of `.replace(/[^a-z0-9]+/g, '-')`: every character outside `[a-z0-9]` becomes `-`. */
  function DashAll(s: string): (r: string)
    ensures |r| == |s|
    ensures forall i :: 0 <= i < |s| ==> r[i] == if IsSlugChar(s[i]) then s[i] else '-'
  {
    seq(|s|, i requires 0 <= i < |s| => if IsSlugChar(s[i]) then s[i] else '-')
  }

  /** Second pass: a `-` directly followed by another `-` is dropped, so each run of `-` becomes one. */
  function Squeeze(s: string): string
  {
    if |s| <= 1 then s
    else if s[0] == '-' && s[1] == '-' then Squeeze(s[1..])
    else [s[0]] + Squeeze(s[1..])
  }

  /** `Dashify` agrees with the two-pass reading: map the other characters to `-`, then squeeze runs of `-`. */
  lemma {:induction false} DashifyIsTwoPass(s: string)
    ensures Dashify(s) == Squeeze(DashAll(s))
    decreases |s|
  {
    if s != [] {
      var d := DashAll(s);
      if IsSlugChar(s[0]) {
        DashifyIsTwoPass(s[1..]);
        assert d[1..] == DashAll(s[1..]);
      } else {
        var n := OtherRun(s, 0);
        DashifyIsTwoPass(s[n..]);
        assert d[n..] == DashAll(s[n..]);
        SqueezeRun(s, 0, n);
      }
    }
  }

  /** Inside a run of other characters, the rest of the first pass squeezes to one `-` and the rest after the run. */
  lemma {:induction false} SqueezeRun(s: string, j: nat, n: nat)
    requires n == OtherRun(s, 0) && j < n
    ensures Squeeze(DashAll(s)[j..]) == ['-'] + Squeeze(DashAll(s)[n..])
    decreases n - j
  {
    var d := DashAll(s);
    assert NotSlugChar(s[j]);
    if j + 1 < n {
      assert NotSlugChar(s[j + 1]);
      SqueezeRun(s, j + 1, n);
      assert d[j..][1..] == d[j + 1..];
    } else if n < |s| {
      assert d[j..][1..] == d[n..];
      assert d[n] == s[n];
    }
  }

  /**
    `.replace(/(^-|-$)/g, '')`: a leading `-` is dropped, and then a trailing `-`; nothing else
    changes, and a string with neither is its own result.
  */
  function StripDashes(s: string): (r: string)
    ensures exists i {:trigger OccursAt(s, r, i)} ::
      && 0 <= i <= 1 && OccursAt(s, r, i) && |s| <= i + |r| + 1
      && (i == 1 <==> s != [] && s[0] == '-')
      && (i + |r| < |s| <==> i < |s| && s[|s| - 1] == '-')
    ensures NoDoubleDash(s) ==> r == [] || (r[0] != '-' && r[|r| - 1] != '-')
    ensures (s != [] ==> s[0] != '-' && s[|s| - 1] != '-') ==> r == s
  {
    var a := if s != [] && s[0] == '-' then s[1..] else s;
    var r := if a != [] && a[|a| - 1] == '-' then a[..|a| - 1] else a;
    assert OccursAt(s, r, |s| - |a|);
    r
  }

  /** The id `generateTOC` gives a heading text, and the anchor `H2`/`H3` give their children. */
  function Slugify(text: string): (id: string)
  {
    StripDashes(Dashify(LowerStr(text)))
  }

  /** Every id is well formed, whatever the heading text. */
  lemma SlugifyIsSlug(text: string)
    ensures IsSlug(Slugify(text))
  {
    var d := Dashify(LowerStr(text));
    var id := StripDashes(d);
    var i :| OccursAt(d, id, i);
    SliceChars(d, id, i);
    SliceNoDoubleDash(d, id, i);
  }

  lemma SliceChars(d: string, id: string, i: int)
    requires OccursAt(d, id, i)
    requires forall k :: 0 <= k < |d| ==> IsSlugChar(d[k]) || d[k] == '-'
    ensures forall k :: 0 <= k < |id| ==> IsSlugChar(id[k]) || id[k] == '-'
  {
    forall k | 0 <= k < |id| ensures IsSlugChar(id[k]) || id[k] == '-' {
      assert id[k] == d[i + k];
    }
  }

  lemma SliceNoDoubleDash(d: string, id: string, i: int)
    requires OccursAt(d, id, i) && NoDoubleDash(d)
    ensures NoDoubleDash(id)
  {
    forall k, l | 0 <= k < l < |id| && l == k + 1 ensures !(id[k] == '-' && id[l] == '-') {
      assert id[k] == d[i + k] && id[l] == d[i + l];
    }
  }

  /** A well-formed id is left unchanged by the rule. */
  lemma SlugifyFixes(s: string)
    requires IsSlug(s)
    ensures Slugify(s) == s
  {
    LowerSlug(s);
    DashifyFixes(s);
  }

  lemma LowerSlug(s: string)
    requires forall i :: 0 <= i < |s| ==> IsSlugChar(s[i]) || s[i] == '-'
    ensures LowerStr(s) == s
  {
  }

  lemma {:induction false} DashifyFixes(s: string)
    requires forall i :: 0 <= i < |s| ==> IsSlugChar(s[i]) || s[i] == '-'
    requires NoDoubleDash(s)
    ensures Dashify(s) == s
    decreases |s|
  {
    if s != [] {
      DashifyFixes(s[1..]);
      if !IsSlugChar(s[0]) {
        assert OtherRun(s, 0) == 1;
      }
      assert s == [s[0]] + s[1..];
    }
  }

  /** A run of other characters between words becomes one `-`: `Sub Heading` gets the id `sub-heading`. */
  lemma SlugifySubHeading()
    ensures Slugify("Sub Heading") == "sub-heading"
  {
    var first, rest, second := "sub", " heading", "heading";
    assert "sub heading" == first + rest;
    assert "sub-heading" == first + (['-'] + second);
    SubHeadingId("Sub Heading", "sub heading", first, rest, second, "sub-heading");
  }

  lemma SubHeadingId(text: string, lowered: string, first: string, rest: string, second: string, id: string)
    requires text == "Sub Heading" && lowered == "sub heading"
    requires first == "sub" && rest == " heading" && second == "heading"
    requires lowered == first + rest && id == first + (['-'] + second)
    ensures Slugify(text) == id
  {
    SubHeadingLower(text, lowered);
    DashifyWord(first, rest);
    SpaceHeadingDashes(rest, second);
    assert id[0] != '-' && id[|id| - 1] != '-';
  }

  lemma SubHeadingLower(s: string, lowered: string)
    requires s == "Sub Heading" && lowered == "sub heading"
    ensures LowerStr(s) == lowered
  {
  }

  lemma SpaceHeadingDashes(rest: string, word: string)
    requires rest == " heading" && word == "heading"
    ensures Dashify(rest) == ['-'] + word
  {
    assert OtherRun(rest, 0) == 1;
    assert rest[1..] == word;
    DashifyFixes(word);
  }

  /** Letters and digits at the front pass through `Dashify` unchanged. */
  lemma {:induction false} DashifyWord(a: string, t: string)
    requires forall i :: 0 <= i < |a| ==> IsSlugChar(a[i])
    ensures Dashify(a + t) == a + Dashify(t)
    decreases |a|
  {
    if a != [] {
      DashifyWord(a[1..], t);
      var s := a + t;
      assert s[0] == a[0] && IsSlugChar(s[0]) && s[1..] == a[1..] + t;
      assert Dashify(s) == [a[0]] + Dashify(a[1..] + t);
      assert [a[0]] + (a[1..] + Dashify(t)) == a + Dashify(t);
    } else {
      assert a + t == t;
    }
  }

  /** Applying the rule to an id gives the id back. */
  lemma SlugifyIdempotent(text: string)
    ensures Slugify(Slugify(text)) == Slugify(text)
  {
    SlugifyIsSlug(text);
    SlugifyFixes(Slugify(text));
  }

  // ---------------------------------------------------------------- the heading scan

  datatype TocItem = TocItem(id: string, text: string, level: nat)

  /** A heading the scan found: its level and its trimmed text. */
  datatype Heading = Heading(level: nat, text: string)

  /** One match of `/^(#{2,3})\s+(.+)$/gm`: where it starts, `match[1].length` and where `match[2]` lies. */
  datatype RawMatch = RawMatch(start: nat, level: nat, textStart: nat, textEnd: nat)

  /** `^` under the `m` flag: the start of the input or just after a line terminator. */
  predicate LineStart(c: string, p: nat)
    requires p <= |c|
  {
    p == 0 || IsLineTerminator(c[p - 1])
  }

  /**
    The number of `#` that `#{2,3}` keeps at `p`: 3 when there are three, 2 when exactly two.
    Backing off from 3 to 2 can never help, since `\s` cannot match the third `#`.
  */
  function Hashes(s: string, p: nat): (h: nat)
    ensures h == 0 || h == 2 || h == 3
    ensures h > 0 ==> p + h <= |s| && s[p] == '#' && s[p + 1] == '#' && (h == 3 ==> s[p + 2] == '#')
    ensures h == 2 ==> p + 2 == |s| || s[p + 2] != '#'
    ensures h == 0 ==> !(p + 2 <= |s| && s[p] == '#' && s[p + 1] == '#')
  {
    if p + 3 <= |s| && s[p] == '#' && s[p + 1] == '#' && s[p + 2] == '#' then 3
    else if p + 2 <= |s| && s[p] == '#' && s[p + 1] == '#' then 2
    else 0
  }

  /** `.` accepts the character at `q`. */
  predicate DotAt(c: string, q: nat)
  {
    q < |c| && NotLineTerminator(c[q])
  }

  /**
    How many characters `\s+` keeps after its greedy run of `w` at `k` once `(.+)$` is tried:
    the largest `i` in `1..w` with a character at `k + i` that `.` accepts, or 0 when none.
  */
  function SpaceTaken(c: string, k: nat, w: nat): (i: nat)
    requires k + w <= |c|
    ensures i <= w
    ensures i > 0 ==> DotAt(c, k + i)
    decreases w
  {
    if w == 0 then 0
    else if DotAt(c, k + w) then w
    else SpaceTaken(c, k, w - 1)
  }

  /** `\s+` gives back as little as it can: no larger count would let `.` match. */
  lemma {:induction false} SpaceTakenLargest(c: string, k: nat, w: nat, q: nat)
    requires k + w <= |c|
    requires k + SpaceTaken(c, k, w) < q <= k + w
    ensures !DotAt(c, q)
    decreases w
  {
    if w > 0 && !DotAt(c, k + w) && q < k + w {
      SpaceTakenLargest(c, k, w - 1, q);
    }
  }

  /** The match of the heading pattern that starts exactly at `p`, if any. */
  function MatchAt(c: string, p: nat): (m: Option<RawMatch>)
    requires p <= |c|
    ensures m.Some? ==>
      && LineStart(c, p)
      && m.value.start == p
      && (m.value.level == 2 || m.value.level == 3)
      && p + m.value.level < m.value.textStart < m.value.textEnd <= |c|
      && (forall j {:trigger NotLineTerminator(c[j])} :: m.value.textStart <= j < m.value.textEnd ==> NotLineTerminator(c[j]))
      && NotLineTerminator(c[m.value.textEnd - 1])
      && (m.value.textEnd == |c| || IsLineTerminator(c[m.value.textEnd]))
  {
    if !LineStart(c, p) then None
    else
      var h := Hashes(c, p);
      if h == 0 then None
      else
        var k := p + h;
        var i := SpaceTaken(c, k, SpaceRun(c, k));
        if i == 0 then None
        else Some(RawMatch(p, h, k + i, k + i + LineRun(c, k + i)))
  }

  /**
    `headingRegex.exec(content)` with `lastIndex == from`: the match at the first position at or
    after `from` where one starts.
  */
  function NextMatch(c: string, from: nat): (m: Option<RawMatch>)
    requires from <= |c|
    ensures m.Some? ==> from <= m.value.start <= |c| && MatchAt(c, m.value.start) == m
    decreases |c| - from
  {
    if MatchAt(c, from).Some? then MatchAt(c, from)
    else if from == |c| then None
    else NextMatch(c, from + 1)
  }

  /** `exec` finds the first match: no match starts between `from` and the one it returns. */
  lemma {:induction false} NextMatchFirst(c: string, from: nat, p: nat)
    requires from <= p <= |c|
    requires NextMatch(c, from).None? || p < NextMatch(c, from).value.start
    ensures MatchAt(c, p).None?
    decreases p - from
  {
    if from < p {
      NextMatchFirst(c, from + 1, p);
    }
  }

  /** `match[1].length` and `match[2].trim()`: the level and text of the heading a match found. */
  function HeadingOf(c: string, m: RawMatch): Heading
    requires m.textStart <= m.textEnd <= |c|
  {
    Heading(m.level, Trim(c[m.textStart..m.textEnd]))
  }

  lemma HeadingOfIs(c: string, p: nat, h: nat, k: nat, i: nat, e: nat)
    requires k + i <= e <= |c|
    ensures HeadingOf(c, RawMatch(p, h, k + i, e)) == Heading(h, Trim(c[k + i..e]))
  {
  }

  /** The headings of every match from `lastIndex == from` on; `exec` resumes where a match ended. */
  function HeadingsFrom(c: string, from: nat): seq<Heading>
    requires from <= |c|
    decreases |c| - from
  {
    match NextMatch(c, from)
    case None => []
    case Some(m) => [HeadingOf(c, m)] + HeadingsFrom(c, m.textEnd)
  }

  /** The entry `generateTOC` pushes for a heading: its id is the rule applied to its text. */
  function Entry(hd: Heading): TocItem
  {
    TocItem(Slugify(hd.text), hd.text, hd.level)
  }

  function Entries(hs: seq<Heading>): (toc: seq<TocItem>)
    ensures |toc| == |hs|
    ensures forall i :: 0 <= i < |hs| ==> toc[i] == Entry(hs[i])
  {
    if hs == [] then [] else [Entry(hs[0])] + Entries(hs[1..])
  }

  /** The table of contents of `content`, as the regular expression defines it. */
  function Toc(content: string): seq<TocItem>
  {
    Entries(HeadingsFrom(content, 0))
  }

  /** An entry as `generateTOC` builds it: level 2 or 3, trimmed text, well-formed id derived from the text. */
  ghost predicate ValidEntry(e: TocItem)
  {
    && (e.level == 2 || e.level == 3)
    && Trim(e.text) == e.text
    && e.id == Slugify(e.text)
    && IsSlug(e.id)
  }

  /** One turn of the scan: the match found from `from` gives the next heading, and the scan goes on after it. */
  lemma HeadingsStep(c: string, from: nat, m: RawMatch)
    requires from <= |c| && NextMatch(c, from) == Some(m)
    ensures from < m.textEnd <= |c|
    ensures m.level == 2 || m.level == 3
    ensures HeadingsFrom(c, from) == [HeadingOf(c, m)] + HeadingsFrom(c, m.textEnd)
  {
  }

  lemma EntriesCons(hd: Heading, rest: seq<Heading>)
    ensures Entries([hd] + rest) == [Entry(hd)] + Entries(rest)
  {
    assert ([hd] + rest)[1..] == rest;
  }

  /** The entry pushed for a match is well formed. */
  lemma EntryValid(c: string, m: RawMatch, text: string, id: string)
    requires m.level == 2 || m.level == 3
    requires m.textStart <= m.textEnd <= |c|
    requires text == Trim(c[m.textStart..m.textEnd]) && id == Slugify(text)
    ensures TocItem(id, text, m.level) == Entry(HeadingOf(c, m))
    ensures ValidEntry(TocItem(id, text, m.level))
  {
    TrimIdempotent(c[m.textStart..m.textEnd]);
    SlugifyIsSlug(text);
  }

  /** The loop body of `generateTOC` keeps its invariant. */
  lemma ScanStep(c: string, from: nat, m: RawMatch, toc: seq<TocItem>, text: string, id: string, all: seq<TocItem>)
    requires from <= |c| && NextMatch(c, from) == Some(m)
    requires text == Trim(c[m.textStart..m.textEnd]) && id == Slugify(text)
    requires toc + Entries(HeadingsFrom(c, from)) == all
    ensures from < m.textEnd <= |c|
    ensures (toc + [TocItem(id, text, m.level)]) + Entries(HeadingsFrom(c, m.textEnd)) == all
    ensures ValidEntry(TocItem(id, text, m.level))
  {
    var item := TocItem(id, text, m.level);
    var rest := HeadingsFrom(c, m.textEnd);
    HeadingsStep(c, from, m);
    EntryValid(c, m, text, id);
    EntriesCons(HeadingOf(c, m), rest);
    ConcatOne(toc, item, Entries(rest));
  }

  lemma ValidAppend(toc: seq<TocItem>, item: TocItem)
    requires forall e :: e in toc ==> ValidEntry(e)
    requires ValidEntry(item)
    ensures forall e :: e in toc + [item] ==> ValidEntry(e)
  {
  }

  /**
    `generateTOC`: calls `exec` until it returns `null`, pushing one entry per match; `exec` moves
    `lastIndex` to the end of each match.
  */
  method GenerateToc(content: string) returns (toc: seq<TocItem>)
    ensures toc == Toc(content)
    ensures forall e :: e in toc ==> ValidEntry(e)
  {
    toc := [];
    var lastIndex: nat := 0;
    assert toc + Entries(HeadingsFrom(content, 0)) == Toc(content);
    var found := NextMatch(content, lastIndex);
    while found.Some?
      invariant lastIndex <= |content|
      invariant found == NextMatch(content, lastIndex)
      invariant toc + Entries(HeadingsFrom(content, lastIndex)) == Toc(content)
      invariant forall e :: e in toc ==> ValidEntry(e)
      decreases |content| - lastIndex
    {
      var m := found.value;
      var level := m.level;
      var text := Trim(content[m.textStart..m.textEnd]);
      var id := Slugify(text);
      ScanStep(content, lastIndex, m, toc, text, id, Toc(content));
      ValidAppend(toc, TocItem(id, text, level));
      toc := toc + [TocItem(id, text, level)];
      lastIndex := m.textEnd;
      found := NextMatch(content, lastIndex);
    }
  }

  // ---------------------------------------------------------------- the line-based reading

  /** The end of the line that starts at `p`: its first line terminator, or the end of the input. */
  function LineEnd(c: string, p: nat): (e: nat)
    requires p <= |c|
    ensures p <= e <= |c|
    ensures forall j {:trigger NotLineTerminator(c[j])} :: p <= j < e ==> NotLineTerminator(c[j])
    ensures e == |c| || IsLineTerminator(c[e])
  {
    p + LineRun(c, p)
  }

  predicate SingleLine(line: string)
  {
    forall j :: 0 <= j < |line| ==> NotLineTerminator(line[j])
  }

  /** The lines from the one starting at `p` on, split at every line terminator. */
  function LinesFrom(c: string, p: nat): (lines: seq<string>)
    requires p <= |c|
    ensures forall l :: l in lines ==> SingleLine(l)
    decreases |c| - p
  {
    var e := LineEnd(c, p);
    [c[p..e]] + (if e == |c| then [] else LinesFrom(c, e + 1))
  }

  function Lines(c: string): seq<string>
  {
    LinesFrom(c, 0)
  }

  /**
    A heading line: `##` or `###` (and not a fourth `#`), a whitespace character, and at least
    one more character; its text is everything after the hashes, trimmed.
  */
  function HeadingLine(line: string): Option<Heading>
  {
    var h := Hashes(line, 0);
    if h > 0 && h + 1 < |line| && IsSpace(line[h]) then Some(Heading(h, Trim(line[h..]))) else None
  }

  function LineHeadings(lines: seq<string>): seq<Heading>
  {
    if lines == [] then []
    else
      (match HeadingLine(lines[0]) case Some(hd) => [hd] case None => []) + LineHeadings(lines[1..])
  }

  /** One entry per heading line, in document order. */
  function LineToc(c: string): seq<TocItem>
  {
    Entries(LineHeadings(Lines(c)))
  }

  /**
    At `p` a line opens with `##` or `###` followed by nothing but whitespace, and a line
    terminator ends it: there `\s+` runs on into the next line.
  */
  predicate BareHeadingAt(c: string, p: nat)
    requires p <= |c|
  {
    && LineStart(c, p)
    && Hashes(c, p) > 0
    && p + Hashes(c, p) + SpaceRun(c, p + Hashes(c, p)) > LineEnd(c, p)
  }

  predicate NoBareHeading(c: string)
  {
    forall p {:trigger BareHeadingAt(c, p)} :: 0 <= p <= |c| ==> !BareHeadingAt(c, p)
  }

  /** Characters before the line's end lie on the line. */
  lemma OnLine(c: string, p: nat, q: nat)
    requires p <= q <= |c|
    requires forall j :: p <= j < q ==> NotLineTerminator(c[j])
    ensures q <= LineEnd(c, p)
  {
  }

  /** At a line start that is not a bare heading, the regex matches exactly when the line is a heading line, and finds the same heading. */
  lemma LineMatch(c: string, p: nat)
    requires p <= |c| && LineStart(c, p) && !BareHeadingAt(c, p)
    ensures var e := LineEnd(c, p);
      && (MatchAt(c, p).Some? <==> HeadingLine(c[p..e]).Some?)
      && (MatchAt(c, p).Some? ==>
            MatchAt(c, p).value.textEnd == e && HeadingLine(c[p..e]) == Some(HeadingOf(c, MatchAt(c, p).value)))
  {
    var h := Hashes(c, p);
    if h == 0 {
      LineMatchNoHashes(c, p);
    } else {
      var k := p + h;
      var w := SpaceRun(c, k);
      LineHashes(c, p);
      var i := SpaceTaken(c, k, w);
      if i > 0 {
        assert k + w <= LineEnd(c, p);
        LineMatchText(c, p, LineEnd(c, p), h, k, w, i);
      } else {
        LineMatchNoText(c, p, h, k, w);
      }
    }
  }

  /** The hashes at a line start are the hashes of the line. */
  lemma LineHashes(c: string, p: nat)
    requires p <= |c| && Hashes(c, p) > 0
    ensures Hashes(c[p..LineEnd(c, p)], 0) == Hashes(c, p)
  {
    OnLine(c, p, p + Hashes(c, p));
  }

  /** Without `##` neither reading finds a heading. */
  lemma LineMatchNoHashes(c: string, p: nat)
    requires p <= |c| && Hashes(c, p) == 0
    ensures MatchAt(c, p).None? && HeadingLine(c[p..LineEnd(c, p)]).None?
  {
    var line := c[p..LineEnd(c, p)];
    assert Hashes(line, 0) == 0;
  }

  /** Hashes with nothing but whitespace up to the end of the line: neither reading finds a heading. */
  lemma LineMatchNoText(c: string, p: nat, h: nat, k: nat, w: nat)
    requires p <= |c| && LineStart(c, p) && !BareHeadingAt(c, p)
    requires h == Hashes(c, p) && h > 0 && Hashes(c[p..LineEnd(c, p)], 0) == h
    requires k == p + h && w == SpaceRun(c, k) && SpaceTaken(c, k, w) == 0
    ensures MatchAt(c, p).None? && HeadingLine(c[p..LineEnd(c, p)]).None?
  {
    var e := LineEnd(c, p);
    var line := c[p..e];
    assert k + w <= e;
    if h + 1 < |line| && IsSpace(line[h]) {
      assert DotAt(c, k + 1);
      SpaceTakenLargest(c, k, w, k + 1);
    }
  }

  /** Hashes, whitespace and text on one line: both readings find the same heading. */
  lemma LineMatchText(c: string, p: nat, e: nat, h: nat, k: nat, w: nat, i: nat)
    requires p <= |c| && LineStart(c, p) && e == LineEnd(c, p)
    requires h == Hashes(c, p) && h > 0 && Hashes(c[p..e], 0) == h
    requires k == p + h && w == SpaceRun(c, k) && k + w <= e
    requires i == SpaceTaken(c, k, w) && i > 0
    ensures MatchAt(c, p) == Some(RawMatch(p, h, k + i, e))
    ensures HeadingLine(c[p..e]) == Some(HeadingOf(c, RawMatch(p, h, k + i, e)))
  {
    MatchAtLine(c, p, e, h, k, w, i);
    HeadingLineIs(c, p, e, h, k, w, i);
    HeadingOfIs(c, p, h, k, i, e);
  }

  /** The text group runs to the end of the line. */
  lemma MatchAtLine(c: string, p: nat, e: nat, h: nat, k: nat, w: nat, i: nat)
    requires p <= |c| && LineStart(c, p) && e == LineEnd(c, p)
    requires h == Hashes(c, p) && h > 0
    requires k == p + h && w == SpaceRun(c, k) && k + w <= e
    requires i == SpaceTaken(c, k, w) && i > 0
    ensures k + i < e
    ensures MatchAt(c, p) == Some(RawMatch(p, h, k + i, e))
  {
    assert DotAt(c, k + i);
    LineRunIs(c, k + i, e - (k + i));
    MatchAtIs(c, p, h, k, w, i, e);
  }

  /** The match at a line start, given how many hashes and blanks the pattern takes. */
  lemma MatchAtIs(c: string, p: nat, h: nat, k: nat, w: nat, i: nat, e: nat)
    requires p <= |c| && LineStart(c, p)
    requires h == Hashes(c, p) && h > 0
    requires k == p + h && w == SpaceRun(c, k)
    requires i == SpaceTaken(c, k, w) && i > 0
    requires k + i + LineRun(c, k + i) == e
    ensures MatchAt(c, p) == Some(RawMatch(p, h, k + i, e))
  {
  }

  lemma HeadingLineIs(c: string, p: nat, e: nat, h: nat, k: nat, w: nat, i: nat)
    requires p <= e <= |c| && (forall j {:trigger NotLineTerminator(c[j])} :: p <= j < e ==> NotLineTerminator(c[j]))
    requires h > 0 && Hashes(c[p..e], 0) == h
    requires k == p + h && k + w <= e && (forall j {:trigger IsSpace(c[j])} :: k <= j < k + w ==> IsSpace(c[j]))
    requires 0 < i <= w && k + i < e
    ensures HeadingLine(c[p..e]) == Some(Heading(h, Trim(c[k + i..e])))
  {
    var line := c[p..e];
    assert line[h] == c[k];
    assert line[h..] == c[k..e];
    forall j | 0 <= j < i ensures IsSpace(c[k..e][j]) {
      assert c[k..e][j] == c[k + j];
    }
    assert c[k..e][i..] == c[k + i..e];
    TrimDropsSpace(c[k..e], i);
  }

  /** From `q` on, `exec` finds what it finds just past `e`. */
  predicate SkipsTo(c: string, q: nat, e: nat)
    requires q <= e <= |c|
  {
    NextMatch(c, q) == if e == |c| then None else NextMatch(c, e + 1)
  }

  /** Positions where no match starts are skipped by `exec`. */
  lemma {:induction false} NextMatchSkip(c: string, q: nat, e: nat)
    requires q <= e <= |c|
    requires forall j :: q <= j <= e ==> MatchAt(c, j).None?
    ensures SkipsTo(c, q, e)
    decreases e - q
  {
    if q < e {
      var next := q + 1;
      NextMatchPast(c, q, next);
      NextMatchSkip(c, next, e);
    }
  }

  /** Where no match starts, `exec` goes on to the next position. */
  lemma NextMatchPast(c: string, q: nat, next: nat)
    requires q < |c| && next == q + 1 && MatchAt(c, q).None?
    ensures NextMatch(c, q) == NextMatch(c, next)
  {
  }

  /** A matching heading line contributes its heading, and the scan resumes on the next line. */
  lemma ScanHeadingLine(c: string, p: nat, m: RawMatch, e: nat)
    requires p <= |c| && MatchAt(c, p) == Some(m) && e == m.textEnd == LineEnd(c, p)
    ensures HeadingsFrom(c, p) == [HeadingOf(c, m)] + if e == |c| then [] else HeadingsFrom(c, e + 1)
  {
    assert NextMatch(c, p) == Some(m);
    HeadingsStep(c, p, m);
    AfterLineText(c, e);
  }

  /** Just after the text of a line no match starts, so the scan goes on from the next line. */
  lemma AfterLineText(c: string, e: nat)
    requires 0 < e <= |c| && NotLineTerminator(c[e - 1])
    ensures HeadingsFrom(c, e) == if e == |c| then [] else HeadingsFrom(c, e + 1)
  {
    assert !LineStart(c, e);
    NextMatchSkip(c, e, e);
    HeadingsNextLine(c, e, e);
  }

  /** A line where no match starts contributes nothing. */
  lemma ScanOtherLine(c: string, p: nat, e: nat)
    requires p <= |c| && MatchAt(c, p).None? && e == LineEnd(c, p)
    ensures HeadingsFrom(c, p) == if e == |c| then [] else HeadingsFrom(c, e + 1)
  {
    NextMatchNextLine(c, p, e);
    HeadingsNextLine(c, p, e);
  }

  /** Inside a line no match starts, since `^` needs a line start. */
  lemma NoMatchOnLine(c: string, p: nat)
    requires p <= |c| && MatchAt(c, p).None?
    ensures forall j :: p <= j <= LineEnd(c, p) ==> MatchAt(c, j).None?
  {
    forall j | p <= j <= LineEnd(c, p) ensures MatchAt(c, j).None? {
      if j > p {
        assert NotLineTerminator(c[j - 1]);
      }
    }
  }

  /** `exec` from a line where no match starts goes on to the next line. */
  lemma NextMatchNextLine(c: string, p: nat, e: nat)
    requires p <= |c| && MatchAt(c, p).None? && e == LineEnd(c, p)
    ensures NextMatch(c, p) == if e == |c| then None else NextMatch(c, e + 1)
  {
    NoMatchOnLine(c, p);
    NextMatchSkip(c, p, e);
  }

  /** The scan depends only on the match `exec` finds next. */
  lemma HeadingsNextLine(c: string, p: nat, e: nat)
    requires p <= e <= |c|
    requires NextMatch(c, p) == if e == |c| then None else NextMatch(c, e + 1)
    ensures HeadingsFrom(c, p) == if e == |c| then [] else HeadingsFrom(c, e + 1)
  {
  }

  lemma LinesStep(c: string, p: nat, e: nat)
    requires p <= |c| && e == LineEnd(c, p)
    ensures LineHeadings(LinesFrom(c, p)) ==
        (match HeadingLine(c[p..e]) case Some(hd) => [hd] case None => [])
        + (if e == |c| then [] else LineHeadings(LinesFrom(c, e + 1)))
  {
    var later := if e == |c| then [] else LinesFrom(c, e + 1);
    assert LinesFrom(c, p) == [c[p..e]] + later;
    assert ([c[p..e]] + later)[1..] == later;
  }

  /** From `p` on, the regex scan and the line-based reading find the same headings. */
  predicate SameHeadings(c: string, p: nat)
    requires p <= |c|
  {
    HeadingsFrom(c, p) == LineHeadings(LinesFrom(c, p))
  }

  lemma {:induction false} HeadingsFromLines(c: string, p: nat)
    requires p <= |c| && LineStart(c, p) && NoBareHeading(c)
    ensures SameHeadings(c, p)
    decreases |c| - p
  {
    var e := LineEnd(c, p);
    if e < |c| {
      HeadingsFromLines(c, e + 1);
      SameOnLine(c, p, e);
    } else {
      SameOnLine(c, p, e);
    }
  }

  /** Each line adds the same headings to both readings. */
  lemma SameOnLine(c: string, p: nat, e: nat)
    requires p <= |c| && LineStart(c, p) && NoBareHeading(c) && e == LineEnd(c, p)
    requires e < |c| ==> SameHeadings(c, e + 1)
    ensures SameHeadings(c, p)
  {
    assert !BareHeadingAt(c, p);
    if MatchAt(c, p).Some? {
      SameOnHeadingLine(c, p, e);
    } else {
      SameOnOtherLine(c, p, e);
    }
  }

  /** A heading line adds the same heading to both readings. */
  lemma SameOnHeadingLine(c: string, p: nat, e: nat)
    requires p <= |c| && LineStart(c, p) && !BareHeadingAt(c, p) && MatchAt(c, p).Some?
    requires e == LineEnd(c, p) && (e < |c| ==> SameHeadings(c, e + 1))
    ensures SameHeadings(c, p)
  {
    var m := MatchAt(c, p).value;
    LineMatch(c, p);
    ScanHeadingLine(c, p, m, e);
    LinesStep(c, p, e);
  }

  /** Any other line adds nothing to either reading. */
  lemma SameOnOtherLine(c: string, p: nat, e: nat)
    requires p <= |c| && LineStart(c, p) && !BareHeadingAt(c, p) && MatchAt(c, p).None?
    requires e == LineEnd(c, p) && (e < |c| ==> SameHeadings(c, e + 1))
    ensures SameHeadings(c, p)
  {
    LineMatch(c, p);
    ScanOtherLine(c, p, e);
    LinesStep(c, p, e);
  }

  /**
    Without a bare `##`/`###` line followed by another line, `generateTOC` yields exactly one
    entry per heading line, in document order; lines opening with `#` or `####` yield nothing.
  */
  lemma TocIsLineToc(c: string)
    requires NoBareHeading(c)
    ensures Toc(c) == LineToc(c)
  {
    HeadingsFromLines(c, 0);
    assert SameHeadings(c, 0);
  }

  // ---------------------------------------------------------------- examples

  /** A line opening with a single `#` is not a heading line. */
  lemma OneHashNoHeading(line: string)
    requires |line| >= 1 && line[0] == '#' && (|line| == 1 || line[1] != '#')
    ensures HeadingLine(line).None?
  {
  }

  /** A line opening with `####` is not a heading line: after `###` comes a `#`, not whitespace. */
  lemma FourHashesNoHeading(line: string)
    requires |line| >= 4 && line[0] == '#' && line[1] == '#' && line[2] == '#' && line[3] == '#'
    ensures HeadingLine(line).None?
  {
  }

  /**
    The `\s+` of the pattern also matches a line terminator: a bare `##` line followed by
    `foo` gives the entry `foo` of level 2.
  */
  lemma BareHeadingSpansLines()
    ensures Toc("##\nfoo") == [TocItem("foo", "foo", 2)]
  {
    var c := "##\nfoo";
    BareHeadingMatch(c);
    assert NextMatch(c, 0) == Some(RawMatch(0, 2, 3, 6));
    BareHeadingEnd(c);
    BareHeadingText(c);
    assert HeadingsFrom(c, 0) == [Heading(2, "foo")];
    BareHeadingId("foo");
    assert Entries([Heading(2, "foo")]) == [Entry(Heading(2, "foo"))];
  }

  lemma BareHeadingMatch(c: string)
    requires c == "##\nfoo"
    ensures MatchAt(c, 0) == Some(RawMatch(0, 2, 3, 6))
  {
    assert Hashes(c, 0) == 2;
    assert SpaceRun(c, 2) == 1;
    assert SpaceTaken(c, 2, 1) == 1;
    assert LineRun(c, 3) == 3;
  }

  lemma BareHeadingEnd(c: string)
    requires c == "##\nfoo"
    ensures HeadingsFrom(c, 6) == []
  {
    assert MatchAt(c, 6).None?;
  }

  lemma BareHeadingText(c: string)
    requires c == "##\nfoo"
    ensures Trim(c[3..6]) == "foo"
  {
    assert c[3..6] == "foo";
    TrimIs("foo", 0, 3);
  }

  lemma BareHeadingId(s: string)
    requires s == "foo"
    ensures Slugify(s) == s
  {
    forall i | 0 <= i < |s| ensures IsSlugChar(s[i]) {
    }
    SlugifyFixes(s);
  }
}
