/**
  The blog post record (`BlogPost` and `BlogFrontmatter` in src/lib/mdx.ts).
  A post's date is kept as the integer time key that `new Date(date).getTime()` yields
  for a valid date; optional boolean flags that are absent in the frontmatter are `false`.
*/
module Posts {
  import opened Wrappers

  datatype Frontmatter = Frontmatter(
    title: string,
    date: int,
    tags: seq<string>,
    summary: string,
    image: Option<string>,
    author: Option<string>,
    draft: bool,
    featured: bool)

  datatype Post = Post(slug: string, frontmatter: Frontmatter, content: string, readingTime: string)
}
