/** The records shared by the blog assistant's server and client. */
module BlogTypes {
  import opened Wrappers

  /** `ArticleFrontmatter`. */
  datatype Frontmatter = Frontmatter(
    title: string,
    description: string,
    publishedAt: string,
    updatedAt: Option<string>,
    tags: seq<string>,
    heroImage: Option<string>)

  /** `Article`: one Markdown file of a blog directory. */
  datatype Article = Article(
    id: string,
    slug: string,
    filename: string,
    directory: string,
    frontmatter: Frontmatter,
    content: string,
    isFolder: bool)
}
