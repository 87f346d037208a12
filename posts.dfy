/** The LinkedIn post record shared by the scraper, the fallback list and the
    feed service (`LinkedInPost` in src/utils/BrightDataService.ts). */
module PostModel {
  import opened Common

  datatype PostType = MemberSpotlight | General

  /** A post. Strings are sequences of characters; the optional member fields
      may be absent. */
  datatype Post = Post(
    id: string,
    content: string,
    author: string,
    date: string,
    postType: PostType,
    linkedinUrl: string,
    memberName: Option<string>,
    memberTitle: Option<string>,
    memberDescription: Option<string>)
}
