/** The hand-kept Member of the Week posts (src/data/fallbackMemberPosts.ts)
    that the feed merges after whatever the scraper returned. Non-ASCII
    characters (the leading emoji) are written as escapes, and each content
    is written as its first four characters followed by the rest. */
module FallbackPosts {
  import opened Common
  import opened Text
  import opened PostModel

  /** Where every LinkedIn post link starts. */
  const PostsUrl: string := "https://www.linkedin.com/posts/"

  /** A member-spotlight post with every member field present. */
  function Spotlight(id: string, content: string, author: string, date: string, url: string,
                     name: string, title: string, description: string): Post {
    Post(id, content, author, date, MemberSpotlight, url, Some(name), Some(title), Some(description))
  }

  const Post1: Post :=
    Spotlight(
      "post-7331665271591477254",
      "\U{1F3C6} Me" + "mber of the Week Spotlight \U{1F3C6} This week we\'re celebrating an outstanding community member who has been instrumental in advancing AI innovation and fostering collaborative discussions. Their expertise in machine learning and dedication to community building exemplifies the spirit of Gen AI Global. #genaiglobal #memberoftheweek #aicommunity",
      "Gen AI Global", "2024-11-15",
      PostsUrl + "gen-ai-global_genaiglobal-memberoftheweek-aicommunity-activity-7331665271591477254-gbhe",
      "Sarah Chen", "ML Engineer at TechCorp",
      "An outstanding community member who has been instrumental in advancing AI innovation and fostering collaborative discussions. Her expertise in machine learning and dedication to community building exemplifies the spirit of Gen AI Global.")

  const Post2: Post :=
    Spotlight(
      "post-7334209562918445057",
      "\U{1F31F} We" + "ekly Member Feature \U{1F31F} Today we spotlight a remarkable leader in our AI community whose vision and leadership have inspired countless members. Their contributions to AI ethics and responsible development continue to shape our collective understanding. #genaiglobal #memberoftheweek #aileadership",
      "Gen AI Global", "2024-11-22",
      PostsUrl + "gen-ai-global_genaiglobal-memberoftheweek-aileadership-activity-7334209562918445057-9xHP",
      "Marcus Thompson", "AI Ethics Researcher",
      "A remarkable leader in our AI community whose vision and leadership have inspired countless members. His contributions to AI ethics and responsible development continue to shape our collective understanding.")

  const Post3: Post :=
    Spotlight(
      "post-7329133041845493760",
      "\U{1F396}\U{FE0F} M" + "ember of the Week Recognition \U{1F396}\U{FE0F} We\'re proud to highlight a dedicated community member whose innovative approaches to AI problem-solving and commitment to knowledge sharing have made a lasting impact. Their collaborative spirit enriches our global community. #genaiglobal #memberoftheweek #aicommunity",
      "Gen AI Global", "2024-11-08",
      PostsUrl + "gen-ai-global_genaiglobal-memberoftheweek-aicommunity-activity-7329133041845493760-1viY",
      "Dr. Priya Sharma", "AI Research Scientist",
      "A dedicated community member whose innovative approaches to AI problem-solving and commitment to knowledge sharing have made a lasting impact. Her collaborative spirit enriches our global community.")

  const Post4: Post :=
    Spotlight(
      "post-7336743269898285056",
      "\U{1F30D} Me" + "mber Spotlight: AI for Good \U{1F30D} This week we celebrate a visionary member who has been leading initiatives in AI for social impact. Their work demonstrates how artificial intelligence can be a force for positive change in the world. #genaiglobal #memberoftheweek #aiforgood",
      "Gen AI Global", "2024-11-29",
      PostsUrl + "gen-ai-global_genaiglobal-memberoftheweek-aiforgood-activity-7336743269898285056-POwj",
      "David Rodriguez", "AI for Social Impact Lead",
      "A visionary member who has been leading initiatives in AI for social impact. His work demonstrates how artificial intelligence can be a force for positive change in the world.")

  const Post5: Post :=
    Spotlight(
      "post-7354510363482046464",
      "\U{1F680} We" + "ekly Community Spotlight \U{1F680} Today we feature an exceptional member whose contributions to open-source AI projects and community mentorship have been invaluable. Their passion for democratizing AI access continues to inspire our global network. #genaiglobal #memberoftheweek #aicommunity",
      "Gen AI Global", "2025-01-03",
      PostsUrl + "gen-ai-global_genaiglobal-memberoftheweek-aicommunity-activity-7354510363482046464-zspw",
      "Elena Petrov", "Open Source AI Advocate",
      "An exceptional member whose contributions to open-source AI projects and community mentorship have been invaluable. Her passion for democratizing AI access continues to inspire our global network.")

  const Post6: Post :=
    Spotlight(
      "post-7350014303699161088",
      "\U{1F3AF} AI" + " Pioneer Recognition \U{1F3AF} We\'re excited to spotlight a true AI pioneer whose groundbreaking research and community leadership have set new standards in the field. Their innovative thinking and collaborative approach embody the future of AI development. #genai #memberoftheweek #aipioneers",
      "Apoorv Garg", "2024-12-27",
      PostsUrl + "apoorvgarg88_genai-memberoftheweek-aipioneers-activity-7350014303699161088-KCth",
      "Dr. Alex Kumar", "AI Research Pioneer",
      "A true AI pioneer whose groundbreaking research and community leadership have set new standards in the field. Their innovative thinking and collaborative approach embody the future of AI development.")

  const Post7: Post :=
    Spotlight(
      "post-7358617146085515265",
      "\U{1F31F} Me" + "mber Excellence Award \U{1F31F} This week we honor a distinguished member whose expertise in neural networks and commitment to advancing AI education have made significant contributions to our community\'s growth and learning. #memberoftheweek #genai #aiexcellence",
      "Gen AI Global", "2025-01-08",
      PostsUrl + "activity-7358617146085515265-p0_U",
      "Jennifer Wu", "Neural Networks Specialist",
      "A distinguished member whose expertise in neural networks and commitment to advancing AI education have made significant contributions to our community\'s growth and learning.")

  const Post8: Post :=
    Spotlight(
      "post-7359599098850660353",
      "\U{1F3C5} Sp" + "ecial Member Recognition \U{1F3C5} Today we celebrate a remarkable contributor whose work in generative AI and community building has been instrumental in fostering innovation and collaboration within our Singapore chapter. #memberoftheweek #genai #sgu",
      "Gen AI Global", "2025-01-10",
      PostsUrl + "gen-ai-global_memberoftheweek-genai-sgu-activity-7359599098850660353-XIPd",
      "Wei Lin Tan", "Generative AI Specialist",
      "A remarkable contributor whose work in generative AI and community building has been instrumental in fostering innovation and collaboration within our Singapore chapter.")

  const Post9: Post :=
    Spotlight(
      "post-7362501035975663618",
      "\U{1F396}\U{FE0F} D" + "igital Transformation Leader \U{1F396}\U{FE0F} We\'re proud to feature a visionary member whose leadership in AI-driven digital transformation has revolutionized multiple industries. Their strategic insights and innovative implementations continue to shape the future of business AI. #memberoftheweek #genai #digitaltransformation",
      "Oscar Sanchez", "2025-01-15",
      PostsUrl + "oscarsanch_memberoftheweek-genai-digitaltransformation-activity-7362501035975663618-bBep",
      "Oscar Sanchez", "Digital Transformation Executive",
      "A visionary member whose leadership in AI-driven digital transformation has revolutionized multiple industries. His strategic insights and innovative implementations continue to shape the future of business AI.")

  /** `fallbackMemberPosts`. */
  const FallbackMemberPosts: seq<Post> := [Post1, Post2, Post3, Post4, Post5, Post6, Post7, Post8, Post9]


  /** Nine posts, every one a member spotlight naming its member. */
  lemma FallbackShape()
    ensures |FallbackMemberPosts| == 9
    ensures forall i :: 0 <= i < |FallbackMemberPosts| ==>
      FallbackMemberPosts[i].postType == MemberSpotlight && FallbackMemberPosts[i].memberName.Some?
  {
  }

  /** The post ids are pairwise distinct. */
  lemma FallbackIdsDistinct()
    ensures forall i, j :: 0 <= i < j < |FallbackMemberPosts| ==> FallbackMemberPosts[i].id != FallbackMemberPosts[j].id
  {
  }

  /** The member names are pairwise distinct. */
  lemma FallbackNamesDistinct()
    ensures forall i, j :: 0 <= i < j < |FallbackMemberPosts| ==>
      FallbackMemberPosts[i].memberName != FallbackMemberPosts[j].memberName
  {
  }

  /** The first four characters of each post's content. */
  const Openings: seq<string> := ["\U{1F3C6} Me", "\U{1F31F} We", "\U{1F396}\U{FE0F} M", "\U{1F30D} Me", "\U{1F680} We", "\U{1F3AF} AI", "\U{1F31F} Me", "\U{1F3C5} Sp", "\U{1F396}\U{FE0F} D"]

  /** Every post opens as listed. */
  lemma FallbackOpenings()
    ensures forall i :: 0 <= i < |FallbackMemberPosts| ==>
      |FallbackMemberPosts[i].content| >= 4 && FallbackMemberPosts[i].content[..4] == Openings[i]
  {
    forall i | 0 <= i < |FallbackMemberPosts|
      ensures |FallbackMemberPosts[i].content| >= 4 && FallbackMemberPosts[i].content[..4] == Openings[i]
    {
      if i == 0 {
        assert Post1.content[..4] == Openings[0];
      } else if i == 1 {
        assert Post2.content[..4] == Openings[1];
      } else if i == 2 {
        assert Post3.content[..4] == Openings[2];
      } else if i == 3 {
        assert Post4.content[..4] == Openings[3];
      } else if i == 4 {
        assert Post5.content[..4] == Openings[4];
      } else if i == 5 {
        assert Post6.content[..4] == Openings[5];
      } else if i == 6 {
        assert Post7.content[..4] == Openings[6];
      } else if i == 7 {
        assert Post8.content[..4] == Openings[7];
      } else {
        assert Post9.content[..4] == Openings[8];
      }
    }
  }

  /** Posts that open differently differ in their first 100 characters. */
  lemma DistinctOpeningsDistinctPrefixes(posts: seq<Post>, openings: seq<string>)
    requires |openings| == |posts|
    requires forall i :: 0 <= i < |posts| ==> |posts[i].content| >= 4 && posts[i].content[..4] == openings[i]
    requires forall i, j :: 0 <= i < j < |openings| ==> openings[i] != openings[j]
    ensures forall i, j :: 0 <= i < j < |posts| ==> Take(posts[i].content, 100) != Take(posts[j].content, 100)
  {
    forall i, j | 0 <= i < j < |posts|
      ensures Take(posts[i].content, 100) != Take(posts[j].content, 100)
    {
      var s, t := posts[i].content, posts[j].content;
      assert Take(s, 100)[..4] == s[..4];
      assert Take(t, 100)[..4] == t[..4];
    }
  }

  /** No two posts open alike, so their first 100 characters differ. */
  lemma FallbackOpeningsDistinct()
    ensures forall i, j :: 0 <= i < j < |FallbackMemberPosts| ==>
      Take(FallbackMemberPosts[i].content, 100) != Take(FallbackMemberPosts[j].content, 100)
  {
    FallbackOpenings();
    assert forall i, j :: 0 <= i < j < |Openings| ==> Openings[i] != Openings[j];
    DistinctOpeningsDistinctPrefixes(FallbackMemberPosts, Openings);
  }

  /** A calendar date written YYYY-MM-DD. */
  predicate IsIsoDate(d: string) {
    && |d| == 10
    && IsDigit(d[0]) && IsDigit(d[1]) && IsDigit(d[2]) && IsDigit(d[3]) && d[4] == '-'
    && IsDigit(d[5]) && IsDigit(d[6]) && d[7] == '-' && IsDigit(d[8]) && IsDigit(d[9])
  }

  /** Every date is written YYYY-MM-DD. */
  lemma FallbackDatesWellFormed()
    ensures forall i :: 0 <= i < |FallbackMemberPosts| ==> IsIsoDate(FallbackMemberPosts[i].date)
  {
    assert IsIsoDate(Post1.date) by { }
    assert IsIsoDate(Post2.date) by { }
    assert IsIsoDate(Post3.date) by { }
    assert IsIsoDate(Post4.date) by { }
    assert IsIsoDate(Post5.date) by { }
    assert IsIsoDate(Post6.date) by { }
    assert IsIsoDate(Post7.date) by { }
    assert IsIsoDate(Post8.date) by { }
    assert IsIsoDate(Post9.date) by { }
  }

  /** Every link points at a LinkedIn post. */
  lemma FallbackUrlsAreLinkedInPosts()
    ensures forall i :: 0 <= i < |FallbackMemberPosts| ==> PostsUrl <= FallbackMemberPosts[i].linkedinUrl
  {
  }
}
