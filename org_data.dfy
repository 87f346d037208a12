/** The org-chart data model: groups with optional member lists, nested
    through `children`, and the icon registry their `icon` keys point into
    (src/data/orgChart.ts). */
module OrgData {
  import opened Common
  import opened Text

  /** A person in a group; `role` is optional. */
  datatype OrgMember = OrgMember(name: string, role: Option<string>)

  /** A group of the chart. An absent `children` list and an empty one are
      treated alike by every reader of the source, so both are `[]` here. */
  datatype OrgGroup = OrgGroup(
    id: string,
    name: string,
    icon: string,
    description: Option<string>,
    members: Option<seq<OrgMember>>,
    children: seq<OrgGroup>)

  /** The glyphs of the icon registry. */
  datatype Glyph = Crown | Shield | Cloud | Server | UserPlus | FileText | Megaphone | Users | Bot | Globe

  /** `CATEGORY_ICON`: the registry from icon key to glyph. */
  const CategoryIcon: map<string, Glyph> := map[
    "Crown" := Crown, "Shield" := Shield, "Cloud" := Cloud, "Server" := Server,
    "UserPlus" := UserPlus, "FileText" := FileText, "Megaphone" := Megaphone,
    "Users" := Users, "Bot" := Bot, "Globe" := Globe]

  /** `CATEGORY_ICON[key] ?? Users`: an unknown key degrades to the Users glyph. */
  function IconFor(key: string): (g: Glyph)
    ensures key in CategoryIcon ==> g == CategoryIcon[key]
    ensures key !in CategoryIcon ==> g == Users
  {
    if key in CategoryIcon then CategoryIcon[key] else Users
  }

  /** `g.members ?? []`. */
  function MembersOf(g: OrgGroup): seq<OrgMember> {
    g.members.GetOr([])
  }

  /** The number of members of a group, an absent list counting as empty. */
  function MemberCount(g: OrgGroup): (n: nat)
    ensures g.members.None? ==> n == 0
    ensures g.members.Some? ==> n == |g.members.value|
  {
    |MembersOf(g)|
  }

  /** A member as the searches read it: name and role joined by a space
      (`[m.name, m.role ?? ""].join(" ")`). */
  function MemberText(m: OrgMember): string {
    m.name + " " + m.role.GetOr("")
  }

  /** The lower-cased joined text of the member contains `q`. */
  predicate MemberMatches(m: OrgMember, q: string) {
    Includes(Lower(MemberText(m)), q)
  }

  function TotalMembers(groups: seq<OrgGroup>): nat {
    if groups == [] then 0 else MemberCount(groups[0]) + TotalMembers(groups[1..])
  }

  function Group(id: string, name: string, icon: string): OrgGroup {
    OrgGroup(id, name, icon, None, Some([]), [])
  }

  /** `orgChart`: the published chart, all member lists still empty. */
  const OrgChart: seq<OrgGroup> := [
    Group("founders", "Founders", "Crown"),
    Group("engineering", "Agent Dev Ops", "Bot"),
    Group("security", "Cybersecurity", "Shield"),
    Group("webdev", "Website Development", "Server"),
    Group("cloud", "Cloud Infrastructure", "Cloud"),
    Group("it", "IT", "Server"),
    Group("onboarding", "Onboarding", "UserPlus"),
    Group("fundraising", "Fundraising", "Users"),
    Group("docs", "Documentation", "FileText"),
    Group("community-experience", "Community Experience", "Users"),
    Group("marketing-content", "Marketing & Communications (Content)", "Megaphone"),
    Group("influencer", "Influencer Marketing", "Megaphone"),
    Group("network", "Network Architects", "Globe")
  ]

  /** The chart has thirteen top-level groups, none of them nested, each with
      a present but empty member list and an icon the registry knows. */
  lemma OrgChartShape()
    ensures |OrgChart| == 13
    ensures forall i :: 0 <= i < |OrgChart| ==>
      && OrgChart[i].children == []
      && OrgChart[i].members == Some([])
      && OrgChart[i].icon in CategoryIcon
  {
  }

  /** Group ids in the chart are pairwise distinct. */
  lemma OrgChartIdsDistinct()
    ensures forall i, j :: 0 <= i < j < |OrgChart| ==> OrgChart[i].id != OrgChart[j].id
  {
  }

  lemma {:induction false} TotalMembersZero(groups: seq<OrgGroup>)
    requires forall i :: 0 <= i < |groups| ==> MembersOf(groups[i]) == []
    ensures TotalMembers(groups) == 0
  {
    if groups != [] {
      TotalMembersZero(groups[1..]);
    }
  }

  /** No member has been entered yet: the chart counts zero members in all. */
  lemma OrgChartHasNoMembers()
    ensures TotalMembers(OrgChart) == 0
  {
    TotalMembersZero(OrgChart);
  }
}
