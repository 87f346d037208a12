/** A node card of the hierarchical org graph (src/components/nodes/GroupNode.tsx):
    which handles it has, its styles, its title, the expand toggle, and the
    team and member count labels. */
module GroupNodeView {
  import opened Common
  import opened Text
  import opened OrgData

  datatype NodeType = Director | Pillar | Team

  /** The data a node card is drawn from. `onToggle` is present or not; the
      call it would make is what `Toggle` returns. */
  datatype NodeData = NodeData(
    id: string,
    name: string,
    nodeType: NodeType,
    icon: string,
    memberCount: int,
    teamCount: Option<int>,
    isExpanded: bool,
    hasOnToggle: bool,
    description: Option<string>)

  /** `isExpandable`: a pillar with a positive team count, an absent count
      reading as 0. */
  predicate IsExpandable(d: NodeData) {
    d.nodeType == Pillar && d.teamCount.GetOr(0) > 0
  }

  /** What a click on the toggle does: whether it stops the event from
      reaching the graph behind the card, and the id passed to `onToggle`,
      if the handler calls it. */
  datatype Click = Click(propagationStopped: bool, call: Option<string>)

  /** `handleToggle`: the click never reaches the graph behind the card, and
      it calls `onToggle` only for an expandable node with a handler. */
  function Toggle(d: NodeData): (c: Click)
    ensures c.propagationStopped
    ensures c.call.Some? <==> d.hasOnToggle && d.nodeType == Pillar && d.teamCount.GetOr(0) > 0
    ensures c.call.Some? ==> c.call.value == d.id
  {
    Click(true, if d.hasOnToggle && IsExpandable(d) then Some(d.id) else None)
  }

  /** The expand button, drawn only for expandable nodes. */
  datatype Chevron = ChevronDown | ChevronRight

  function ToggleButton(d: NodeData): (b: Option<Chevron>)
    ensures b.Some? <==> IsExpandable(d)
    ensures b == Some(ChevronDown) <==> IsExpandable(d) && d.isExpanded
  {
    if !IsExpandable(d) then None else if d.isExpanded then Some(ChevronDown) else Some(ChevronRight)
  }

  /** A button that is shown can always act: clicking it reaches `onToggle`
      whenever a handler is attached. */
  lemma ShownButtonToggles(d: NodeData)
    requires ToggleButton(d).Some? && d.hasOnToggle
    ensures Toggle(d).call == Some(d.id)
  {
  }

  /** `getNodeStyles`. */
  function NodeStyle(t: NodeType): string {
    match t
    case Director => "border-2 border-primary bg-primary/5 shadow-lg"
    case Pillar => "border-2 border-muted-foreground bg-muted/20 shadow-md"
    case Team => "border border-muted-foreground/50 bg-background shadow-sm"
  }

  /** `getTextStyles`. */
  function TextStyle(t: NodeType): string {
    match t
    case Director => "text-primary font-bold"
    case Pillar => "text-foreground font-semibold"
    case Team => "text-foreground"
  }

  /** The three kinds of node look different: the node style tells the type. */
  lemma NodeStylesDistinct(s: NodeType, t: NodeType)
    ensures NodeStyle(s) == NodeStyle(t) <==> s == t
    ensures TextStyle(s) == TextStyle(t) <==> s == t
  {
    if s != t {
      assert NodeStyle(s)[7] != NodeStyle(t)[7] || NodeStyle(s)[..8] != NodeStyle(t)[..8]
        || |NodeStyle(s)| != |NodeStyle(t)|;
    }
  }

  /** A target handle at the top for everything but the director. */
  predicate HasTargetHandle(t: NodeType) { t != Director }

  /** A source handle at the bottom for everything but a team. */
  predicate HasSourceHandle(t: NodeType) { t != Team }

  /** Only a pillar sits between two levels: it alone has both handles, a
      director only feeds edges and a team only receives them. */
  lemma HandlesByType(t: NodeType)
    ensures HasTargetHandle(t) && HasSourceHandle(t) <==> t == Pillar
    ensures !HasTargetHandle(t) <==> t == Director
    ensures !HasSourceHandle(t) <==> t == Team
  {
  }

  /** The card's title: names over 38 characters are cut to 35 plus "...". */
  function Title(name: string): (r: string)
    ensures |r| <= 38
    ensures |name| <= 38 ==> r == name
    ensures |name| > 38 ==> |r| == 38 && r == name[..35] + "..."
  {
    Ellipsize(name, 38)
  }

  /** The icon the card draws: the registry entry for the node's key (the
      key is typed to be one of the registry's). */
  function NodeIcon(d: NodeData): (g: Glyph)
    requires d.icon in CategoryIcon
    ensures g == IconFor(d.icon)
  {
    CategoryIcon[d.icon]
  }

  // ---------------------------------------------------------------------------
  // The count labels
  // ---------------------------------------------------------------------------

  /** What a JSX slot `{cond && <span>…</span>}` renders: nothing (for
      `false`, `undefined`), a bare text node (for a number the `&&` stopped
      at), or the labelled span. */
  datatype Slot = Nothing | Text(text: string) | Span(text: string)

  /** The teams slot as written: `teamCount && teamCount > 0 && <span>`. A
      count of 0 stops the `&&` chain at the number 0, and React renders a
      number, so the card shows a bare "0". */
  function TeamsSlotAsWritten(teamCount: Option<int>): (s: Slot)
    ensures s.Span? <==> teamCount.GetOr(0) > 0
    ensures s.Text? <==> teamCount == Some(0)
    ensures s.Text? ==> s.text == "0"
  {
    match teamCount
    case None => Nothing
    case Some(n) =>
      if n == 0 then Text("0")
      else if n > 0 then Span(NatToString(n) + " teams")
      else Nothing
  }

  /** The evidently intended teams slot: the label for a positive count,
      nothing otherwise. */
  function TeamsSlot(teamCount: Option<int>): (s: Slot)
    ensures s.Span? <==> teamCount.GetOr(0) > 0
    ensures !s.Text?
    ensures s.Span? ==> s.text == NatToString(teamCount.value) + " teams"
  {
    if teamCount.GetOr(0) > 0 then Span(NatToString(teamCount.value) + " teams") else Nothing
  }

  /** The discrepancy: a node with zero teams shows a stray "0", where the
      corrected slot shows nothing. On every other count the two agree. */
  lemma TeamsSlotStrayZero()
    ensures TeamsSlotAsWritten(Some(0)) == Text("0")
    ensures TeamsSlot(Some(0)) == Nothing
  {
  }

  lemma TeamsSlotAgreesElsewhere(teamCount: Option<int>)
    requires teamCount != Some(0)
    ensures TeamsSlotAsWritten(teamCount) == TeamsSlot(teamCount)
  {
  }

  /** The members slot: `memberCount > 0 && <span>`; `false` renders nothing. */
  function MembersSlot(memberCount: int): (s: Slot)
    ensures s.Span? <==> memberCount > 0
    ensures !s.Text?
    ensures s.Span? ==> s.text == NatToString(memberCount) + " members"
  {
    if memberCount > 0 then Span(NatToString(memberCount) + " members") else Nothing
  }

  /** Everything the card shows that depends on its data. */
  datatype Card = Card(
    targetHandle: bool,
    sourceHandle: bool,
    nodeStyle: string,
    textStyle: string,
    title: string,
    icon: Glyph,
    button: Option<Chevron>,
    teams: Slot,
    members: Slot,
    description: Option<string>)

  /** The card as the code renders it, with the teams slot as written. */
  function RenderCard(d: NodeData): (c: Card)
    requires d.icon in CategoryIcon
    ensures c.targetHandle <==> d.nodeType != Director
    ensures c.sourceHandle <==> d.nodeType != Team
    ensures c.targetHandle && c.sourceHandle <==> d.nodeType == Pillar
    ensures c.icon == IconFor(d.icon)
    ensures c.button.Some? <==> IsExpandable(d)
    ensures |c.title| <= 38
    ensures |d.name| <= 38 ==> c.title == d.name
    ensures |d.name| > 38 ==> c.title == d.name[..35] + "..."
    ensures c.teams.Span? <==> d.teamCount.GetOr(0) > 0
    ensures c.teams.Span? ==> IsExpandable(d) || d.nodeType != Pillar
    ensures c.teams.Text? <==> d.teamCount == Some(0)
    ensures c.teams.Text? ==> c.teams.text == "0"
    ensures !c.members.Text?
    ensures c.members == MembersSlot(d.memberCount)
    ensures c.description.Some? <==> Truthy(d.description)
  {
    Card(HasTargetHandle(d.nodeType), HasSourceHandle(d.nodeType), NodeStyle(d.nodeType), TextStyle(d.nodeType),
      Title(d.name), NodeIcon(d), ToggleButton(d), TeamsSlotAsWritten(d.teamCount), MembersSlot(d.memberCount),
      if Truthy(d.description) then d.description else None)
  }

  /** The card with the corrected teams slot: it never shows a bare number,
      and it differs from the card as written only for a team count of 0. */
  function RenderCardIntended(d: NodeData): (c: Card)
    requires d.icon in CategoryIcon
    ensures !c.teams.Text? && !c.members.Text?
    ensures c.teams.Span? <==> d.teamCount.GetOr(0) > 0
    ensures c == RenderCard(d) <==> d.teamCount != Some(0)
    ensures c == RenderCard(d).(teams := c.teams)
  {
    RenderCard(d).(teams := TeamsSlot(d.teamCount))
  }
}
