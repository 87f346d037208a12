/** The collapsible-list org view (src/components/OrgChart3D.tsx): a flat list
    of units linked by `parentId`, regrouped into top-level units with their
    direct children; the per-group member filter, the match flag that opens a
    group while searching, and the chart-wide member count. */
module OrgList {
  import opened Common
  import opened Text
  import opened OrgData

  /** A unit of the flat list; `parentId` names the owning unit, if any. */
  datatype OrgUnit = OrgUnit(
    id: string,
    name: string,
    icon: string,
    parentId: Option<string>,
    description: Option<string>,
    members: Option<seq<OrgMember>>)

  /** `!unit.parentId`: no parent, or an empty parent id. */
  predicate IsTopLevel(u: OrgUnit) {
    !Truthy(u.parentId)
  }

  /** `child.parentId === id`. */
  predicate IsChildOf(c: OrgUnit, id: string) {
    c.parentId == Some(id)
  }

  /** The filter callback `child => child.parentId === id`. */
  function ParentIs(id: string): OrgUnit -> bool {
    c => IsChildOf(c, id)
  }

  function UnitMembers(u: OrgUnit): seq<OrgMember> {
    u.members.GetOr([])
  }

  // ---------------------------------------------------------------------------
  // hierarchicalData
  // ---------------------------------------------------------------------------

  datatype Entry = Entry(unit: OrgUnit, children: seq<OrgUnit>)

  function TopLevel(units: seq<OrgUnit>): seq<OrgUnit> {
    Filter(units, IsTopLevel)
  }

  function ChildrenOf(units: seq<OrgUnit>, id: string): seq<OrgUnit> {
    Filter(units, ParentIs(id))
  }

  /** `hierarchicalData`: one entry per top-level unit, carrying the units
      whose parent is that unit. */
  function Hierarchy(units: seq<OrgUnit>): seq<Entry> {
    var top := TopLevel(units);
    seq(|top|, i requires 0 <= i < |top| => Entry(top[i], ChildrenOf(units, top[i].id)))
  }

  /** The entries are exactly the top-level units, in source order (`idx`
      gives each entry's position in the list); each entry's children are
      exactly the units naming it as parent (in source order: `ChildrenInOrder`). */
  lemma HierarchyShape(units: seq<OrgUnit>) returns (idx: seq<nat>)
    ensures |idx| == |Hierarchy(units)|
    ensures forall i :: 0 <= i < |idx| ==> idx[i] < |units| && Hierarchy(units)[i].unit == units[idx[i]]
    ensures forall i, j :: 0 <= i < j < |idx| ==> idx[i] < idx[j]
    ensures forall j :: 0 <= j < |units| && IsTopLevel(units[j]) ==> j in idx
    ensures forall u :: u in units && IsTopLevel(u) <==>
      exists i :: 0 <= i < |Hierarchy(units)| && Hierarchy(units)[i].unit == u
    ensures forall i, c :: 0 <= i < |Hierarchy(units)| ==>
      (c in Hierarchy(units)[i].children <==> c in units && IsChildOf(c, Hierarchy(units)[i].unit.id))
    ensures forall i :: 0 <= i < |Hierarchy(units)| ==>
      Hierarchy(units)[i].children == ChildrenOf(units, Hierarchy(units)[i].unit.id)
  {
    var h := Hierarchy(units);
    var top := TopLevel(units);
    idx := FilterSubsequence(units, IsTopLevel);
    forall u ensures u in units && IsTopLevel(u) <==> exists i :: 0 <= i < |h| && h[i].unit == u {
      FilterMembership(units, IsTopLevel, u);
      if u in top {
        var i :| 0 <= i < |top| && top[i] == u;
        assert h[i].unit == u;
      }
    }
    forall i, c | 0 <= i < |h|
      ensures c in h[i].children <==> c in units && IsChildOf(c, h[i].unit.id)
    {
      FilterMembership(units, ParentIs(h[i].unit.id), c);
    }
  }

  /** A unit's children keep the order of the flat list, and every unit naming
      it as parent is among them, each as often as it occurs. */
  lemma ChildrenInOrder(units: seq<OrgUnit>, id: string) returns (cidx: seq<nat>)
    ensures SubsequenceWith(ChildrenOf(units, id), units, cidx)
    ensures forall k :: 0 <= k < |cidx| ==> IsChildOf(units[cidx[k]], id)
    ensures forall j :: 0 <= j < |units| && IsChildOf(units[j], id) ==> j in cidx
  {
    cidx := FilterSubsequence(units, ParentIs(id));
  }

  /** A unit whose parent id is non-empty is never top-level, so it is listed
      only under its parent. Units with an empty parent id are top-level, and
      they also fall under a unit whose id is the empty string. */
  lemma ChildIsNotTopLevel(units: seq<OrgUnit>, c: OrgUnit)
    ensures forall i :: 0 <= i < |Hierarchy(units)| ==>
              Hierarchy(units)[i].unit.id != "" && c in Hierarchy(units)[i].children ==> !IsTopLevel(c)
  {
    forall i | 0 <= i < |Hierarchy(units)| && Hierarchy(units)[i].unit.id != "" && c in Hierarchy(units)[i].children
      ensures !IsTopLevel(c)
    {
      FilterMembership(units, ParentIs(Hierarchy(units)[i].unit.id), c);
    }
  }

  // ---------------------------------------------------------------------------
  // Group: member filter, hasMatches, open
  // ---------------------------------------------------------------------------

  /** A member is shown when the query is in its lower-cased name or in its
      lower-cased role (an absent role reading as ""). */
  predicate FieldMatch(m: OrgMember, q: string) {
    Includes(Lower(m.name), q) || Includes(Lower(m.role.GetOr("")), q)
  }

  /** The filter callback over a group's members. */
  function Shows(q: string): OrgMember -> bool {
    m => FieldMatch(m, q)
  }

  /** What a `Group` shows: the filtered members, whether it has matches, whether
      it starts open, and the member count in its header. */
  datatype GroupState = GroupState(shown: seq<OrgMember>, hasMatches: bool, open: bool, count: nat)

  /** A `Group` with its children, for the current query. `defaultOpen` is
      true for top-level groups and absent (false) for nested ones. */
  function GroupView(group: OrgUnit, children: seq<OrgUnit>, query: string, defaultOpen: bool): (v: GroupState)
    ensures v.count == |UnitMembers(group)|
    ensures forall m :: m in v.shown <==> m in UnitMembers(group) && FieldMatch(m, Lower(query))
    ensures v.hasMatches <==>
      || (exists m :: m in UnitMembers(group) && FieldMatch(m, Lower(query)))
      || (exists i, j :: 0 <= i < |children| && 0 <= j < |UnitMembers(children[i])|
            && MemberMatches(UnitMembers(children[i])[j], Lower(query)))
    ensures query == "" ==> v.open == defaultOpen
    ensures query != "" ==> v.open == v.hasMatches
  {
    var q := Lower(query);
    var shown := Filter(UnitMembers(group), Shows(q));
    var childHit :=
      exists i, j :: 0 <= i < |children| && 0 <= j < |UnitMembers(children[i])| && MemberMatches(UnitMembers(children[i])[j], q);
    var hasMatches := |shown| > 0 || childHit;
    assert forall m :: m in shown <==> m in UnitMembers(group) && FieldMatch(m, q) by {
      forall m ensures m in shown <==> m in UnitMembers(group) && FieldMatch(m, q) {
        FilterMembership(UnitMembers(group), Shows(q), m);
      }
    }
    assert |shown| > 0 <==> exists m :: m in UnitMembers(group) && FieldMatch(m, q) by {
      if |shown| > 0 {
        assert shown[0] in shown;
      }
    }
    GroupState(shown, hasMatches, if query != "" then hasMatches else defaultOpen, |UnitMembers(group)|)
  }

  /** The shown members keep the group's order, and every matching member is
      shown, each as often as it occurs. */
  lemma ShownInOrder(group: OrgUnit, children: seq<OrgUnit>, query: string, defaultOpen: bool) returns (idx: seq<nat>)
    ensures SubsequenceWith(GroupView(group, children, query, defaultOpen).shown, UnitMembers(group), idx)
    ensures forall k :: 0 <= k < |idx| ==> FieldMatch(UnitMembers(group)[idx[k]], Lower(query))
    ensures forall j :: 0 <= j < |UnitMembers(group)| && FieldMatch(UnitMembers(group)[j], Lower(query)) ==> j in idx
  {
    var q := Lower(query);
    idx := FilterSubsequence(UnitMembers(group), Shows(q));
  }

  /** An empty query filters nothing: every member is shown. */
  lemma EmptyQueryShowsAll(group: OrgUnit, children: seq<OrgUnit>, defaultOpen: bool)
    ensures GroupView(group, children, "", defaultOpen).shown == UnitMembers(group)
    ensures GroupView(group, children, "", defaultOpen).open == defaultOpen
  {
    assert Lower("") == "";
    forall i | 0 <= i < |UnitMembers(group)| ensures Shows("")(UnitMembers(group)[i]) {
      assert Includes(Lower(UnitMembers(group)[i].name), "");
    }
    FilterAll(UnitMembers(group), Shows(""));
  }

  /** A match in a name or a role is also a match in the joined
      "name role" text the children are searched by. */
  lemma FieldMatchImpliesJoined(m: OrgMember, q: string)
    ensures FieldMatch(m, q) ==> MemberMatches(m, q)
  {
    var role := m.role.GetOr("");
    LowerAppend(m.name, " " + role);
    LowerAppend(" ", role);
    assert Lower(MemberText(m)) == Lower(m.name) + (Lower(" ") + Lower(role));
    IncludesInConcat(Lower(m.name), Lower(" ") + Lower(role), q);
    IncludesInConcat(Lower(" "), Lower(role), q);
  }

  /** The converse fails: a query spanning the space matches the joined text
      of a member but neither of its fields. So a member that opens its
      parent group while searching can be hidden once that group is shown. */
  lemma JoinedDoesNotImplyField()
    ensures
      var m := OrgMember("ab", Some("c"));
      MemberMatches(m, "b c") && !FieldMatch(m, "b c")
  {
    var m := OrgMember("ab", Some("c"));
    assert Lower("ab c") == "ab c";
    assert "b c" <= "ab c"[1..];
    assert Lower("ab") == "ab";
    assert Lower("c") == "c";
    assert !Includes("ab"[1..], "b c");
  }

  /** A group whose own member matches a non-empty query starts open. */
  lemma MatchingGroupOpens(group: OrgUnit, children: seq<OrgUnit>, query: string, defaultOpen: bool, m: OrgMember)
    requires query != ""
    requires m in UnitMembers(group) && FieldMatch(m, Lower(query))
    ensures GroupView(group, children, query, defaultOpen).open
    ensures m in GroupView(group, children, query, defaultOpen).shown
  {
  }

  // ---------------------------------------------------------------------------
  // flatCount and dataPending
  // ---------------------------------------------------------------------------

  /** `flatCount`: the members of all units, an absent list counting 0. */
  function FlatCount(units: seq<OrgUnit>): nat {
    if units == [] then 0 else FlatCount(units[..|units| - 1]) + |UnitMembers(units[|units| - 1])|
  }

  /** `dataPending`: every unit has no members. */
  predicate DataPending(units: seq<OrgUnit>) {
    forall i :: 0 <= i < |units| ==> |UnitMembers(units[i])| == 0
  }

  /** The "content pending" notice shows exactly when the chart counts no
      members at all (and so also for an empty list of units). */
  lemma {:induction false} DataPendingIffNoMembers(units: seq<OrgUnit>)
    ensures DataPending(units) <==> FlatCount(units) == 0
  {
    if units != [] {
      var init := units[..|units| - 1];
      DataPendingIffNoMembers(init);
      assert forall i :: 0 <= i < |init| ==> init[i] == units[i];
    }
  }

  /** Each unit's members are part of the total. */
  lemma {:induction false} FlatCountBounds(units: seq<OrgUnit>, k: nat)
    requires k < |units|
    ensures |UnitMembers(units[k])| <= FlatCount(units)
  {
    var n := |units| - 1;
    if k < n {
      FlatCountBounds(units[..n], k);
      assert units[..n][k] == units[k];
    }
  }
}
