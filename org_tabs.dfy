/** The pillar tab strip (src/components/OrgTabs.tsx): an "All" tab, then one
    tab per pillar with its name cut to fit. */
module OrgTabs {
  import opened Text

  datatype Pillar = Pillar(id: string, name: string)

  /** A tab trigger: the value it selects and the label it shows. */
  datatype Tab = Tab(value: string, text: string)

  /** A pillar's label: names over 20 characters are cut to 17 plus "...". */
  function PillarLabel(name: string): (r: string)
    ensures |r| <= 20
    ensures |name| <= 20 ==> r == name
    ensures |name| > 20 ==> r == name[..17] + "..."
  {
    Ellipsize(name, 20)
  }

  function PillarTabs(pillars: seq<Pillar>): seq<Tab> {
    seq(|pillars|, i requires 0 <= i < |pillars| => Tab(pillars[i].id, PillarLabel(pillars[i].name)))
  }

  /** The triggers: "all", then the pillars in input order. */
  function Tabs(pillars: seq<Pillar>): (tabs: seq<Tab>)
    ensures |tabs| == |pillars| + 1
    ensures tabs[0] == Tab("all", "All")
    ensures forall i :: 0 <= i < |pillars| ==> tabs[i + 1].value == pillars[i].id
    ensures forall i :: 0 <= i < |pillars| ==> tabs[i + 1].text == PillarLabel(pillars[i].name)
    ensures forall i :: 0 <= i < |tabs| ==> |tabs[i].text| <= 20
  {
    [Tab("all", "All")] + PillarTabs(pillars)
  }

  /** Each tab's value selects what it labels: the first selects all pillars,
      the others one pillar each, and every pillar has its tab. */
  lemma TabsSelectPillars(pillars: seq<Pillar>, v: string)
    ensures (exists i :: 1 <= i < |Tabs(pillars)| && Tabs(pillars)[i].value == v) <==>
      (exists p :: p in pillars && p.id == v)
  {
    var tabs := Tabs(pillars);
    if exists p :: p in pillars && p.id == v {
      var p :| p in pillars && p.id == v;
      var i :| 0 <= i < |pillars| && pillars[i] == p;
      assert tabs[i + 1].value == v;
    }
  }
}
