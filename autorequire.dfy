/** The stand-alone autorequire rule of network interfaces: a vlan requires
    its parent, a bond its slaves. */
module AutorequireRule {
  import opened Text
  import opened Network

  function Wrap(xs: seq<string>): (r: seq<Option<string>>)
    ensures |r| == |xs| && forall k :: 0 <= k < |xs| ==> r[k] == Some(xs[k])
  {
    if xs == [] then [] else [Some(xs[0])] + Wrap(xs[1..])
  }

  /** The interfaces a resource named `name` requires, chosen by the
      classification of its name. A vlan's parent is pushed even when it is
      missing (`None`). */
  function Requires(name: string, parent: Option<string>, slaves: seq<string>): (r: seq<Option<string>>)
    ensures TypeOf(name) !in {Vlan, Bonding} ==> r == []
    ensures TypeOf(name) == Vlan ==> r == [parent]
    ensures TypeOf(name) == Bonding ==> |r| == |slaves| && forall k :: 0 <= k < |r| ==> r[k] == Some(slaves[k])
  {
    if TypeOf(name) == Vlan then [parent]
    else if TypeOf(name) == Bonding then Wrap(slaves)
    else []
  }
}
