/** The vlan attributes of an interface: the parent it is stacked on and
    its vlan id, which is always taken from the interface name. */
module VlanType {
  import opened Text
  import opened Network

  datatype ParentError = CannotHaveVlan | ParentNotSpecified

  /** Validation of `parent` (no error is `None`): the parent must classify
      as bondable-or-ethernet, and a missing parent is refused second. */
  function ValidateParent(value: Option<string>): (r: Option<ParentError>)
    ensures r.None? <==> value.Some? && TypeOf(value.value) in {Bonding, Ethernet}
  {
    if !IsVlanable(GetInterfaceType(value)) then Some(CannotHaveVlan)
    else if value.None? then Some(ParentNotSpecified)
    else None
  }

  /** A missing parent classifies as unknown and is already refused by the
      first check, so the "not specified" error is never raised. */
  lemma ParentNotSpecifiedUnreachable(value: Option<string>)
    ensures ValidateParent(value) != Some(ParentNotSpecified)
    ensures value.None? ==> ValidateParent(value) == Some(CannotHaveVlan)
  {
  }

  const DefaultVlanid: nat := Vlan1

  /** The munged vlan id: the number in the name of a vlan interface, nothing
      for any other interface, whatever value was supplied. */
  function MungeVlanid(name: string, supplied: Value): (r: Option<nat>)
    ensures r.Some? <==> TypeOf(name) == Vlan
    ensures r.Some? ==> 2 <= r.value <= 4095 && name == "vlan" + NatToString(r.value)
  {
    if TypeOf(name) == Vlan then
      var d := name[4..];
      VlanSuffixRange(d);
      CanonicalRoundTrip(d);
      assert name == name[..4] + d;
      RubyInteger(d)
    else None
  }

  lemma MungeVlanName()
    ensures MungeVlanid("vlan100", IntV(1)) == Some(100)
  {
    VlanBeforeEthernet();
    var r := MungeVlanid("vlan100", IntV(1));
    var t := NatToString(r.value);
    assert "vlan100" == "vlan" + t;
    assert t == "vlan100"[4..];
    assert t == "100";
    Dec3("100");
  }

  lemma MungeOtherName()
    ensures MungeVlanid("eth0", IntV(100)) == None
  {
    EthernetExamples();
  }
}
