/** The bonding properties of an interface: LACP rate, MII monitoring
    interval, bonding mode, slaves and transmit hash policy. Each has a
    default only when the interface name classifies as a bond. */
module BondingType {
  import opened Text
  import opened Network

  const LacpRates: seq<string> := ["slow", "fast"]
  const BondModes: seq<string> :=
    ["balance-rr", "active-backup", "balance-xor", "broadcast", "802.3ad", "balance-tlb", "balance-alb"]
  const XmitHashPolicies: seq<string> := ["layer2", "layer3+4"]

  predicate ValidLacpRate(v: string) { v in LacpRates }
  predicate ValidMode(v: string) { v in BondModes }
  predicate ValidXmitHashPolicy(v: string) { v in XmitHashPolicies }

  /** `bond_miimon` accepts a value whose text is a run of digits. */
  predicate ValidMiimon(v: Value) { Digits(ValueText(v)) }

  /** A slave must be a bondable (ethernet) interface. */
  predicate ValidSlave(v: string) { IsBondable(TypeOf(v)) }

  predicate IsBond(name: string) { TypeOf(name) == Bonding }

  function DefaultLacpRate(name: string): (r: Option<string>)
    ensures r.Some? <==> IsBond(name)
    ensures r.Some? ==> ValidLacpRate(r.value) && r.value == LacpRates[0]
  {
    if IsBond(name) then Some("slow") else None
  }

  function DefaultMiimon(name: string): (r: Option<Value>)
    ensures r.Some? <==> IsBond(name)
    ensures r.Some? ==> ValidMiimon(r.value) && r.value == IntV(100)
  {
    if IsBond(name) then Some(IntV(100)) else None
  }

  function DefaultMode(name: string): (r: Option<string>)
    ensures r.Some? <==> IsBond(name)
    ensures r.Some? ==> ValidMode(r.value) && r.value == "802.3ad"
  {
    if IsBond(name) then Some("802.3ad") else None
  }

  function DefaultSlaves(name: string): (r: Option<seq<string>>)
    ensures r.Some? <==> IsBond(name)
    ensures r.Some? ==> r.value == []
  {
    if IsBond(name) then Some([]) else None
  }

  function DefaultXmitHashPolicy(name: string): (r: Option<string>)
    ensures r.Some? <==> IsBond(name)
    ensures r.Some? ==> ValidXmitHashPolicy(r.value) && r.value == "layer3+4"
  {
    if IsBond(name) then Some("layer3+4") else None
  }

  /** An integer interval is accepted exactly when it is not negative, and a
      string exactly when it is a digit run. */
  lemma MiimonMeaning(v: Value)
    ensures v.IntV? ==> (ValidMiimon(v) <==> v.i >= 0)
    ensures v.StrV? ==> (ValidMiimon(v) <==> Digits(v.s))
  {
    if v.IntV? && v.i < 0 {
      assert ValueText(v)[0] == '-';
    }
  }

  /** Only ethernet interfaces can be slaves. */
  lemma SlaveMeaning(v: string)
    ensures ValidSlave(v) <==> TypeOf(v) == Ethernet
  {
    MembershipLists(TypeOf(v));
  }

  lemma EthernetSlaves()
    ensures ValidSlave("eth0") && ValidSlave("eth1")
  {
    EthernetExamples();
    SlaveMeaning("eth0");
    SlaveMeaning("eth1");
  }

  lemma VlanIsNoSlave()
    ensures !ValidSlave("vlan100")
  {
    VlanBeforeEthernet();
    SlaveMeaning("vlan100");
  }

  lemma BondIsNoSlave()
    ensures !ValidSlave("bond0")
  {
    BondBeforeEthernet();
    SlaveMeaning("bond0");
  }

  lemma ValueExamples()
    ensures !ValidMode("balance-pzd") && ValidMode("active-backup")
    ensures !ValidMiimon(IntV(-1)) && ValidMiimon(IntV(100)) && ValidMiimon(StrV("100"))
    ensures !ValidLacpRate("medium") && !ValidXmitHashPolicy("layer2+3")
  {
    MiimonMeaning(IntV(-1));
    MiimonMeaning(IntV(100));
  }
}
