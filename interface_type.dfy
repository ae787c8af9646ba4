/** The `network_interface` resource type: validation, defaults and munging
    of its attributes, and the interfaces it requires. */
module InterfaceType {
  import opened Text
  import opened Network
  import VlanType
  import AutorequireRule

  /** The name must match at least one pattern of the interface table. */
  predicate ValidName(name: string) { exists t :: t in Interfaces && NameMatches(t, name) }

  /** Since the last entry of the table is the word pattern and every other
      pattern accepts only word characters, a name is valid exactly when it
      is a non-empty run of word characters. */
  lemma ValidNameMeaning(name: string)
    ensures ValidName(name) <==> IsWordName(name)
  {
    if ValidName(name) {
      var t :| t in Interfaces && NameMatches(t, name);
      MatchIsWordName(t, name);
    }
    if IsWordName(name) {
      assert Unknown in Interfaces && NameMatches(Unknown, name);
    }
  }

  /** The `type` parameter: its default and its munged value are both the
      classification of the name; a supplied value is ignored. */
  function DefaultType(name: string): IfType { TypeOf(name) }

  function MungeType(name: string, supplied: Value): IfType { TypeOf(name) }

  lemma TypeIgnoresSupplied(name: string, a: Value, b: Value)
    ensures MungeType(name, a) == MungeType(name, b) == DefaultType(name)
    ensures NameMatches(DefaultType(name), name) || DefaultType(name) == Unknown
  {
  }

  /** An address must be accepted by the IP address parser `isIp` and carry
      a prefix length (contain a slash). */
  predicate ValidIpaddress(isIp: string -> bool, v: string) { isIp(v) && Contains(v, "/") }

  const DefaultIpaddress: seq<string> := []

  lemma IpaddressMeaning(isIp: string -> bool, v: string)
    ensures ValidIpaddress(isIp, v) <==> isIp(v) && '/' in v
  {
    ContainsChar(v, '/');
  }

  /** Whatever the address parser, an address without a prefix length is
      refused. */
  lemma AddressWithoutPrefix(isIp: string -> bool)
    ensures !ValidIpaddress(isIp, "10.0.0.1")
    ensures ValidIpaddress(isIp, "10.0.0.1/24") <==> isIp("10.0.0.1/24")
  {
    IpaddressMeaning(isIp, "10.0.0.1");
    IpaddressMeaning(isIp, "10.0.0.1/24");
    assert "10.0.0.1/24"[8] == '/';
  }

  lemma InSyncExamples()
    ensures InSync(["10.0.0.1/24", "10.0.0.2/24"], ["10.0.0.2/24", "10.0.0.1/24", "10.0.0.1/24"])
    ensures !InSync(["10.0.0.1/24"], ["10.0.0.1/24", "10.0.0.2/24"])
  {
    var b: seq<string> := ["10.0.0.1/24", "10.0.0.2/24"];
    assert "10.0.0.2/24" in b && "10.0.0.2/24" !in (set x | x in ["10.0.0.1/24"]);
  }

  datatype MtuError = NotAnInteger | OutOfRange

  /** The checks of `mtu`, in order: an Integer, then 68 to 9000. */
  function MtuCheck(v: Value): (r: Option<MtuError>)
    ensures r.None? <==> v.IntV? && 68 <= v.i <= 9000
    ensures r == Some(NotAnInteger) <==> v.StrV?
  {
    if !v.IntV? then Some(NotAnInteger)
    else if !(68 <= v.i && v.i <= 9000) then Some(OutOfRange)
    else None
  }

  lemma MtuExamples()
    ensures MtuCheck(StrV("1500")) == Some(NotAnInteger)
    ensures MtuCheck(IntV(1)) == Some(OutOfRange) && MtuCheck(IntV(10000)) == Some(OutOfRange)
    ensures MtuCheck(IntV(67)) == Some(OutOfRange) && MtuCheck(IntV(9001)) == Some(OutOfRange)
    ensures MtuCheck(IntV(68)).None? && MtuCheck(IntV(1500)).None? && MtuCheck(IntV(9000)).None?
  {
  }

  predicate ValidState(v: string) { v == "up" || v == "down" }
  const DefaultState: AdminState := Up

  /** Validation of `parent` as this file writes it: the second check also
      asks that the resource itself be a vlan. */
  function ValidateParent(name: string, value: Option<string>): (r: Option<VlanType.ParentError>)
    ensures r.None? <==> value.Some? && IsVlanable(TypeOf(value.value))
  {
    if !IsVlanable(GetInterfaceType(value)) then Some(VlanType.CannotHaveVlan)
    else if TypeOf(name) == Vlan && value.None? then Some(VlanType.ParentNotSpecified)
    else None
  }

  /** Both definitions of `parent` validate alike, for every resource. */
  lemma ParentDefinitionsAgree(name: string, value: Option<string>)
    ensures ValidateParent(name, value) == VlanType.ValidateParent(value)
  {
    MembershipLists(GetInterfaceType(value));
  }

  /** The munge of `vlanid` as this file writes it: keyed on the resource's
      `type` attribute; when that says vlan but the name does not fit the
      vlan pattern, `match` returns nil and indexing it raises. */
  function MungeVlanid(typ: IfType, name: string, supplied: Value): (r: Result<Option<nat>>)
    ensures typ != Vlan ==> r == Ok(None)
    ensures typ == Vlan ==> (r.Ok? <==> IsVlanName(name))
  {
    if typ != Vlan then Ok(None)
    else if IsVlanName(name) then
      var d := name[4..];
      VlanSuffixRange(d);
      Ok(RubyInteger(d))
    else Err("undefined method `[]' for nil")
  }

  /** With `type` holding its munged value (the name's classification) the
      two definitions of `vlanid` agree and never raise. */
  lemma VlanidDefinitionsAgree(name: string, supplied: Value)
    ensures MungeVlanid(MungeType(name, supplied), name, supplied) == Ok(VlanType.MungeVlanid(name, supplied))
  {
    if IsVlanName(name) {
      NotEarlierThanVlan(name);
      TypeOfChain(name);
    }
  }

  /** The interfaces this resource requires: a vlan its parent when one is
      given, a bond each of its slaves. */
  function Autorequire(typ: IfType, parent: Option<string>, slaves: seq<string>): (r: seq<string>)
    ensures typ !in {Vlan, Bonding} ==> r == []
    ensures typ == Vlan && parent.None? ==> r == []
    ensures typ == Vlan && parent.Some? ==> r == [parent.value]
    ensures typ == Bonding ==> r == slaves
  {
    if typ == Vlan then (if parent.None? then [] else [parent.value])
    else if typ == Bonding then slaves
    else []
  }

  function Present(xs: seq<Option<string>>): (r: seq<string>)
    ensures |r| <= |xs|
  {
    if xs == [] then [] else (if xs[0].Some? then [xs[0].value] else []) + Present(xs[1..])
  }

  lemma {:induction false} PresentWrap(xs: seq<string>)
    ensures Present(AutorequireRule.Wrap(xs)) == xs
  {
    if xs != [] {
      var w := AutorequireRule.Wrap(xs);
      assert w[1..] == AutorequireRule.Wrap(xs[1..]);
      PresentWrap(xs[1..]);
      assert xs == [xs[0]] + xs[1..];
    }
  }

  /** The stand-alone autorequire rule and this one require the same
      interfaces once the missing parent the former pushes is dropped; that
      missing parent is the only difference. */
  lemma AutorequireDefinitionsAgree(name: string, parent: Option<string>, slaves: seq<string>)
    ensures Present(AutorequireRule.Requires(name, parent, slaves)) == Autorequire(TypeOf(name), parent, slaves)
    ensures None in AutorequireRule.Requires(name, parent, slaves) <==> TypeOf(name) == Vlan && parent.None?
  {
    var r := AutorequireRule.Requires(name, parent, slaves);
    if TypeOf(name) == Bonding {
      assert r == AutorequireRule.Wrap(slaves);
      PresentWrap(slaves);
    } else if TypeOf(name) == Vlan {
      assert Present(r) == (if parent.Some? then [parent.value] else []) + Present([]);
    }
  }
}
