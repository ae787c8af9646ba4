/** The interface-name classifier shared by the resource types: an ordered
    table of name patterns scanned first-match, with the lists of types that
    may be bond slaves and that may carry a vlan. */
module Network {
  import opened Text

  datatype IfType = Bonding | Gre | Loopback | Vlan | Ethernet | Unknown

  datatype AdminState = Up | Down

  /** The table of supported interfaces, in the order it is scanned. */
  const Interfaces: seq<IfType> := [Bonding, Gre, Loopback, Vlan, Ethernet, Unknown]

  const Vlan1: nat := 1

  const States: seq<AdminState> := [Down, Up]

  /** Types that may be enslaved to a bond. */
  const Bondable: seq<IfType> := [Ethernet]

  /** Types that may carry a vlan. */
  const Vlanable: seq<IfType> := [Bonding, Ethernet]

  /** `bond` followed by one or more digits. */
  predicate IsBondName(s: string) { |s| > 4 && s[..4] == "bond" && Digits(s[4..]) }

  /** `gre` followed by one or more digits. */
  predicate IsGreName(s: string) { |s| > 3 && s[..3] == "gre" && Digits(s[3..]) }

  predicate IsLoopbackName(s: string) { s == "lo" }

  /** The vlan number alternatives of the table: `[2-9]`, `[1-9][0-9]`,
      `[1-9][0-9]{2}`, `[1-3][0-9]{3}`, `40[0-8][0-9]`, `409[0-5]`. */
  predicate VlanSuffix(d: string) {
    || (|d| == 1 && '2' <= d[0] <= '9')
    || (|d| == 2 && '1' <= d[0] <= '9' && IsDigit(d[1]))
    || (|d| == 3 && '1' <= d[0] <= '9' && IsDigit(d[1]) && IsDigit(d[2]))
    || (|d| == 4 && '1' <= d[0] <= '3' && IsDigit(d[1]) && IsDigit(d[2]) && IsDigit(d[3]))
    || (|d| == 4 && d[0] == '4' && d[1] == '0' && '0' <= d[2] <= '8' && IsDigit(d[3]))
    || (|d| == 4 && d[0] == '4' && d[1] == '0' && d[2] == '9' && '0' <= d[3] <= '5')
  }

  predicate IsVlanName(s: string) { |s| >= 4 && s[..4] == "vlan" && VlanSuffix(s[4..]) }

  /** One or more groups, each a single letter followed by a digit run. */
  predicate EthernetGroups(t: string)
    decreases |t|
  {
    |t| >= 2 && IsAlpha(t[0]) &&
    var k := Span(t, 1, IsDigit);
    k >= 2 && (k == |t| || EthernetGroups(t[k..]))
  }

  /** `[[:alpha:]]*(?:[[:alpha:]]\d+)+`: the letters before the first group
      are the leading run of letters minus its last one, which opens the
      first group. */
  predicate IsEthernetName(s: string) {
    var j := Span(s, 0, IsAlpha);
    j >= 1 && EthernetGroups(s[j - 1..])
  }

  /** `\w+`. */
  predicate IsWordName(s: string) { |s| > 0 && forall i :: 0 <= i < |s| ==> IsWordChar(s[i]) }

  /** Whether the table's pattern for `t` matches `name`. */
  predicate NameMatches(t: IfType, name: string) {
    match t
    case Bonding => IsBondName(name)
    case Gre => IsGreName(name)
    case Loopback => IsLoopbackName(name)
    case Vlan => IsVlanName(name)
    case Ethernet => IsEthernetName(name)
    case Unknown => IsWordName(name)
  }

  /** Position of a type in the table. */
  function Rank(t: IfType): (k: nat)
    ensures k < |Interfaces| && Interfaces[k] == t
  {
    match t
    case Bonding => 0
    case Gre => 1
    case Loopback => 2
    case Vlan => 3
    case Ethernet => 4
    case Unknown => 5
  }

  /** The first type of `table` whose pattern matches, `Unknown` when none does. */
  function FirstMatch(table: seq<IfType>, name: string): (r: IfType)
    ensures r in table || r == Unknown
    ensures r != Unknown ==> NameMatches(r, name)
    ensures forall k :: 0 <= k < |table| && table[k] != r && (forall j :: 0 <= j < k ==> table[j] != r) ==> !NameMatches(table[k], name)
  {
    if table == [] then Unknown
    else if NameMatches(table[0], name) then table[0]
    else FirstMatch(table[1..], name)
  }

  /** The type of a (possibly missing) interface name: the first pattern of
      the table that matches, in table order. */
  function GetInterfaceType(name: Option<string>): (r: IfType)
    ensures name.None? ==> r == Unknown
    ensures name.Some? && r != Unknown ==> NameMatches(r, name.value)
    ensures name.Some? ==> forall t :: Rank(t) < Rank(r) ==> !NameMatches(t, name.value)
  {
    match name
    case None => Unknown
    case Some(n) =>
      var r := FirstMatch(Interfaces, n);
      assert forall t :: Rank(t) < Rank(r) ==> Interfaces[Rank(t)] == t && t != r;
      r
  }

  /** Classification of a present name, the form the resource types use. */
  function TypeOf(name: string): IfType { GetInterfaceType(Some(name)) }

  /** The table scan unrolled: the patterns tried one after the other. */
  lemma TypeOfChain(n: string)
    ensures TypeOf(n) ==
      if IsBondName(n) then Bonding
      else if IsGreName(n) then Gre
      else if IsLoopbackName(n) then Loopback
      else if IsVlanName(n) then Vlan
      else if IsEthernetName(n) then Ethernet
      else Unknown
  {
    var t0 := Interfaces;
    var t1 := [Gre, Loopback, Vlan, Ethernet, Unknown];
    var t2 := [Loopback, Vlan, Ethernet, Unknown];
    var t3 := [Vlan, Ethernet, Unknown];
    var t4 := [Ethernet, Unknown];
    var t5 := [Unknown];
    assert t0[0] == Bonding && t0[1..] == t1;
    assert t1[0] == Gre && t1[1..] == t2;
    assert t2[0] == Loopback && t2[1..] == t3;
    assert t3[0] == Vlan && t3[1..] == t4;
    assert t4[0] == Ethernet && t4[1..] == t5;
    assert t5[0] == Unknown && t5[1..] == [];
    assert FirstMatch(t5, n) == Unknown;
    assert FirstMatch(t4, n) == if IsEthernetName(n) then Ethernet else Unknown;
    assert FirstMatch(t3, n) == if IsVlanName(n) then Vlan else FirstMatch(t4, n);
    assert FirstMatch(t2, n) == if IsLoopbackName(n) then Loopback else FirstMatch(t3, n);
    assert FirstMatch(t1, n) == if IsGreName(n) then Gre else FirstMatch(t2, n);
    assert FirstMatch(t0, n) == if IsBondName(n) then Bonding else FirstMatch(t1, n);
  }

  predicate IsBondable(t: IfType) { t in Bondable }
  predicate IsVlanable(t: IfType) { t in Vlanable }

  lemma MembershipLists(t: IfType)
    ensures IsBondable(t) <==> t == Ethernet
    ensures IsVlanable(t) <==> t == Bonding || t == Ethernet
  {
  }

  /** Names that fit the ethernet pattern too are classified by the earlier
      entries of the table. */
  lemma BondBeforeEthernet()
    ensures IsEthernetName("bond0") && TypeOf("bond0") == Bonding
  {
    assert "bond0"[..4] == "bond" && "bond0"[4..] == "0";
    assert Span("bond0", 0, IsAlpha) == 4;
    assert "bond0"[3..] == "d0" && Span("d0", 1, IsDigit) == 2;
  }

  lemma GreBeforeEthernet()
    ensures IsEthernetName("gre0") && TypeOf("gre0") == Gre
  {
    assert "gre0"[..3] == "gre" && "gre0"[3..] == "0";
    assert Span("gre0", 0, IsAlpha) == 3;
    assert "gre0"[2..] == "e0" && Span("e0", 1, IsDigit) == 2;
    assert !IsBondName("gre0");
  }

  lemma VlanBeforeEthernet()
    ensures IsEthernetName("vlan100") && TypeOf("vlan100") == Vlan
  {
    assert "vlan100"[..4] == "vlan" && "vlan100"[4..] == "100";
    assert VlanSuffix("100");
    assert Span("vlan100", 0, IsAlpha) == 4;
    assert "vlan100"[3..] == "n100" && Span("n100", 1, IsDigit) == 4;
    NotEarlierThanVlan("vlan100");
  }

  /** Decimal value of a four-digit string. */
  lemma Dec4(d: string)
    requires |d| == 4 && Digits(d)
    ensures DecValue(d) == 1000 * DigitValue(d[0]) + 100 * DigitValue(d[1]) + 10 * DigitValue(d[2]) + DigitValue(d[3])
  {
    var a1: string := [] + [d[0]];
    var a2 := a1 + [d[1]];
    var a3 := a2 + [d[2]];
    DecSnoc([], d[0]);
    DecSnoc(a1, d[1]);
    DecSnoc(a2, d[2]);
    DecSnoc(a3, d[3]);
    assert d == a3 + [d[3]];
  }

  lemma Dec3(d: string)
    requires |d| == 3 && Digits(d)
    ensures DecValue(d) == 100 * DigitValue(d[0]) + 10 * DigitValue(d[1]) + DigitValue(d[2])
  {
    var a1: string := [] + [d[0]];
    var a2 := a1 + [d[1]];
    DecSnoc([], d[0]);
    DecSnoc(a1, d[1]);
    DecSnoc(a2, d[2]);
    assert d == a2 + [d[2]];
  }

  lemma Dec2(d: string)
    requires |d| == 2 && Digits(d)
    ensures DecValue(d) == 10 * DigitValue(d[0]) + DigitValue(d[1])
  {
    var a1: string := [] + [d[0]];
    DecSnoc([], d[0]);
    DecSnoc(a1, d[1]);
    assert d == a1 + [d[1]];
  }

  /** The alternation of the vlan pattern denotes exactly the decimal
      numbers 2 to 4095 written without a leading zero. */
  lemma VlanSuffixRange(d: string)
    ensures VlanSuffix(d) <==> Canonical(d) && 2 <= DecValue(d) <= 4095
  {
    if Canonical(d) {
      if |d| == 1 {
        assert d[..0] == [];
      } else if |d| == 2 {
        Dec2(d);
      } else if |d| == 3 {
        Dec3(d);
      } else if |d| == 4 {
        Dec4(d);
      } else {
        DecValueLeadingZero(d);
        assert Pow10(4) == 10000;
        PowMonotone(4, |d| - 1);
      }
    }
  }

  lemma {:induction false} PowMonotone(a: nat, b: nat)
    requires a <= b
    ensures Pow10(a) <= Pow10(b)
  {
    if a < b { PowMonotone(a, b - 1); }
  }

  lemma NotEarlierThanVlan(n: string)
    requires |n| >= 4 && n[..4] == "vlan"
    ensures !IsBondName(n) && !IsGreName(n) && !IsLoopbackName(n)
  {
    assert n[..3] == n[..4][..3];
    assert n[..4][0] == 'v';
  }

  /** A name is classified as a vlan exactly when it is `vlan` followed by
      the decimal text of a number from 2 to 4095. */
  lemma VlanClassification(n: string)
    ensures TypeOf(n) == Vlan <==> exists k: nat :: 2 <= k <= 4095 && n == "vlan" + NatToString(k)
  {
    if TypeOf(n) == Vlan {
      var d := n[4..];
      VlanSuffixRange(d);
      var k := DecValue(d);
      CanonicalRoundTrip(d);
      assert n == "vlan" + NatToString(k);
    }
    if exists k: nat :: 2 <= k <= 4095 && n == "vlan" + NatToString(k) {
      var k: nat :| 2 <= k <= 4095 && n == "vlan" + NatToString(k);
      assert n[..4] == "vlan" && n[4..] == NatToString(k);
      VlanSuffixRange(NatToString(k));
      NotEarlierThanVlan(n);
      assert NameMatches(Vlan, n);
    }
  }

  /** A vlan-prefixed name whose suffix is not in the vlan range, but whose
      form fits the ethernet pattern, is classified as ethernet. */
  lemma VlanFallsToEthernet(n: string)
    requires |n| > 4 && n[..4] == "vlan" && Digits(n[4..]) && !VlanSuffix(n[4..])
    ensures TypeOf(n) == Ethernet
  {
    NotEarlierThanVlan(n);
    assert forall i :: 0 <= i < 4 ==> n[i] == n[..4][i];
    var j := Span(n, 0, IsAlpha);
    assert !IsAlpha(n[4]) by { assert n[4] == n[4..][0]; }
    assert j == 4;
    var t := n[3..];
    var k := Span(t, 1, IsDigit);
    assert forall i :: 1 <= i < |t| ==> t[i] == n[4..][i - 1];
    assert k == |t|;
    assert IsEthernetName(n);
    assert !IsVlanName(n);
    TypeOfChain(n);
  }

  /** `vlan0`, `vlan1` and `vlan4096` fall through to the ethernet entry. */
  lemma Vlan0IsEthernet()
    ensures TypeOf("vlan0") == Ethernet
  {
    assert "vlan0"[..4] == "vlan" && "vlan0"[4..] == "0";
    VlanFallsToEthernet("vlan0");
  }

  lemma Vlan1IsEthernet()
    ensures TypeOf("vlan1") == Ethernet
  {
    assert "vlan1"[..4] == "vlan" && "vlan1"[4..] == "1";
    VlanFallsToEthernet("vlan1");
  }

  lemma Vlan4096IsEthernet()
    ensures TypeOf("vlan4096") == Ethernet
  {
    var d := "4096";
    assert "vlan4096"[..4] == "vlan" && "vlan4096"[4..] == d;
    assert Digits(d);
    VlanSuffixRange(d);
    Dec4(d);
    VlanFallsToEthernet("vlan4096");
  }

  /** A name that differs from `p` at position `i` does not start with `p`. */
  lemma NotPrefixedAt(n: string, p: string, i: nat)
    requires i < |p| <= |n| && n[i] != p[i]
    ensures n[..|p|] != p
  {
    assert n[..|p|][i] == n[i];
  }

  lemma Vlan2IsVlan()
    ensures TypeOf("vlan2") == Vlan
  {
    assert "vlan2"[..4] == "vlan" && "vlan2"[4..] == "2";
    NotEarlierThanVlan("vlan2");
    TypeOfChain("vlan2");
  }

  lemma Vlan4095IsVlan()
    ensures TypeOf("vlan4095") == Vlan
  {
    assert "vlan4095"[..4] == "vlan" && "vlan4095"[4..] == "4095";
    NotEarlierThanVlan("vlan4095");
    TypeOfChain("vlan4095");
  }

  /** `vlan2` and `vlan4095` are the ends of the vlan range. */
  lemma VlanRangeEnds()
    ensures TypeOf("vlan2") == Vlan
    ensures TypeOf("vlan4095") == Vlan
  {
    Vlan2IsVlan();
    Vlan4095IsVlan();
  }

  lemma DottedNotBond()
    ensures !IsBondName("bond0.100")
  {
    assert "bond0.100"[4..] == "0.100";
    assert !IsDigit("0.100"[1]);
  }

  lemma DottedNotEthernet()
    ensures !IsEthernetName("bond0.100")
  {
    var n := "bond0.100";
    assert Span(n, 0, IsAlpha) == 4;
    assert n[3..] == "d0.100" && Span("d0.100", 1, IsDigit) == 2;
    assert "d0.100"[2..] == ".100";
  }

  /** A name no pattern accepts, or only the word pattern, is `Unknown`. */
  lemma DottedNameUnknown()
    ensures TypeOf("bond0.100") == Unknown
  {
    var n := "bond0.100";
    TypeOfChain(n);
    DottedNotBond();
    DottedNotEthernet();
    NotPrefixedAt(n, "vlan", 0);
    NotPrefixedAt(n, "gre", 0);
  }

  lemma UnderscoreNameUnknown()
    ensures TypeOf("ip_vti0") == Unknown
  {
    assert Span("ip_vti0", 0, IsAlpha) == 2;
    assert "ip_vti0"[1..] == "p_vti0" && Span("p_vti0", 1, IsDigit) == 1;
    NotPrefixedAt("ip_vti0", "bond", 0);
    NotPrefixedAt("ip_vti0", "vlan", 0);
    NotPrefixedAt("ip_vti0", "gre", 0);
  }

  /** After the first digit run only single letters may separate digit runs. */
  lemma LetterPairAfterDigitsUnknown()
    ensures TypeOf("eth0ab1") == Unknown
  {
    assert Span("eth0ab1", 0, IsAlpha) == 3;
    assert "eth0ab1"[2..] == "h0ab1" && Span("h0ab1", 1, IsDigit) == 2;
    assert "h0ab1"[2..] == "ab1" && Span("ab1", 1, IsDigit) == 1;
    NotPrefixedAt("eth0ab1", "bond", 0);
    NotPrefixedAt("eth0ab1", "vlan", 0);
    NotPrefixedAt("eth0ab1", "gre", 0);
  }

  lemma PredictableNameEthernet()
    ensures TypeOf("enp0s3") == Ethernet
  {
    assert Span("enp0s3", 0, IsAlpha) == 3;
    assert "enp0s3"[2..] == "p0s3" && Span("p0s3", 1, IsDigit) == 2;
    assert "p0s3"[2..] == "s3" && Span("s3", 1, IsDigit) == 2;
    NotPrefixedAt("enp0s3", "bond", 0);
    NotPrefixedAt("enp0s3", "vlan", 0);
    NotPrefixedAt("enp0s3", "gre", 0);
  }

  lemma EthernetExamples()
    ensures TypeOf("eth0") == Ethernet && TypeOf("eth1") == Ethernet
  {
    assert Span("eth0", 0, IsAlpha) == 3 && Span("eth1", 0, IsAlpha) == 3;
    assert "eth0"[2..] == "h0" && Span("h0", 1, IsDigit) == 2;
    assert "eth1"[2..] == "h1" && Span("h1", 1, IsDigit) == 2;
    NotPrefixedAt("eth0", "bond", 0);
    NotPrefixedAt("eth0", "vlan", 0);
    NotPrefixedAt("eth0", "gre", 0);
    NotPrefixedAt("eth1", "bond", 0);
    NotPrefixedAt("eth1", "vlan", 0);
    NotPrefixedAt("eth1", "gre", 0);
  }

  lemma {:induction false} EthernetGroupsAlnum(t: string)
    requires EthernetGroups(t)
    ensures forall i :: 0 <= i < |t| ==> IsAlnum(t[i])
  {
    var k := Span(t, 1, IsDigit);
    if k < |t| {
      EthernetGroupsAlnum(t[k..]);
      assert forall i :: k <= i < |t| ==> t[i] == t[k..][i - k];
    }
  }

  /** Every pattern of the table accepts only word characters, so the word
      pattern of the last entry accepts every name any entry accepts. */
  lemma MatchIsWordName(t: IfType, name: string)
    requires NameMatches(t, name)
    ensures IsWordName(name)
  {
    match t
    case Bonding =>
      assert forall i :: 0 <= i < 4 ==> name[i] == "bond"[i];
      assert forall i :: 4 <= i < |name| ==> name[i] == name[4..][i - 4];
    case Gre =>
      assert forall i :: 0 <= i < 3 ==> name[i] == "gre"[i];
      assert forall i :: 3 <= i < |name| ==> name[i] == name[3..][i - 3];
    case Loopback =>
    case Vlan =>
      var d := name[4..];
      VlanSuffixRange(d);
      assert forall i :: 0 <= i < 4 ==> name[i] == "vlan"[i];
      assert forall i :: 4 <= i < |name| ==> name[i] == d[i - 4];
    case Ethernet =>
      var j := Span(name, 0, IsAlpha);
      EthernetGroupsAlnum(name[j - 1..]);
      assert forall i :: j - 1 <= i < |name| ==> name[i] == name[j - 1..][i - (j - 1)];
    case Unknown =>
  }
}
