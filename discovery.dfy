/** Discovery of the interfaces present on the host: the output of
    `ip address` is read line by line; a header line opens the record of a
    new interface and the indented lines after it add its addresses and
    its MAC address. */
module Discovery {
  import opened Text
  import opened Network
  import opened ProviderData

  // ---------------------------------------------------------------------
  // The provider's own classification of names

  /** `vlan` followed by any digits. */
  predicate ProviderVlanName(s: string) { |s| > 4 && s[..4] == "vlan" && Digits(s[4..]) }

  /** The provider's classifier: loopback, bond, vlan (any number), ethernet,
      otherwise unknown; it has no gre entry. */
  function ProviderType(name: Option<string>): (r: IfType)
    ensures r != Gre
    ensures name.None? ==> r == Unknown
  {
    match name
    case None => Unknown
    case Some(n) =>
      if IsLoopbackName(n) then Loopback
      else if IsBondName(n) then Bonding
      else if ProviderVlanName(n) then Vlan
      else if IsEthernetName(n) then Ethernet
      else Unknown
  }

  lemma GreIsEthernetShaped(n: string)
    requires IsGreName(n)
    ensures IsEthernetName(n)
  {
    assert forall i :: 0 <= i < 3 ==> n[i] == n[..3][i];
    assert !IsAlpha(n[3]) by { assert n[3] == n[3..][0]; }
    SpanAt(n, 0, 3, IsAlpha);
    var t := n[2..];
    assert forall i :: 1 <= i < |t| ==> t[i] == n[3..][i - 1];
    SpanAt(t, 1, |t|, IsDigit);
  }

  /** The provider and the resource type classify a name alike except for
      gre names, which the provider sees as ethernet, and `vlan` names whose
      number is outside 2..4095, which the provider still sees as vlans
      while the type sees ethernet. */
  lemma ProviderTypeAgainstTypeOf(n: string)
    ensures ProviderType(Some(n)) != TypeOf(n) <==> TypeOf(n) == Gre || (ProviderVlanName(n) && !IsVlanName(n))
    ensures TypeOf(n) == Gre ==> ProviderType(Some(n)) == Ethernet
    ensures ProviderVlanName(n) && !IsVlanName(n) ==> ProviderType(Some(n)) == Vlan && TypeOf(n) == Ethernet
  {
    TypeOfChain(n);
    if IsGreName(n) {
      GreIsEthernetShaped(n);
      assert n[..3] == "gre";
      assert !IsLoopbackName(n) && !IsBondName(n) by { assert n[..4][..3] == n[..3]; }
      assert !ProviderVlanName(n) by { assert n[..4][..3] == n[..3]; }
    }
    if ProviderVlanName(n) {
      NotEarlierThanVlan(n);
      if !IsVlanName(n) { VlanFallsToEthernet(n); }
    }
    if IsVlanName(n) {
      VlanSuffixRange(n[4..]);
      NotEarlierThanVlan(n);
    }
  }

  function GetState(flags: seq<string>): (r: AdminState)
    ensures r == Up <==> "UP" in flags
  {
    if "UP" in flags then Up else Down
  }

  /** The vlan id of a name that contains `vlan`: the number after a leading
      `vlan` read by `Integer` (so a leading zero makes it octal); when the
      name does not have that form `match` is nil and indexing it raises.
      Other names get vlan id 1. */
  function GetVlanId(name: string): (r: Result<int>)
    ensures ProviderVlanName(name) && Canonical(name[4..]) ==> r == Ok(DecValue(name[4..]))
    ensures !Contains(name, "vlan") ==> r == Ok(1)
  {
    if Contains(name, "vlan") then
      if ProviderVlanName(name) then
        match RubyInteger(name[4..])
        case Some(v) => Ok(v)
        case None => Err("invalid value for Integer()")
      else Err("undefined method `[]' for nil")
    else Ok(1)
  }

  lemma VlanIdExamples()
    ensures GetVlanId("vlan100") == Ok(100)
    ensures GetVlanId("vlan010") == Ok(8)
    ensures GetVlanId("vlan08").Err?
    ensures GetVlanId("eth0") == Ok(1)
  {
    assert "vlan100"[..4] == "vlan" && "vlan100"[4..] == "100";
    Dec3("100");
    assert "vlan010"[..4] == "vlan" && "vlan010"[4..] == "010";
    RubyIntegerOctalExample();
    assert "vlan08"[..4] == "vlan" && "vlan08"[4..] == "08";
    assert Contains("vlan100", "vlan") && Contains("vlan010", "vlan") && Contains("vlan08", "vlan");
    ContainsNoV("eth0");
  }

  lemma ContainsNoV(s: string)
    requires 'v' !in s
    ensures !Contains(s, "vlan")
  {
    if |s| >= 4 {
      assert s[..4] != "vlan" by { assert s[0] in s; }
      ContainsNoV(s[1..]);
    }
  }

  // ---------------------------------------------------------------------
  // Recognising lines

  /** The characters `[A-Z\-_,]` of the flag list. */
  predicate IsFlagChar(c: char) { 'A' <= c <= 'Z' || c == '-' || c == '_' || c == ',' }

  /** The four captures of the header pattern
      `\A(\d+):\s(\S+):\s<([A-Z\-_,]+)>\smtu\s(\d+)`. */
  datatype Header = Header(index: string, nameAndParent: string, flags: string, mtu: string)

  /** The header pattern, position by position, each step working on what
      is left of the line. Every capture is determined: `(\S+)` must end
      just before the `:` that ends the non-blank run, since a blank has to
      follow that colon. */
  function MatchHeader(line: string): (r: Option<Header>)
    ensures r.Some? ==> Digits(r.value.index) && Digits(r.value.mtu)
    ensures r.Some? ==> r.value.nameAndParent != "" && NoSpace(r.value.nameAndParent)
  {
    var i := Span(line, 0, IsDigit);
    if !(1 <= i && i + 2 <= |line| && line[i] == ':' && IsSpace(line[i + 1])) then None
    else
      match AfterIndex(line[i + 2..])
      case None => None
      case Some(t) => Some(Header(line[..i], t.0, t.1, t.2))
  }

  /** `(\S+):\s<` and what follows. */
  function AfterIndex(s: string): (r: Option<(string, string, string)>)
    ensures r.Some? ==> r.value.0 != "" && NoSpace(r.value.0) && Digits(r.value.2)
  {
    var q := Span(s, 0, NotSpace);
    if !(q >= 2 && s[q - 1] == ':' && q + 2 <= |s| && s[q + 1] == '<') then None
    else
      match AfterName(s[q + 2..])
      case None => None
      case Some(t) => Some((s[..q - 1], t.0, t.1))
  }

  /** `([A-Z\-_,]+)>\smtu\s(\d+)`. */
  function AfterName(s: string): (r: Option<(string, string)>)
    ensures r.Some? ==> Digits(r.value.1)
  {
    var f := Span(s, 0, IsFlagChar);
    if !(f >= 1 && f + 6 <= |s| && s[f] == '>' && IsSpace(s[f + 1]) && s[f + 2..f + 5] == "mtu" && IsSpace(s[f + 5])) then None
    else
      var t := s[f + 6..];
      var m := Span(t, 0, IsDigit);
      if m == 0 then None else Some((s[..f], t[..m]))
  }

  /** `\A\s+<keyword>\s(\S+)\s`: the non-blank word after the keyword, which
      must be preceded by indentation and followed by a blank. */
  function MatchDetail(line: string, keyword: string): (r: Option<string>)
    requires keyword != [] && !IsSpace(keyword[0])
    ensures r.Some? ==> r.value != "" && NoSpace(r.value)
  {
    var w := Span(line, 0, IsSpace);
    var k := w + |keyword|;
    if !(w >= 1 && k < |line| && line[w..k] == keyword && IsSpace(line[k])) then None
    else
      var a := Span(line, k + 1, NotSpace);
      if a > k + 1 && a < |line| then Some(line[k + 1..a]) else None
  }

  function MatchInet(line: string): Option<string> { MatchDetail(line, "inet") }
  function MatchEther(line: string): Option<string> { MatchDetail(line, "link/ether") }

  predicate FlagText(s: string) { |s| > 0 && forall i :: 0 <= i < |s| ==> IsFlagChar(s[i]) }

  /** A header line as `ip address` prints it. */
  function HeaderLine(h: Header, rest: string): string {
    h.index + (": " + (h.nameAndParent + (": <" + (h.flags + ("> mtu " + (h.mtu + rest))))))
  }

  /** `AfterName` once the end `f` of the flags and the end `m` of the mtu
      digits are known. */
  lemma AfterNameAt(s: string, f: nat, m: nat)
    requires 1 <= f && f + 6 <= |s| && Span(s, 0, IsFlagChar) == f
    requires s[f] == '>' && s[f + 1] == ' ' && s[f + 2..f + 5] == "mtu" && s[f + 5] == ' '
    requires 0 < m <= |s| - (f + 6) && Span(s[f + 6..], 0, IsDigit) == m
    ensures AfterName(s) == Some((s[..f], s[f + 6..][..m]))
  {
  }

  lemma AfterNameRoundTrip(flags: string, mtu: string, rest: string)
    requires FlagText(flags) && Digits(mtu)
    requires rest == [] || !IsDigit(rest[0])
    ensures AfterName(flags + ("> mtu " + (mtu + rest))) == Some((flags, mtu))
  {
    var tail := "> mtu " + (mtu + rest);
    var s := flags + tail;
    var f := |flags|;
    SpanPrefix(flags, tail, IsFlagChar);
    assert s[f..] == tail;
    assert s[f] == '>' && s[f + 1] == ' ' && s[f + 5] == ' ';
    assert s[f + 2..f + 5] == tail[2..5] == "mtu";
    assert s[f + 6..] == tail[6..] == mtu + rest;
    SpanPrefix(mtu, rest, IsDigit);
    AfterNameAt(s, f, |mtu|);
  }

  /** The non-blank run of `name: <...` ends just after the colon. */
  lemma NameSpan(nap: string, tail: string)
    requires NoSpace(nap)
    ensures Span(nap + (": <" + tail), 0, NotSpace) == |nap| + 1
  {
    var word := nap + ":";
    assert nap + (": <" + tail) == word + (" <" + tail);
    forall k | 0 <= k < |word| ensures NotSpace(word[k]) {
      if k < |nap| { assert word[k] == nap[k]; }
    }
    SpanPrefix(word, " <" + tail, NotSpace);
  }

  /** `AfterIndex` at the positions a header fixes: the name ends at `q - 1`. */
  lemma AfterIndexAt(s: string, q: nat, tail: string)
    requires 2 <= q && q + 2 <= |s| && Span(s, 0, NotSpace) == q
    requires s[q - 1] == ':' && s[q + 1] == '<' && s[q + 2..] == tail && AfterName(tail).Some?
    ensures AfterIndex(s) == Some((s[..q - 1], AfterName(tail).value.0, AfterName(tail).value.1))
  {
  }

  lemma {:induction false} AfterIndexRoundTrip(nap: string, tail: string)
    requires nap != "" && NoSpace(nap) && AfterName(tail).Some?
    ensures AfterIndex(nap + (": <" + tail)) == Some((nap, AfterName(tail).value.0, AfterName(tail).value.1))
  {
    var s := nap + (": <" + tail);
    var q := |nap| + 1;
    NameSpan(nap, tail);
    assert s[q + 2..] == tail by { assert s == (nap + ": <") + tail; }
    assert s[..q - 1] == nap;
    AfterIndexAt(s, q, tail);
  }

  /** Recognising a printed header gives back its parts, whatever follows
      the mtu as long as it does not continue the number. */
  lemma HeaderRoundTrip(h: Header, rest: string)
    requires Digits(h.index) && Digits(h.mtu) && FlagText(h.flags)
    requires h.nameAndParent != "" && NoSpace(h.nameAndParent)
    requires rest == [] || !IsDigit(rest[0])
    ensures MatchHeader(HeaderLine(h, rest)) == Some(h)
  {
    var afterName := h.flags + ("> mtu " + (h.mtu + rest));
    var afterIndex := h.nameAndParent + (": <" + afterName);
    var tail := ": " + afterIndex;
    assert HeaderLine(h, rest) == h.index + tail;
    SpanPrefix(h.index, tail, IsDigit);
    var i := |h.index|;
    var s := h.index + tail;
    assert s[i..] == tail;
    assert s[i] == ':' && s[i + 1] == ' ';
    assert s[i + 2..] == tail[2..] == afterIndex;
    AfterNameRoundTrip(h.flags, h.mtu, rest);
    AfterIndexRoundTrip(h.nameAndParent, afterName);
  }

  predicate Blanks(s: string) { |s| > 0 && forall i :: 0 <= i < |s| ==> IsSpace(s[i]) }

  /** An indented detail line gives back the word after its keyword. */
  /** `MatchDetail` once the positions of keyword and word are known. */
  lemma MatchDetailAt(line: string, keyword: string, w: nat, a: nat)
    requires keyword != [] && !IsSpace(keyword[0])
    requires 1 <= w && w + |keyword| < |line| && Span(line, 0, IsSpace) == w
    requires line[w..w + |keyword|] == keyword && IsSpace(line[w + |keyword|])
    requires w + |keyword| + 1 < a < |line| && Span(line, w + |keyword| + 1, NotSpace) == a
    ensures MatchDetail(line, keyword) == Some(line[w + |keyword| + 1..a])
  {
  }

  /** The indentation of a detail line ends where its keyword starts, and a
      blank follows the keyword. */
  lemma DetailIndent(indent: string, keyword: string, line: string)
    requires keyword != [] && !IsSpace(keyword[0]) && Blanks(indent)
    requires indent + keyword + " " <= line
    ensures Span(line, 0, IsSpace) == |indent| && line[|indent|..|indent| + |keyword|] == keyword
    ensures line[|indent| + |keyword|] == ' '
  {
    var head := indent + keyword + " ";
    var w := |indent|;
    assert forall j :: 0 <= j < |head| ==> line[j] == head[j];
    assert forall j :: 0 <= j < w ==> line[j] == indent[j];
    assert line[w] == keyword[0];
    SpanAt(line, 0, w, IsSpace);
    assert line[w..w + |keyword|] == head[w..w + |keyword|] == keyword;
  }

  /** The word of a detail line ends at the blank after it. */
  lemma DetailWord(head: string, word: string, blank: char, rest: string)
    requires word != "" && NoSpace(word) && IsSpace(blank)
    ensures var line := head + word + [blank] + rest;
      Span(line, |head|, NotSpace) == |head| + |word| && line[|head|..|head| + |word|] == word &&
      |head| + |word| < |line|
  {
    var line := head + word + [blank] + rest;
    var k := |head|;
    var a := k + |word|;
    assert forall j :: k <= j < a ==> line[j] == word[j - k];
    assert line[a] == blank;
    SpanAt(line, k, a, NotSpace);
    assert line[k..a] == word;
  }

  lemma DetailRoundTrip(indent: string, keyword: string, word: string, blank: char, rest: string)
    requires keyword != [] && !IsSpace(keyword[0])
    requires Blanks(indent) && word != "" && NoSpace(word) && IsSpace(blank)
    ensures MatchDetail(indent + keyword + " " + word + [blank] + rest, keyword) == Some(word)
  {
    var head := indent + keyword + " ";
    var line := head + word + [blank] + rest;
    PrefixOfConcat(head, word, [blank], rest);
    DetailIndent(indent, keyword, line);
    DetailWord(head, word, blank, rest);
    MatchDetailAt(line, keyword, |indent|, |head| + |word|);
  }

  /** `inet6` lines carry IPv6 addresses and are not taken as `inet` lines. */
  lemma Inet6Ignored(indent: string, rest: string)
    requires Blanks(indent)
    ensures MatchInet(indent + "inet6 " + rest) == None
  {
    var line := indent + "inet6 " + rest;
    var w := |indent|;
    assert forall j :: 0 <= j < w ==> line[j] == indent[j];
    assert line[w] == 'i';
    SpanAt(line, 0, w, IsSpace);
    assert line[w + 4] == '6';
  }

  // ---------------------------------------------------------------------
  // Reading the bonding options of a bond

  /** `content.split(/\s+/).first`: nothing when the content is blank, the
      empty string when it starts with a blank, else its first word. */
  function FirstToken(content: string): (r: Option<string>)
    ensures r.None? <==> forall i :: 0 <= i < |content| ==> IsSpace(content[i])
    ensures r.Some? ==> NoSpace(r.value) && r.value <= content
  {
    if Span(content, 0, IsSpace) == |content| then None
    else Some(content[..Span(content, 0, NotSpace)])
  }

  /** `c` starts with the word `w`: a non-empty run of non-blank
      characters that ends at a blank or at the end of `c`. */
  predicate StartsWithWord(c: string, w: string) {
    w != "" && NoSpace(w) && w <= c && (|c| == |w| || IsSpace(c[|w|]))
  }

  /** The first word is the word the content starts with. */
  lemma FirstTokenOf(c: string, w: string)
    requires StartsWithWord(c, w)
    ensures FirstToken(c) == Some(w)
  {
    assert !IsSpace(c[0]) by { assert c[0] == w[0]; }
    SpanAt(c, 0, 0, IsSpace);
    assert forall k :: 0 <= k < |w| ==> NotSpace(c[k]) by {
      assert forall k :: 0 <= k < |w| ==> c[k] == w[k];
    }
    SpanAt(c, 0, |w|, NotSpace);
    assert c[..|w|] == w;
  }

  /** The first word of the bonding option file `file`; reading a missing
      file raises. */
  function ReadBondOption(fs: Sysfs, bond: string, file: string): (r: Result<Option<string>>)
    ensures r.Err? <==> BondingFile(bond, file) !in fs.files
    ensures r.Ok? ==> r.value == FirstToken(fs.files[BondingFile(bond, file)])
  {
    match ReadFile(fs, BondingFile(bond, file))
    case None => Err("No such file or directory")
    case Some(c) => Ok(FirstToken(c))
  }

  /** The slaves of a bond: the blank-separated words of its `slaves` file, or
      none when it has no bonding directory. */
  function GetBondSlaves(fs: Sysfs, bond: string): (r: Result<seq<string>>)
    ensures bond !in fs.bondingDirs ==> r == Ok([])
    ensures bond in fs.bondingDirs ==> (r.Err? <==> BondingFile(bond, "slaves") !in fs.files)
    ensures bond in fs.bondingDirs && r.Ok? ==> r.value == Split(Strip(fs.files[BondingFile(bond, "slaves")]), IsSpace)
  {
    if bond !in fs.bondingDirs then Ok([])
    else
      match ReadFile(fs, BondingFile(bond, "slaves"))
      case None => Err("No such file or directory")
      case Some(c) => Ok(Split(Strip(c), IsSpace))
  }

  /** A `slaves` file holding the slave names separated by single spaces and
      ending with a newline reads back as exactly those names. */
  lemma GetBondSlavesJoin(fs: Sysfs, bond: string, slaves: seq<string>)
    requires AllTokens(slaves) && bond in fs.bondingDirs
    requires ReadFile(fs, BondingFile(bond, "slaves")) == Some(Join(slaves) + "\n")
    ensures GetBondSlaves(fs, bond) == Ok(slaves)
  {
    SplitJoinLine(slaves);
  }

  /** Why discovering a bond fails: an option file is missing, the miimon
      file is blank or not an integer, the lacp_rate file is blank, or the
      bond has a bonding directory without a `slaves` file. */
  predicate BondReadFails(fs: Sysfs, bond: string) {
    var miimon := BondingFile(bond, "miimon");
    var lacp := BondingFile(bond, "lacp_rate");
    BondingFile(bond, "mode") !in fs.files ||
    miimon !in fs.files || FirstToken(fs.files[miimon]).None? ||
    RubyInteger(FirstToken(fs.files[miimon]).value).None? ||
    lacp !in fs.files || FirstToken(fs.files[lacp]).None? ||
    BondingFile(bond, "xmit_hash_policy") !in fs.files ||
    (bond in fs.bondingDirs && BondingFile(bond, "slaves") !in fs.files)
  }

  /** The bonding options of a discovered bond, read in the order mode,
      miimon, lacp_rate, xmit_hash_policy, then its slaves: the mode and the
      hash policy as text, miimon through `Integer`, the lacp rate as a symbol
      (a blank file makes the latter two raise). */
  function InstanceBond(fs: Sysfs, bond: string, base: Props): (r: Result<Props>)
    ensures r.Err? <==> BondReadFails(fs, bond)
    ensures r.Ok? ==>
      r.value == base.(bondMode := FirstToken(fs.files[BondingFile(bond, "mode")]),
                       bondMiimon := Some(RubyInteger(FirstToken(fs.files[BondingFile(bond, "miimon")]).value).value),
                       bondLacpRate := FirstToken(fs.files[BondingFile(bond, "lacp_rate")]),
                       bondXmitHashPolicy := FirstToken(fs.files[BondingFile(bond, "xmit_hash_policy")]),
                       bondSlaves := Some(GetBondSlaves(fs, bond).value))
  {
    var mode := ReadBondOption(fs, bond, "mode");
    if mode.Err? then Err(mode.error) else
    var miimon := ReadBondOption(fs, bond, "miimon");
    if miimon.Err? then Err(miimon.error)
    else if miimon.value.None? then Err("can't convert nil into Integer")
    else if RubyInteger(miimon.value.value).None? then Err("invalid value for Integer()") else
    var lacp := ReadBondOption(fs, bond, "lacp_rate");
    if lacp.Err? then Err(lacp.error)
    else if lacp.value.None? then Err("undefined method `to_sym' for nil") else
    var xmit := ReadBondOption(fs, bond, "xmit_hash_policy");
    if xmit.Err? then Err(xmit.error) else
    var slaves := GetBondSlaves(fs, bond);
    if slaves.Err? then Err(slaves.error) else
    Ok(base.(bondMode := mode.value, bondMiimon := Some(RubyInteger(miimon.value.value).value),
             bondLacpRate := lacp.value, bondXmitHashPolicy := xmit.value,
             bondSlaves := Some(slaves.value)))
  }

  /** Discovery reads back what sysfs shows: option files that start with a
      word (miimon with the decimal text of a number) and a `slaves` file of
      space-separated names give exactly those values. */
  lemma InstanceBondReads(fs: Sysfs, bond: string, base: Props,
                          mode: string, miimon: nat, lacp: string, xmit: string, slaves: seq<string>)
    requires BondingFile(bond, "mode") in fs.files && StartsWithWord(fs.files[BondingFile(bond, "mode")], mode)
    requires BondingFile(bond, "miimon") in fs.files && StartsWithWord(fs.files[BondingFile(bond, "miimon")], NatToString(miimon))
    requires BondingFile(bond, "lacp_rate") in fs.files && StartsWithWord(fs.files[BondingFile(bond, "lacp_rate")], lacp)
    requires BondingFile(bond, "xmit_hash_policy") in fs.files && StartsWithWord(fs.files[BondingFile(bond, "xmit_hash_policy")], xmit)
    requires AllTokens(slaves) && bond in fs.bondingDirs
    requires ReadFile(fs, BondingFile(bond, "slaves")) == Some(Join(slaves) + "\n")
    ensures InstanceBond(fs, bond, base) ==
      Ok(base.(bondMode := Some(mode), bondMiimon := Some(miimon), bondLacpRate := Some(lacp),
               bondXmitHashPolicy := Some(xmit), bondSlaves := Some(slaves)))
  {
    FirstTokenOf(fs.files[BondingFile(bond, "mode")], mode);
    FirstTokenOf(fs.files[BondingFile(bond, "miimon")], NatToString(miimon));
    FirstTokenOf(fs.files[BondingFile(bond, "lacp_rate")], lacp);
    FirstTokenOf(fs.files[BondingFile(bond, "xmit_hash_policy")], xmit);
    GetBondSlavesJoin(fs, bond, slaves);
  }

  // ---------------------------------------------------------------------
  // Building the records

  predicate IsComma(c: char) { c == ',' }
  predicate IsAt(c: char) { c == '@' }

  /** The name before `@` in a header's `name@parent`. */
  function HeaderName(h: Header): Option<string> {
    var parts := Split(h.nameAndParent, IsAt);
    if |parts| > 0 then Some(parts[0]) else None
  }

  /** The parent after `@`, unless it is `NONE`. */
  function HeaderParent(h: Header): Option<string> {
    var parts := Split(h.nameAndParent, IsAt);
    if |parts| > 1 && parts[1] != "NONE" then Some(parts[1]) else None
  }

  /** The record a header opens before any type-specific value is read. */
  function HeaderBase(h: Header): Props
    requires RubyInteger(h.mtu).Some?
  {
    EmptyProps.(ensure := true, mtu := Some(RubyInteger(h.mtu).value), name := HeaderName(h),
                state := Some(GetState(Split(h.flags, IsComma))), typ := Some(ProviderType(HeaderName(h))),
                ipaddress := Some([]))
  }

  /** The five bonding values of a record. */
  function BondOptions(p: Props): (Option<string>, Option<int>, Option<string>, Option<string>, Option<seq<string>>) {
    (p.bondMode, p.bondMiimon, p.bondLacpRate, p.bondXmitHashPolicy, p.bondSlaves)
  }

  /** The record a header opens: present, with the header's mtu, name,
      state and provider classification, no addresses yet, the bonding
      options or vlan id by type, and the parent after `@` unless it is
      `NONE`. A malformed number, a failed bond read or a malformed vlan
      name raises. */
  function Seed(fs: Sysfs, h: Header): (r: Result<Props>)
    ensures r.Err? <==>
      RubyInteger(h.index).None? || RubyInteger(h.mtu).None? ||
      (ProviderType(HeaderName(h)) == Bonding && BondReadFails(fs, HeaderName(h).value)) ||
      (ProviderType(HeaderName(h)) == Vlan && GetVlanId(HeaderName(h).value).Err?)
    ensures r.Ok? ==> r.value.ensure && r.value.ipaddress == Some([]) && r.value != EmptyProps
    ensures r.Ok? ==> r.value.mac.None? && r.value.name == HeaderName(h) && r.value.parent == HeaderParent(h)
    ensures r.Ok? ==> r.value.typ == Some(ProviderType(r.value.name))
    ensures r.Ok? ==> r.value.state == Some(if "UP" in Split(h.flags, IsComma) then Up else Down)
    ensures r.Ok? && Canonical(h.mtu) ==> r.value.mtu == Some(DecValue(h.mtu))
    ensures r.Ok? && ProviderType(HeaderName(h)) == Bonding ==>
      BondOptions(r.value) == BondOptions(InstanceBond(fs, HeaderName(h).value, HeaderBase(h)).value)
    ensures r.Ok? && ProviderType(HeaderName(h)) != Bonding ==> BondOptions(r.value) == (None, None, None, None, None)
    ensures r.Ok? && ProviderType(HeaderName(h)) == Vlan ==> r.value.vlanid == Some(GetVlanId(HeaderName(h).value).value)
    ensures r.Ok? && ProviderType(HeaderName(h)) != Vlan ==> r.value.vlanid.None?
  {
    if RubyInteger(h.index).None? || RubyInteger(h.mtu).None? then Err("invalid value for Integer()")
    else
      var name := HeaderName(h);
      var typ := ProviderType(name);
      var base := HeaderBase(h);
      var typed :=
        if typ == Bonding then InstanceBond(fs, name.value, base)
        else if typ == Vlan then
          (match GetVlanId(name.value)
           case Err(e) => Err(e)
           case Ok(v) => Ok(base.(vlanid := Some(v))))
        else Ok(base);
      match typed
      case Err(e) => Err(e)
      case Ok(t) => Ok(t.(parent := HeaderParent(h)))
  }

  /** `name@parent`: the name is the text before `@` and the parent the
      text after it, dropped when it is `NONE`. */
  lemma SeedNameParent(fs: Sysfs, h: Header, n: string, p: string)
    requires Seed(fs, h).Ok?
    requires n != "" && p != "" && h.nameAndParent == n + "@" + p
    requires forall i :: 0 <= i < |n| ==> !IsAt(n[i])
    requires forall i :: 0 <= i < |p| ==> !IsAt(p[i])
    ensures Seed(fs, h).value.name == Some(n)
    ensures Seed(fs, h).value.parent == if p == "NONE" then None else Some(p)
  {
    FieldsAtSep(n, '@', p, IsAt);
    FieldsNoSep(p, IsAt);
    assert Fields(h.nameAndParent, IsAt) == [n, p];
    assert Split(h.nameAndParent, IsAt) == [n, p];
  }

  /** A name without `@` is all name, and the record has no parent. */
  lemma SeedNoParent(fs: Sysfs, h: Header)
    requires Seed(fs, h).Ok?
    requires h.nameAndParent != "" && forall i :: 0 <= i < |h.nameAndParent| ==> !IsAt(h.nameAndParent[i])
    ensures Seed(fs, h).value.name == Some(h.nameAndParent)
    ensures Seed(fs, h).value.parent.None?
  {
    FieldsNoSep(h.nameAndParent, IsAt);
    assert Split(h.nameAndParent, IsAt) == [h.nameAndParent];
  }

  /** A line that is not a header: an `inet` line appends its address (and
      raises when no record has been opened yet, as the address list does
      not exist), a `link/ether` line sets the MAC address. */
  function Detail(cur: Props, line: string): (r: Result<Props>)
    ensures r.Ok? && cur != EmptyProps ==> r.value != EmptyProps
    ensures r.Ok? ==> r.value.ensure == cur.ensure && r.value.name == cur.name
  {
    var withInet :=
      match MatchInet(line)
      case None => Ok(cur)
      case Some(a) =>
        if cur.ipaddress.None? then Err("undefined method `<<' for nil")
        else Ok(cur.(ipaddress := Some(cur.ipaddress.value + [a])));
    match withInet
    case Err(e) => Err(e)
    case Ok(c) =>
      match MatchEther(line)
      case None => Ok(c)
      case Some(m) => Ok(c.(mac := Some(m)))
  }

  function Flushed(cur: Props): seq<Props> { if cur == EmptyProps then [] else [cur] }

  /** `out` put in front of the records of a parse that succeeded. */
  function Prepend(out: seq<Props>, r: Result<seq<Props>>): Result<seq<Props>> {
    match r
    case Ok(rs) => Ok(out + rs)
    case Err(e) => Err(e)
  }

  /** The records of `lines` when `cur` is the record being built. */
  function Parse(fs: Sysfs, lines: seq<string>, cur: Props): Result<seq<Props>>
    decreases |lines|
  {
    if lines == [] then Ok(Flushed(cur))
    else
      match MatchHeader(lines[0])
      case Some(h) =>
        (match Seed(fs, h)
         case Err(e) => Err(e)
         case Ok(next) => Prepend(Flushed(cur), Parse(fs, lines[1..], next)))
      case None =>
        (match Detail(cur, lines[0])
         case Err(e) => Err(e)
         case Ok(next) => Parse(fs, lines[1..], next))
  }

  /** The provider records for the output of `ip address`. */
  function ParseOutput(fs: Sysfs, output: string): Result<seq<Props>> {
    Parse(fs, Lines(output), EmptyProps)
  }

  lemma PrependAssoc(a: seq<Props>, b: seq<Props>, r: Result<seq<Props>>)
    ensures Prepend(a, Prepend(b, r)) == Prepend(a + b, r)
  {
    if r.Ok? { assert a + (b + r.value) == (a + b) + r.value; }
  }

  lemma ParseHeaderStep(fs: Sysfs, lines: seq<string>, cur: Props)
    requires lines != [] && MatchHeader(lines[0]).Some?
    ensures Seed(fs, MatchHeader(lines[0]).value).Err? ==> Parse(fs, lines, cur).Err?
    ensures Seed(fs, MatchHeader(lines[0]).value).Ok? ==>
      Parse(fs, lines, cur) == Prepend(Flushed(cur), Parse(fs, lines[1..], Seed(fs, MatchHeader(lines[0]).value).value))
  {
  }

  lemma ParseDetailStep(fs: Sysfs, lines: seq<string>, cur: Props)
    requires lines != [] && MatchHeader(lines[0]).None?
    ensures Detail(cur, lines[0]).Err? ==> Parse(fs, lines, cur).Err?
    ensures Detail(cur, lines[0]).Ok? ==> Parse(fs, lines, cur) == Parse(fs, lines[1..], Detail(cur, lines[0]).value)
  {
  }

  /** One header line of the loop: the record being built is flushed and
      a new one seeded, or the seed's error ends the parse. */
  lemma LoopHeaderStep(fs: Sysfs, rest: seq<string>, out: seq<Props>, cur: Props)
    requires rest != [] && MatchHeader(rest[0]).Some?
    ensures var sd := Seed(fs, MatchHeader(rest[0]).value);
      (sd.Err? ==> Prepend(out, Parse(fs, rest, cur)) == Err(sd.error)) &&
      (sd.Ok? ==> Prepend(out, Parse(fs, rest, cur)) == Prepend(out + Flushed(cur), Parse(fs, rest[1..], sd.value)))
  {
    var sd := Seed(fs, MatchHeader(rest[0]).value);
    ParseHeaderStep(fs, rest, cur);
    if sd.Ok? {
      PrependAssoc(out, Flushed(cur), Parse(fs, rest[1..], sd.value));
    }
  }

  /** One detail line of the loop: the record being built absorbs it, or
      its error ends the parse. */
  lemma LoopDetailStep(fs: Sysfs, rest: seq<string>, out: seq<Props>, cur: Props)
    requires rest != [] && MatchHeader(rest[0]).None?
    ensures var d := Detail(cur, rest[0]);
      (d.Err? ==> Prepend(out, Parse(fs, rest, cur)) == Err(d.error)) &&
      (d.Ok? ==> Prepend(out, Parse(fs, rest, cur)) == Prepend(out, Parse(fs, rest[1..], d.value)))
  {
    ParseDetailStep(fs, rest, cur);
  }

  /** The end of the loop: the last record is flushed. */
  lemma LoopEnd(fs: Sysfs, out: seq<Props>, cur: Props)
    ensures Prepend(out, Parse(fs, [], cur)) == Ok(out + Flushed(cur))
  {
  }

  /** The discovery loop over the lines of `ip address`. */
  method Instances(fs: Sysfs, output: string) returns (r: Result<seq<Props>>)
    ensures r == ParseOutput(fs, output)
  {
    var lines := Lines(output);
    var providers: seq<Props> := [];
    var hash := EmptyProps;
    var i := 0;
    assert Prepend(providers, Parse(fs, lines[i..], hash)) == Parse(fs, lines, hash) by {
      assert lines[i..] == lines;
      var r := Parse(fs, lines, hash);
      if r.Ok? { assert [] + r.value == r.value; }
    }
    while i < |lines|
      invariant 0 <= i <= |lines|
      invariant Parse(fs, lines, EmptyProps) == Prepend(providers, Parse(fs, lines[i..], hash))
    {
      var line := lines[i];
      var rest := lines[i..];
      assert rest[0] == line && rest[1..] == lines[i + 1..];
      var header := MatchHeader(line);
      if header.Some? {
        LoopHeaderStep(fs, rest, providers, hash);
        var seeded := Seed(fs, header.value);
        if seeded.Err? {
          return Err(seeded.error);
        }
        if hash != EmptyProps {
          providers := providers + [hash];
        } else {
          assert providers + Flushed(hash) == providers;
        }
        hash := seeded.value;
      } else {
        LoopDetailStep(fs, rest, providers, hash);
        var detail := Detail(hash, line);
        if detail.Err? {
          return Err(detail.error);
        }
        hash := detail.value;
      }
      i := i + 1;
    }
    assert lines[i..] == [];
    LoopEnd(fs, providers, hash);
    if hash != EmptyProps {
      providers := providers + [hash];
    } else {
      assert providers + Flushed(hash) == providers;
    }
    return Ok(providers);
  }

  // ---------------------------------------------------------------------
  // Properties of discovery

  function HeaderCount(lines: seq<string>): nat {
    if lines == [] then 0 else (if MatchHeader(lines[0]).Some? then 1 else 0) + HeaderCount(lines[1..])
  }

  /** Some `link/ether` line comes before the first header. */
  predicate EtherBeforeHeader(lines: seq<string>) {
    lines != [] && MatchHeader(lines[0]).None? && (MatchEther(lines[0]).Some? || EtherBeforeHeader(lines[1..]))
  }

  /** A successful discovery yields one record per header, plus one record
      holding only a MAC address when a `link/ether` line precedes the first
      header. */
  lemma {:induction false} RecordCount(fs: Sysfs, lines: seq<string>, cur: Props)
    requires Parse(fs, lines, cur).Ok?
    ensures |Parse(fs, lines, cur).value| ==
      HeaderCount(lines) + (if cur != EmptyProps || EtherBeforeHeader(lines) then 1 else 0)
    decreases |lines|
  {
    if lines != [] {
      match MatchHeader(lines[0])
      case Some(h) =>
        var next := Seed(fs, h).value;
        RecordCount(fs, lines[1..], next);
      case None =>
        var next := Detail(cur, lines[0]).value;
        RecordCount(fs, lines[1..], next);
        if cur == EmptyProps {
          if MatchEther(lines[0]).Some? {
            assert next.mac.Some?;
          } else if MatchInet(lines[0]).None? {
            assert next == cur;
          }
        }
    }
  }

  /** When the output starts with a header there is exactly one record per
      header. */
  lemma RecordPerHeader(fs: Sysfs, output: string)
    requires ParseOutput(fs, output).Ok?
    requires Lines(output) != [] && MatchHeader(Lines(output)[0]).Some?
    ensures |ParseOutput(fs, output).value| == HeaderCount(Lines(output))
  {
    RecordCount(fs, Lines(output), EmptyProps);
  }

  /** An `inet` line before any header makes discovery raise. */
  lemma LeadingInetRaises(fs: Sysfs, lines: seq<string>)
    requires lines != [] && MatchHeader(lines[0]).None? && MatchInet(lines[0]).Some?
    ensures Parse(fs, lines, EmptyProps).Err?
  {
  }

  predicate NoHeaders(lines: seq<string>) { forall k :: 0 <= k < |lines| ==> MatchHeader(lines[k]).None? }

  function InetOf(line: string): seq<string> {
    if MatchInet(line).Some? then [MatchInet(line).value] else []
  }

  function Inets(lines: seq<string>): seq<string> {
    if lines == [] then [] else InetOf(lines[0]) + Inets(lines[1..])
  }

  function LastEther(lines: seq<string>, mac: Option<string>): Option<string> {
    if lines == [] then mac
    else LastEther(lines[1..], if MatchEther(lines[0]).Some? then MatchEther(lines[0]) else mac)
  }

  /** What one detail line does to a record that has an address list. */
  lemma DetailOnRecord(cur: Props, line: string)
    requires cur.ipaddress.Some?
    ensures Detail(cur, line) ==
      Ok(cur.(ipaddress := Some(cur.ipaddress.value + Inets([line])), mac := LastEther([line], cur.mac)))
  {
    assert [line][0] == line && [line][1..] == [];
    assert Inets([line]) == InetOf(line) + [] == InetOf(line);
    assert LastEther([line], cur.mac) == (if MatchEther(line).Some? then MatchEther(line) else cur.mac);
    if MatchInet(line).None? {
      assert cur.ipaddress.value + [] == cur.ipaddress.value;
    }
  }

  lemma InetsCons(lines: seq<string>)
    requires lines != []
    ensures Inets(lines) == Inets([lines[0]]) + Inets(lines[1..])
  {
    var line := lines[0];
    assert [line][0] == line && [line][1..] == [];
    assert Inets([line]) == InetOf(line) + Inets([]);
    assert InetOf(line) + [] == InetOf(line);
  }

  lemma LastEtherCons(lines: seq<string>, mac: Option<string>)
    requires lines != []
    ensures LastEther(lines, mac) == LastEther(lines[1..], LastEther([lines[0]], mac))
  {
    var line := lines[0];
    assert [line][1..] == [];
  }

  /** The record after the detail lines `details` have been applied to it. */
  function Absorb(cur: Props, details: seq<string>): (r: Props)
    requires cur.ipaddress.Some?
    ensures r.ipaddress.Some?
    decreases |details|
  {
    if details == [] then cur
    else
      DetailOnRecord(cur, details[0]);
      Absorb(Detail(cur, details[0]).value, details[1..])
  }

  lemma {:induction false} ParseDetails(fs: Sysfs, details: seq<string>, rest: seq<string>, cur: Props)
    requires NoHeaders(details) && cur.ipaddress.Some?
    ensures Parse(fs, details + rest, cur) == Parse(fs, rest, Absorb(cur, details))
    decreases |details|
  {
    if details == [] {
      assert details + rest == rest;
    } else {
      var lines := details + rest;
      assert lines[0] == details[0] && lines[1..] == details[1..] + rest;
      assert MatchHeader(details[0]).None?;
      DetailOnRecord(cur, details[0]);
      ParseDetailStep(fs, lines, cur);
      assert NoHeaders(details[1..]);
      ParseDetails(fs, details[1..], rest, Detail(cur, details[0]).value);
    }
  }

  /** The first detail line applied, then the rest. */
  lemma AbsorbCons(cur: Props, details: seq<string>)
    requires cur.ipaddress.Some? && details != []
    ensures Absorb(cur, details) ==
      Absorb(cur.(ipaddress := Some(cur.ipaddress.value + Inets([details[0]])), mac := LastEther([details[0]], cur.mac)), details[1..])
  {
    DetailOnRecord(cur, details[0]);
  }

  lemma {:induction false} AbsorbAddresses(cur: Props, details: seq<string>)
    requires cur.ipaddress.Some?
    ensures Absorb(cur, details).ipaddress == Some(cur.ipaddress.value + Inets(details))
    decreases |details|
  {
    if details == [] {
      assert cur.ipaddress.value + [] == cur.ipaddress.value;
    } else {
      var a, b, c := cur.ipaddress.value, Inets([details[0]]), Inets(details[1..]);
      var next := cur.(ipaddress := Some(a + b), mac := LastEther([details[0]], cur.mac));
      AbsorbCons(cur, details);
      AbsorbAddresses(next, details[1..]);
      InetsCons(details);
      ConcatAssoc(a, b, c);
    }
  }

  lemma {:induction false} AbsorbMac(cur: Props, details: seq<string>)
    requires cur.ipaddress.Some?
    ensures Absorb(cur, details).mac == LastEther(details, cur.mac)
    decreases |details|
  {
    if details != [] {
      var next := cur.(ipaddress := Some(cur.ipaddress.value + Inets([details[0]])), mac := LastEther([details[0]], cur.mac));
      AbsorbCons(cur, details);
      AbsorbMac(next, details[1..]);
      LastEtherCons(details, cur.mac);
    }
  }

  lemma {:induction false} AbsorbKeeps(cur: Props, details: seq<string>)
    requires cur.ipaddress.Some?
    ensures Absorb(cur, details) == cur.(ipaddress := Absorb(cur, details).ipaddress, mac := Absorb(cur, details).mac)
    decreases |details|
  {
    if details != [] {
      var next := cur.(ipaddress := Some(cur.ipaddress.value + Inets([details[0]])), mac := LastEther([details[0]], cur.mac));
      AbsorbCons(cur, details);
      AbsorbKeeps(next, details[1..]);
    }
  }

  /** Applying detail lines appends the addresses of the `inet` lines in
      order, keeps the MAC address of the last `link/ether` line, and leaves
      everything else as it was. */
  lemma AbsorbMeaning(cur: Props, details: seq<string>)
    requires cur.ipaddress.Some?
    ensures Absorb(cur, details) ==
      cur.(ipaddress := Some(cur.ipaddress.value + Inets(details)), mac := LastEther(details, cur.mac))
  {
    AbsorbAddresses(cur, details);
    AbsorbMac(cur, details);
    AbsorbKeeps(cur, details);
  }

  /** The lines up to the next header all belong to the record being built:
      it gets the addresses of their `inet` lines in order and the MAC
      address of the last `link/ether` line, and parsing goes on from there. */
  lemma DetailsJoinRecord(fs: Sysfs, details: seq<string>, rest: seq<string>, cur: Props)
    requires NoHeaders(details) && cur.ipaddress.Some?
    ensures Parse(fs, details + rest, cur) ==
      Parse(fs, rest, cur.(ipaddress := Some(cur.ipaddress.value + Inets(details)), mac := LastEther(details, cur.mac)))
  {
    ParseDetails(fs, details, rest, cur);
    AbsorbMeaning(cur, details);
  }
}
