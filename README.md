# bibigon812-network in Dafny

A model of the Puppet module `bibigon812-network`. The module manages Linux
network interfaces (ethernet, bonds, vlans) and static routes with the
`ip` tool and the files under `/sys/class/net`. This project models:

- the interface-name classifier: the ordered table of name patterns, the
  first-match lookup, and the lists of bondable and vlanable types;
- the rules of the `network_interface` resource type and its split files
  (bonding, vlan, ethernet, autorequire): validators, defaults, munging,
  `insync?` and the autorequire lists;
- the `iproute2` interface provider:
  - discovery: parsing the output of `ip address` into property records,
    together with the bonding files in sysfs;
  - every property setter;
  - bond slave synchronisation, with each slave shut down around its write;
  - saving and restoring the state around a bond change;
  - the creation and destruction sequences;
- the rules of the `network_route` type: the title patterns and the
  prefix, metric and next-hop validation;
- the `iproute2` route provider: the lookup in `ip route list`, prefetch,
  the argument lists of `ip route add|delete|change`, the description
  string, and `create`, `destroy` and `flush`.

External commands and file writes are not run. Each becomes an entry
appended to a command log (`ProviderData.Cmd`). The filesystem is a value
(`ProviderData.Sysfs`) that the operations read. It lists:

- which interfaces exist;
- which of them have a bonding directory;
- whether `bonding_masters` is present;
- the contents of the files;
- which writes fail.

The provider's changing state is a record (`InterfaceProvider.St`): the
property hash, the operstate cache, the saved state and the log. Each
operation is a function from one such record to the next. The classes
`InterfaceProvider.Provider` and `RouteProvider.Provider` carry the same
state as fields, and each of their methods is proved to have exactly the
effect of its function.

Ruby semantics the code depends on are modelled explicitly in module `Text`:

- `String#split` drops trailing empty fields;
- `String#strip` also removes NUL;
- `Array#-` keeps order and duplicates;
- `Kernel#Integer` reads a digit string with a leading zero as octal, so
  `"010"` is 8 and `"08"` raises.

Behaviours of the code worth knowing, each with the member that states it:

- `sync_bond_slaves` adds the missing slaves before it removes the unwanted
  ones (iproute2.rb:535-538, `InterfaceProvider.SyncWrites`).
- `manage_bond_slaves` checks a slave only for existence
  (iproute2.rb:548). That a slave must be ethernet is the resource
  type's validation (bonding.rb:60-64, `BondingType.SlaveMeaning`).
- `destroy` brings an existing interface down and clears its record even
  when it is neither a bond nor a vlan (iproute2.rb:208-226,
  `InterfaceProvider.DestroyEffect`).
- The vlan pattern covers ids 2 to 4095, so `vlan1` classifies as ethernet
  (network.rb:15, `Network.VlanClassification`).
- The mtu validation accepts 68 to 9000, while its error text says 1-9000
  (network_interface.rb:65-68, `InterfaceType.MtuCheck`).
- The ethernet pattern is `[[:alpha:]]*(?:[[:alpha:]]\d+)+`, so every letter
  after the first digit must be followed by digits: `eth0ab1` is rejected
  (network.rb:18, `Network.LetterPairAfterDigitsUnknown`).

The IP address parser `IPAddr.new` is a library outside this core. The
validators take it as a parameter `isIp: string -> bool`. Only the
prefix-length check (`/` present) is local code.

## Model

| member | source | states |
|---|---|---|
| `Text.RubyInteger` | lib/puppet/provider/network_interface/iproute2.rb:56-59 | `Integer()` on text: the decimal value of a canonical digit string, an error for anything that is not digits |
| `Text.RubyIntegerOctalExample` | lib/puppet/provider/network_interface/iproute2.rb:455-455 | a leading zero makes the number octal: `"010"` is 8, and `"08"` raises |
| `Text.Difference` | lib/puppet/provider/network_interface/iproute2.rb:237-243 | `Array#-`: exactly the elements of the first list absent from the second |
| `Text.DifferenceEmpty` | lib/puppet/provider/network_interface/iproute2.rb:535-538 | the difference is empty iff every element is included in the other list |
| `Text.AllIncludedMeaning` | lib/puppet/type/network_interface.rb:50-52 | the `each ... return false unless include?` loop holds iff every element is included |
| `Text.InSync` | lib/puppet/type/network_interface.rb:49-59 | `insync?` of a list property holds iff both lists hold the same set of elements |
| `Text.InSyncSame` | lib/puppet/type/network_interface/bonding.rb:66-76 | lists in sync hold the same elements in both directions |
| `Text.JoinWords` | lib/puppet/provider/network_route/iproute2.rb:37-37 | a line of words joined by spaces survives `strip` and reads back as the same words |
| `Text.Fields` | lib/puppet/provider/network_interface/iproute2.rb:62-62 | splitting on a separator test always yields one more field than separators, empty fields included |
| `Text.DropTrailingEmpty` | lib/puppet/provider/network_interface/iproute2.rb:53-53 | `String#split` drops exactly the trailing empty fields: the result is a prefix of the fields, ends in a non-empty field, and everything dropped is empty |
| `Text.Words` | lib/puppet/provider/network_route/iproute2.rb:31-37 | the words of a stripped route line, as the `\s+` separators of the route pattern delimit them: only non-empty words |
| `Text.Nonempty` | lib/puppet/provider/network_route/iproute2.rb:31-37 | the words kept are non-empty and each is one of the blank-separated fields |
| `Text.StripLeft` | lib/puppet/provider/network_route/iproute2.rb:37-37 | left `strip` removes a prefix and leaves no leading whitespace or NUL |
| `Text.StripRight` | lib/puppet/provider/network_route/iproute2.rb:37-37 | right `strip` removes a suffix and leaves no trailing whitespace or NUL |
| `Text.Strip` | lib/puppet/provider/network_route/iproute2.rb:37-37 | `strip` leaves neither leading nor trailing whitespace or NUL |
| `Text.StripKeeps` | lib/puppet/provider/network_route/iproute2.rb:37-37 | `strip` leaves a string without whitespace at either end unchanged |
| `Text.NatToString` | lib/puppet/provider/network_route/iproute2.rb:33-33 | `to_s` of a metric is a canonical digit string whose value is the metric |
| `Text.CanonicalRoundTrip` | lib/puppet/provider/network_route/iproute2.rb:33-33 | a canonical digit string is exactly the `to_s` of its value |
| `Text.FieldsJoin` | lib/puppet/provider/network_route/iproute2.rb:31-37 | words joined by single blanks split back into the same words |
| `Text.NonemptyKeeps` | lib/puppet/provider/network_route/iproute2.rb:31-37 | dropping empty fields from a list of words changes nothing |
| `Network.Rank` | lib/puppet/util/network.rb:4-23 | each type has its own position in the interface table |
| `Network.FirstMatch` | lib/puppet/util/network.rb:59-65 | the result's pattern matches; no entry before it matches; nothing matching gives unknown |
| `Network.GetInterfaceType` | lib/puppet/util/network.rb:55-66 | a nil name is unknown; otherwise the first type in table order whose pattern matches |
| `Network.TypeOf` | lib/puppet/util/network.rb:55-66 | the classification of a present name: the table scan started from that name |
| `Network.IsVlanName` | lib/puppet/util/network.rb:15-15 | `vlan` followed by one of the six number alternatives of the vlan pattern |
| `Network.IsEthernetName` | lib/puppet/util/network.rb:18-18 | letters, then one or more groups of a letter followed by digits, covering the whole name |
| `Network.TypeOfChain` | lib/puppet/util/network.rb:4-23 | classification tries bond, gre, lo, vlan, ethernet in that order, else unknown |
| `Network.MembershipLists` | lib/puppet/util/network.rb:43-50 | only ethernet is bondable; exactly bonding and ethernet are vlanable |
| `Network.BondBeforeEthernet` | lib/puppet/util/network.rb:5-19 | `bond0` fits the ethernet pattern yet classifies as bonding |
| `Network.GreBeforeEthernet` | lib/puppet/util/network.rb:8-19 | `gre0` fits the ethernet pattern yet classifies as gre |
| `Network.VlanBeforeEthernet` | lib/puppet/util/network.rb:14-19 | `vlan100` fits the ethernet pattern yet classifies as vlan |
| `Network.VlanSuffixRange` | lib/puppet/util/network.rb:15-15 | the vlan number alternation denotes exactly the numbers 2..4095 without leading zero |
| `Network.VlanClassification` | lib/puppet/util/network.rb:15-15 | a name is a vlan iff it is `vlan` plus the decimal text of a number in 2..4095 |
| `Network.VlanFallsToEthernet` | lib/puppet/util/network.rb:15-18 | a `vlan`+digits name outside the vlan range classifies as ethernet |
| `Network.Vlan0IsEthernet` | lib/puppet/util/network.rb:15-18 | `vlan0` classifies as ethernet |
| `Network.Vlan1IsEthernet` | lib/puppet/util/network.rb:15-18 | `vlan1` classifies as ethernet |
| `Network.Vlan4096IsEthernet` | lib/puppet/util/network.rb:15-18 | `vlan4096` classifies as ethernet |
| `Network.VlanRangeEnds` | lib/puppet/util/network.rb:15-15 | `vlan2` and `vlan4095` classify as vlan |
| `Network.Vlan2IsVlan` | lib/puppet/util/network.rb:15-15 | `vlan2`, the lowest id, classifies as vlan |
| `Network.Vlan4095IsVlan` | lib/puppet/util/network.rb:15-15 | `vlan4095`, the highest id, classifies as vlan |
| `Network.NotEarlierThanVlan` | lib/puppet/util/network.rb:5-15 | a name starting with `vlan` fails the bond, gre and loopback patterns tried before it |
| `Network.DottedNameUnknown` | lib/puppet/util/network.rb:59-65 | `bond0.100` matches no pattern and is unknown |
| `Network.DottedNotBond` | lib/puppet/util/network.rb:5-5 | `bond0.100` is not a bond name: digits must run to the end |
| `Network.DottedNotEthernet` | lib/puppet/util/network.rb:18-18 | `bond0.100` is not an ethernet name: the dot ends the digit group |
| `Network.UnderscoreNameUnknown` | lib/puppet/util/network.rb:18-21 | `ip_vti0` is not ethernet and is unknown |
| `Network.LetterPairAfterDigitsUnknown` | lib/puppet/util/network.rb:18-18 | `eth0ab1` does not fit the ethernet pattern |
| `Network.PredictableNameEthernet` | lib/puppet/util/network.rb:18-18 | `enp0s3` classifies as ethernet |
| `Network.EthernetExamples` | lib/puppet/util/network.rb:18-18 | `eth0` and `eth1` classify as ethernet |
| `Network.EthernetGroupsAlnum` | lib/puppet/util/network.rb:18-18 | an ethernet name is made of letters and digits only |
| `Network.MatchIsWordName` | lib/puppet/util/network.rb:4-23 | every pattern of the table accepts only `\w+` names |
| `EthernetType.MacFrom` | lib/puppet/type/network_interface/ethernet.rb:6-6 | `(\h\h(?::|-)?){g}\h\h` on the whole text, with each separator taken when present |
| `EthernetType.ValidMac` | lib/puppet/type/network_interface/ethernet.rb:6-6 | the mac pattern: five pairs each optionally followed by `:` or `-`, then a last pair |
| `EthernetType.MacFromShape` | lib/puppet/type/network_interface/ethernet.rb:6-6 | a name with `g` groups accepted by the pattern has 2(g+1) hex digits, bounded length, and ends in a hex pair |
| `EthernetType.ValidMacShape` | lib/puppet/type/network_interface/ethernet.rb:6-6 | an accepted mac has exactly 12 hex digits, length 12..17, and no trailing separator |
| `EthernetType.JoinPairsAccepted` | lib/puppet/type/network_interface/ethernet.rb:6-6 | six hex pairs joined by any mix of `:`, `-` or nothing are accepted |
| `EthernetType.Decompose` | lib/puppet/type/network_interface/ethernet.rb:6-6 | every text the pattern accepts with `g` groups splits into g+1 hex pairs and g separators that join back to it |
| `EthernetType.MacFromIff` | lib/puppet/type/network_interface/ethernet.rb:6-6 | the pattern with g groups accepts a text iff it is g+1 hex pairs joined by g separators, each empty, `:` or `-` |
| `EthernetType.ValidMacIff` | lib/puppet/type/network_interface/ethernet.rb:6-6 | a mac is accepted iff it is six hex pairs joined by five separators, each empty, `:` or `-` |
| `EthernetType.MacFromCons` | lib/puppet/type/network_interface/ethernet.rb:6-6 | a hex pair and an optional `:` or `-` in front of an accepted text give an accepted text with one more group |
| `EthernetType.ColonJoin` | lib/puppet/type/network_interface/ethernet.rb:6-6 | six `00` pairs joined by colons spell `00:00:00:00:00:00` |
| `EthernetType.DashJoin` | lib/puppet/type/network_interface/ethernet.rb:6-6 | six `00` pairs joined by dashes spell `00-00-00-00-00-00` |
| `EthernetType.BareJoin` | lib/puppet/type/network_interface/ethernet.rb:6-6 | six `00` pairs joined by nothing spell `000000000000` |
| `EthernetType.MixedJoin` | lib/puppet/type/network_interface/ethernet.rb:6-6 | six `00` pairs joined by alternating colons and dashes spell `00:00-00:00-00:00` |
| `EthernetType.ZeroPairsHex` | lib/puppet/type/network_interface/ethernet.rb:6-6 | the pairs of an all-zero mac are hex pairs |
| `EthernetType.ColonExample` | lib/puppet/type/network_interface/ethernet.rb:6-6 | `00:00:00:00:00:00` is accepted |
| `EthernetType.DashExample` | lib/puppet/type/network_interface/ethernet.rb:6-6 | `00-00-00-00-00-00` is accepted |
| `EthernetType.BareExample` | lib/puppet/type/network_interface/ethernet.rb:6-6 | `000000000000` is accepted |
| `EthernetType.MixedExample` | lib/puppet/type/network_interface/ethernet.rb:6-6 | mixed separators are accepted |
| `EthernetType.RejectedExamples` | lib/puppet/type/network_interface/ethernet.rb:6-6 | a non-hex character, the empty string and a trailing separator are rejected |
| `BondingType.ValidLacpRate` | lib/puppet/type/network_interface/bonding.rb:18-18 | the lacp rate is `slow` or `fast` |
| `BondingType.ValidMode` | lib/puppet/type/network_interface/bonding.rb:46-46 | the mode is one of the seven bonding policies |
| `BondingType.ValidXmitHashPolicy` | lib/puppet/type/network_interface/bonding.rb:89-89 | the hash policy is `layer2` or `layer3+4` |
| `BondingType.ValidMiimon` | lib/puppet/type/network_interface/bonding.rb:32-32 | the miimon value's text is a run of digits |
| `BondingType.ValidSlave` | lib/puppet/type/network_interface/bonding.rb:60-64 | a slave's name classifies as a bondable type |
| `BondingType.DefaultLacpRate` | lib/puppet/type/network_interface/bonding.rb:10-18 | default `slow` iff the name is a bond, else none; the default is a valid value |
| `BondingType.DefaultMiimon` | lib/puppet/type/network_interface/bonding.rb:24-32 | default 100 iff the name is a bond, else none |
| `BondingType.DefaultMode` | lib/puppet/type/network_interface/bonding.rb:38-46 | default `802.3ad` iff the name is a bond, else none |
| `BondingType.DefaultSlaves` | lib/puppet/type/network_interface/bonding.rb:52-58 | default empty list iff the name is a bond, else none |
| `BondingType.DefaultXmitHashPolicy` | lib/puppet/type/network_interface/bonding.rb:82-89 | default `layer3+4` iff the name is a bond, else none |
| `BondingType.MiimonMeaning` | lib/puppet/type/network_interface/bonding.rb:32-32 | an Integer interval is accepted iff it is not negative, a String iff it is all digits |
| `BondingType.SlaveMeaning` | lib/puppet/type/network_interface/bonding.rb:60-64 | a slave is accepted iff it classifies as ethernet |
| `BondingType.EthernetSlaves` | lib/puppet/type/network_interface/bonding.rb:60-64 | `eth0` and `eth1` are valid slaves |
| `BondingType.VlanIsNoSlave` | lib/puppet/type/network_interface/bonding.rb:60-64 | `vlan100` is refused as a slave |
| `BondingType.BondIsNoSlave` | lib/puppet/type/network_interface/bonding.rb:60-64 | `bond0` is refused as a slave |
| `BondingType.ValueExamples` | lib/puppet/type/network_interface/bonding.rb:18-89 | `balance-pzd`, miimon -1, `medium`, `layer2+3` are refused; listed values are accepted |
| `VlanType.ValidateParent` | lib/puppet/type/network_interface/vlan.rb:7-14 | a parent is accepted iff it is given and classifies as bonding or ethernet |
| `VlanType.ParentNotSpecifiedUnreachable` | lib/puppet/type/network_interface/vlan.rb:8-13 | the "not specified" error is never raised; a nil parent gets the "cannot have vlan" error |
| `VlanType.MungeVlanid` | lib/puppet/type/network_interface/vlan.rb:22-28 | the id is the number in a vlan name (in 2..4095), none for other names, whatever was supplied |
| `VlanType.MungeVlanName` | lib/puppet/type/network_interface/vlan.rb:22-28 | `vlan100` with supplied 1 munges to 100 |
| `VlanType.MungeOtherName` | lib/puppet/type/network_interface/vlan.rb:22-28 | an ethernet name munges to none |
| `AutorequireRule.Requires` | lib/puppet/type/network_interface/autorequire.rb:4-14 | by the name's class: a vlan requires `[parent]`, even a missing one; a bond requires its slaves in order; others nothing |
| `AutorequireRule.Wrap` | lib/puppet/type/network_interface/autorequire.rb:4-14 | each required name becomes a present entry, in order and one for one |
| `InterfaceType.ValidName` | lib/puppet/type/network_interface.rb:15-21 | a name matches at least one pattern of the interface table |
| `InterfaceType.DefaultType` | lib/puppet/type/network_interface.rb:26-26 | the default type is the classification of the name |
| `InterfaceType.MungeType` | lib/puppet/type/network_interface.rb:28-30 | the munged type is the classification of the name, whatever value was supplied |
| `InterfaceType.ValidIpaddress` | lib/puppet/type/network_interface.rb:40-47 | the IP parser accepts the address and it contains `/` |
| `InterfaceType.ValidNameMeaning` | lib/puppet/type/network_interface.rb:15-21 | a name is valid iff it is a non-empty run of word characters |
| `InterfaceType.TypeIgnoresSupplied` | lib/puppet/type/network_interface.rb:23-31 | the munged type is the name's classification whatever value is supplied, and equals the default |
| `InterfaceType.IpaddressMeaning` | lib/puppet/type/network_interface.rb:40-47 | an address is accepted iff the IP parser accepts it and it contains `/` |
| `InterfaceType.AddressWithoutPrefix` | lib/puppet/type/network_interface.rb:46-46 | `10.0.0.1` is refused whatever the parser; `10.0.0.1/24` is accepted iff the parser accepts it |
| `InterfaceType.InSyncExamples` | lib/puppet/type/network_interface.rb:49-59 | reordered and repeated addresses are in sync; a missing one is not |
| `InterfaceType.MtuCheck` | lib/puppet/type/network_interface.rb:65-68 | valid iff an Integer in 68..9000; a String is "not an Integer" |
| `InterfaceType.MtuExamples` | lib/puppet/type/network_interface.rb:65-68 | `'1500'`, 1, 67, 9001 and 10000 are refused; 68, 1500 and 9000 are accepted |
| `InterfaceType.ValidateParent` | lib/puppet/type/network_interface.rb:183-190 | a parent is accepted iff it is given and is vlanable |
| `InterfaceType.ParentDefinitionsAgree` | lib/puppet/type/network_interface.rb:180-191 | this parent validation and the split file's agree for every resource |
| `InterfaceType.MungeVlanid` | lib/puppet/type/network_interface.rb:198-204 | none unless the type is vlan; with type vlan, it raises iff the name is not a vlan name |
| `InterfaceType.VlanidDefinitionsAgree` | lib/puppet/type/network_interface.rb:193-205 | with the munged type, the two vlanid munges agree and never raise |
| `InterfaceType.Autorequire` | lib/puppet/type/network_interface.rb:210-223 | a vlan requires exactly `[parent]` when a parent is given and nothing otherwise; a bond requires its slaves in order; other types nothing |
| `InterfaceType.AutorequireDefinitionsAgree` | lib/puppet/type/network_interface.rb:210-223 | the two autorequire rules agree except that the split file pushes a missing vlan parent |
| `InterfaceType.Present` | lib/puppet/type/network_interface.rb:210-223 | the names actually required are at most the listed ones |
| `InterfaceType.PresentWrap` | lib/puppet/type/network_interface.rb:210-223 | names wrapped as present entries come back unchanged and in order |
| `Discovery.ProviderType` | lib/puppet/provider/network_interface/iproute2.rb:156-169 | the provider's classifier never yields gre, and a missing name is unknown |
| `Discovery.GreIsEthernetShaped` | lib/puppet/provider/network_interface/iproute2.rb:164-165 | a gre name fits the ethernet pattern |
| `Discovery.ProviderTypeAgainstTypeOf` | lib/puppet/provider/network_interface/iproute2.rb:156-169 | the two classifiers differ exactly on gre names (provider: ethernet) and out-of-range vlan names (provider: vlan) |
| `Discovery.GetState` | lib/puppet/provider/network_interface/iproute2.rb:171-177 | up iff the flag list contains `UP` |
| `Discovery.GetVlanId` | lib/puppet/provider/network_interface/iproute2.rb:453-459 | the number after `vlan` for a vlan name; 1 for names without `vlan` |
| `Discovery.VlanIdExamples` | lib/puppet/provider/network_interface/iproute2.rb:453-459 | `vlan100` is 100, `vlan010` is 8, `vlan08` raises, `eth0` is 1 |
| `Discovery.ContainsNoV` | lib/puppet/provider/network_interface/iproute2.rb:454-454 | a name without `v` does not contain `vlan` |
| `Discovery.MatchHeader` | lib/puppet/provider/network_interface/iproute2.rb:55-55 | a recognised header has digit index and mtu and a non-blank name |
| `Discovery.AfterIndex` | lib/puppet/provider/network_interface/iproute2.rb:55-55 | what follows the index: a non-blank name and digit mtu |
| `Discovery.AfterName` | lib/puppet/provider/network_interface/iproute2.rb:55-55 | what follows the name: flags, then `mtu` and digits |
| `Discovery.AfterNameRoundTrip` | lib/puppet/provider/network_interface/iproute2.rb:55-55 | flags, `> mtu ` and digits read back as those flags and that mtu |
| `Discovery.AfterIndexRoundTrip` | lib/puppet/provider/network_interface/iproute2.rb:55-55 | a non-blank name followed by `: <` and a recognised rest reads back as that name and the rest's flags and mtu |
| `Discovery.MatchDetail` | lib/puppet/provider/network_interface/iproute2.rb:14-18 | a recognised detail line yields a non-empty, non-blank word |
| `Discovery.MatchInet` | lib/puppet/provider/network_interface/iproute2.rb:14-14 | the `inet` pattern of the resource map |
| `Discovery.MatchEther` | lib/puppet/provider/network_interface/iproute2.rb:18-18 | the `link/ether` pattern of the resource map |
| `Discovery.HeaderRoundTrip` | lib/puppet/provider/network_interface/iproute2.rb:55-62 | a printed header line is recognised with exactly its index, name, flags and mtu |
| `Discovery.DetailRoundTrip` | lib/puppet/provider/network_interface/iproute2.rb:109-111 | an indented `keyword word ` line yields that word |
| `Discovery.Inet6Ignored` | lib/puppet/provider/network_interface/iproute2.rb:14-14 | an `inet6` line is not taken as an address |
| `Discovery.FirstToken` | lib/puppet/provider/network_interface/iproute2.rb:297-297 | `split(/\s+/).first`: nothing for blank content, else a blank-free prefix |
| `Discovery.FirstTokenOf` | lib/puppet/provider/network_interface/iproute2.rb:297-297 | content that starts with a word gives that word as its first token |
| `Discovery.ReadBondOption` | lib/puppet/provider/network_interface/iproute2.rb:297-297 | an error iff the option file is missing; otherwise the first word of its content |
| `Discovery.GetBondSlaves` | lib/puppet/provider/network_interface/iproute2.rb:313-323 | no slaves without a bonding directory; with one, an error iff the `slaves` file is missing, else its stripped content split at whitespace |
| `Discovery.GetBondSlavesJoin` | lib/puppet/provider/network_interface/iproute2.rb:317-323 | a `slaves` file of space-separated names and a newline reads back as exactly those names |
| `Discovery.InstanceBond` | lib/puppet/provider/network_interface/iproute2.rb:293-311 | an error iff the mode, miimon, lacp_rate or xmit_hash_policy file is missing, miimon is blank or not an Integer, lacp_rate is blank, or a bonding directory lacks `slaves`; otherwise the bond keys are the first words of those files (miimon through `Integer`) and the slaves, and nothing else changes |
| `Discovery.InstanceBondReads` | lib/puppet/provider/network_interface/iproute2.rb:293-311 | option files that start with a word (miimon with a number's decimal text) and a `slaves` file of names read back as exactly those values |
| `Discovery.Seed` | lib/puppet/provider/network_interface/iproute2.rb:55-105 | an error iff the index or mtu is not an Integer, a bond's files cannot be read, or a vlan name is malformed; otherwise present, no addresses or mac yet, the name before `@`, the parent after it unless `NONE`, the provider's type of the name, state up iff `UP` is a flag, the header's mtu, a bond's values from `instance_bond` and none for other types, a vlan's id from its name and none for other types |
| `Discovery.SeedNameParent` | lib/puppet/provider/network_interface/iproute2.rb:62-105 | `name@parent` gives that name and that parent, no parent when it is `NONE` |
| `Discovery.SeedNoParent` | lib/puppet/provider/network_interface/iproute2.rb:62-105 | a name without `@` is all name, with no parent |
| `Discovery.Detail` | lib/puppet/provider/network_interface/iproute2.rb:108-131 | a detail line keeps the record's presence and name, and a non-empty record stays non-empty |
| `Discovery.Instances` | lib/puppet/provider/network_interface/iproute2.rb:48-144 | the discovery loop returns the records of the recursive parse of the output |
| `Discovery.RecordCount` | lib/puppet/provider/network_interface/iproute2.rb:53-141 | one record per header, plus one for an open record or a mac line before the first header |
| `Discovery.RecordPerHeader` | lib/puppet/provider/network_interface/iproute2.rb:67-74 | output that starts with a header gives exactly one record per header |
| `Discovery.LeadingInetRaises` | lib/puppet/provider/network_interface/iproute2.rb:116-117 | an `inet` line before any header makes discovery raise |
| `Discovery.AbsorbMeaning` | lib/puppet/provider/network_interface/iproute2.rb:109-130 | detail lines append the `inet` addresses in order and keep the last `link/ether` mac |
| `Discovery.DetailsJoinRecord` | lib/puppet/provider/network_interface/iproute2.rb:109-130 | the lines up to the next header all go to the current record |
| `Discovery.ParseHeaderStep` | lib/puppet/provider/network_interface/iproute2.rb:55-105 | a header line flushes the current record and seeds a new one, or ends the parse with the seed's error |
| `Discovery.ParseDetailStep` | lib/puppet/provider/network_interface/iproute2.rb:108-131 | a non-header line is absorbed by the current record, or ends the parse with its error |
| `Discovery.LoopHeaderStep` | lib/puppet/provider/network_interface/iproute2.rb:55-105 | the loop's header step: records so far plus the flushed record, then the rest of the parse from the new seed |
| `Discovery.LoopDetailStep` | lib/puppet/provider/network_interface/iproute2.rb:108-131 | the loop's detail step: records so far, then the rest of the parse from the updated record |
| `Discovery.LoopEnd` | lib/puppet/provider/network_interface/iproute2.rb:134-143 | after the last line the current record is flushed, if it is not empty |
| `Discovery.DetailOnRecord` | lib/puppet/provider/network_interface/iproute2.rb:109-130 | one detail line appends its `inet` address, if any, and overwrites the mac with its `link/ether` word, if any |
| `Discovery.ParseDetails` | lib/puppet/provider/network_interface/iproute2.rb:108-131 | parsing detail lines and then the rest is parsing the rest from the record the details built |
| `Discovery.AbsorbAddresses` | lib/puppet/provider/network_interface/iproute2.rb:116-117 | a record's addresses after its detail lines are its old ones followed by every `inet` address, in order |
| `Discovery.AbsorbMac` | lib/puppet/provider/network_interface/iproute2.rb:125-126 | a record's mac after its detail lines is the last `link/ether` word, or the old mac |
| `Discovery.AbsorbKeeps` | lib/puppet/provider/network_interface/iproute2.rb:109-130 | detail lines change nothing but the addresses and the mac |
| `Discovery.Absorb` | lib/puppet/provider/network_interface/iproute2.rb:108-131 | detail lines applied one after the other keep the record's address list present |
| `Discovery.Parse` | lib/puppet/provider/network_interface/iproute2.rb:53-143 | the loop over the lines: a header flushes the current record and seeds a new one, any other line is absorbed, the last record is flushed at the end |
| `Discovery.ParseOutput` | lib/puppet/provider/network_interface/iproute2.rb:48-144 | `instances`: the parse of the lines of `ip address` from an empty record |
| `InterfaceProvider.AddCmds` | lib/puppet/provider/network_interface/iproute2.rb:237-239 | one `address add` per address, in order |
| `InterfaceProvider.DeleteCmds` | lib/puppet/provider/network_interface/iproute2.rb:241-243 | one `address delete` per address, in order |
| `InterfaceProvider.WithIpaddress` | lib/puppet/provider/network_interface/iproute2.rb:236-246 | `ipaddress=` only appends commands and keeps name, presence, type and parent |
| `InterfaceProvider.WithMac` | lib/puppet/provider/network_interface/iproute2.rb:252-256 | `mac=` changes nothing for a missing value; otherwise it appends `ip link set dev <name> address <mac>` and records the mac |
| `InterfaceProvider.WithMtu` | lib/puppet/provider/network_interface/iproute2.rb:262-266 | `mtu=` changes nothing for a missing value; otherwise it appends `ip link set dev <name> mtu <n>` and records the mtu |
| `InterfaceProvider.WithState` | lib/puppet/provider/network_interface/iproute2.rb:272-278 | `state=` always stores the value, issues `ip link set dev <name> <state>` only when there is one, and leaves the saved state and the operstate cache alone |
| `InterfaceProvider.WithVlanid` | lib/puppet/provider/network_interface/iproute2.rb:483-488 | `vlanid=` only appends and keeps the identity fields |
| `InterfaceProvider.Write` | lib/puppet/provider/network_interface/iproute2.rb:367-371 | a rescued sysfs write changes nothing but the log |
| `InterfaceProvider.Attempt` | lib/puppet/provider/network_interface/iproute2.rb:367-371 | a sysfs write leaves itself in the log iff it does not fail, and nothing otherwise |
| `InterfaceProvider.Saved` | lib/puppet/provider/network_interface/iproute2.rb:560-566 | after `save_state_and_shutdown` the interface is not up |
| `InterfaceProvider.Restored` | lib/puppet/provider/network_interface/iproute2.rb:568-570 | `restore_state` sets the state to the saved one, whatever it is |
| `InterfaceProvider.SaveAndRestore` | lib/puppet/provider/network_interface/iproute2.rb:560-570 | up: down then up again; not up and nothing saved: the state is cleared silently; a stale saved up: brought up |
| `InterfaceProvider.WithBondLacpRate` | lib/puppet/provider/network_interface/iproute2.rb:362-376 | `bond_lacp_rate=` only appends and keeps the identity fields; on a bond it records the rate and changes nothing else but the state it restores |
| `InterfaceProvider.WithBondMiimon` | lib/puppet/provider/network_interface/iproute2.rb:382-392 | `bond_miimon=` keeps the identity fields; on a bond it appends exactly the attempted write of the `miimon` file and records the value |
| `InterfaceProvider.WithBondMode` | lib/puppet/provider/network_interface/iproute2.rb:398-408 | `bond_mode=` keeps the identity fields; on a bond it appends exactly the attempted write of the `mode` file and records the value |
| `InterfaceProvider.WithBondXmitHashPolicy` | lib/puppet/provider/network_interface/iproute2.rb:428-438 | `bond_xmit_hash_policy=` keeps the identity fields; on a bond it appends exactly the attempted write of the `xmit_hash_policy` file and records the value |
| `InterfaceProvider.BondSettersNeedBond` | lib/puppet/provider/network_interface/iproute2.rb:362-438 | every bond setter changes nothing unless the type is bonding |
| `InterfaceProvider.Memo` | lib/puppet/provider/network_interface/iproute2.rb:522-532 | the state is cached under the name; a cached state is returned without a read |
| `InterfaceProvider.MemoReadsOnce` | lib/puppet/provider/network_interface/iproute2.rb:522-532 | a second lookup gives the same state and changes nothing |
| `InterfaceProvider.ManageOne` | lib/puppet/provider/network_interface/iproute2.rb:548-556 | one slave step only appends and keeps the hash |
| `InterfaceProvider.ManageLoop` | lib/puppet/provider/network_interface/iproute2.rb:547-557 | the slave loop only appends and keeps the hash |
| `InterfaceProvider.Managed` | lib/puppet/provider/network_interface/iproute2.rb:541-558 | `manage_bond_slaves` only appends and keeps the hash |
| `InterfaceProvider.SlavesAdded` | lib/puppet/provider/network_interface/iproute2.rb:502-504 | `add_bond_slaves` only appends and keeps the hash |
| `InterfaceProvider.SlavesDeleted` | lib/puppet/provider/network_interface/iproute2.rb:507-509 | `delete_bond_slaves` only appends and keeps the hash |
| `InterfaceProvider.Synced` | lib/puppet/provider/network_interface/iproute2.rb:535-538 | `sync_bond_slaves` only appends and keeps the hash |
| `InterfaceProvider.WithBondSlaves` | lib/puppet/provider/network_interface/iproute2.rb:414-422 | `bond_slaves=` only appends and keeps the identity fields |
| `InterfaceProvider.SlavesChangedWhileDown` | lib/puppet/provider/network_interface/iproute2.rb:414-422 | a bond that is up is brought down first and up last, and ends up |
| `InterfaceProvider.ManageOneLog` | lib/puppet/provider/network_interface/iproute2.rb:548-556 | a slave that is up gets down, the write, up; otherwise only the write; skipped if missing |
| `InterfaceProvider.ManageOneWrites` | lib/puppet/provider/network_interface/iproute2.rb:551-555 | one slave writes its prefixed name iff it exists and the write succeeds |
| `InterfaceProvider.ManageLoopWrites` | lib/puppet/provider/network_interface/iproute2.rb:547-557 | the loop writes each existing slave in order; a failed write does not stop it |
| `InterfaceProvider.SyncWrites` | lib/puppet/provider/network_interface/iproute2.rb:535-558 | `+` for each wanted missing slave, then `-` for each unwanted one; nothing without a bonding directory |
| `InterfaceProvider.FileWrites` | lib/puppet/provider/network_interface/iproute2.rb:333-552 | the sysfs writes of a log, in order |
| `InterfaceProvider.FileWritesConcat` | lib/puppet/provider/network_interface/iproute2.rb:333-552 | the writes of two logs in a row are the writes of each in turn |
| `InterfaceProvider.WritesOf` | lib/puppet/provider/network_interface/iproute2.rb:547-557 | one write of the file per value, in order |
| `InterfaceProvider.ManageOneFileWrites` | lib/puppet/provider/network_interface/iproute2.rb:548-556 | the only sysfs write one slave adds is its own, when it exists and the write does not fail |
| `InterfaceProvider.ManageLoopFileWrites` | lib/puppet/provider/network_interface/iproute2.rb:547-557 | the slave loop writes nothing to sysfs but the expected writes of the slaves file |
| `InterfaceProvider.SlaveWrites` | lib/puppet/provider/network_interface/iproute2.rb:535-538 | the writes slave synchronisation makes: `+` for each missing slave, then `-` for each unwanted one, and none without a bonding directory |
| `InterfaceProvider.SyncFileWrites` | lib/puppet/provider/network_interface/iproute2.rb:535-538 | slave synchronisation writes exactly `SlaveWrites` to sysfs |
| `InterfaceProvider.BondSlavesFileWrites` | lib/puppet/provider/network_interface/iproute2.rb:414-422 | `bond_slaves=` on a bond writes exactly `SlaveWrites` to sysfs, records the slaves and changes nothing else but the state it restores |
| `InterfaceProvider.LacpRateFileWrites` | lib/puppet/provider/network_interface/iproute2.rb:362-376 | `bond_lacp_rate=` on a bond writes exactly the attempted write of the `lacp_rate` file |
| `InterfaceProvider.StateNoFileWrites` | lib/puppet/provider/network_interface/iproute2.rb:272-278 | `state=` writes nothing to sysfs |
| `InterfaceProvider.SavedNoFileWrites` | lib/puppet/provider/network_interface/iproute2.rb:560-566 | saving the state writes nothing to sysfs |
| `InterfaceProvider.SyncInSyncQuiet` | lib/puppet/provider/network_interface/iproute2.rb:535-538 | lists in sync change nothing |
| `InterfaceProvider.AddCmdsMembers` | lib/puppet/provider/network_interface/iproute2.rb:237-239 | an address is added iff it is in the list |
| `InterfaceProvider.DeleteCmdsMembers` | lib/puppet/provider/network_interface/iproute2.rb:241-243 | an address is deleted iff it is in the list |
| `InterfaceProvider.IpaddressDelta` | lib/puppet/provider/network_interface/iproute2.rb:236-246 | the commands are the additions followed by the deletions |
| `InterfaceProvider.IpaddressCommands` | lib/puppet/provider/network_interface/iproute2.rb:236-246 | added iff wanted and absent, deleted iff present and unwanted, nothing else, and the cache holds the wanted list |
| `InterfaceProvider.IpaddressAddsFirst` | lib/puppet/provider/network_interface/iproute2.rb:237-243 | no addition follows a deletion |
| `InterfaceProvider.AddAddresses` | lib/puppet/provider/network_interface/iproute2.rb:237-239 | the addition loop issues one `ip address add` per address, in order |
| `InterfaceProvider.DeleteAddresses` | lib/puppet/provider/network_interface/iproute2.rb:241-243 | the deletion loop issues one `ip address delete` per address, in order |
| `InterfaceProvider.AddsThenDeletesMembers` | lib/puppet/provider/network_interface/iproute2.rb:237-243 | the commands add exactly the added addresses, delete exactly the deleted ones, and are nothing else |
| `InterfaceProvider.AddsThenDeletesOrder` | lib/puppet/provider/network_interface/iproute2.rb:237-243 | once a deletion is issued only deletions follow |
| `InterfaceProvider.IpaddressIdempotent` | lib/puppet/provider/network_interface/iproute2.rb:236-246 | setting the same addresses twice issues nothing the second time |
| `InterfaceProvider.IpaddressInSyncQuiet` | lib/puppet/provider/network_interface/iproute2.rb:236-246 | addresses in sync with the wanted ones issue no command |
| `InterfaceProvider.MissingValueNoop` | lib/puppet/provider/network_interface/iproute2.rb:252-266 | nil mac or mtu changes nothing |
| `InterfaceProvider.DefaultsRemoved` | lib/puppet/provider/network_interface/iproute2.rb:331-337 | removing the default bonds only writes to `bonding_masters` |
| `InterfaceProvider.ModuleLoaded` | lib/puppet/provider/network_interface/iproute2.rb:327-338 | nothing when `bonding_masters` exists; otherwise modprobe first, then writes to `bonding_masters` only |
| `InterfaceProvider.Finished` | lib/puppet/provider/network_interface/iproute2.rb:202-205 | the final steps keep the identity fields and leave the wanted addresses |
| `InterfaceProvider.BondConfigured` | lib/puppet/provider/network_interface/iproute2.rb:343-347 | the bond options and slaves keep the identity fields |
| `InterfaceProvider.BondStepWrites` | lib/puppet/provider/network_interface/iproute2.rb:343-347 | the writes of the bond steps in order: mode, miimon, lacp_rate, xmit_hash_policy, then the slave changes |
| `InterfaceProvider.BondConfiguredWrites` | lib/puppet/provider/network_interface/iproute2.rb:343-347 | applying the bond options writes exactly `BondStepWrites`, in that order |
| `InterfaceProvider.FinishCmds` | lib/puppet/provider/network_interface/iproute2.rb:202-205 | the commands of the last steps: address additions, address deletions, then mtu, mac and state, each when given |
| `InterfaceProvider.FinishedLog` | lib/puppet/provider/network_interface/iproute2.rb:202-205 | the last steps append exactly `FinishCmds`; the record then holds the wanted addresses and state, and the mtu and mac where given |
| `InterfaceProvider.FinishedNoFileWrites` | lib/puppet/provider/network_interface/iproute2.rb:202-205 | the last steps of `create` write nothing to sysfs |
| `InterfaceProvider.FinishCmdsNoFileWrites` | lib/puppet/provider/network_interface/iproute2.rb:202-205 | the commands of the last steps include no sysfs write |
| `InterfaceProvider.CreateBondWrites` | lib/puppet/provider/network_interface/iproute2.rb:179-206 | creating a bond writes to sysfs the module-loading removals, then `+name`, then the bond steps in order, and nothing after them |
| `InterfaceProvider.BondTailWrites` | lib/puppet/provider/network_interface/iproute2.rb:341-347 | after the module is loaded, `+name` and the bond steps are all the sysfs writes of a bond creation |
| `InterfaceProvider.RegisteredConfiguredWrites` | lib/puppet/provider/network_interface/iproute2.rb:341-347 | registering a bond and applying its options writes `+name`, then the bond steps |
| `InterfaceProvider.FinishedKeepsWrites` | lib/puppet/provider/network_interface/iproute2.rb:202-205 | the last steps add no sysfs write to the ones before them |
| `InterfaceProvider.Registered` | lib/puppet/provider/network_interface/iproute2.rb:341-341 | the registration appends the `+name` write to `bonding_masters` and keeps the hash |
| `InterfaceProvider.FinishedEndsWithState` | lib/puppet/provider/network_interface/iproute2.rb:205-205 | with a state given, the last command of the final steps sets it and the record holds it |
| `InterfaceProvider.CreateEthernetNoop` | lib/puppet/provider/network_interface/iproute2.rb:180-184 | creating an ethernet interface does nothing |
| `InterfaceProvider.VlanCreatedLog` | lib/puppet/provider/network_interface/iproute2.rb:461-464 | vlan creation sets the parent and issues exactly the vlan link add |
| `InterfaceProvider.CreateVlan` | lib/puppet/provider/network_interface/iproute2.rb:179-206 | a vlan's first command is `link add` on its parent with its id; it ends present with its type, parent and addresses |
| `InterfaceProvider.CreateBondOrder` | lib/puppet/provider/network_interface/iproute2.rb:325-348 | modprobe first iff `bonding_masters` is missing; else `+name` first; success iff `+name` is written; no address after a failure |
| `InterfaceProvider.BondCreated` | lib/puppet/provider/network_interface/iproute2.rb:325-348 | creating a bond only appends commands and keeps name, presence, type and parent |
| `InterfaceProvider.VlanCreated` | lib/puppet/provider/network_interface/iproute2.rb:461-464 | creating a vlan only appends commands, keeps name, presence and type, and sets the resource's parent |
| `InterfaceProvider.Opened` | lib/puppet/provider/network_interface/iproute2.rb:191-193 | `create` starts from the resource's name, present, with the resource's type, and issues nothing yet |
| `InterfaceProvider.Prepared` | lib/puppet/provider/network_interface/iproute2.rb:195-200 | the type-specific step only appends commands and keeps name, presence and type |
| `InterfaceProvider.CreateEndsWithState` | lib/puppet/provider/network_interface/iproute2.rb:202-205 | the last command of a creation sets the wanted state |
| `InterfaceProvider.ExistsAfterCreate` | lib/puppet/provider/network_interface/iproute2.rb:191-193 | a created interface is present with the resource's type |
| `InterfaceProvider.DestroyEffect` | lib/puppet/provider/network_interface/iproute2.rb:208-226 | no-op unless it exists; otherwise down first, bond or vlan link deleted last, not present afterwards |
| `InterfaceProvider.DestroyBondAsWritten` | lib/puppet/provider/network_interface/iproute2.rb:350-356 | as written, destroying a bond raises after bringing it down, deletes no link and leaves it present |
| `InterfaceProvider.Created` | lib/puppet/provider/network_interface/iproute2.rb:179-206 | `create`: nothing for ethernet; otherwise name, presence and type, the vlan or bond step, then addresses, mtu, mac and state |
| `InterfaceProvider.BondDestroyed` | lib/puppet/provider/network_interface/iproute2.rb:350-356 | `destroy_bonding` as evidently intended: keeps the hash, releases the slaves, and ends with the bond link delete |
| `InterfaceProvider.ReleaseWrites` | lib/puppet/provider/network_interface/iproute2.rb:350-352 | the writes the slave release means to make: `-slave` to the bond's `slaves` file for each recorded slave that exists and whose write does not fail, in order; none without a bonding directory |
| `InterfaceProvider.SlavesDeletedFileWrites` | lib/puppet/provider/network_interface/iproute2.rb:507-509 | `delete_bond_slaves` writes exactly the `-` writes of the existing slaves, and nothing without a bonding directory |
| `InterfaceProvider.BondDestroyedFileWrites` | lib/puppet/provider/network_interface/iproute2.rb:350-356 | the corrected `destroy_bonding` writes exactly `ReleaseWrites` to sysfs |
| `InterfaceProvider.DestroyFileWrites` | lib/puppet/provider/network_interface/iproute2.rb:208-226 | `destroy` writes to sysfs exactly `ReleaseWrites` for an existing bond, and nothing otherwise |
| `InterfaceProvider.Destroyed` | lib/puppet/provider/network_interface/iproute2.rb:208-226 | `destroy`: nothing unless the interface exists; otherwise down, the bond or vlan link deleted, the record cleared |
| `InterfaceProvider.DestroyedAsWritten` | lib/puppet/provider/network_interface/iproute2.rb:208-226 | `destroy` as written: a bond raises after being brought down |
| `InterfaceProvider.DiscoveredBondOptionsAbsent` | lib/puppet/provider/network_interface/iproute2.rb:358-360 | the bond getters report every option of a discovered bond as absent |
| `InterfaceProvider.Provider.constructor` | lib/puppet/provider/network_interface/iproute2.rb:42-45 | a provider starts with the given hash, an empty state cache, nothing saved and no commands |
| `InterfaceProvider.Provider.SetIpaddress` | lib/puppet/provider/network_interface/iproute2.rb:236-246 | the two command loops have exactly the effect of `WithIpaddress` |
| `InterfaceProvider.Provider.SetMac` | lib/puppet/provider/network_interface/iproute2.rb:252-256 | the effect of `WithMac` |
| `InterfaceProvider.Provider.SetMtu` | lib/puppet/provider/network_interface/iproute2.rb:262-266 | the effect of `WithMtu` |
| `InterfaceProvider.Provider.SetState` | lib/puppet/provider/network_interface/iproute2.rb:272-278 | the effect of `WithState` |
| `InterfaceProvider.Provider.SetType` | lib/puppet/provider/network_interface/iproute2.rb:284-286 | only the type is stored |
| `InterfaceProvider.Provider.SetParent` | lib/puppet/provider/network_interface/iproute2.rb:475-477 | only the parent is stored |
| `InterfaceProvider.Provider.SetVlanid` | lib/puppet/provider/network_interface/iproute2.rb:483-488 | the effect of `WithVlanid` |
| `InterfaceProvider.Provider.WriteFile` | lib/puppet/provider/network_interface/iproute2.rb:385-389 | the effect of `Write` |
| `InterfaceProvider.Provider.SaveStateAndShutdown` | lib/puppet/provider/network_interface/iproute2.rb:560-566 | the effect of `Saved` |
| `InterfaceProvider.Provider.RestoreState` | lib/puppet/provider/network_interface/iproute2.rb:568-570 | the effect of `Restored` |
| `InterfaceProvider.Provider.SetBondLacpRate` | lib/puppet/provider/network_interface/iproute2.rb:362-376 | the effect of `WithBondLacpRate` |
| `InterfaceProvider.Provider.SetBondMiimon` | lib/puppet/provider/network_interface/iproute2.rb:382-392 | the effect of `WithBondMiimon` |
| `InterfaceProvider.Provider.SetBondMode` | lib/puppet/provider/network_interface/iproute2.rb:398-408 | the effect of `WithBondMode` |
| `InterfaceProvider.Provider.SetBondXmitHashPolicy` | lib/puppet/provider/network_interface/iproute2.rb:428-438 | the effect of `WithBondXmitHashPolicy` |
| `InterfaceProvider.Provider.GetInterfaceState` | lib/puppet/provider/network_interface/iproute2.rb:522-532 | returns and caches the state `Memo` gives |
| `InterfaceProvider.Provider.ManageBondSlaves` | lib/puppet/provider/network_interface/iproute2.rb:541-558 | the slave loop has exactly the effect of `Managed` |
| `InterfaceProvider.Provider.AddBondSlaves` | lib/puppet/provider/network_interface/iproute2.rb:502-504 | the effect of `SlavesAdded` |
| `InterfaceProvider.Provider.DeleteBondSlaves` | lib/puppet/provider/network_interface/iproute2.rb:507-509 | the effect of `SlavesDeleted` |
| `InterfaceProvider.Provider.SyncBondSlaves` | lib/puppet/provider/network_interface/iproute2.rb:535-538 | the effect of `Synced` |
| `InterfaceProvider.Provider.SetBondSlaves` | lib/puppet/provider/network_interface/iproute2.rb:414-422 | the effect of `WithBondSlaves` |
| `InterfaceProvider.Provider.CreateBonding` | lib/puppet/provider/network_interface/iproute2.rb:325-348 | the default-bond removal loop and the bond steps have exactly the effect and outcome of `BondCreated` |
| `InterfaceProvider.Provider.CreateVlan` | lib/puppet/provider/network_interface/iproute2.rb:461-464 | the effect of `VlanCreated` |
| `InterfaceProvider.Provider.Create` | lib/puppet/provider/network_interface/iproute2.rb:179-206 | the effect and outcome of `Created` |
| `InterfaceProvider.Provider.DestroyBonding` | lib/puppet/provider/network_interface/iproute2.rb:350-356 | the corrected bond destruction, `BondDestroyed` |
| `InterfaceProvider.Provider.Destroy` | lib/puppet/provider/network_interface/iproute2.rb:208-226 | the effect of `Destroyed` |
| `RouteType.SplitTitle` | lib/puppet/type/network_route.rb:9-14 | a title that splits gives a non-blank prefix and, if any, a non-blank metric |
| `RouteType.TitleOneWord` | lib/puppet/type/network_route.rb:11-11 | a one-word title is all prefix |
| `RouteType.TitleTwoWords` | lib/puppet/type/network_route.rb:12-12 | two words with whitespace between give prefix and metric |
| `RouteType.TitleShape` | lib/puppet/type/network_route.rb:9-14 | every title that splits is one word, or two words with only whitespace between |
| `RouteType.TitleRejected` | lib/puppet/type/network_route.rb:9-14 | `" 10.0.0.0/8"` and `"10.0.0.0/8 100 x"` match no pattern |
| `RouteType.TitleLeadingBlank` | lib/puppet/type/network_route.rb:9-14 | a title with leading whitespace matches no pattern |
| `RouteType.TitleThreeWords` | lib/puppet/type/network_route.rb:9-14 | any three non-blank words separated by blanks match no pattern |
| `RouteType.ValidPrefix` | lib/puppet/type/network_route.rb:19-26 | the IP parser accepts the prefix and it contains `/` |
| `RouteType.ValidNexthop` | lib/puppet/type/network_route.rb:54-60 | the IP parser accepts the next hop |
| `RouteType.PrefixMeaning` | lib/puppet/type/network_route.rb:19-26 | a prefix is accepted iff the IP parser accepts it and it contains `/` |
| `RouteType.MetricCheck` | lib/puppet/type/network_route.rb:32-38 | the "not digits" error iff the value's text is not all digits |
| `RouteType.NegativeNotDigits` | lib/puppet/type/network_route.rb:32-32 | a negative Integer is refused for its text |
| `RouteType.MetricMeaning` | lib/puppet/type/network_route.rb:29-45 | an Integer is valid iff in 0..255; a String iff digits whose `Integer` is at most 255 |
| `RouteType.MungeMetric` | lib/puppet/type/network_route.rb:40-42 | a valid metric munges to its number, at most 255 |
| `RouteType.MetricExamples` | lib/puppet/type/network_route.rb:29-45 | 100 is accepted; 10000 is out of range; -1 is not digits |
| `RouteType.StringMetricExample` | lib/puppet/type/network_route.rb:29-45 | `'100'` is accepted and munges to 100 |
| `RouteType.TitleNamevars` | lib/puppet/type/network_route.rb:9-45 | a title gives its prefix and a metric of at most 255; one word gives metric 0 |
| `RouteType.TitleExample` | lib/puppet/type/network_route.rb:12-12 | `10.0.0.0/24 200` names prefix `10.0.0.0/24` with metric 200 |
| `RouteType.Metric200` | lib/puppet/type/network_route.rb:29-45 | the String metric `200` is valid and munges to 200 |
| `RouteType.TitleDefaultMetric` | lib/puppet/type/network_route.rb:44-44 | a title without metric gets metric 0 |
| `RouteType.Autorequire` | lib/puppet/type/network_route.rb:63-65 | `[device]` when a device is set, else nothing |
| `RouteProvider.ToHash` | lib/puppet/provider/network_route/iproute2.rb:69-69 | the resource's hash is present with its prefix, metric, device and next hop |
| `RouteProvider.MatchBody` | lib/puppet/provider/network_route/iproute2.rb:31-31 | the body pattern on words: a prefix, optionally `via` and a next hop, optionally `dev` and a device |
| `RouteProvider.MatchTokens` | lib/puppet/provider/network_route/iproute2.rb:30-34 | the body alone for metric 0, else the body followed by `metric` and the metric's text |
| `RouteProvider.MatchRoute` | lib/puppet/provider/network_route/iproute2.rb:37-37 | a line is stripped and split into words before it is matched |
| `RouteProvider.BodyRoundTrip` | lib/puppet/provider/network_route/iproute2.rb:31-31 | the route pattern reads back the prefix, next hop and device a line lays out |
| `RouteProvider.BodyShape` | lib/puppet/provider/network_route/iproute2.rb:31-31 | every accepted word list is the layout of what it read |
| `RouteProvider.BodyAllTokens` | lib/puppet/provider/network_route/iproute2.rb:31-33 | a route's words are blank-free |
| `RouteProvider.MetricToken` | lib/puppet/provider/network_route/iproute2.rb:33-33 | a metric's text is a blank-free word |
| `RouteProvider.ListedTokensMatch` | lib/puppet/provider/network_route/iproute2.rb:30-34 | the words of a listed route match for its own metric |
| `RouteProvider.MatchJoined` | lib/puppet/provider/network_route/iproute2.rb:37-37 | matching a line of joined words is matching the words |
| `RouteProvider.ListedLineMatches` | lib/puppet/provider/network_route/iproute2.rb:30-37 | the listed line of a route is recognised as that route for its metric |
| `RouteProvider.MetricZeroNeedsNoMetric` | lib/puppet/provider/network_route/iproute2.rb:31-31 | for metric 0 a line ending in a metric never matches |
| `RouteProvider.MetricTokensExact` | lib/puppet/provider/network_route/iproute2.rb:33-33 | for another metric the words match iff they end in exactly that metric |
| `RouteProvider.MetricMustBeExact` | lib/puppet/provider/network_route/iproute2.rb:33-37 | for another metric a line matches iff it ends in exactly that metric |
| `RouteProvider.NoMetricNeedsZero` | lib/puppet/provider/network_route/iproute2.rb:33-33 | a line without metric never matches a metric other than 0 |
| `RouteProvider.BodyWithMetric` | lib/puppet/provider/network_route/iproute2.rb:31-31 | a line that ends in `metric N` never matches the metric-0 pattern |
| `RouteProvider.BodyWithoutMetric` | lib/puppet/provider/network_route/iproute2.rb:33-33 | a line without `metric` never matches a pattern for a non-zero metric |
| `RouteProvider.MetricOneIsNotHundred` | lib/puppet/provider/network_route/iproute2.rb:33-33 | the texts of metrics 1 and 100 differ |
| `RouteProvider.KernelRouteTokens` | lib/puppet/provider/network_route/iproute2.rb:36-37 | a kernel route line is made of blank-free words |
| `RouteProvider.ExtraWordsNeverMatch` | lib/puppet/provider/network_route/iproute2.rb:30-37 | a line with `proto`, `scope` and `src` words never matches |
| `RouteProvider.MatchTokensShape` | lib/puppet/provider/network_route/iproute2.rb:30-37 | words match only when they are exactly a route body followed by `metric` and the metric's text, or the body alone for metric 0 |
| `RouteProvider.FirstRoute` | lib/puppet/provider/network_route/iproute2.rb:36-50 | nothing is found iff no line matches |
| `RouteProvider.FirstRouteAt` | lib/puppet/provider/network_route/iproute2.rb:36-50 | the first matching line wins and later lines are ignored |
| `RouteProvider.GetProviderHash` | lib/puppet/provider/network_route/iproute2.rb:26-53 | none iff no line matches; else present, named `prefix metric`, prefix from the line, device and next hop only when in the line |
| `RouteProvider.Listing` | lib/puppet/provider/network_route/iproute2.rb:36-36 | the output of `ip route list <prefix>`, empty when the host lists nothing |
| `RouteProvider.Instance` | lib/puppet/provider/network_route/iproute2.rb:13-24 | `instance`: the provider hash for the prefix and metric, or none |
| `RouteProvider.LinesSingle` | lib/puppet/provider/network_route/iproute2.rb:36-36 | output without a newline is one line |
| `RouteProvider.ListedRouteFound` | lib/puppet/provider/network_route/iproute2.rb:26-53 | a route listed alone is found with all its parts |
| `RouteProvider.JoinNoNewline` | lib/puppet/provider/network_route/iproute2.rb:36-36 | a joined route line has no newline |
| `RouteProvider.GetIpArgs` | lib/puppet/provider/network_route/iproute2.rb:109-115 | `route`, the command, the prefix, `via` and `dev` when present, then always the metric |
| `RouteProvider.ToS` | lib/puppet/provider/network_route/iproute2.rb:102-107 | `prefix via nexthop`, then `dev` and `metric` when present, joined by spaces |
| `RouteProvider.IpArgsShape` | lib/puppet/provider/network_route/iproute2.rb:109-115 | `route`, the command, the prefix, `via nh` iff a next hop, `dev d` iff a device, `metric m` last |
| `RouteProvider.AddedRouteFound` | lib/puppet/provider/network_route/iproute2.rb:68-78 | the route part of an `add` with a metric other than 0 is found again by the lookup |
| `RouteProvider.ToSIsCommandRoute` | lib/puppet/provider/network_route/iproute2.rb:102-107 | with next hop and metric, the description is the route part of the commands; without a next hop it says `via absent` |
| `RouteProvider.FlushSendsNewDevice` | lib/puppet/provider/network_route/iproute2.rb:92-100 | a flush after setting the device sends `change` with that device |
| `RouteProvider.Bind` | lib/puppet/provider/network_route/iproute2.rb:58-60 | binding one resource leaves every other resource's provider alone |
| `RouteProvider.PrefetchKeeps` | lib/puppet/provider/network_route/iproute2.rb:55-62 | a resource not prefetched keeps its provider |
| `RouteProvider.PrefetchBinds` | lib/puppet/provider/network_route/iproute2.rb:55-62 | a found route binds its resource; with no match the resource's provider is unchanged |
| `RouteProvider.Prefetched` | lib/puppet/provider/network_route/iproute2.rb:55-62 | `prefetch` binds the resources one after the other, in order |
| `RouteProvider.Prefetch` | lib/puppet/provider/network_route/iproute2.rb:55-62 | the prefetch loop binds as `Prefetched` does |
| `RouteProvider.Provider.constructor` | lib/puppet/provider/network_route/iproute2.rb:22-22 | a provider starts from the given hash with no commands |
| `RouteProvider.Provider.Create` | lib/puppet/provider/network_route/iproute2.rb:68-78 | the hash becomes the resource's, it exists, and one `add` is issued |
| `RouteProvider.Provider.Destroy` | lib/puppet/provider/network_route/iproute2.rb:80-90 | one `delete` of the route as known, then the hash is cleared and it no longer exists |
| `RouteProvider.Provider.Flush` | lib/puppet/provider/network_route/iproute2.rb:92-100 | one `change` built from the current values, hash unchanged |
| `RouteProvider.Provider.SetDevice` | lib/puppet/provider/network_route/iproute2.rb:7-7 | the generated setter stores the device and issues nothing |
| `RouteProvider.Provider.SetNexthop` | lib/puppet/provider/network_route/iproute2.rb:7-7 | the generated setter stores the next hop and issues nothing |

## Left out

- Processes and files: `ip`, `modprobe`, `File.read`, `File.write`,
  `File.symlink?`, `File.directory?` and `File.exists?` are modelled as log
  entries and lookups in a `Sysfs` value. The sysfs value is fixed for one
  operation, so the kernel's reaction to a write is not modelled. For example,
  the bond directory that appears after `+name` must already be listed in
  `bondingDirs` by the caller.
- Command failures of `ip` and `modprobe` in the interface provider are not
  modelled: the commands are assumed to succeed. In the route provider, a
  failing command is rescued, so the log records every attempted command
  and nothing else depends on it.
- `IPAddr.new` is a library outside this core; the validators take it as the
  parameter `isIp`.
- `debug` and `notice` messages are not modelled.
- Puppet plumbing is not modelled: `newtype`, `newproperty`, `ensurable`,
  `confine`, `commands`, provider instantiation, the order in which Puppet
  calls the setters, and the symbol-versus-string matching of `newvalues`.
  The `:absent` symbol of a missing key is `None`.
- The interface provider's `prefetch` (matching resources to discovered
  records by name) is catalog binding and is not modelled. The route
  provider's `prefetch` is modelled (`RouteProvider.Prefetch`).
- The route provider's `instances` always returns no providers; there is
  nothing to model.
- `\Z` in the patterns is treated as end of string. The trailing newline it
  also admits is not modelled.
- `Text.RubyInteger`: it reads digit strings only, including Ruby's octal
  reading of a leading `0`. The header's index and mtu come from `\d+`
  groups, so nothing else reaches it there. `instance_bond` hands it the raw
  first word of the `miimon` file (iproute2.rb:299-300). Ruby's `Integer()`
  also accepts a sign, underscores, surrounding blanks and the `0x`, `0b`
  and `0o` prefixes, so a file holding `+100`, `1_000` or `0x64` is read by
  the code and is a discovery error in the model.
- Character classes are ASCII: `[[:alpha:]]` in the ethernet pattern
  (network.rb:18) and in the provider's own copy of it (iproute2.rb:164)
  also matches non-ASCII letters in Ruby. The model's letters are `a`-`z`
  and `A`-`Z`.
- `InterfaceProvider.DefaultsRemoved`: its contract states only that it keeps
  the hash and writes nothing but `bonding_masters` removals. The exact
  sequence of removals, up to the first failing one, is its definition.
- `InterfaceProvider.WithBondLacpRate`: its contract states the hash it
  leaves and that the log is only appended to. Its sysfs write is stated by
  `InterfaceProvider.LacpRateFileWrites`. The `ip` commands of the
  surrounding state save and restore are stated by
  `InterfaceProvider.SaveAndRestore` rather than by its own contract.
- `Discovery.Detail`: its contract states only that presence and name are
  kept. What a detail line adds is stated by `Discovery.AbsorbMeaning`.
- The bond getters read the keys `mode`, `miimon`, `lacp_rate` and
  `xmit_hash_policy`, while discovery stores `bond_mode`, `bond_miimon`,
  `bond_lacp_rate` and `bond_xmit_hash_policy`. Both sets of keys are kept
  as the code has them. `InterfaceProvider.DiscoveredBondOptionsAbsent`
  states the consequence.

## Findings

| source | as written | input that shows it | evidently intended | confidence | as-written member | corrected member |
|---|---|---|---|---|---|---|
| lib/puppet/provider/network_interface/iproute2.rb:352-352 | `destroy_bonding` calls `delete_slaves`, which is not defined anywhere; the helper is `delete_bond_slaves` (line 507) | destroying an existing bond, e.g. `bond0` listed in `/sys/class/net` with type bonding: after `ip link set dev bond0 down` a NoMethodError is raised, the bond link is not deleted and the record stays present (`InterfaceProvider.DestroyBondAsWritten`) | release the slaves with `delete_bond_slaves`, then `ip link delete dev bond0 type bond`, then clear the record (`InterfaceProvider.DestroyEffect`, `InterfaceProvider.DestroyFileWrites`) | not executed | `InterfaceProvider.DestroyedAsWritten` | `InterfaceProvider.Destroyed` |
