/** The `iproute2` provider of network interfaces: the property setters,
    bond slave management, and creating and destroying interfaces. Each
    operation is a function from the provider state before it to the state
    after it (`St`), and the `Provider` class runs the same steps on its
    fields, proved equal to those functions. */
module InterfaceProvider {
  import opened Text
  import opened Network
  import opened ProviderData
  import Discovery

  /** The resource being managed, with its attribute values after
      validation, defaults and munging. */
  datatype Resource = Resource(
    name: string,
    typ: IfType,
    ipaddress: seq<string>,
    mtu: Option<int>,
    mac: Option<string>,
    state: Option<AdminState>,
    parent: Option<string>,
    vlanid: Option<int>,
    bondMode: Option<string>,
    bondMiimon: Option<Value>,
    bondLacpRate: Option<string>,
    bondXmitHashPolicy: Option<string>,
    bondSlaves: seq<string>)

  /** How an operation ended: normally, or with an exception it does not
      rescue. */
  datatype Outcome = Done | Raised(error: string)

  /** The provider's mutable state: the property hash, the cache of the
      operational states of slaves, the state saved before a bond is shut
      down, and the commands issued so far. */
  datatype St = St(hash: Props, stateHash: map<string, string>, saved: Option<AdminState>, log: seq<Cmd>)

  // ---------------------------------------------------------------------
  // Getters (`None` is the symbol `:absent`)

  function Ipaddress(h: Props): seq<string> { h.ipaddress.GetOr([]) }
  function Mac(h: Props): Option<string> { h.mac }
  function Mtu(h: Props): Option<int> { h.mtu }
  function State(h: Props): AdminState { h.state.GetOr(Down) }
  function Type(h: Props): Option<IfType> { h.typ }
  function Parent(h: Props): Option<string> { h.parent }
  function Vlanid(h: Props): Option<int> { h.vlanid }
  function BondLacpRate(h: Props): Option<string> { h.lacpRate }
  function BondMiimon(h: Props): Option<Value> { h.miimon }
  function BondMode(h: Props): Option<string> { h.mode }
  function BondXmitHashPolicy(h: Props): Option<string> { h.xmitHashPolicy }
  function BondSlaves(h: Props): seq<string> { h.bondSlaves.GetOr([]) }
  predicate IsPresent(h: Props) { h.ensure }

  /** `t` only appended commands to those of `s`, and kept the interface's
      name, presence, type and parent. */
  predicate Keeps(s: St, t: St) {
    s.log <= t.log && t.hash.name == s.hash.name && t.hash.ensure == s.hash.ensure &&
    t.hash.typ == s.hash.typ && t.hash.parent == s.hash.parent
  }

  /** `t` only appended commands and kept the whole property hash. */
  predicate KeepsHash(s: St, t: St) {
    s.log <= t.log && t.hash == s.hash && t.saved == s.saved
  }

  function IntText(i: int): string { ValueText(IntV(i)) }
  function OptIntText(v: Option<int>): string { if v.Some? then IntText(v.value) else "" }
  function OptValueText(v: Option<Value>): string { if v.Some? then ValueText(v.value) else "" }

  // ---------------------------------------------------------------------
  // Generic setters

  function AddCmds(addrs: seq<string>, dev: Option<string>): (r: seq<Cmd>)
    ensures |r| == |addrs| && forall k :: 0 <= k < |addrs| ==> r[k] == AddressAdd(addrs[k], dev)
  {
    if addrs == [] then [] else AddCmds(addrs[..|addrs| - 1], dev) + [AddressAdd(addrs[|addrs| - 1], dev)]
  }

  function DeleteCmds(addrs: seq<string>, dev: Option<string>): (r: seq<Cmd>)
    ensures |r| == |addrs| && forall k :: 0 <= k < |addrs| ==> r[k] == AddressDelete(addrs[k], dev)
  {
    if addrs == [] then [] else DeleteCmds(addrs[..|addrs| - 1], dev) + [AddressDelete(addrs[|addrs| - 1], dev)]
  }

  /** `ipaddress=`: add the new addresses, then delete the ones no longer wanted. */
  function WithIpaddress(s: St, value: seq<string>): (t: St)
    ensures Keeps(s, t)
  {
    var current := Ipaddress(s.hash);
    s.(log := s.log + AddCmds(Difference(value, current), s.hash.name) + DeleteCmds(Difference(current, value), s.hash.name),
       hash := s.hash.(ipaddress := Some(value)))
  }

  function WithMac(s: St, value: Option<string>): (t: St)
    ensures Keeps(s, t) && (value.Some? ==> Mac(t.hash) == value)
    ensures value.None? ==> t == s
    ensures value.Some? ==> t == s.(log := s.log + [LinkSetAddress(s.hash.name, value.value)], hash := s.hash.(mac := value))
  {
    if value.None? then s
    else s.(log := s.log + [LinkSetAddress(s.hash.name, value.value)], hash := s.hash.(mac := value))
  }

  function WithMtu(s: St, value: Option<int>): (t: St)
    ensures Keeps(s, t) && (value.Some? ==> Mtu(t.hash) == value)
    ensures value.None? ==> t == s
    ensures value.Some? ==> t == s.(log := s.log + [LinkSetMtu(s.hash.name, IntText(value.value))], hash := s.hash.(mtu := value))
  {
    if value.None? then s
    else s.(log := s.log + [LinkSetMtu(s.hash.name, IntText(value.value))], hash := s.hash.(mtu := value))
  }

  /** `state=`: a command only for up or down, but the value is always stored. */
  function WithState(s: St, value: Option<AdminState>): (t: St)
    ensures Keeps(s, t) && t.saved == s.saved && t.stateHash == s.stateHash
    ensures t.hash == s.hash.(state := value)
    ensures t.log == s.log + (if value.Some? then [LinkSetState(s.hash.name, value.value)] else [])
  {
    var logged := if value.Some? then s.log + [LinkSetState(s.hash.name, value.value)] else s.log;
    s.(log := logged, hash := s.hash.(state := value))
  }

  function WithType(s: St, value: Option<IfType>): St { s.(hash := s.hash.(typ := value)) }
  function WithParent(s: St, value: Option<string>): St { s.(hash := s.hash.(parent := value)) }

  /** `vlanid=`: only for a vlan, creates the vlan link on its parent. */
  function WithVlanid(s: St, value: Option<int>): (t: St)
    ensures Keeps(s, t)
  {
    if Type(s.hash) != Some(Vlan) then s
    else s.(log := s.log + [LinkAddVlan(s.hash.name, s.hash.parent, OptIntText(value))], hash := s.hash.(vlanid := value))
  }

  /** A sysfs write whose exception is rescued. */
  function Write(fs: Sysfs, s: St, path: string, value: string): (t: St)
    ensures KeepsHash(s, t) && t.stateHash == s.stateHash
  {
    s.(log := s.log + Attempt(fs, path, value))
  }

  /** The command a sysfs write leaves in the log: the write, unless it fails. */
  function Attempt(fs: Sysfs, path: string, value: string): (r: seq<Cmd>)
    ensures r == [SysWrite(path, value)] <==> Writable(fs, path, value)
    ensures r == [] <==> !Writable(fs, path, value)
  {
    if Writable(fs, path, value) then [SysWrite(path, value)] else []
  }

  // ---------------------------------------------------------------------
  // Shutting a bond down around a change

  /** `save_state_and_shutdown`: when the interface is up, remember that and
      bring it down. */
  function Saved(s: St): (t: St)
    ensures Keeps(s, t) && State(t.hash) != Up
  {
    if State(s.hash) == Up then WithState(s.(saved := Some(Up)), Some(Down)) else s
  }

  /** `restore_state`: set the state to the one saved, whatever it is. */
  function Restored(s: St): (t: St)
    ensures Keeps(s, t) && t.hash.state == s.saved
  {
    WithState(s, s.saved)
  }

  /** An interface that was up is down during the change and up after it;
      one that was not up gets the saved state back, which on a provider that
      never saved anything clears the state without a command, but is `Up`
      when an earlier change saved it. */
  lemma SaveAndRestore(s: St)
    ensures State(s.hash) == Up ==>
      Restored(Saved(s)).hash.state == Some(Up) &&
      Restored(Saved(s)).log == s.log + [LinkSetState(s.hash.name, Down), LinkSetState(s.hash.name, Up)]
    ensures State(s.hash) != Up && s.saved.None? ==>
      Restored(Saved(s)).log == s.log && Restored(Saved(s)).hash.state.None?
    ensures State(s.hash) != Up && s.saved == Some(Up) ==>
      State(Restored(Saved(s)).hash) == Up && Restored(Saved(s)).log == s.log + [LinkSetState(s.hash.name, Up)]
  {
  }

  function BondName(s: St): string { OptText(s.hash.name) }

  // ---------------------------------------------------------------------
  // Bond option setters

  function WithBondLacpRate(fs: Sysfs, s: St, value: Option<string>): (t: St)
    ensures Keeps(s, t)
    ensures Type(s.hash) == Some(Bonding) ==> t.hash == s.hash.(lacpRate := value, state := t.hash.state)
  {
    if Type(s.hash) != Some(Bonding) then s
    else
      var s1 := Restored(Write(fs, Saved(s), BondingFile(BondName(s), "lacp_rate"), OptText(value)));
      s1.(hash := s1.hash.(lacpRate := value))
  }

  function WithBondMiimon(fs: Sysfs, s: St, value: Option<Value>): (t: St)
    ensures Keeps(s, t)
    ensures Type(s.hash) == Some(Bonding) ==>
      t == s.(log := s.log + Attempt(fs, BondingFile(BondName(s), "miimon"), OptValueText(value)), hash := s.hash.(miimon := value))
  {
    if Type(s.hash) != Some(Bonding) then s
    else
      var s1 := Write(fs, s, BondingFile(BondName(s), "miimon"), OptValueText(value));
      s1.(hash := s1.hash.(miimon := value))
  }

  function WithBondMode(fs: Sysfs, s: St, value: Option<string>): (t: St)
    ensures Keeps(s, t)
    ensures Type(s.hash) == Some(Bonding) ==>
      t == s.(log := s.log + Attempt(fs, BondingFile(BondName(s), "mode"), OptText(value)), hash := s.hash.(mode := value))
  {
    if Type(s.hash) != Some(Bonding) then s
    else
      var s1 := Write(fs, s, BondingFile(BondName(s), "mode"), OptText(value));
      s1.(hash := s1.hash.(mode := value))
  }

  function WithBondXmitHashPolicy(fs: Sysfs, s: St, value: Option<string>): (t: St)
    ensures Keeps(s, t)
    ensures Type(s.hash) == Some(Bonding) ==>
      t == s.(log := s.log + Attempt(fs, BondingFile(BondName(s), "xmit_hash_policy"), OptText(value)), hash := s.hash.(xmitHashPolicy := value))
  {
    if Type(s.hash) != Some(Bonding) then s
    else
      var s1 := Write(fs, s, BondingFile(BondName(s), "xmit_hash_policy"), OptText(value));
      s1.(hash := s1.hash.(xmitHashPolicy := value))
  }

  /** Every bond option setter does nothing unless the interface is a bond. */
  lemma BondSettersNeedBond(fs: Sysfs, s: St, lacp: Option<string>, miimon: Option<Value>, mode: Option<string>,
                            policy: Option<string>, slaves: seq<string>)
    requires Type(s.hash) != Some(Bonding)
    ensures WithBondLacpRate(fs, s, lacp) == s && WithBondMiimon(fs, s, miimon) == s && WithBondMode(fs, s, mode) == s
    ensures WithBondXmitHashPolicy(fs, s, policy) == s && WithBondSlaves(fs, s, slaves) == s
  {
  }

  // ---------------------------------------------------------------------
  // Bond slaves

  /** `get_interface_state`: the cached operational state of `name`, read
      from sysfs (stripped) the first time and `down` when that read fails. */
  function Memo(fs: Sysfs, s: St, name: string): (p: (string, St))
    ensures name in p.1.stateHash && p.1.stateHash[name] == p.0
    ensures p.1 == s.(stateHash := p.1.stateHash)
    ensures name in s.stateHash ==> p == (s.stateHash[name], s)
  {
    if name in s.stateHash then (s.stateHash[name], s)
    else
      var v := match ReadFile(fs, OperstatePath(name)) case Some(c) => Strip(c) case None => "down";
      (v, s.(stateHash := s.stateHash[name := v]))
  }

  /** The file is read at most once per interface: a second lookup gives the
      same state and changes nothing. */
  lemma MemoReadsOnce(fs: Sysfs, s: St, name: string)
    ensures Memo(fs, Memo(fs, s, name).1, name) == Memo(fs, s, name)
  {
  }

  /** One slave of `manage_bond_slaves`: skipped unless it exists; brought
      down around the write when it is up. */
  function ManageOne(fs: Sysfs, s: St, bond: string, slave: string, prefix: string): (t: St)
    ensures KeepsHash(s, t)
  {
    if slave !in fs.links then s
    else
      var p := Memo(fs, s, slave);
      var s2 := if p.0 == "up" then p.1.(log := p.1.log + [LinkSetState(Some(slave), Down)]) else p.1;
      var s3 := Write(fs, s2, BondingFile(bond, "slaves"), prefix + slave);
      var q := Memo(fs, s3, slave);
      if q.0 == "up" then q.1.(log := q.1.log + [LinkSetState(Some(slave), Up)]) else q.1
  }

  function ManageLoop(fs: Sysfs, s: St, bond: string, slaves: seq<string>, prefix: string): (t: St)
    ensures KeepsHash(s, t)
    decreases |slaves|
  {
    if slaves == [] then s else ManageLoop(fs, ManageOne(fs, s, bond, slaves[0], prefix), bond, slaves[1..], prefix)
  }

  /** `manage_bond_slaves`: nothing unless `bond` has a bonding directory. */
  function Managed(fs: Sysfs, s: St, bond: string, slaves: seq<string>, prefix: string): (t: St)
    ensures KeepsHash(s, t)
  {
    if bond !in fs.bondingDirs then s else ManageLoop(fs, s, bond, slaves, prefix)
  }

  function SlavesAdded(fs: Sysfs, s: St, bond: string, slaves: seq<string>): (t: St)
    ensures KeepsHash(s, t)
  {
    if slaves == [] then s else Managed(fs, s, bond, slaves, "+")
  }

  function SlavesDeleted(fs: Sysfs, s: St, bond: string, slaves: seq<string>): (t: St)
    ensures KeepsHash(s, t)
  {
    if slaves == [] then s else Managed(fs, s, bond, slaves, "-")
  }

  /** `sync_bond_slaves`: enslave what is wanted and missing, then release
      what is present and not wanted. */
  function Synced(fs: Sysfs, s: St, bond: string, current: seq<string>, should: seq<string>): (t: St)
    ensures KeepsHash(s, t)
  {
    SlavesDeleted(fs, SlavesAdded(fs, s, bond, Difference(should, current)), bond, Difference(current, should))
  }

  /** `bond_slaves=`: the slave change happens with the bond shut down. */
  function WithBondSlaves(fs: Sysfs, s: St, value: seq<string>): (t: St)
    ensures Keeps(s, t)
  {
    if Type(s.hash) != Some(Bonding) then s
    else
      var s1 := Saved(s);
      var s2 := Restored(Synced(fs, s1, BondName(s1), BondSlaves(s1.hash), value));
      s2.(hash := s2.hash.(bondSlaves := Some(value)))
  }

  /** Changing the slaves of a bond that is up brings it down first and up
      again last, and leaves it up. */
  lemma SlavesChangedWhileDown(fs: Sysfs, s: St, value: seq<string>)
    requires Type(s.hash) == Some(Bonding) && State(s.hash) == Up
    ensures var t := WithBondSlaves(fs, s, value);
      |t.log| >= |s.log| + 2 && t.log[|s.log|] == LinkSetState(s.hash.name, Down) &&
      t.log[|t.log| - 1] == LinkSetState(s.hash.name, Up) && State(t.hash) == Up
  {
    var a := Saved(s);
    assert a.log == s.log + [LinkSetState(s.hash.name, Down)] && a.saved == Some(Up);
    var y := Synced(fs, a, BondName(a), BondSlaves(a.hash), value);
    assert y.log[|s.log|] == y.log[..|a.log|][|s.log|];
    var z := Restored(y);
    assert z.log == y.log + [LinkSetState(s.hash.name, Up)];
  }

  /** The values written to the file `path`, in order. */
  function WritesTo(log: seq<Cmd>, path: string): seq<string> {
    if log == [] then []
    else (if log[0].SysWrite? && log[0].path == path then [log[0].value] else []) + WritesTo(log[1..], path)
  }

  lemma {:induction false} WritesToConcat(a: seq<Cmd>, b: seq<Cmd>, path: string)
    ensures WritesTo(a + b, path) == WritesTo(a, path) + WritesTo(b, path)
  {
    if a == [] {
      assert a + b == b;
    } else {
      var head := if a[0].SysWrite? && a[0].path == path then [a[0].value] else [];
      assert (a + b)[0] == a[0];
      assert (a + b)[1..] == a[1..] + b;
      WritesToConcat(a[1..], b, path);
      ConcatAssoc(head, WritesTo(a[1..], path), WritesTo(b, path));
    }
  }

  /** The writes `manage_bond_slaves` makes: the prefixed name of each slave
      that exists, for which the write does not fail. */
  function ExpectedWrites(fs: Sysfs, bond: string, slaves: seq<string>, prefix: string): seq<string> {
    if slaves == [] then []
    else
      (if slaves[0] in fs.links && Writable(fs, BondingFile(bond, "slaves"), prefix + slaves[0])
       then [prefix + slaves[0]] else [])
      + ExpectedWrites(fs, bond, slaves[1..], prefix)
  }

  /** What one slave adds to the log: the write, bracketed by bringing the
      slave down and up again when it is up, and no state change otherwise. */
  lemma ManageOneLog(fs: Sysfs, s: St, bond: string, slave: string, prefix: string)
    ensures var t := ManageOne(fs, s, bond, slave, prefix);
      var w := if slave in fs.links && Writable(fs, BondingFile(bond, "slaves"), prefix + slave)
               then [SysWrite(BondingFile(bond, "slaves"), prefix + slave)] else [];
      var up := slave in fs.links && Memo(fs, s, slave).0 == "up";
      t.log == s.log + (if up then [LinkSetState(Some(slave), Down)] + w + [LinkSetState(Some(slave), Up)] else w)
  {
  }

  /** The writes to the slaves file that one slave adds. */
  lemma ManageOneWrites(fs: Sysfs, s: St, bond: string, slave: string, prefix: string)
    ensures var t := ManageOne(fs, s, bond, slave, prefix);
      WritesTo(t.log[|s.log|..], BondingFile(bond, "slaves")) ==
        if slave in fs.links && Writable(fs, BondingFile(bond, "slaves"), prefix + slave) then [prefix + slave] else []
  {
    var path := BondingFile(bond, "slaves");
    var w: seq<Cmd> := if slave in fs.links && Writable(fs, path, prefix + slave) then [SysWrite(path, prefix + slave)] else [];
    var piece := if slave in fs.links && Memo(fs, s, slave).0 == "up"
      then [LinkSetState(Some(slave), Down)] + w + [LinkSetState(Some(slave), Up)] else w;
    ManageOneLog(fs, s, bond, slave, prefix);
    AppendRest(s.log, piece);
    BracketWritesTo(Some(slave), w, path);
    assert WritesTo(w, path) == (if slave in fs.links && Writable(fs, path, prefix + slave) then [prefix + slave] else []) by {
      if w != [] { assert w[1..] == []; }
    }
  }

  /** Bringing an interface down and up around some commands adds no write. */
  lemma BracketWritesTo(dev: Option<string>, w: seq<Cmd>, path: string)
    ensures WritesTo([LinkSetState(dev, Down)] + w + [LinkSetState(dev, Up)], path) == WritesTo(w, path)
  {
    var down: seq<Cmd> := [LinkSetState(dev, Down)];
    var up: seq<Cmd> := [LinkSetState(dev, Up)];
    assert WritesTo(down, path) == [] && WritesTo(up, path) == [] by {
      assert down[1..] == [] && up[1..] == [];
    }
    WritesToConcat(down, w, path);
    WritesToConcat(down + w, up, path);
  }

  lemma BracketFileWrites(dev: Option<string>, w: seq<Cmd>)
    ensures FileWrites([LinkSetState(dev, Down)] + w + [LinkSetState(dev, Up)]) == FileWrites(w)
  {
    var down: seq<Cmd> := [LinkSetState(dev, Down)];
    var up: seq<Cmd> := [LinkSetState(dev, Up)];
    assert FileWrites(down) == [] && FileWrites(up) == [] by {
      assert down[1..] == [] && up[1..] == [];
    }
    FileWritesConcat(down, w);
    FileWritesConcat(down + w, up);
  }

  lemma {:induction false} ManageLoopWrites(fs: Sysfs, s: St, bond: string, slaves: seq<string>, prefix: string)
    ensures WritesTo(ManageLoop(fs, s, bond, slaves, prefix).log[|s.log|..], BondingFile(bond, "slaves")) ==
      ExpectedWrites(fs, bond, slaves, prefix)
    decreases |slaves|
  {
    var path := BondingFile(bond, "slaves");
    if slaves == [] {
      assert ManageLoop(fs, s, bond, slaves, prefix).log[|s.log|..] == [];
    } else {
      var m := ManageOne(fs, s, bond, slaves[0], prefix);
      ManageOneWrites(fs, s, bond, slaves[0], prefix);
      ManageLoopWrites(fs, m, bond, slaves[1..], prefix);
      var t := ManageLoop(fs, m, bond, slaves[1..], prefix);
      assert t == ManageLoop(fs, s, bond, slaves, prefix);
      PrefixSlices(s.log, m.log, t.log);
      WritesToConcat(m.log[|s.log|..], t.log[|m.log|..], path);
    }
  }

  /** Slave synchronisation writes `+slave` for every wanted slave that is
      missing, then `-slave` for every present slave that is unwanted, in
      list order, skipping interfaces that do not exist and writes that fail;
      nothing at all is written when the bond has no bonding directory. */
  lemma SyncWrites(fs: Sysfs, s: St, bond: string, current: seq<string>, should: seq<string>)
    ensures WritesTo(Synced(fs, s, bond, current, should).log[|s.log|..], BondingFile(bond, "slaves")) ==
      if bond in fs.bondingDirs
      then ExpectedWrites(fs, bond, Difference(should, current), "+") + ExpectedWrites(fs, bond, Difference(current, should), "-")
      else []
  {
    var path := BondingFile(bond, "slaves");
    var adds := Difference(should, current);
    var dels := Difference(current, should);
    var a := SlavesAdded(fs, s, bond, adds);
    var t := SlavesDeleted(fs, a, bond, dels);
    if bond in fs.bondingDirs {
      if adds == [] {
        assert a.log[|s.log|..] == [];
      } else {
        ManageLoopWrites(fs, s, bond, adds, "+");
      }
      if dels == [] {
        assert t.log[|a.log|..] == [];
      } else {
        ManageLoopWrites(fs, a, bond, dels, "-");
      }
      PrefixSlices(s.log, a.log, t.log);
      WritesToConcat(a.log[|s.log|..], t.log[|a.log|..], path);
    } else {
      assert t.log[|s.log|..] == [];
    }
  }

  /** The sysfs writes of a log, in order, with every other command left out. */
  function FileWrites(log: seq<Cmd>): (r: seq<Cmd>)
    ensures forall c :: c in r ==> c.SysWrite?
  {
    if log == [] then [] else (if log[0].SysWrite? then [log[0]] else []) + FileWrites(log[1..])
  }

  lemma {:induction false} FileWritesConcat(a: seq<Cmd>, b: seq<Cmd>)
    ensures FileWrites(a + b) == FileWrites(a) + FileWrites(b)
  {
    if a == [] {
      assert a + b == b;
    } else {
      var head := if a[0].SysWrite? then [a[0]] else [];
      assert (a + b)[0] == a[0];
      assert (a + b)[1..] == a[1..] + b;
      FileWritesConcat(a[1..], b);
      ConcatAssoc(head, FileWrites(a[1..]), FileWrites(b));
    }
  }

  /** A log without sysfs writes projects to nothing. */
  lemma {:induction false} NoFileWrites(log: seq<Cmd>)
    requires forall k :: 0 <= k < |log| ==> !log[k].SysWrite?
    ensures FileWrites(log) == []
  {
    if log != [] {
      assert forall k :: 0 <= k < |log[1..]| ==> log[1..][k] == log[k + 1];
      NoFileWrites(log[1..]);
    }
  }

  /** The writes of `values` to the file `path`, one after the other. */
  function WritesOf(path: string, values: seq<string>): (r: seq<Cmd>)
    ensures |r| == |values| && forall k :: 0 <= k < |values| ==> r[k] == SysWrite(path, values[k])
  {
    if values == [] then [] else [SysWrite(path, values[0])] + WritesOf(path, values[1..])
  }

  lemma WritesOfConcat(path: string, a: seq<string>, b: seq<string>)
    ensures WritesOf(path, a + b) == WritesOf(path, a) + WritesOf(path, b)
  {
    assert forall k :: 0 <= k < |a + b| ==> WritesOf(path, a + b)[k] == (WritesOf(path, a) + WritesOf(path, b))[k];
  }

  /** The only sysfs write one slave adds is its own, when it exists and the
      write does not fail. */
  lemma ManageOneFileWrites(fs: Sysfs, s: St, bond: string, slave: string, prefix: string)
    ensures var t := ManageOne(fs, s, bond, slave, prefix);
      FileWrites(t.log[|s.log|..]) ==
        WritesOf(BondingFile(bond, "slaves"), ExpectedWrites(fs, bond, [slave], prefix))
  {
    var path := BondingFile(bond, "slaves");
    var w: seq<Cmd> := if slave in fs.links && Writable(fs, path, prefix + slave) then [SysWrite(path, prefix + slave)] else [];
    var piece := if slave in fs.links && Memo(fs, s, slave).0 == "up"
      then [LinkSetState(Some(slave), Down)] + w + [LinkSetState(Some(slave), Up)] else w;
    ManageOneLog(fs, s, bond, slave, prefix);
    AppendRest(s.log, piece);
    BracketFileWrites(Some(slave), w);
    assert FileWrites(w) == w by {
      if w != [] { assert w[1..] == []; }
    }
    assert ExpectedWrites(fs, bond, [slave], prefix) ==
      (if slave in fs.links && Writable(fs, path, prefix + slave) then [prefix + slave] else []) + ExpectedWrites(fs, bond, [], prefix);
  }

  lemma ExpectedWritesCons(fs: Sysfs, bond: string, slaves: seq<string>, prefix: string)
    requires slaves != []
    ensures ExpectedWrites(fs, bond, slaves, prefix) ==
      ExpectedWrites(fs, bond, [slaves[0]], prefix) + ExpectedWrites(fs, bond, slaves[1..], prefix)
  {
    assert [slaves[0]][1..] == [];
  }

  /** The loop's sysfs writes are exactly the expected slave writes, in order. */
  lemma {:induction false} ManageLoopFileWrites(fs: Sysfs, s: St, bond: string, slaves: seq<string>, prefix: string)
    ensures FileWrites(ManageLoop(fs, s, bond, slaves, prefix).log[|s.log|..]) ==
      WritesOf(BondingFile(bond, "slaves"), ExpectedWrites(fs, bond, slaves, prefix))
    decreases |slaves|
  {
    var path := BondingFile(bond, "slaves");
    if slaves == [] {
      assert ManageLoop(fs, s, bond, slaves, prefix).log[|s.log|..] == [];
    } else {
      var m := ManageOne(fs, s, bond, slaves[0], prefix);
      ManageOneFileWrites(fs, s, bond, slaves[0], prefix);
      ManageLoopFileWrites(fs, m, bond, slaves[1..], prefix);
      var t := ManageLoop(fs, m, bond, slaves[1..], prefix);
      assert t == ManageLoop(fs, s, bond, slaves, prefix);
      PrefixSlices(s.log, m.log, t.log);
      FileWritesConcat(m.log[|s.log|..], t.log[|m.log|..]);
      ExpectedWritesCons(fs, bond, slaves, prefix);
      WritesOfConcat(path, ExpectedWrites(fs, bond, [slaves[0]], prefix), ExpectedWrites(fs, bond, slaves[1..], prefix));
    }
  }

  /** All sysfs writes of slave synchronisation: `+slave` for the missing
      ones, then `-slave` for the unwanted ones, all to the `slaves` file;
      none without a bonding directory. */
  function SlaveWrites(fs: Sysfs, bond: string, current: seq<string>, should: seq<string>): seq<Cmd> {
    if bond in fs.bondingDirs
    then WritesOf(BondingFile(bond, "slaves"),
                  ExpectedWrites(fs, bond, Difference(should, current), "+") + ExpectedWrites(fs, bond, Difference(current, should), "-"))
    else []
  }

  lemma SyncFileWrites(fs: Sysfs, s: St, bond: string, current: seq<string>, should: seq<string>)
    ensures FileWrites(Synced(fs, s, bond, current, should).log[|s.log|..]) == SlaveWrites(fs, bond, current, should)
  {
    var path := BondingFile(bond, "slaves");
    var adds := Difference(should, current);
    var dels := Difference(current, should);
    var a := SlavesAdded(fs, s, bond, adds);
    var t := SlavesDeleted(fs, a, bond, dels);
    if bond in fs.bondingDirs {
      if adds == [] {
        assert a.log[|s.log|..] == [];
      } else {
        ManageLoopFileWrites(fs, s, bond, adds, "+");
      }
      if dels == [] {
        assert t.log[|a.log|..] == [];
      } else {
        ManageLoopFileWrites(fs, a, bond, dels, "-");
      }
      PrefixSlices(s.log, a.log, t.log);
      FileWritesConcat(a.log[|s.log|..], t.log[|a.log|..]);
      WritesOfConcat(path, ExpectedWrites(fs, bond, adds, "+"), ExpectedWrites(fs, bond, dels, "-"));
    } else {
      assert t.log[|s.log|..] == [];
    }
  }

  /** Shutting a bond down and restoring its state writes nothing to sysfs. */
  lemma StateNoFileWrites(s: St, value: Option<AdminState>)
    ensures FileWrites(WithState(s, value).log[|s.log|..]) == []
  {
    var d := WithState(s, value).log[|s.log|..];
    NoFileWrites(d);
  }

  lemma SavedNoFileWrites(s: St)
    ensures FileWrites(Saved(s).log[|s.log|..]) == [] && Saved(s).hash == s.hash.(state := Saved(s).hash.state)
  {
    if State(s.hash) == Up { StateNoFileWrites(s.(saved := Some(Up)), Some(Down)); } else { NoFileWrites([]); }
  }

  /** `bond_slaves=` on a bond writes exactly the slave changes to sysfs. */
  lemma BondSlavesFileWrites(fs: Sysfs, s: St, value: seq<string>)
    requires Type(s.hash) == Some(Bonding)
    ensures FileWrites(WithBondSlaves(fs, s, value).log[|s.log|..]) == SlaveWrites(fs, BondName(s), BondSlaves(s.hash), value)
    ensures WithBondSlaves(fs, s, value).hash == s.hash.(bondSlaves := Some(value), state := WithBondSlaves(fs, s, value).hash.state)
  {
    var s1 := Saved(s);
    SavedNoFileWrites(s);
    var y := Synced(fs, s1, BondName(s1), BondSlaves(s1.hash), value);
    SyncFileWrites(fs, s1, BondName(s1), BondSlaves(s1.hash), value);
    var z := Restored(y);
    StateNoFileWrites(y, y.saved);
    Bracketed(s.log, s1.log, y.log, z.log, SlaveWrites(fs, BondName(s), BondSlaves(s.hash), value));
  }

  /** Writes made only in the middle one of three consecutive log
      extensions are all the writes. */
  lemma Bracketed(a: seq<Cmd>, b: seq<Cmd>, c: seq<Cmd>, d: seq<Cmd>, w: seq<Cmd>)
    requires a <= b && b <= c && c <= d
    requires FileWrites(b[|a|..]) == [] && FileWrites(c[|b|..]) == w && FileWrites(d[|c|..]) == []
    ensures FileWrites(d[|a|..]) == w
  {
    PrefixTrans(a, b, c);
    WritesSplit2(a, b, c);
    WritesSplit2(a, c, d);
    assert [] + w + [] == w;
  }

  /** `bond_lacp_rate=` on a bond writes only the lacp rate file. */
  lemma LacpRateFileWrites(fs: Sysfs, s: St, value: Option<string>)
    requires Type(s.hash) == Some(Bonding)
    ensures FileWrites(WithBondLacpRate(fs, s, value).log[|s.log|..]) ==
      Attempt(fs, BondingFile(BondName(s), "lacp_rate"), OptText(value))
  {
    var a := Attempt(fs, BondingFile(BondName(s), "lacp_rate"), OptText(value));
    var s1 := Saved(s);
    SavedNoFileWrites(s);
    var w := Write(fs, s1, BondingFile(BondName(s), "lacp_rate"), OptText(value));
    var z := Restored(w);
    StateNoFileWrites(w, w.saved);
    assert w.log[|s1.log|..] == a;
    assert FileWrites(a) == a by {
      if a != [] { assert a[1..] == []; }
    }
    Bracketed(s.log, s1.log, w.log, z.log, a);
  }

  /** Lists that are in sync (the same set of slaves) need no change at all. */
  lemma SyncInSyncQuiet(fs: Sysfs, s: St, bond: string, current: seq<string>, should: seq<string>)
    requires InSync(current, should)
    ensures Synced(fs, s, bond, current, should) == s
  {
    InSyncSame(current, should);
    DifferenceEmpty(should, current);
    DifferenceEmpty(current, should);
  }

  // ---------------------------------------------------------------------
  // The address setter

  lemma AddCmdsMembers(addrs: seq<string>, dev: Option<string>)
    ensures forall a :: AddressAdd(a, dev) in AddCmds(addrs, dev) <==> a in addrs
    ensures forall c :: c in AddCmds(addrs, dev) ==> c.AddressAdd?
  {
    var r := AddCmds(addrs, dev);
    forall a ensures AddressAdd(a, dev) in r <==> a in addrs {
      if a in addrs {
        var k :| 0 <= k < |addrs| && addrs[k] == a;
        assert r[k] == AddressAdd(a, dev);
      }
    }
  }

  lemma DeleteCmdsMembers(addrs: seq<string>, dev: Option<string>)
    ensures forall a :: AddressDelete(a, dev) in DeleteCmds(addrs, dev) <==> a in addrs
    ensures forall c :: c in DeleteCmds(addrs, dev) ==> c.AddressDelete?
  {
    var r := DeleteCmds(addrs, dev);
    forall a ensures AddressDelete(a, dev) in r <==> a in addrs {
      if a in addrs {
        var k :| 0 <= k < |addrs| && addrs[k] == a;
        assert r[k] == AddressDelete(a, dev);
      }
    }
  }

  /** The commands `ipaddress=` issues: its additions, then its deletions. */
  lemma IpaddressDelta(s: St, value: seq<string>)
    ensures var t := WithIpaddress(s, value);
      var current := Ipaddress(s.hash);
      t.log[|s.log|..] == AddCmds(Difference(value, current), s.hash.name) + DeleteCmds(Difference(current, value), s.hash.name)
  {
    var current := Ipaddress(s.hash);
    var delta := AddCmds(Difference(value, current), s.hash.name) + DeleteCmds(Difference(current, value), s.hash.name);
    assert WithIpaddress(s, value).log == s.log + delta;
    assert (s.log + delta)[|s.log|..] == delta;
  }

  /** Additions followed by deletions hold exactly the added and the
      deleted addresses, and nothing else. */
  lemma AddsThenDeletesMembers(a: seq<string>, b: seq<string>, dev: Option<string>)
    ensures var d := AddCmds(a, dev) + DeleteCmds(b, dev);
      (forall x :: AddressAdd(x, dev) in d <==> x in a) &&
      (forall x :: AddressDelete(x, dev) in d <==> x in b) &&
      (forall c :: c in d ==> c.AddressAdd? || c.AddressDelete?)
  {
    var adds := AddCmds(a, dev);
    var dels := DeleteCmds(b, dev);
    AddCmdsMembers(a, dev);
    DeleteCmdsMembers(b, dev);
    var d := adds + dels;
    forall x ensures AddressAdd(x, dev) in d <==> AddressAdd(x, dev) in adds {
      assert AddressAdd(x, dev) in dels ==> false;
    }
    forall x ensures AddressDelete(x, dev) in d <==> AddressDelete(x, dev) in dels {
      assert AddressDelete(x, dev) in adds ==> false;
    }
  }

  /** In additions followed by deletions, nothing but deletions follows a deletion. */
  lemma AddsThenDeletesOrder(a: seq<string>, b: seq<string>, dev: Option<string>)
    ensures var d := AddCmds(a, dev) + DeleteCmds(b, dev);
      forall i, j :: 0 <= i < j < |d| && d[i].AddressDelete? ==> d[j].AddressDelete?
  {
    var adds := AddCmds(a, dev);
    var dels := DeleteCmds(b, dev);
    var d := adds + dels;
    forall i, j | 0 <= i < j < |d| && d[i].AddressDelete? ensures d[j].AddressDelete? {
      assert i >= |adds|;
      assert d[j] == dels[j - |adds|];
    }
  }

  /** `ipaddress=` leaves exactly the wanted addresses: each wanted address
      that is missing is added, each present address that is unwanted is
      deleted, and nothing else is issued. */
  lemma IpaddressCommands(s: St, value: seq<string>)
    ensures var t := WithIpaddress(s, value);
      var current := Ipaddress(s.hash);
      var delta := t.log[|s.log|..];
      Ipaddress(t.hash) == value &&
      (forall a :: AddressAdd(a, s.hash.name) in delta <==> a in value && a !in current) &&
      (forall a :: AddressDelete(a, s.hash.name) in delta <==> a in current && a !in value) &&
      (forall c :: c in delta ==> c.AddressAdd? || c.AddressDelete?)
  {
    var current := Ipaddress(s.hash);
    IpaddressDelta(s, value);
    AddsThenDeletesMembers(Difference(value, current), Difference(current, value), s.hash.name);
  }

  /** Every addition comes before every deletion. */
  lemma IpaddressAddsFirst(s: St, value: seq<string>)
    ensures var delta := WithIpaddress(s, value).log[|s.log|..];
      forall i, j :: 0 <= i < j < |delta| && delta[i].AddressDelete? ==> delta[j].AddressDelete?
  {
    var current := Ipaddress(s.hash);
    IpaddressDelta(s, value);
    AddsThenDeletesOrder(Difference(value, current), Difference(current, value), s.hash.name);
  }

  /** Setting the same addresses a second time issues no command. */
  lemma IpaddressIdempotent(s: St, value: seq<string>)
    ensures WithIpaddress(WithIpaddress(s, value), value) == WithIpaddress(s, value)
  {
    DifferenceEmpty(value, value);
    var t := WithIpaddress(s, value);
    assert t.log + [] + [] == t.log;
    assert t.hash.(ipaddress := Some(value)) == t.hash;
  }

  /** Addresses in sync with the wanted ones (the same set) issue no command. */
  lemma IpaddressInSyncQuiet(s: St, value: seq<string>)
    requires InSync(Ipaddress(s.hash), value)
    ensures WithIpaddress(s, value).log == s.log
  {
    var current := Ipaddress(s.hash);
    InSyncSame(current, value);
    DifferenceEmpty(value, current);
    DifferenceEmpty(current, value);
    assert s.log + [] + [] == s.log;
  }

  /** A missing mac or mtu changes nothing. */
  lemma MissingValueNoop(s: St)
    ensures WithMac(s, None) == s && WithMtu(s, None) == s
  {
  }

  // ---------------------------------------------------------------------
  // Creating and destroying

  /** The default bonds the bonding module creates are removed one after the
      other; the first removal that fails ends the loop (the exception is
      rescued outside it). */
  function DefaultsRemoved(fs: Sysfs, s: St, bonds: seq<string>): (t: St)
    ensures KeepsHash(s, t)
    ensures forall c :: c in t.log[|s.log|..] ==> c.SysWrite? && c.path == MastersPath
    decreases |bonds|
  {
    if bonds == [] || !Writable(fs, MastersPath, "-" + bonds[0]) then s
    else DefaultsRemoved(fs, s.(log := s.log + [SysWrite(MastersPath, "-" + bonds[0])]), bonds[1..])
  }

  /** Load the bonding module unless `bonding_masters` exists, then remove
      the bonds it created; a failed read is rescued. */
  function ModuleLoaded(fs: Sysfs, s: St): (t: St)
    ensures KeepsHash(s, t)
    ensures fs.mastersPresent ==> t == s
    ensures !fs.mastersPresent ==> |t.log| > |s.log| && t.log[|s.log|] == ModprobeBonding
    ensures forall c :: c in t.log[|s.log|..] ==> c == ModprobeBonding || (c.SysWrite? && c.path == MastersPath)
  {
    if fs.mastersPresent then s
    else
      var s1 := s.(log := s.log + [ModprobeBonding]);
      match ReadFile(fs, MastersPath)
      case None => s1
      case Some(c) => DefaultsRemoved(fs, s1, Split(c, IsSpace))
  }

  /** `create_bonding`: register the bond (a failure here is not rescued),
      then apply mode, miimon, lacp rate, hash policy and slaves. */
  function BondCreated(fs: Sysfs, r: Resource, s: St): (p: (St, Outcome))
    ensures Keeps(s, p.0)
  {
    var s1 := ModuleLoaded(fs, s);
    var add := "+" + r.name;
    if !Writable(fs, MastersPath, add) then (s1, Raised("write to bonding_masters failed"))
    else
      (BondConfigured(fs, r, Registered(s1, r.name)), Done)
  }

  /** The `+name` registration written to `bonding_masters`. */
  function Registered(s: St, name: string): (t: St)
    ensures t.hash == s.hash && t.log == s.log + [SysWrite(MastersPath, "+" + name)]
  {
    s.(log := s.log + [SysWrite(MastersPath, "+" + name)])
  }

  function VlanCreated(s: St, r: Resource): (t: St)
    ensures s.log <= t.log && t.hash.name == s.hash.name && t.hash.ensure == s.hash.ensure && t.hash.typ == s.hash.typ
    ensures Parent(t.hash) == r.parent
  {
    WithVlanid(WithParent(s, r.parent), r.vlanid)
  }

  /** `create`: nothing for an ethernet interface; otherwise record name,
      presence and type, create the vlan or bond, then apply addresses, mtu,
      mac and state. */
  function Created(fs: Sysfs, r: Resource, s: St): (St, Outcome) {
    if r.typ == Ethernet then (s, Done)
    else
      var p := Prepared(fs, r, Opened(s, r));
      if p.1.Raised? then p
      else (Finished(p.0, r), Done)
  }

  /** The record `create` starts from: the resource's name, present, with
      the resource's type, and no command issued yet. */
  function Opened(s: St, r: Resource): (t: St)
    ensures t.hash.name == Some(r.name) && IsPresent(t.hash) && Type(t.hash) == Some(r.typ) && t.log == s.log
  {
    WithType(s.(hash := s.hash.(name := Some(r.name), ensure := true)), Some(r.typ))
  }

  /** The part of `create` that depends on the type: the vlan link, the
      bond, or nothing; it keeps the name, presence and type. */
  function Prepared(fs: Sysfs, r: Resource, s: St): (p: (St, Outcome))
    ensures s.log <= p.0.log && p.0.hash.name == s.hash.name && p.0.hash.ensure == s.hash.ensure && p.0.hash.typ == s.hash.typ
  {
    if r.typ == Vlan then (VlanCreated(s, r), Done)
    else if r.typ == Bonding then BondCreated(fs, r, s)
    else (s, Done)
  }

  predicate InterfaceExists(fs: Sysfs, name: Option<string>) { name.Some? && name.value in fs.links }

  /** `destroy_bonding` as evidently intended: release the slaves, then delete
      the bond link. */
  function BondDestroyed(fs: Sysfs, s: St): (t: St)
    ensures t.hash == s.hash && t.saved == s.saved && s.log <= t.log
    ensures |t.log| > |s.log| && t.log[|t.log| - 1] == LinkDelete(s.hash.name, "bond")
  {
    var s1 := SlavesDeleted(fs, s, BondName(s), BondSlaves(s.hash));
    s1.(log := s1.log + [LinkDelete(s.hash.name, "bond")])
  }

  /** `destroy`: nothing unless the interface exists; otherwise bring it
      down, delete a bond or vlan link, and clear the property hash. */
  function Destroyed(fs: Sysfs, s: St): St {
    if !InterfaceExists(fs, s.hash.name) then s
    else
      var s1 := WithState(s, Some(Down));
      var s2 :=
        if Type(s1.hash) == Some(Bonding) then BondDestroyed(fs, s1)
        else if Type(s1.hash) == Some(Vlan) then s1.(log := s1.log + [LinkDelete(s1.hash.name, "vlan")])
        else s1;
      s2.(hash := EmptyProps)
  }

  /** `destroy` as written: `destroy_bonding` calls `delete_slaves`, which is
      not defined, so destroying a bond raises after bringing it down, before
      the link is deleted and the hash cleared. */
  function DestroyedAsWritten(fs: Sysfs, s: St): (St, Outcome) {
    if InterfaceExists(fs, s.hash.name) && Type(s.hash) == Some(Bonding)
    then (WithState(s, Some(Down)), Raised("undefined method `delete_slaves'"))
    else (Destroyed(fs, s), Done)
  }

  /** Creating an ethernet interface does nothing. */
  lemma CreateEthernetNoop(fs: Sysfs, r: Resource, s: St)
    requires r.typ == Ethernet
    ensures Created(fs, r, s) == (s, Done)
  {
  }

  /** The address, mtu, mac and state steps that end a creation. */
  function Finished(s: St, r: Resource): (t: St)
    ensures Keeps(s, t) && Ipaddress(t.hash) == r.ipaddress
  {
    WithState(WithMac(WithMtu(WithIpaddress(s, r.ipaddress), r.mtu), r.mac), r.state)
  }

  /** The creation of a vlan: the parent, then the vlan link. */
  lemma VlanCreatedLog(s: St, r: Resource)
    requires Type(s.hash) == Some(Vlan)
    ensures VlanCreated(s, r).log == s.log + [LinkAddVlan(s.hash.name, r.parent, OptIntText(r.vlanid))]
    ensures Keeps(s, VlanCreated(s, r).(hash := VlanCreated(s, r).hash.(parent := s.hash.parent)))
    ensures Parent(VlanCreated(s, r).hash) == r.parent
  {
  }

  /** Creating a vlan first adds the vlan link on its parent with its id,
      and leaves the interface present with its type, parent and addresses. */
  lemma CreateVlan(fs: Sysfs, r: Resource, s: St)
    requires r.typ == Vlan
    ensures var p := Created(fs, r, s);
      p.1 == Done && s.log <= p.0.log && |p.0.log| > |s.log| &&
      p.0.log[|s.log|] == LinkAddVlan(Some(r.name), r.parent, OptIntText(r.vlanid)) &&
      IsPresent(p.0.hash) && Type(p.0.hash) == Some(Vlan) && Parent(p.0.hash) == r.parent &&
      Ipaddress(p.0.hash) == r.ipaddress
  {
    var s1 := Opened(s, r);
    var v := VlanCreated(s1, r);
    VlanCreatedLog(s1, r);
    var t := Finished(v, r);
    assert Created(fs, r, s) == (t, Done);
    assert t.log[|s.log|] == t.log[..|v.log|][|s.log|];
  }

  /** The bond options and slaves applied after registering a bond. */
  function BondConfigured(fs: Sysfs, r: Resource, s: St): (t: St)
    ensures Keeps(s, t)
  {
    var s3 := WithBondMode(fs, s, r.bondMode);
    var s4 := WithBondMiimon(fs, s3, r.bondMiimon);
    var s5 := WithBondLacpRate(fs, s4, r.bondLacpRate);
    var s6 := WithBondXmitHashPolicy(fs, s5, r.bondXmitHashPolicy);
    WithBondSlaves(fs, s6, r.bondSlaves)
  }

  /** Creating a bond loads the bonding module first when `bonding_masters`
      is missing, and otherwise registers the bond first; it fails exactly
      when registering fails, and then stops before any address is added. */
  lemma CreateBondOrder(fs: Sysfs, r: Resource, s: St)
    requires r.typ == Bonding
    ensures var p := Created(fs, r, s);
      s.log <= p.0.log &&
      (!fs.mastersPresent ==> |p.0.log| > |s.log| && p.0.log[|s.log|] == ModprobeBonding) &&
      (fs.mastersPresent && Writable(fs, MastersPath, "+" + r.name) ==>
         |p.0.log| > |s.log| && p.0.log[|s.log|] == SysWrite(MastersPath, "+" + r.name)) &&
      (Writable(fs, MastersPath, "+" + r.name) <==> p.1 == Done)
    ensures var p := Created(fs, r, s);
      !Writable(fs, MastersPath, "+" + r.name) ==> forall c :: c in p.0.log[|s.log|..] ==> !c.AddressAdd?
  {
    var s1 := Opened(s, r);
    var m := ModuleLoaded(fs, s1);
    var add := "+" + r.name;
    if Writable(fs, MastersPath, add) {
      var s2 := m.(log := m.log + [SysWrite(MastersPath, add)]);
      var b := BondConfigured(fs, r, s2);
      assert BondCreated(fs, r, s1) == (b, Done);
      var t := Finished(b, r);
      assert Created(fs, r, s) == (t, Done);
      assert t.log[|s.log|] == t.log[..|s2.log|][|s.log|];
    } else {
      assert Created(fs, r, s) == (m, Raised("write to bonding_masters failed"));
      assert s1.log == s.log;
      if !fs.mastersPresent {
        assert |m.log| > |s.log|;
      }
    }
  }

  /** The sysfs writes of the bond steps of `create_bonding`, in the order
      mode, miimon, lacp rate, hash policy, then the slave changes from the
      slaves `current` to the resource's. A nil value is written as empty
      text; a write that fails leaves nothing. */
  function BondStepWrites(fs: Sysfs, bond: string, r: Resource, current: seq<string>): seq<Cmd> {
    Attempt(fs, BondingFile(bond, "mode"), OptText(r.bondMode)) +
    Attempt(fs, BondingFile(bond, "miimon"), OptValueText(r.bondMiimon)) +
    Attempt(fs, BondingFile(bond, "lacp_rate"), OptText(r.bondLacpRate)) +
    Attempt(fs, BondingFile(bond, "xmit_hash_policy"), OptText(r.bondXmitHashPolicy)) +
    SlaveWrites(fs, bond, current, r.bondSlaves)
  }

  lemma AttemptWrites(fs: Sysfs, path: string, value: string)
    ensures FileWrites(Attempt(fs, path, value)) == Attempt(fs, path, value)
  {
    var a := Attempt(fs, path, value);
    if a != [] { assert a[1..] == []; }
  }

  /** On a bond, the option setters write the mode, miimon, lacp rate and
      hash policy files in that order, then the slaves file, and nothing
      else; the slaves are synchronised from those in the property hash. */
  lemma BondConfiguredWrites(fs: Sysfs, r: Resource, s: St)
    requires Type(s.hash) == Some(Bonding)
    ensures FileWrites(BondConfigured(fs, r, s).log[|s.log|..]) == BondStepWrites(fs, BondName(s), r, BondSlaves(s.hash))
  {
    var b := BondName(s);
    var s3 := WithBondMode(fs, s, r.bondMode);
    var s4 := WithBondMiimon(fs, s3, r.bondMiimon);
    var s5 := WithBondLacpRate(fs, s4, r.bondLacpRate);
    var s6 := WithBondXmitHashPolicy(fs, s5, r.bondXmitHashPolicy);
    var t := WithBondSlaves(fs, s6, r.bondSlaves);
    var a1 := Attempt(fs, BondingFile(b, "mode"), OptText(r.bondMode));
    var a2 := Attempt(fs, BondingFile(b, "miimon"), OptValueText(r.bondMiimon));
    var a3 := Attempt(fs, BondingFile(b, "lacp_rate"), OptText(r.bondLacpRate));
    var a4 := Attempt(fs, BondingFile(b, "xmit_hash_policy"), OptText(r.bondXmitHashPolicy));
    assert s3.log[|s.log|..] == a1 && s4.log[|s3.log|..] == a2 && s6.log[|s5.log|..] == a4;
    assert BondSlaves(s6.hash) == BondSlaves(s.hash) && BondName(s6) == b;
    AttemptWrites(fs, BondingFile(b, "mode"), OptText(r.bondMode));
    AttemptWrites(fs, BondingFile(b, "miimon"), OptValueText(r.bondMiimon));
    AttemptWrites(fs, BondingFile(b, "xmit_hash_policy"), OptText(r.bondXmitHashPolicy));
    LacpRateFileWrites(fs, s4, r.bondLacpRate);
    BondSlavesFileWrites(fs, s6, r.bondSlaves);
    BondConfiguredSplit(s, s3, s4, s5, s6, t);
  }

  /** The writes of five consecutive steps are the writes of each step in turn. */
  lemma BondConfiguredSplit(s: St, s3: St, s4: St, s5: St, s6: St, t: St)
    requires s.log <= s3.log <= s4.log <= s5.log <= s6.log <= t.log
    ensures FileWrites(t.log[|s.log|..]) ==
      FileWrites(s3.log[|s.log|..]) + FileWrites(s4.log[|s3.log|..]) + FileWrites(s5.log[|s4.log|..]) +
      FileWrites(s6.log[|s5.log|..]) + FileWrites(t.log[|s6.log|..])
  {
    WritesSplit(s.log, s3.log, s4.log, s5.log, s6.log);
    PrefixTrans(s.log, s3.log, s4.log);
    PrefixTrans(s.log, s4.log, s5.log);
    PrefixTrans(s.log, s5.log, s6.log);
    WritesSplit2(s.log, s6.log, t.log);
  }

  /** The commands of the last steps of `create`, in the order addresses,
      mtu, mac, state: the address additions and deletions, then the mtu,
      the mac and the state command, each only when that value is given. */
  function FinishCmds(s: St, r: Resource): seq<Cmd> {
    var dev := s.hash.name;
    var current := Ipaddress(s.hash);
    AddCmds(Difference(r.ipaddress, current), dev) + DeleteCmds(Difference(current, r.ipaddress), dev) +
    (if r.mtu.Some? then [LinkSetMtu(dev, IntText(r.mtu.value))] else []) +
    (if r.mac.Some? then [LinkSetAddress(dev, r.mac.value)] else []) +
    (if r.state.Some? then [LinkSetState(dev, r.state.value)] else [])
  }

  /** The last steps of `create` issue exactly `FinishCmds`; afterwards the
      record holds the resource's addresses and state, and its mtu and mac
      where given. */
  lemma FinishedLog(s: St, r: Resource)
    ensures Finished(s, r).log == s.log + FinishCmds(s, r)
    ensures Finished(s, r).hash ==
      s.hash.(ipaddress := Some(r.ipaddress), mtu := if r.mtu.Some? then r.mtu else s.hash.mtu,
              mac := if r.mac.Some? then r.mac else s.hash.mac, state := r.state)
  {
    var dev := s.hash.name;
    var current := Ipaddress(s.hash);
    var a := AddCmds(Difference(r.ipaddress, current), dev);
    var b := DeleteCmds(Difference(current, r.ipaddress), dev);
    var x: seq<Cmd> := if r.mtu.Some? then [LinkSetMtu(dev, IntText(r.mtu.value))] else [];
    var y: seq<Cmd> := if r.mac.Some? then [LinkSetAddress(dev, r.mac.value)] else [];
    var z: seq<Cmd> := if r.state.Some? then [LinkSetState(dev, r.state.value)] else [];
    var s1 := WithIpaddress(s, r.ipaddress);
    var s2 := WithMtu(s1, r.mtu);
    var s3 := WithMac(s2, r.mac);
    assert s1.log == s.log + a + b;
    assert s2.log == s1.log + x;
    assert s3.log == s2.log + y;
    assert Finished(s, r).log == s3.log + z;
    Assoc6(s.log, a, b, x, y, z);
  }

  /** `create` writes nothing to sysfs after the type-specific step. */
  lemma FinishedNoFileWrites(s: St, r: Resource)
    ensures FileWrites(Finished(s, r).log[|s.log|..]) == []
  {
    FinishedLog(s, r);
    AppendRest(s.log, FinishCmds(s, r));
    FinishCmdsNoFileWrites(s, r);
  }

  lemma FinishCmdsNoFileWrites(s: St, r: Resource)
    ensures FileWrites(FinishCmds(s, r)) == []
  {
    var dev := s.hash.name;
    var current := Ipaddress(s.hash);
    var a := AddCmds(Difference(r.ipaddress, current), dev);
    var b := DeleteCmds(Difference(current, r.ipaddress), dev);
    var x: seq<Cmd> := if r.mtu.Some? then [LinkSetMtu(dev, IntText(r.mtu.value))] else [];
    var y: seq<Cmd> := if r.mac.Some? then [LinkSetAddress(dev, r.mac.value)] else [];
    var z: seq<Cmd> := if r.state.Some? then [LinkSetState(dev, r.state.value)] else [];
    assert FinishCmds(s, r) == a + b + x + y + z;
    AddressCmdsNoFileWrites(a, b);
    LinkCmdsNoFileWrites(x, y, z);
    ConcatAssoc(a + b + x, y, z);
    ConcatAssoc(a + b, x, y + z);
    ConcatAssoc(x, y, z);
    NoWritesConcat(a + b, x + y + z);
  }

  lemma AddressCmdsNoFileWrites(a: seq<Cmd>, b: seq<Cmd>)
    requires forall k :: 0 <= k < |a| ==> a[k].AddressAdd?
    requires forall k :: 0 <= k < |b| ==> b[k].AddressDelete?
    ensures FileWrites(a + b) == []
  {
    NoFileWrites(a);
    NoFileWrites(b);
    NoWritesConcat(a, b);
  }

  lemma LinkCmdsNoFileWrites(x: seq<Cmd>, y: seq<Cmd>, z: seq<Cmd>)
    requires |x| <= 1 && |y| <= 1 && |z| <= 1
    requires forall c :: c in x + y + z ==> !c.SysWrite?
    ensures FileWrites(x + y + z) == []
  {
    NoFileWrites(x + y + z);
  }

  lemma NoWritesConcat(a: seq<Cmd>, b: seq<Cmd>)
    requires FileWrites(a) == [] && FileWrites(b) == []
    ensures FileWrites(a + b) == []
  {
    FileWritesConcat(a, b);
  }

  /** Creating a bond writes to sysfs, in this order: what loading the
      module writes to `bonding_masters`, the `+name` registration, then the
      bond steps, and nothing after them. */
  lemma CreateBondWrites(fs: Sysfs, r: Resource, s: St)
    requires r.typ == Bonding && Writable(fs, MastersPath, "+" + r.name)
    ensures var s1 := Opened(s, r);
      FileWrites(Created(fs, r, s).0.log[|s.log|..]) ==
        FileWrites(ModuleLoaded(fs, s1).log[|s.log|..]) + [SysWrite(MastersPath, "+" + r.name)] +
        BondStepWrites(fs, r.name, r, BondSlaves(s.hash))
  {
    var s1 := Opened(s, r);
    var m := ModuleLoaded(fs, s1);
    var t := Finished(BondConfigured(fs, r, Registered(m, r.name)), r);
    assert Created(fs, r, s).0 == t;
    assert BondSlaves(m.hash) == BondSlaves(s.hash) by { assert m.hash == s1.hash; }
    BondTailWrites(fs, r, m);
    var w1 := FileWrites(m.log[|s.log|..]);
    var w2 := FileWrites(t.log[|m.log|..]);
    PrefixSlices(s.log, m.log, t.log);
    FileWritesConcat(m.log[|s.log|..], t.log[|m.log|..]);
    ConcatAssoc(w1, [SysWrite(MastersPath, "+" + r.name)], BondStepWrites(fs, r.name, r, BondSlaves(s.hash)));
  }

  /** After the module is loaded, a bond's creation writes the registration,
      then the bond steps, and nothing after them. */
  lemma BondTailWrites(fs: Sysfs, r: Resource, m: St)
    requires Type(m.hash) == Some(Bonding) && m.hash.name == Some(r.name)
    ensures var t := Finished(BondConfigured(fs, r, Registered(m, r.name)), r);
      m.log <= t.log &&
      FileWrites(t.log[|m.log|..]) ==
        [SysWrite(MastersPath, "+" + r.name)] + BondStepWrites(fs, r.name, r, BondSlaves(m.hash))
  {
    RegisteredConfiguredWrites(fs, r, m);
    FinishedKeepsWrites(m, BondConfigured(fs, r, Registered(m, r.name)), r);
  }

  /** Registering a bond and applying its options writes the registration,
      then the bond steps. */
  lemma RegisteredConfiguredWrites(fs: Sysfs, r: Resource, m: St)
    requires Type(m.hash) == Some(Bonding) && m.hash.name == Some(r.name)
    ensures var b := BondConfigured(fs, r, Registered(m, r.name));
      m.log <= b.log &&
      FileWrites(b.log[|m.log|..]) ==
        [SysWrite(MastersPath, "+" + r.name)] + BondStepWrites(fs, r.name, r, BondSlaves(m.hash))
  {
    var s2 := Registered(m, r.name);
    var b := BondConfigured(fs, r, s2);
    var reg: seq<Cmd> := [SysWrite(MastersPath, "+" + r.name)];
    BondConfiguredWrites(fs, r, s2);
    assert FileWrites(reg) == reg by { assert reg[1..] == []; }
    AppendRest(m.log, reg);
    PrefixSlices(m.log, s2.log, b.log);
    FileWritesConcat(reg, b.log[|s2.log|..]);
    PrefixTrans(m.log, s2.log, b.log);
  }

  /** The last steps of `create` add no sysfs write to those before them. */
  lemma FinishedKeepsWrites(m: St, b: St, r: Resource)
    requires m.log <= b.log
    ensures var t := Finished(b, r);
      m.log <= t.log && FileWrites(t.log[|m.log|..]) == FileWrites(b.log[|m.log|..])
  {
    var t := Finished(b, r);
    FinishedNoFileWrites(b, r);
    PrefixTrans(m.log, b.log, t.log);
    PrefixSlices(m.log, b.log, t.log);
    FileWritesConcat(b.log[|m.log|..], t.log[|b.log|..]);
  }

  /** The writes of four consecutive log extensions are those of each in turn. */
  lemma WritesSplit(a: seq<Cmd>, b: seq<Cmd>, c: seq<Cmd>, d: seq<Cmd>, e: seq<Cmd>)
    requires a <= b <= c <= d <= e
    ensures FileWrites(e[|a|..]) == FileWrites(b[|a|..]) + FileWrites(c[|b|..]) + FileWrites(d[|c|..]) + FileWrites(e[|d|..])
  {
    PrefixTrans(b, c, d);
    PrefixTrans(b, d, e);
    PrefixTrans(c, d, e);
    WritesSplit2(a, b, e);
    WritesSplit2(b, c, e);
    WritesSplit2(c, d, e);
    Assoc4(FileWrites(b[|a|..]), FileWrites(c[|b|..]), FileWrites(d[|c|..]), FileWrites(e[|d|..]));
  }

  /** The writes of two consecutive log extensions are those of each in turn. */
  lemma WritesSplit2(a: seq<Cmd>, b: seq<Cmd>, c: seq<Cmd>)
    requires a <= b && b <= c
    ensures FileWrites(c[|a|..]) == FileWrites(b[|a|..]) + FileWrites(c[|b|..])
  {
    PrefixSlices(a, b, c);
    FileWritesConcat(b[|a|..], c[|b|..]);
  }

  /** `create` ends with the state step: when a state is given, the last
      command sets it, and the record holds it. */
  lemma FinishedEndsWithState(s: St, r: Resource)
    requires r.state.Some?
    ensures var t := Finished(s, r);
      |t.log| > 0 && t.log[|t.log| - 1] == LinkSetState(s.hash.name, r.state.value) && State(t.hash) == r.state.value
  {
    var c := WithMac(WithMtu(WithIpaddress(s, r.ipaddress), r.mtu), r.mac);
    assert c.hash.name == s.hash.name;
  }

  /** The state is applied last: a created interface ends with the state
      command and records that state. */
  lemma CreateEndsWithState(fs: Sysfs, r: Resource, s: St)
    requires r.typ != Ethernet && Created(fs, r, s).1 == Done && r.state.Some?
    ensures var t := Created(fs, r, s).0;
      |t.log| > 0 && t.log[|t.log| - 1] == LinkSetState(Some(r.name), r.state.value) && State(t.hash) == r.state.value
  {
    var p := Prepared(fs, r, Opened(s, r));
    assert Created(fs, r, s).0 == Finished(p.0, r);
    FinishedEndsWithState(p.0, r);
  }

  /** A created interface other than ethernet exists afterwards, unless
      registering a bond failed. */
  lemma ExistsAfterCreate(fs: Sysfs, r: Resource, s: St)
    requires r.typ != Ethernet && Created(fs, r, s).1 == Done
    ensures IsPresent(Created(fs, r, s).0.hash) && Type(Created(fs, r, s).0.hash) == Some(r.typ)
  {
    var p := Prepared(fs, r, Opened(s, r));
    assert Created(fs, r, s).0 == Finished(p.0, r);
  }

  /** Destroying an interface that does not exist changes nothing;
      destroying one that exists brings it down first, deletes a bond or
      vlan link last, and leaves nothing present. */
  lemma DestroyEffect(fs: Sysfs, s: St)
    ensures !InterfaceExists(fs, s.hash.name) ==> Destroyed(fs, s) == s
    ensures InterfaceExists(fs, s.hash.name) ==>
      var t := Destroyed(fs, s);
      !IsPresent(t.hash) && s.log <= t.log && |t.log| > |s.log| &&
      t.log[|s.log|] == LinkSetState(s.hash.name, Down) &&
      (Type(s.hash) == Some(Bonding) ==> t.log[|t.log| - 1] == LinkDelete(s.hash.name, "bond")) &&
      (Type(s.hash) == Some(Vlan) ==> t.log[|t.log| - 1] == LinkDelete(s.hash.name, "vlan"))
  {
    if InterfaceExists(fs, s.hash.name) {
      var s1 := WithState(s, Some(Down));
      assert s1.log == s.log + [LinkSetState(s.hash.name, Down)];
      if Type(s1.hash) == Some(Bonding) {
        var d := SlavesDeleted(fs, s1, BondName(s1), BondSlaves(s1.hash));
        var t := Destroyed(fs, s);
        assert t.log == d.log + [LinkDelete(s.hash.name, "bond")];
        assert t.log[|s.log|] == d.log[..|s1.log|][|s.log|];
      }
    }
  }

  /** The writes `destroy_bonding` means to make: `-slave` to the bond's
      `slaves` file for each recorded slave that exists and whose write does
      not fail, in order; none without a bonding directory. */
  function ReleaseWrites(fs: Sysfs, s: St): seq<Cmd> {
    if BondName(s) in fs.bondingDirs
    then WritesOf(BondingFile(BondName(s), "slaves"), ExpectedWrites(fs, BondName(s), BondSlaves(s.hash), "-"))
    else []
  }

  /** Releasing slaves writes exactly the `-` writes of the existing ones. */
  lemma SlavesDeletedFileWrites(fs: Sysfs, s: St, bond: string, slaves: seq<string>)
    ensures FileWrites(SlavesDeleted(fs, s, bond, slaves).log[|s.log|..]) ==
      if bond in fs.bondingDirs then WritesOf(BondingFile(bond, "slaves"), ExpectedWrites(fs, bond, slaves, "-")) else []
  {
    var t := SlavesDeleted(fs, s, bond, slaves);
    if slaves == [] || bond !in fs.bondingDirs {
      assert t.log[|s.log|..] == [];
    } else {
      ManageLoopFileWrites(fs, s, bond, slaves, "-");
    }
  }

  /** `destroy_bonding`, corrected, writes nothing to sysfs but the release
      of the slaves; the link delete that follows is no file write. */
  lemma BondDestroyedFileWrites(fs: Sysfs, s: St)
    ensures FileWrites(BondDestroyed(fs, s).log[|s.log|..]) == ReleaseWrites(fs, s)
  {
    var d := SlavesDeleted(fs, s, BondName(s), BondSlaves(s.hash));
    var del: seq<Cmd> := [LinkDelete(s.hash.name, "bond")];
    var t := BondDestroyed(fs, s);
    assert t.log == d.log + del;
    AppendRest(d.log, del);
    PrefixSlices(s.log, d.log, t.log);
    SlavesDeletedFileWrites(fs, s, BondName(s), BondSlaves(s.hash));
    FileWritesConcat(d.log[|s.log|..], del);
    assert FileWrites(del) == [] by { assert del[1..] == []; }
  }

  /** `destroy` writes to sysfs only when it destroys an existing bond, and
      then exactly the release of its slaves. */
  lemma DestroyFileWrites(fs: Sysfs, s: St)
    ensures FileWrites(Destroyed(fs, s).log[|s.log|..]) ==
      if InterfaceExists(fs, s.hash.name) && Type(s.hash) == Some(Bonding) then ReleaseWrites(fs, s) else []
  {
    var t := Destroyed(fs, s);
    if !InterfaceExists(fs, s.hash.name) {
      assert t.log[|s.log|..] == [];
    } else {
      var s1 := WithState(s, Some(Down));
      var down: seq<Cmd> := [LinkSetState(s.hash.name, Down)];
      assert s1.log == s.log + down;
      AppendRest(s.log, down);
      assert FileWrites(down) == [] by { assert down[1..] == []; }
      if Type(s.hash) == Some(Bonding) {
        var s2 := BondDestroyed(fs, s1);
        assert t.log == s2.log;
        BondDestroyedFileWrites(fs, s1);
        assert ReleaseWrites(fs, s1) == ReleaseWrites(fs, s);
        PrefixSlices(s.log, s1.log, s2.log);
        FileWritesConcat(down, s2.log[|s1.log|..]);
      } else if Type(s.hash) == Some(Vlan) {
        var del: seq<Cmd> := [LinkDelete(s.hash.name, "vlan")];
        assert t.log == s.log + (down + del);
        AppendRest(s.log, down + del);
        FileWritesConcat(down, del);
        assert FileWrites(del) == [] by { assert del[1..] == []; }
      } else {
        assert t.log == s1.log;
      }
    }
  }

  /** As written, destroying an existing bond raises: the bond is brought
      down but its link is not deleted and it still counts as present. */
  lemma DestroyBondAsWritten(fs: Sysfs, s: St)
    requires InterfaceExists(fs, s.hash.name) && Type(s.hash) == Some(Bonding) && IsPresent(s.hash)
    ensures var p := DestroyedAsWritten(fs, s);
      p.1.Raised? && IsPresent(p.0.hash) && p.0.log == s.log + [LinkSetState(s.hash.name, Down)] &&
      forall c :: c in p.0.log[|s.log|..] ==> !c.LinkDelete?
  {
    var p := DestroyedAsWritten(fs, s);
    assert p.0.log[|s.log|..] == [LinkSetState(s.hash.name, Down)];
  }

  /** The bond getters read keys discovery never fills in, so a discovered
      bond reports every bonding option as absent, whatever sysfs says. */
  lemma DiscoveredBondOptionsAbsent(fs: Sysfs, h: Discovery.Header)
    requires Discovery.Seed(fs, h).Ok?
    ensures var r := Discovery.Seed(fs, h).value;
      BondMode(r).None? && BondMiimon(r).None? && BondLacpRate(r).None? && BondXmitHashPolicy(r).None?
  {
  }

  // ---------------------------------------------------------------------
  // The provider object

  /** The `ip address add` loop of `ipaddress=`, one command per address in order. */
  method AddAddresses(adds: seq<string>, dev: Option<string>) returns (issued: seq<Cmd>)
    ensures issued == AddCmds(adds, dev)
  {
    issued := [];
    var i := 0;
    while i < |adds|
      invariant 0 <= i <= |adds|
      invariant issued == AddCmds(adds[..i], dev)
    {
      assert adds[..i + 1][..i] == adds[..i];
      issued := issued + [AddressAdd(adds[i], dev)];
      i := i + 1;
    }
    assert adds[..|adds|] == adds;
  }

  /** The `ip address delete` loop of `ipaddress=`, one command per address in order. */
  method DeleteAddresses(dels: seq<string>, dev: Option<string>) returns (deleted: seq<Cmd>)
    ensures deleted == DeleteCmds(dels, dev)
  {
    deleted := [];
    var i := 0;
    while i < |dels|
      invariant 0 <= i <= |dels|
      invariant deleted == DeleteCmds(dels[..i], dev)
    {
      assert dels[..i + 1][..i] == dels[..i];
      deleted := deleted + [AddressDelete(dels[i], dev)];
      i := i + 1;
    }
    assert dels[..|dels|] == dels;
  }

  class Provider {
    var hash: Props
    var stateHash: map<string, string>
    var saved: Option<AdminState>
    var log: seq<Cmd>
    const resource: Resource
    const fs: Sysfs

    function Snapshot(): St reads this { St(hash, stateHash, saved, log) }

    /** A provider for `resource` starting from the property hash `hash`
        (empty for a new interface, a discovered record otherwise). */
    constructor(resource: Resource, fs: Sysfs, hash: Props)
      ensures this.resource == resource && this.fs == fs
      ensures Snapshot() == St(hash, map[], None, [])
    {
      this.resource := resource;
      this.fs := fs;
      this.hash := hash;
      stateHash := map[];
      saved := None;
      log := [];
    }

    function Exists(): bool reads this { IsPresent(hash) }

    method SetIpaddress(value: seq<string>)
      modifies this
      ensures Snapshot() == WithIpaddress(old(Snapshot()), value)
    {
      var current := Ipaddress(hash);
      var issued := AddAddresses(Difference(value, current), hash.name);
      var deleted := DeleteAddresses(Difference(current, value), hash.name);
      log := log + issued + deleted;
      hash := hash.(ipaddress := Some(value));
    }

    method SetMac(value: Option<string>)
      modifies this
      ensures Snapshot() == WithMac(old(Snapshot()), value)
    {
      if value.None? { return; }
      log := log + [LinkSetAddress(hash.name, value.value)];
      hash := hash.(mac := value);
    }

    method SetMtu(value: Option<int>)
      modifies this
      ensures Snapshot() == WithMtu(old(Snapshot()), value)
    {
      if value.None? { return; }
      log := log + [LinkSetMtu(hash.name, IntText(value.value))];
      hash := hash.(mtu := value);
    }

    method SetState(value: Option<AdminState>)
      modifies this
      ensures Snapshot() == WithState(old(Snapshot()), value)
    {
      if value.Some? {
        log := log + [LinkSetState(hash.name, value.value)];
      }
      hash := hash.(state := value);
    }

    method SetType(value: Option<IfType>)
      modifies this
      ensures Snapshot() == WithType(old(Snapshot()), value)
    {
      hash := hash.(typ := value);
    }

    method SetParent(value: Option<string>)
      modifies this
      ensures Snapshot() == WithParent(old(Snapshot()), value)
    {
      hash := hash.(parent := value);
    }

    method SetVlanid(value: Option<int>)
      modifies this
      ensures Snapshot() == WithVlanid(old(Snapshot()), value)
    {
      if Type(hash) != Some(Vlan) { return; }
      log := log + [LinkAddVlan(hash.name, hash.parent, OptIntText(value))];
      hash := hash.(vlanid := value);
    }

    method WriteFile(path: string, value: string)
      modifies this
      ensures Snapshot() == Write(fs, old(Snapshot()), path, value)
    {
      if Writable(fs, path, value) {
        log := log + [SysWrite(path, value)];
      }
    }

    method SaveStateAndShutdown()
      modifies this
      ensures Snapshot() == Saved(old(Snapshot()))
    {
      if State(hash) == Up {
        saved := Some(Up);
        SetState(Some(Down));
      }
    }

    method RestoreState()
      modifies this
      ensures Snapshot() == Restored(old(Snapshot()))
    {
      SetState(saved);
    }

    method SetBondLacpRate(value: Option<string>)
      modifies this
      ensures Snapshot() == WithBondLacpRate(fs, old(Snapshot()), value)
    {
      if Type(hash) != Some(Bonding) { return; }
      var path := BondingFile(OptText(hash.name), "lacp_rate");
      SaveStateAndShutdown();
      WriteFile(path, OptText(value));
      RestoreState();
      hash := hash.(lacpRate := value);
    }

    method SetBondMiimon(value: Option<Value>)
      modifies this
      ensures Snapshot() == WithBondMiimon(fs, old(Snapshot()), value)
    {
      if Type(hash) != Some(Bonding) { return; }
      WriteFile(BondingFile(OptText(hash.name), "miimon"), OptValueText(value));
      hash := hash.(miimon := value);
    }

    method SetBondMode(value: Option<string>)
      modifies this
      ensures Snapshot() == WithBondMode(fs, old(Snapshot()), value)
    {
      if Type(hash) != Some(Bonding) { return; }
      WriteFile(BondingFile(OptText(hash.name), "mode"), OptText(value));
      hash := hash.(mode := value);
    }

    method SetBondXmitHashPolicy(value: Option<string>)
      modifies this
      ensures Snapshot() == WithBondXmitHashPolicy(fs, old(Snapshot()), value)
    {
      if Type(hash) != Some(Bonding) { return; }
      WriteFile(BondingFile(OptText(hash.name), "xmit_hash_policy"), OptText(value));
      hash := hash.(xmitHashPolicy := value);
    }

    method GetInterfaceState(name: string) returns (v: string)
      modifies this
      ensures (v, Snapshot()) == Memo(fs, old(Snapshot()), name)
    {
      if name !in stateHash {
        var content := ReadFile(fs, OperstatePath(name));
        var read := if content.Some? then Strip(content.value) else "down";
        stateHash := stateHash[name := read];
      }
      v := stateHash[name];
    }

    method ManageBondSlaves(bond: string, slaves: seq<string>, prefix: string)
      modifies this
      ensures Snapshot() == Managed(fs, old(Snapshot()), bond, slaves, prefix)
    {
      if bond !in fs.bondingDirs { return; }
      var i := 0;
      assert slaves[i..] == slaves;
      while i < |slaves|
        invariant 0 <= i <= |slaves|
        invariant ManageLoop(fs, Snapshot(), bond, slaves[i..], prefix) == ManageLoop(fs, old(Snapshot()), bond, slaves, prefix)
      {
        var slave := slaves[i];
        ghost var before := Snapshot();
        if slave in fs.links {
          var st := GetInterfaceState(slave);
          if st == "up" {
            log := log + [LinkSetState(Some(slave), Down)];
          }
          WriteFile(BondingFile(bond, "slaves"), prefix + slave);
          var again := GetInterfaceState(slave);
          if again == "up" {
            log := log + [LinkSetState(Some(slave), Up)];
          }
        }
        assert Snapshot() == ManageOne(fs, before, bond, slave, prefix);
        assert slaves[i..][0] == slave && slaves[i..][1..] == slaves[i + 1..];
        i := i + 1;
      }
    }

    method AddBondSlaves(bond: string, slaves: seq<string>)
      modifies this
      ensures Snapshot() == SlavesAdded(fs, old(Snapshot()), bond, slaves)
    {
      if slaves != [] { ManageBondSlaves(bond, slaves, "+"); }
    }

    method DeleteBondSlaves(bond: string, slaves: seq<string>)
      modifies this
      ensures Snapshot() == SlavesDeleted(fs, old(Snapshot()), bond, slaves)
    {
      if slaves != [] { ManageBondSlaves(bond, slaves, "-"); }
    }

    method SyncBondSlaves(bond: string, current: seq<string>, should: seq<string>)
      modifies this
      ensures Snapshot() == Synced(fs, old(Snapshot()), bond, current, should)
    {
      AddBondSlaves(bond, Difference(should, current));
      DeleteBondSlaves(bond, Difference(current, should));
    }

    method SetBondSlaves(value: seq<string>)
      modifies this
      ensures Snapshot() == WithBondSlaves(fs, old(Snapshot()), value)
    {
      if Type(hash) != Some(Bonding) { return; }
      SaveStateAndShutdown();
      SyncBondSlaves(OptText(hash.name), BondSlaves(hash), value);
      RestoreState();
      hash := hash.(bondSlaves := Some(value));
    }

    method CreateBonding() returns (outcome: Outcome)
      modifies this
      ensures (Snapshot(), outcome) == BondCreated(fs, resource, old(Snapshot()))
    {
      if !fs.mastersPresent {
        log := log + [ModprobeBonding];
        var content := ReadFile(fs, MastersPath);
        if content.Some? {
          var bonds := Split(content.value, IsSpace);
          ghost var start := Snapshot();
          var i := 0;
          var stopped := false;
          assert bonds[i..] == bonds;
          while i < |bonds| && !stopped
            invariant 0 <= i <= |bonds|
            decreases |bonds| - i, if stopped then 0 else 1
            invariant DefaultsRemoved(fs, Snapshot(), bonds[i..]) == DefaultsRemoved(fs, start, bonds)
            invariant stopped ==> DefaultsRemoved(fs, Snapshot(), bonds[i..]) == Snapshot()
          {
            assert bonds[i..][0] == bonds[i] && bonds[i..][1..] == bonds[i + 1..];
            if !Writable(fs, MastersPath, "-" + bonds[i]) {
              stopped := true;
            } else {
              log := log + [SysWrite(MastersPath, "-" + bonds[i])];
              i := i + 1;
            }
          }
          assert !stopped ==> bonds[i..] == [];
        }
      }
      var add := "+" + resource.name;
      if !Writable(fs, MastersPath, add) {
        return Raised("write to bonding_masters failed");
      }
      log := log + [SysWrite(MastersPath, add)];
      SetBondMode(resource.bondMode);
      SetBondMiimon(resource.bondMiimon);
      SetBondLacpRate(resource.bondLacpRate);
      SetBondXmitHashPolicy(resource.bondXmitHashPolicy);
      SetBondSlaves(resource.bondSlaves);
      outcome := Done;
    }

    method CreateVlan()
      modifies this
      ensures Snapshot() == VlanCreated(old(Snapshot()), resource)
    {
      SetParent(resource.parent);
      SetVlanid(resource.vlanid);
    }

    method Create() returns (outcome: Outcome)
      modifies this
      ensures (Snapshot(), outcome) == Created(fs, resource, old(Snapshot()))
    {
      if resource.typ == Ethernet { return Done; }
      hash := hash.(name := Some(resource.name), ensure := true);
      SetType(Some(resource.typ));
      if resource.typ == Vlan {
        CreateVlan();
      } else if resource.typ == Bonding {
        outcome := CreateBonding();
        if outcome.Raised? { return; }
      }
      SetIpaddress(resource.ipaddress);
      SetMtu(resource.mtu);
      SetMac(resource.mac);
      SetState(resource.state);
      outcome := Done;
    }

    method DestroyBonding()
      modifies this
      ensures Snapshot() == BondDestroyed(fs, old(Snapshot()))
    {
      var name := hash.name;
      DeleteBondSlaves(OptText(name), BondSlaves(hash));
      log := log + [LinkDelete(name, "bond")];
    }

    method Destroy()
      modifies this
      ensures Snapshot() == Destroyed(fs, old(Snapshot()))
    {
      if !(hash.name.Some? && hash.name.value in fs.links) { return; }
      SetState(Some(Down));
      if Type(hash) == Some(Bonding) {
        DestroyBonding();
      } else if Type(hash) == Some(Vlan) {
        log := log + [LinkDelete(hash.name, "vlan")];
      }
      hash := EmptyProps;
    }
  }
}
