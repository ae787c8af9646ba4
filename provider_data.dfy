/** What the network interface provider works on: the part of
    `/sys/class/net` it reads and writes, the commands it runs, and its
    property hash. */
module ProviderData {
  import opened Text
  import opened Network

  /** The sysfs tree as the provider sees it during one operation:
      `links` are the interfaces present (`/sys/class/net/<name>` is a
      symlink), `bondingDirs` those with a `bonding` directory,
      `mastersPresent` whether `bonding_masters` exists before the bonding
      module is loaded, `files` the readable files by path (as they read
      after the module is loaded), and `failing` the writes, as path and
      text, that raise. */
  datatype Sysfs = Sysfs(
    links: set<string>,
    bondingDirs: set<string>,
    mastersPresent: bool,
    files: map<string, string>,
    failing: set<(string, string)>)

  const NetDir: string := "/sys/class/net/"
  const MastersPath: string := "/sys/class/net/bonding_masters"

  function BondingFile(bond: string, file: string): string { NetDir + bond + "/bonding/" + file }
  function OperstatePath(name: string): string { NetDir + name + "/operstate" }

  /** `File.read`: `None` when the file is missing (the read raises). */
  function ReadFile(fs: Sysfs, path: string): Option<string> {
    if path in fs.files then Some(fs.files[path]) else None
  }

  /** The external commands the provider runs, with their arguments: `ip`
      invocations, `modprobe bonding`, and writes to sysfs files that did
      not raise. `dev` is the interface name from the property hash, which
      may be missing. */
  datatype Cmd =
    | AddressAdd(addr: string, dev: Option<string>)
    | AddressDelete(addr: string, dev: Option<string>)
    | LinkSetAddress(dev: Option<string>, mac: string)
    | LinkSetMtu(dev: Option<string>, mtu: string)
    | LinkSetState(dev: Option<string>, state: AdminState)
    | LinkAddVlan(name: Option<string>, parent: Option<string>, id: string)
    | LinkDelete(dev: Option<string>, kind: string)
    | ModprobeBonding
    | SysWrite(path: string, value: string)

  /** The property hash of one interface. `bondMode` ... `bondSlaves` are
      the keys discovery fills in; `mode`, `miimon`, `lacpRate` and
      `xmitHashPolicy` are the keys the bond setters write and the bond
      getters read. */
  datatype Props = Props(
    ensure: bool,
    name: Option<string>,
    typ: Option<IfType>,
    mtu: Option<int>,
    state: Option<AdminState>,
    ipaddress: Option<seq<string>>,
    mac: Option<string>,
    parent: Option<string>,
    vlanid: Option<int>,
    bondMode: Option<string>,
    bondMiimon: Option<int>,
    bondLacpRate: Option<string>,
    bondXmitHashPolicy: Option<string>,
    bondSlaves: Option<seq<string>>,
    mode: Option<string>,
    miimon: Option<Value>,
    lacpRate: Option<string>,
    xmitHashPolicy: Option<string>)

  const EmptyProps: Props :=
    Props(false, None, None, None, None, None, None, None, None, None, None, None, None, None, None, None, None, None)

  /** Whether writing `value` to `path` succeeds. */
  predicate Writable(fs: Sysfs, path: string, value: string) { (path, value) !in fs.failing }

  /** Ruby's `to_s` on a value that may be nil. */
  function OptText(v: Option<string>): string { v.GetOr("") }
}
