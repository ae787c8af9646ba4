/** The `iproute2` provider of network routes: looking a route up in the
    output of `ip route list`, prefetching, and the `ip route` commands for
    creating, destroying and changing a route. */
module RouteProvider {
  import opened Text

  /** What a matching line of `ip route list` supplies. */
  datatype RouteLine = RouteLine(prefix: string, nexthop: Option<string>, device: Option<string>)

  /** The provider's property hash; `None` stands for a missing key, which
      the generated getters report as `:absent`. */
  datatype RouteProps = RouteProps(
    ensure: bool, name: Option<string>, prefix: Option<string>, metric: Option<int>,
    device: Option<string>, nexthop: Option<string>)

  const EmptyRoute := RouteProps(false, None, None, None, None, None)

  /** A route resource, after validation and munging. */
  datatype Route = Route(title: string, prefix: string, metric: nat, device: Option<string>, nexthop: Option<string>)

  /** `resource.to_hash`: the resource's own attributes, present. */
  function ToHash(r: Route): (h: RouteProps)
    ensures h.ensure && h.prefix == Some(r.prefix) && h.metric == Some(r.metric as int)
    ensures h.device == r.device && h.nexthop == r.nexthop
  {
    RouteProps(true, Some(r.title), Some(r.prefix), Some(r.metric), r.device, r.nexthop)
  }

  function MetricText(m: int): string { ValueText(IntV(m)) }

  // ---------------------------------------------------------------------
  // Recognising a route line

  /** The words of a route line before any metric: the prefix, then
      `via` and the next hop, then `dev` and the device, each pair optional. */
  function BodyTokens(l: RouteLine): seq<string> {
    [l.prefix] + (if l.nexthop.Some? then ["via", l.nexthop.value] else [])
      + (if l.device.Some? then ["dev", l.device.value] else [])
  }

  /** The pattern `(\S+)(?:\s+via\s+(\S+))?(?:\s+dev\s+(\S+))?` on the words
      of a stripped line. */
  function MatchBody(toks: seq<string>): Option<RouteLine> {
    if |toks| == 1 then Some(RouteLine(toks[0], None, None))
    else if |toks| == 3 && toks[1] == "via" then Some(RouteLine(toks[0], Some(toks[2]), None))
    else if |toks| == 3 && toks[1] == "dev" then Some(RouteLine(toks[0], None, Some(toks[2])))
    else if |toks| == 5 && toks[1] == "via" && toks[3] == "dev" then Some(RouteLine(toks[0], Some(toks[2]), Some(toks[4])))
    else None
  }

  /** The body pattern accepts exactly the words `BodyTokens` lays out, and
      reads the same route back. */
  lemma BodyRoundTrip(l: RouteLine)
    ensures MatchBody(BodyTokens(l)) == Some(l)
  {
  }

  lemma BodyShape(toks: seq<string>)
    requires MatchBody(toks).Some?
    ensures toks == BodyTokens(MatchBody(toks).value)
  {
  }

  /** The words of a line match for metric 0 when they are a body alone,
      and for any other metric when they are a body followed by `metric`
      and that metric's digits. */
  function MatchTokens(toks: seq<string>, metric: int): Option<RouteLine> {
    if metric == 0 then MatchBody(toks)
    else if |toks| >= 2 && toks[|toks| - 2] == "metric" && toks[|toks| - 1] == MetricText(metric)
    then MatchBody(toks[..|toks| - 2])
    else None
  }

  /** A line of `ip route list`, stripped and split into words. */
  function MatchRoute(line: string, metric: int): Option<RouteLine> {
    MatchTokens(Words(Strip(line)), metric)
  }

  predicate LineTokens(l: RouteLine) {
    IsToken(l.prefix) && (l.nexthop.Some? ==> IsToken(l.nexthop.value)) && (l.device.Some? ==> IsToken(l.device.value))
  }

  lemma BodyAllTokens(l: RouteLine, tail: seq<string>)
    requires LineTokens(l) && AllTokens(tail)
    ensures AllTokens(BodyTokens(l) + tail)
  {
  }

  /** The line `ip route list` shows for a route: its body, and the metric
      unless it is 0. */
  function ListedLine(l: RouteLine, metric: nat): string {
    Join(ListedTokens(l, metric))
  }

  lemma MetricToken(m: nat)
    ensures IsToken(MetricText(m))
  {
    var t := MetricText(m);
    assert Digits(t);
    forall i | 0 <= i < |t| ensures !IsStripped(t[i]) { assert IsDigit(t[i]); }
  }

  /** The words of a route's listed line, with the metric unless it is 0. */
  function ListedTokens(l: RouteLine, metric: nat): seq<string> {
    BodyTokens(l) + (if metric == 0 then [] else ["metric", MetricText(metric)])
  }

  lemma ListedTokensMatch(l: RouteLine, metric: nat)
    ensures MatchTokens(ListedTokens(l, metric), metric) == Some(l)
  {
    var toks := ListedTokens(l, metric);
    if metric != 0 {
      assert toks[..|toks| - 2] == BodyTokens(l);
    } else {
      assert toks == BodyTokens(l);
    }
  }

  /** Words joined into a line read back as the same words. */
  lemma MatchJoined(toks: seq<string>, metric: int)
    requires AllTokens(toks)
    ensures MatchRoute(Join(toks), metric) == MatchTokens(toks, metric)
  {
    JoinWords(toks);
  }

  /** The listed line of a route is recognised, for its own metric, as that
      route. */
  lemma ListedLineMatches(l: RouteLine, metric: nat)
    requires LineTokens(l)
    ensures MatchRoute(ListedLine(l, metric), metric) == Some(l)
  {
    MetricToken(metric);
    BodyAllTokens(l, if metric == 0 then [] else ["metric", MetricText(metric)]);
    MatchJoined(ListedTokens(l, metric), metric);
    ListedTokensMatch(l, metric);
  }

  /** A body followed by a metric is not a body. */
  lemma BodyWithMetric(l: RouteLine, m: string)
    ensures MatchBody(BodyTokens(l) + ["metric", m]).None?
  {
    var toks := BodyTokens(l) + ["metric", m];
    if l.nexthop.Some? && l.device.Some? {
      assert toks == [l.prefix, "via", l.nexthop.value, "dev", l.device.value, "metric", m];
    } else if l.nexthop.Some? {
      assert toks == [l.prefix, "via", l.nexthop.value, "metric", m];
    } else if l.device.Some? {
      assert toks == [l.prefix, "dev", l.device.value, "metric", m];
    } else {
      assert toks == [l.prefix, "metric", m];
    }
  }

  /** For metric 0, a line that ends in a metric never matches. */
  lemma MetricZeroNeedsNoMetric(l: RouteLine, m: string)
    requires LineTokens(l) && IsToken(m)
    ensures MatchRoute(Join(BodyTokens(l) + ["metric", m]), 0).None?
  {
    BodyAllTokens(l, ["metric", m]);
    MatchJoined(BodyTokens(l) + ["metric", m], 0);
    BodyWithMetric(l, m);
  }

  lemma MetricTokensExact(l: RouteLine, m: string, metric: int)
    requires metric != 0
    ensures MatchTokens(BodyTokens(l) + ["metric", m], metric).Some? <==> m == MetricText(metric)
  {
    var toks := BodyTokens(l) + ["metric", m];
    assert toks[..|toks| - 2] == BodyTokens(l);
  }

  /** For any other metric, the line must end in exactly that metric. */
  lemma MetricMustBeExact(l: RouteLine, m: string, metric: int)
    requires LineTokens(l) && IsToken(m) && metric != 0
    ensures MatchRoute(Join(BodyTokens(l) + ["metric", m]), metric).Some? <==> m == MetricText(metric)
  {
    BodyAllTokens(l, ["metric", m]);
    MatchJoined(BodyTokens(l) + ["metric", m], metric);
    MetricTokensExact(l, m, metric);
  }

  /** A line without a metric never matches a metric other than 0. */
  lemma NoMetricNeedsZero(l: RouteLine, metric: int)
    requires LineTokens(l) && metric != 0
    ensures MatchRoute(Join(BodyTokens(l)), metric).None?
  {
    BodyAllTokens(l, []);
    assert BodyTokens(l) + [] == BodyTokens(l);
    MatchJoined(BodyTokens(l), metric);
    BodyWithoutMetric(l, metric);
  }

  /** A body alone does not end in a metric. */
  lemma BodyWithoutMetric(l: RouteLine, metric: int)
    requires metric != 0
    ensures MatchTokens(BodyTokens(l), metric).None?
  {
    var toks := BodyTokens(l);
    if l.nexthop.Some? && l.device.Some? {
      assert toks == [l.prefix, "via", l.nexthop.value, "dev", l.device.value];
    } else if l.nexthop.Some? {
      assert toks == [l.prefix, "via", l.nexthop.value];
    } else if l.device.Some? {
      assert toks == [l.prefix, "dev", l.device.value];
    } else {
      assert toks == [l.prefix];
    }
  }

  /** Metric 1 does not match a line ending in `metric 100`. */
  lemma MetricOneIsNotHundred()
    ensures MetricText(1) != MetricText(100)
  {
    assert |NatToString(1)| == 1;
    assert |NatToString(10)| == 2;
    assert |NatToString(100)| == 3;
  }

  const KernelRoute: seq<string> := ["10.0.0.0/24", "dev", "eth0", "proto", "kernel", "scope", "link", "src", "10.0.0.1"]

  lemma KernelRouteTokens()
    ensures AllTokens(KernelRoute)
  {
    forall k | 0 <= k < |KernelRoute| ensures IsToken(KernelRoute[k]) {
      var t := KernelRoute[k];
      forall i | 0 <= i < |t| ensures !IsStripped(t[i]) {}
    }
  }

  /** The words of a line match only when they are exactly a route's body,
      followed by `metric` and the metric's text unless the metric is 0:
      any other word makes the line fail. */
  lemma MatchTokensShape(toks: seq<string>, metric: int)
    requires MatchTokens(toks, metric).Some?
    ensures var l := MatchTokens(toks, metric).value;
      toks == BodyTokens(l) + (if metric == 0 then [] else ["metric", MetricText(metric)])
  {
    if metric == 0 {
      BodyShape(toks);
      assert toks + [] == toks;
    } else {
      var body := toks[..|toks| - 2];
      BodyShape(body);
      assert toks == body + [toks[|toks| - 2], toks[|toks| - 1]];
    }
  }

  /** A line with further words (protocol, scope, source) never matches. */
  lemma ExtraWordsNeverMatch(metric: int)
    ensures MatchRoute(Join(KernelRoute), metric).None?
  {
    KernelRouteTokens();
    MatchJoined(KernelRoute, metric);
  }

  // ---------------------------------------------------------------------
  // Looking a route up

  /** The first line that matches. */
  function FirstRoute(lines: seq<string>, metric: int): (r: Option<RouteLine>)
    ensures r.None? <==> forall i :: 0 <= i < |lines| ==> MatchRoute(lines[i], metric).None?
  {
    if lines == [] then None
    else
      match MatchRoute(lines[0], metric)
      case Some(l) => Some(l)
      case None =>
        var r := FirstRoute(lines[1..], metric);
        assert forall i :: 1 <= i < |lines| ==> lines[i] == lines[1..][i - 1];
        r
  }

  /** The first matching line wins: later lines are ignored. */
  lemma {:induction false} FirstRouteAt(lines: seq<string>, metric: int, i: nat)
    requires i < |lines| && MatchRoute(lines[i], metric).Some?
    requires forall j :: 0 <= j < i ==> MatchRoute(lines[j], metric).None?
    ensures FirstRoute(lines, metric) == MatchRoute(lines[i], metric)
  {
    if i > 0 {
      FirstRouteAt(lines[1..], metric, i - 1);
    }
  }

  /** `get_provider_hash`: the record of the first line of the listing that
      matches the metric, named after the prefix and metric asked for. */
  function GetProviderHash(prefix: string, metric: int, output: string): (r: Option<RouteProps>)
    ensures r.None? <==> FirstRoute(Lines(output), metric).None?
    ensures r.Some? ==>
      var l := FirstRoute(Lines(output), metric).value;
      r.value == RouteProps(true, Some(prefix + " " + MetricText(metric)), Some(l.prefix), Some(metric), l.device, l.nexthop)
  {
    match FirstRoute(Lines(output), metric)
    case None => None
    case Some(l) => Some(RouteProps(true, Some(prefix + " " + MetricText(metric)), Some(l.prefix), Some(metric), l.device, l.nexthop))
  }

  /** The output of `ip route list <prefix>` on the host, by prefix. */
  function Listing(routes: map<string, string>, prefix: string): string {
    if prefix in routes then routes[prefix] else ""
  }

  /** `instance`: the provider for a resource's prefix and metric, or none. */
  function Instance(routes: map<string, string>, prefix: string, metric: int): Option<RouteProps> {
    GetProviderHash(prefix, metric, Listing(routes, prefix))
  }

  lemma LinesSingle(s: string)
    requires s != "" && forall i :: 0 <= i < |s| ==> s[i] != '\n'
    ensures Lines(s) == [s]
  {
    var j := Span(s, 0, (c: char) => !(c == '\n'));
    assert Fields(s, c => c == '\n') == [s];
  }

  /** A route listed on its own is found by `get_provider_hash` with all
      its parts. */
  lemma ListedRouteFound(l: RouteLine, metric: nat)
    requires LineTokens(l)
    ensures GetProviderHash(l.prefix, metric, ListedLine(l, metric)) ==
      Some(RouteProps(true, Some(l.prefix + " " + MetricText(metric)), Some(l.prefix), Some(metric), l.device, l.nexthop))
  {
    var s := ListedLine(l, metric);
    var body := BodyTokens(l);
    var tail := if metric == 0 then [] else ["metric", MetricText(metric)];
    MetricToken(metric);
    BodyAllTokens(l, tail);
    JoinEnds(body + tail);
    JoinNoNewline(body + tail);
    LinesSingle(s);
    ListedLineMatches(l, metric);
    assert Lines(s)[0] == s;
  }

  lemma {:induction false} JoinNoNewline(toks: seq<string>)
    requires AllTokens(toks)
    ensures forall i :: 0 <= i < |Join(toks)| ==> Join(toks)[i] != '\n'
    decreases |toks|
  {
    if |toks| > 1 {
      var rest := toks[1..];
      assert AllTokens(rest) by { assert forall k :: 0 <= k < |rest| ==> rest[k] == toks[k + 1]; }
      JoinNoNewline(rest);
      var t := toks[0];
      assert IsToken(t);
      assert Join(toks) == t + " " + Join(rest);
    } else if |toks| == 1 {
      assert IsToken(toks[0]);
    }
  }

  // ---------------------------------------------------------------------
  // Commands

  datatype RouteCommand = Add | Delete | Change

  function CommandText(c: RouteCommand): string {
    match c
    case Add => "add"
    case Delete => "delete"
    case Change => "change"
  }

  function AbsentText(v: Option<string>): string { if v.Some? then v.value else "absent" }
  function MetricOrAbsent(v: Option<int>): string { if v.Some? then MetricText(v.value) else "absent" }

  /** `get_ip_args`: `route`, the command and the prefix, then `via` and
      `dev` for whichever is present, and always the metric last. */
  function GetIpArgs(h: RouteProps, c: RouteCommand): seq<string> {
    ["route", CommandText(c), AbsentText(h.prefix)]
      + (if h.nexthop.Some? then ["via", h.nexthop.value] else [])
      + (if h.device.Some? then ["dev", h.device.value] else [])
      + ["metric", MetricOrAbsent(h.metric)]
  }

  function RouteLineOf(h: RouteProps): RouteLine { RouteLine(AbsentText(h.prefix), h.nexthop, h.device) }

  /** The arguments are `route`, the command, the route's line as listed
      with its metric, which the lookup recognises for that metric. */
  lemma IpArgsShape(h: RouteProps, c: RouteCommand)
    ensures var a := GetIpArgs(h, c);
      a == ["route", CommandText(c)] + BodyTokens(RouteLineOf(h)) + ["metric", MetricOrAbsent(h.metric)] &&
      |a| == 5 + (if h.nexthop.Some? then 2 else 0) + (if h.device.Some? then 2 else 0) &&
      a[|a| - 2] == "metric" &&
      (h.nexthop.Some? <==> a[3] == "via" && a[4] == h.nexthop.value) &&
      (h.device.Some? ==> a[|a| - 4] == "dev" && a[|a| - 3] == h.device.value)
  {
  }

  /** A route created with a metric other than 0 is found again by the
      lookup: the route part of the `add` command reads back as the route. */
  lemma AddedRouteFound(r: Route)
    requires r.metric != 0 && LineTokens(RouteLine(r.prefix, r.nexthop, r.device))
    ensures var a := GetIpArgs(ToHash(r), Add);
      MatchRoute(Join(a[2..]), r.metric) == Some(RouteLine(r.prefix, r.nexthop, r.device))
  {
    var h := ToHash(r);
    var a := GetIpArgs(h, Add);
    IpArgsShape(h, Add);
    var l := RouteLine(r.prefix, r.nexthop, r.device);
    assert RouteLineOf(h) == l;
    assert a[2..] == BodyTokens(l) + ["metric", MetricText(r.metric)];
    ListedLineMatches(l, r.metric);
  }

  // ---------------------------------------------------------------------
  // Description

  /** `to_S`: the words `prefix via nexthop`, then `dev device` and `metric
      m` when present, separated by single spaces. */
  function ToS(h: RouteProps): string {
    Join([AbsentText(h.prefix), "via", AbsentText(h.nexthop)]
      + (if h.device.Some? then ["dev", h.device.value] else [])
      + (if h.metric.Some? then ["metric", MetricText(h.metric.value)] else []))
  }

  /** For a route with a next hop and a metric, the description is the
      route part of its commands; without a next hop it says `via absent`
      where the commands leave `via` out. */
  lemma ToSIsCommandRoute(h: RouteProps, c: RouteCommand)
    ensures h.nexthop.Some? && h.metric.Some? ==> ToS(h) == Join(GetIpArgs(h, c)[2..])
    ensures h.nexthop.None? && h.metric.Some? ==>
      ToS(h) == Join([AbsentText(h.prefix), "via", "absent"] + GetIpArgs(h, c)[3..])
  {
    IpArgsShape(h, c);
    if h.nexthop.Some? && h.metric.Some? {
      assert GetIpArgs(h, c)[2..] == [AbsentText(h.prefix), "via", AbsentText(h.nexthop)]
        + (if h.device.Some? then ["dev", h.device.value] else [])
        + ["metric", MetricText(h.metric.value)];
    }
    if h.nexthop.None? && h.metric.Some? {
      var dev: seq<string> := if h.device.Some? then ["dev", h.device.value] else [];
      var met: seq<string> := ["metric", MetricText(h.metric.value)];
      assert GetIpArgs(h, c)[3..] == dev + met;
      assert [AbsentText(h.prefix), "via", "absent"] + (dev + met) == [AbsentText(h.prefix), "via", AbsentText(h.nexthop)] + dev + met;
    }
  }

  /** A changed device is what the next flush sends. */
  lemma FlushSendsNewDevice(h: RouteProps, d: string)
    ensures var a := GetIpArgs(h.(device := Some(d)), Change);
      a[1] == "change" && a[|a| - 4] == "dev" && a[|a| - 3] == d
  {
    IpArgsShape(h.(device := Some(d)), Change);
  }

  // ---------------------------------------------------------------------
  // Prefetch

  /** A resource being prefetched: its catalog name and its namevars. */
  datatype Wanted = Wanted(name: string, prefix: string, metric: nat)

  predicate DistinctNames(ws: seq<Wanted>) {
    forall i, j :: 0 <= i < j < |ws| ==> ws[i].name != ws[j].name
  }

  /** One resource of `prefetch`: bound to the provider of a found route. */
  function Bind(routes: map<string, string>, bound: map<string, RouteProps>, w: Wanted): (r: map<string, RouteProps>)
    ensures forall n :: n != w.name ==> (n in r <==> n in bound) && (n in bound ==> r[n] == bound[n])
  {
    match Instance(routes, w.prefix, w.metric)
    case Some(h) => bound[w.name := h]
    case None => bound
  }

  /** `prefetch` over the resources in order. */
  function Prefetched(routes: map<string, string>, ws: seq<Wanted>, bound: map<string, RouteProps>): map<string, RouteProps>
    decreases |ws|
  {
    if ws == [] then bound else Prefetched(routes, ws[1..], Bind(routes, bound, ws[0]))
  }

  /** A resource no prefetched entry names keeps its provider. */
  lemma {:induction false} PrefetchKeeps(routes: map<string, string>, ws: seq<Wanted>, bound: map<string, RouteProps>, n: string)
    requires forall i :: 0 <= i < |ws| ==> ws[i].name != n
    ensures var r := Prefetched(routes, ws, bound);
      (n in r <==> n in bound) && (n in bound ==> r[n] == bound[n])
    decreases |ws|
  {
    if ws != [] {
      PrefetchKeeps(routes, ws[1..], Bind(routes, bound, ws[0]), n);
    }
  }

  /** A resource whose route is found is bound to the provider built from
      that route; one whose route is not found keeps its provider. */
  lemma {:induction false} PrefetchBinds(routes: map<string, string>, ws: seq<Wanted>, bound: map<string, RouteProps>, i: nat)
    requires DistinctNames(ws) && i < |ws|
    ensures var r := Prefetched(routes, ws, bound);
      var found := Instance(routes, ws[i].prefix, ws[i].metric);
      (found.Some? ==> ws[i].name in r && r[ws[i].name] == found.value) &&
      (found.None? ==>
         (ws[i].name in r <==> ws[i].name in bound) &&
         (ws[i].name in bound ==> r[ws[i].name] == bound[ws[i].name]))
    decreases |ws|
  {
    var rest := ws[1..];
    assert forall k :: 0 <= k < |rest| ==> rest[k] == ws[k + 1];
    if i == 0 {
      PrefetchKeeps(routes, rest, Bind(routes, bound, ws[0]), ws[0].name);
    } else {
      PrefetchBinds(routes, rest, Bind(routes, bound, ws[0]), i - 1);
      assert rest[i - 1] == ws[i];
      assert ws[0].name != ws[i].name;
    }
  }

  /** `prefetch`: bind each resource whose route the host lists. */
  method Prefetch(routes: map<string, string>, resources: seq<Wanted>, bound: map<string, RouteProps>)
    returns (r: map<string, RouteProps>)
    ensures r == Prefetched(routes, resources, bound)
  {
    r := bound;
    var k := 0;
    assert resources[k..] == resources;
    while k < |resources|
      invariant 0 <= k <= |resources|
      invariant Prefetched(routes, resources[k..], r) == Prefetched(routes, resources, bound)
    {
      var w := resources[k];
      var found := Instance(routes, w.prefix, w.metric);
      if found.Some? {
        r := r[w.name := found.value];
      }
      assert resources[k..][1..] == resources[k + 1..];
      k := k + 1;
    }
  }

  // ---------------------------------------------------------------------
  // The provider object

  class Provider {
    var hash: RouteProps
    var log: seq<seq<string>>
    const resource: Route

    /** A provider for `resource`, built from a prefetched hash or empty. */
    constructor(resource: Route, hash: RouteProps)
      ensures this.resource == resource && this.hash == hash && log == []
    {
      this.resource := resource;
      this.hash := hash;
      log := [];
    }

    function Exists(): bool reads this { hash.ensure }

    /** `create`: take the resource's values and add the route; a failing
        command is only reported. */
    method Create()
      modifies this
      ensures hash == ToHash(resource) && Exists()
      ensures log == old(log) + [GetIpArgs(ToHash(resource), Add)]
    {
      hash := ToHash(resource);
      log := log + [GetIpArgs(hash, Add)];
    }

    /** `destroy`: delete the route as currently known, then forget it. */
    method Destroy()
      modifies this
      ensures hash == EmptyRoute && !Exists()
      ensures log == old(log) + [GetIpArgs(old(hash), Delete)]
    {
      log := log + [GetIpArgs(hash, Delete)];
      hash := EmptyRoute;
    }

    /** `flush`: change the route to the current values. */
    method Flush()
      modifies this
      ensures hash == old(hash)
      ensures log == old(log) + [GetIpArgs(hash, Change)]
    {
      log := log + [GetIpArgs(hash, Change)];
    }

    /** The generated setter for `device`. */
    method SetDevice(value: string)
      modifies this
      ensures hash == old(hash).(device := Some(value)) && log == old(log)
    {
      hash := hash.(device := Some(value));
    }

    /** The generated setter for `nexthop`. */
    method SetNexthop(value: string)
      modifies this
      ensures hash == old(hash).(nexthop := Some(value)) && log == old(log)
    {
      hash := hash.(nexthop := Some(value));
    }
  }
}
