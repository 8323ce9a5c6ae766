/**
 * The pure parts of `KubernetesService`: the age of an object in days, the
 * port and replica strings, and the per-item shaping of pods, deployments and
 * services. The API clients that list the items are not part of this model;
 * each listing is a parameter.
 */
module KubernetesService {
  import opened Wrappers
  import opened JsMath
  import opened JsText
  import opened JsArray

  const DayMs: int := 1000 * 60 * 60 * 24
  const UnderADay: string := "<1d"

  /** Whole days between the creation timestamp and now, floored. */
  function AgeInDays(now: int, created: int): int {
    FloorDiv(now - created, DayMs)
  }

  /** `_calculateAge`: "<1d" exactly when the day count is 0, otherwise "<days>d". */
  function CalculateAge(now: int, created: int): (age: string)
    ensures age == UnderADay <==> AgeInDays(now, created) == 0
    ensures age != UnderADay ==> age == IntToString(AgeInDays(now, created)) + "d"
  {
    var days := AgeInDays(now, created);
    if days == 0 then UnderADay
    else
      var age := IntToString(days) + "d";
      assert age[0] != '<';
      age
  }

  /** Anything created less than a day ago shows as "<1d". */
  lemma AgeUnderOneDay(now: int, created: int)
    requires 0 <= now - created < DayMs
    ensures CalculateAge(now, created) == UnderADay
  {
    FloorDivUnique(now - created, DayMs, 0);
  }

  /** As time passes, the day count of an object never goes down. */
  lemma AgeInDaysMonotone(created: int, now: int, later: int)
    requires now <= later
    ensures AgeInDays(now, created) <= AgeInDays(later, created)
  {
    FloorDivMonotone(now - created, later - created, DayMs);
  }

  /** Reads an age text back as a number of days. */
  function ParseAge(age: string): Option<nat> {
    if age == UnderADay then Some(0) else ParseSuffixed(age, 'd')
  }

  /** The age text of an object created in the past reads back as its whole number of days. */
  lemma CalculateAgeReadsBack(now: int, created: int)
    requires now >= created
    ensures ParseAge(CalculateAge(now, created)) == Some((now - created) / DayMs)
  {
    var days := AgeInDays(now, created);
    if days != 0 {
      ParseSuffixedOf(days, 'd');
    }
  }

  /** An entry of `spec.ports`. */
  datatype ServicePort = ServicePort(port: int, nodePort: Option<int>, protocol: string)

  /** `port.nodePort || port.port`: an absent or zero node port falls back to the port. */
  function EffectiveNodePort(p: ServicePort): (n: int)
    ensures p.nodePort.None? || p.nodePort == Some(0) ==> n == p.port
    ensures p.nodePort.Some? && p.nodePort.value != 0 ==> n == p.nodePort.value
  {
    if p.nodePort.Some? && p.nodePort.value != 0 then p.nodePort.value else p.port
  }

  /** "port:nodePort/protocol". */
  function PortEntry(p: ServicePort): string {
    IntToString(p.port) + ":" + IntToString(EffectiveNodePort(p)) + "/" + p.protocol
  }

  /** `_formatPorts`: the entries of the ports, in order, joined by ", ". */
  function FormatPorts(ports: seq<ServicePort>): (text: string)
    ensures ports == [] ==> text == ""
    ensures |ports| == 1 ==> text == PortEntry(ports[0])
  {
    Join(MapSeq(PortEntry, ports), ", ")
  }

  /** One more port adds ", " and its entry at the end: one entry per port, in input order. */
  lemma FormatPortsAppend(ports: seq<ServicePort>, p: ServicePort)
    requires ports != []
    ensures FormatPorts(ports + [p]) == FormatPorts(ports) + ", " + PortEntry(p)
  {
    assert MapSeq(PortEntry, ports + [p]) == MapSeq(PortEntry, ports) + [PortEntry(p)];
    JoinAppend(MapSeq(PortEntry, ports), PortEntry(p), ", ");
  }

  /** Reads "port:nodePort/protocol" back into its three parts. */
  function ParsePortEntry(entry: string): Option<(nat, nat, string)> {
    var colon := Split(entry, ':');
    if |colon| != 2 then None
    else
      var slash := Split(colon[1], '/');
      if |slash| != 2 || !AllDigits(colon[0]) || !AllDigits(slash[0]) then None
      else Some((ParseNat(colon[0]), ParseNat(slash[0]), slash[1]))
  }

  /** The entry splits at ':' into the port and the "nodePort/protocol" tail. */
  lemma SplitPortEntryAtColon(p: ServicePort)
    requires p.port >= 0 && EffectiveNodePort(p) >= 0
    requires ':' !in p.protocol
    ensures Split(PortEntry(p), ':') == [NatToString(p.port), NatToString(EffectiveNodePort(p)) + "/" + p.protocol]
  {
    var port, node := NatToString(p.port), NatToString(EffectiveNodePort(p));
    var tail := node + "/" + p.protocol;
    assert PortEntry(p) == port + [':'] + tail;
    assert ':' !in port;
    assert ':' !in node;
    SplitFirstField(port, tail, ':');
    assert Split(tail, ':') == [tail];
  }

  /** The "nodePort/protocol" tail splits at '/' into its two parts. */
  lemma SplitPortTail(node: nat, protocol: string)
    requires '/' !in protocol
    ensures Split(NatToString(node) + "/" + protocol, '/') == [NatToString(node), protocol]
  {
    var n := NatToString(node);
    assert '/' !in n;
    assert n + "/" + protocol == n + ['/'] + protocol;
    SplitFirstField(n, protocol, '/');
  }

  /**
   * An entry loses nothing: for non-negative ports and a protocol without ':'
   * or '/', it reads back as the port, the effective node port and the protocol.
   */
  lemma PortEntryReadsBack(p: ServicePort)
    requires p.port >= 0 && EffectiveNodePort(p) >= 0
    requires ':' !in p.protocol && '/' !in p.protocol
    ensures ParsePortEntry(PortEntry(p)) == Some((p.port, EffectiveNodePort(p), p.protocol))
  {
    SplitPortEntryAtColon(p);
    SplitPortTail(EffectiveNodePort(p), p.protocol);
    ParseNatToString(p.port);
    ParseNatToString(EffectiveNodePort(p));
  }

  /** `${readyReplicas || 0}/${spec.replicas}`: an absent desired count prints as "undefined". */
  function ReplicasText(ready: Option<int>, desired: Option<int>): (text: string)
    ensures Split(text, '/') ==
      [IntToString(ready.GetOr(0)), if desired.Some? then IntToString(desired.value) else "undefined"]
  {
    var readyText := IntToString(ready.GetOr(0));
    var desiredText := if desired.Some? then IntToString(desired.value) else "undefined";
    assert '/' !in readyText by {
      assert forall i :: 1 <= i < |readyText| ==> IsDigit(readyText[i]);
    }
    assert '/' !in desiredText by {
      assert forall i :: 1 <= i < |desiredText| ==> desiredText[i] != '/';
    }
    SplitFirstField(readyText, desiredText, '/');
    readyText + "/" + desiredText
  }

  /** An entry of `status.loadBalancer.ingress`. */
  datatype LoadBalancerIngress = LoadBalancerIngress(ip: Option<string>)

  /**
   * `service.status?.loadBalancer?.ingress?.[0]?.ip || '-'`: the first ingress
   * IP when there is a non-empty one, '-' otherwise.
   */
  function ExternalIP(ingress: Option<seq<LoadBalancerIngress>>): (ip: string)
    ensures ingress.Some? && |ingress.value| > 0 && ingress.value[0].ip.Some? && ingress.value[0].ip.value != "" ==>
      ip == ingress.value[0].ip.value
    ensures ingress.None? || |ingress.value| == 0 || ingress.value[0].ip.None? || ingress.value[0].ip == Some("") ==>
      ip == "-"
  {
    if ingress.Some? && |ingress.value| > 0 && ingress.value[0].ip.Some? && ingress.value[0].ip.value != "" then
      ingress.value[0].ip.value
    else "-"
  }

  /** A pod as listed; `phase` and `nodeName` may be unset. */
  datatype Pod = Pod(name: string, namespace: string, phase: Option<string>, nodeName: Option<string>, creationTimestamp: int)

  datatype PodRow = PodRow(name: string, namespace: string, status: Option<string>, node: Option<string>, age: string)

  function ToPodRow(now: int, pod: Pod): PodRow {
    PodRow(pod.name, pod.namespace, pod.phase, pod.nodeName, CalculateAge(now, pod.creationTimestamp))
  }

  /** `getPods`: one row per pod, in listing order. */
  function GetPods(now: int, pods: seq<Pod>): (rows: seq<PodRow>)
    ensures |rows| == |pods|
    ensures forall i :: 0 <= i < |pods| ==>
      rows[i].name == pods[i].name && rows[i].namespace == pods[i].namespace
      && rows[i].status == pods[i].phase && rows[i].node == pods[i].nodeName
      && rows[i].age == CalculateAge(now, pods[i].creationTimestamp)
  {
    MapSeq(pod => ToPodRow(now, pod), pods)
  }

  /** A deployment as listed, with its ready and desired replica counts. */
  datatype Deployment = Deployment(
    name: string, namespace: string, readyReplicas: Option<int>, replicas: Option<int>, creationTimestamp: int)

  datatype DeploymentRow = DeploymentRow(name: string, namespace: string, replicas: string, age: string)

  function ToDeploymentRow(now: int, d: Deployment): DeploymentRow {
    DeploymentRow(d.name, d.namespace, ReplicasText(d.readyReplicas, d.replicas), CalculateAge(now, d.creationTimestamp))
  }

  /** `getDeployments`: one row per deployment, in listing order. */
  function GetDeployments(now: int, deployments: seq<Deployment>): (rows: seq<DeploymentRow>)
    ensures |rows| == |deployments|
    ensures forall i :: 0 <= i < |deployments| ==>
      rows[i].name == deployments[i].name && rows[i].namespace == deployments[i].namespace
      && rows[i].replicas == ReplicasText(deployments[i].readyReplicas, deployments[i].replicas)
      && rows[i].age == CalculateAge(now, deployments[i].creationTimestamp)
  {
    MapSeq(d => ToDeploymentRow(now, d), deployments)
  }

  /** A service as listed; `ports` is unset for a service without ports. */
  datatype Service = Service(
    name: string, namespace: string, serviceType: string, clusterIP: string,
    ingress: Option<seq<LoadBalancerIngress>>, ports: Option<seq<ServicePort>>)

  datatype ServiceRow = ServiceRow(
    name: string, namespace: string, serviceType: string, clusterIP: string, externalIP: string, ports: string)

  function ToServiceRow(s: Service): ServiceRow
    requires s.ports.Some?
  {
    ServiceRow(s.name, s.namespace, s.serviceType, s.clusterIP, ExternalIP(s.ingress), FormatPorts(s.ports.value))
  }

  /**
   * `getServices`: one row per service, in listing order; a service without
   * `ports` makes `_formatPorts` throw, so the whole call fails.
   */
  function GetServices(services: seq<Service>): (rows: Option<seq<ServiceRow>>)
    ensures rows.Some? <==> forall i :: 0 <= i < |services| ==> services[i].ports.Some?
    ensures rows.Some? ==>
      && |rows.value| == |services|
      && forall i :: 0 <= i < |services| ==> rows.value[i] == ToServiceRow(services[i])
  {
    if services == [] then Some([])
    else if services[0].ports.None? then None
    else
      match GetServices(services[1..])
      case None => None
      case Some(rest) => Some([ToServiceRow(services[0])] + rest)
  }
}
