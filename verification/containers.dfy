/** GET `/containers`: Docker's container list reshaped into the dashboard's rows. */
module Containers {
  import opened Wrappers
  import opened JsText

  /** An entry of a container's `Ports`. */
  datatype PortBinding = PortBinding(privatePort: int, publicPort: Option<int>)

  /** A container as `listContainers({ all: true })` reports it. */
  datatype Container = Container(
    id: string, names: seq<string>, state: string, status: string, image: string, ports: Option<seq<PortBinding>>)

  datatype Row = Row(
    id: string, name: string, state: string, uptime: string, cpu: string, memory: string, image: string,
    ports: seq<string>)

  /** `${p.PrivatePort}:${p.PublicPort || p.PrivatePort}`: an unpublished port shows its private port twice. */
  function PortText(p: PortBinding): (text: string)
    ensures Split(text, ':') ==
      [IntToString(p.privatePort),
       IntToString(if p.publicPort.Some? && p.publicPort.value != 0 then p.publicPort.value else p.privatePort)]
  {
    var privateText := IntToString(p.privatePort);
    var publicText := IntToString(if p.publicPort.Some? && p.publicPort.value != 0 then p.publicPort.value else p.privatePort);
    assert ':' !in privateText by {
      assert forall i :: 1 <= i < |privateText| ==> IsDigit(privateText[i]);
    }
    assert ':' !in publicText by {
      assert forall i :: 1 <= i < |publicText| ==> IsDigit(publicText[i]);
    }
    SplitFirstField(privateText, publicText, ':');
    assert Split(publicText, ':') == [publicText];
    privateText + ":" + publicText
  }

  /** `c.Ports?.map(...) || []`: one text per binding, in order, and none when `Ports` is absent. */
  function PortTexts(ports: Option<seq<PortBinding>>): (texts: seq<string>)
    ensures ports.None? ==> texts == []
    ensures ports.Some? ==> |texts| == |ports.value| && forall i :: 0 <= i < |texts| ==> texts[i] == PortText(ports.value[i])
  {
    if ports.None? then [] else seq(|ports.value|, i requires 0 <= i < |ports.value| => PortText(ports.value[i]))
  }

  /** The display name: the first name with its first '/' taken out. */
  function ContainerName(names: seq<string>): string
    requires |names| >= 1
  {
    RemoveFirst(names[0], '/')
  }

  /** Docker's "/name" shows as "name"; any later '/' stays. */
  lemma LeadingSlashStripped(names: seq<string>, name: string)
    requires |names| >= 1 && names[0] == "/" + name
    ensures ContainerName(names) == name
  {
    RemoveFirstOccurrence([], '/', name);
  }

  const Placeholder: string := "0%"

  /** The `containers.map(c => ...)` callback. */
  function ToRow(c: Container): (r: Row)
    requires |c.names| >= 1
    ensures r.id == c.id && r.state == c.state && r.image == c.image && r.uptime == c.status
    ensures r.cpu == Placeholder && r.memory == Placeholder
    ensures r.name == ContainerName(c.names)
    ensures r.ports == PortTexts(c.ports)
  {
    Row(c.id, ContainerName(c.names), c.state, c.status, Placeholder, Placeholder, c.image, PortTexts(c.ports))
  }

  /** The mapping over the list; a container without names makes `Names[0].replace` throw. */
  function ToRows(containers: seq<Container>): (rows: Option<seq<Row>>)
    ensures rows.Some? <==> forall i :: 0 <= i < |containers| ==> |containers[i].names| >= 1
    ensures rows.Some? ==>
      && |rows.value| == |containers|
      && forall i :: 0 <= i < |containers| ==> rows.value[i] == ToRow(containers[i])
  {
    if containers == [] then Some([])
    else if |containers[0].names| == 0 then None
    else
      match ToRows(containers[1..])
      case None => None
      case Some(rest) => Some([ToRow(containers[0])] + rest)
  }

  datatype Response = Listed(rows: seq<Row>) | Failure(status: int, error: string)

  const FetchFailed: string := "Unable to fetch containers"

  /** The GET handler: a failed Docker call or a nameless container is a 500, otherwise the rows in order. */
  function ListContainers(listing: Option<seq<Container>>): (resp: Response)
    ensures listing.None? ==> resp == Failure(500, FetchFailed)
    ensures listing.Some? ==>
      (resp.Listed? <==> forall i :: 0 <= i < |listing.value| ==> |listing.value[i].names| >= 1)
    ensures resp.Listed? ==>
      && |resp.rows| == |listing.value|
      && forall i :: 0 <= i < |resp.rows| ==> resp.rows[i] == ToRow(listing.value[i])
    ensures !resp.Listed? ==> resp == Failure(500, FetchFailed)
  {
    if listing.None? then Failure(500, FetchFailed)
    else
      match ToRows(listing.value)
      case None => Failure(500, FetchFailed)
      case Some(rows) => Listed(rows)
  }
}
