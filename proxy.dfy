/** The proxy engine's non-I/O state: the per-instance capture step
    (`captureData`) and the registry of running instances keyed by listen port
    (`ProxyManager`). Binding the listening socket and reading the clock are
    outside the model and come in as parameters. */
module Proxy {
  import opened Bytes
  import opened Wrappers
  import opened Sniffer
  import opened AsciiStrings
  import opened Buffer

  /** Number of leading bytes of a chunk that go into its hex dump. */
  const HexPreviewLimit: nat := 200

  /** The bytes handed to the hex dump: the first 200 bytes of the chunk, or
      all of it when shorter. */
  function HexPreview(data: seq<byte>): (r: seq<byte>)
    ensures |r| == if |data| > HexPreviewLimit then HexPreviewLimit else |data|
    ensures HasPrefix(data, r)
  {
    if |data| > HexPreviewLimit then data[..HexPreviewLimit] else data
  }

  /** The packet record built for a chunk read at time `now`: it carries the
      chunk's full length and data, its 200-byte hex preview, its detected
      protocol and the strings found in it. */
  function Capture(data: seq<byte>, direction: string, now: int, strings: seq<seq<byte>>): (r: Packet)
    ensures r.timestamp == now && r.direction == direction
    ensures r.bytes == |data| && r.rawData == data
    ensures HasPrefix(data, r.hexPreview) && |r.hexPreview| <= HexPreviewLimit
    ensures |data| <= HexPreviewLimit ==> r.hexPreview == data
    ensures r.asciiStrings == strings && Matches(r.protocol, data)
  {
    Packet(now, direction, |data|, HexPreview(data), strings, DetectProtocol(data), data)
  }

  /** The outcomes the registry reports; the error kinds carry the port in
      question, as the Go error messages do. */
  datatype Outcome = Ok | AlreadyRunning(port: int) | BindFailed(port: int) | NotRunning(port: int)

  /** One proxy instance: its configuration, its capture buffer, its byte
      counter, and whether it has been told to stop (`Done` closed) and its
      listener is open. */
  class Instance {
    const listenPort: int
    const forwardHost: string
    const forwardPort: int
    const startedAt: int
    const buffer: RingBuffer
    var bytesCaptured: int
    var done: bool
    var listening: bool

    ghost predicate Valid()
      reads buffer, buffer.data
    {
      buffer.Valid()
    }

    /** A freshly started instance over a bound listener. */
    constructor (listenPort: int, forwardHost: string, forwardPort: int, captureLimit: int, now: int)
      ensures Valid() && fresh(buffer) && fresh(buffer.data)
      ensures this.listenPort == listenPort && this.forwardHost == forwardHost
      ensures this.forwardPort == forwardPort && startedAt == now
      ensures buffer.maxSize == (if captureLimit <= 0 then DefaultMaxSize else captureLimit)
      ensures buffer.Contents == [] && bytesCaptured == 0
      ensures !done && listening
    {
      this.listenPort := listenPort;
      this.forwardHost := forwardHost;
      this.forwardPort := forwardPort;
      startedAt := now;
      buffer := new RingBuffer(captureLimit);
      bytesCaptured := 0;
      done := false;
      listening := true;
    }

    /** `captureData`: counts the chunk's bytes, classifies it, extracts its
        printable strings and appends the record to the capture buffer. */
    method CaptureData(data: seq<byte>, direction: string, now: int)
      requires Valid()
      modifies this, buffer, buffer.data
      ensures Valid()
      ensures bytesCaptured == old(bytesCaptured) + |data|
      ensures buffer.Contents ==
        Added(old(buffer.Contents), Capture(data, direction, now, FirstTen(Runs(data))), buffer.maxSize)
      ensures done == old(done) && listening == old(listening)
      ensures buffer.data == old(buffer.data) || fresh(buffer.data)
    {
      bytesCaptured := bytesCaptured + |data|;
      var protocol := DetectProtocol(data);
      var strings := ExtractAsciiStrings(data);
      var hexDumpData := data;
      if |data| > HexPreviewLimit {
        hexDumpData := data[..HexPreviewLimit];
      }
      var capture := Packet(now, direction, |data|, hexDumpData, strings, protocol, data);
      buffer.Add(capture);
    }

    /** Signals the instance to stop (closes `Done`) and closes its listener;
        nothing else about it changes. */
    method Stop()
      modifies this
      ensures done && !listening
      ensures bytesCaptured == old(bytesCaptured)
    {
      done := true;
      listening := false;
    }
  }

  /** The newest retained packet after capturing `data`: it records the chunk's
      full length, the first min(n, budget) bytes of its data, the first
      min(n, 200) bytes as its hex preview, the detected protocol and at most
      ten printable strings. */
  lemma CapturedRecord(s: seq<Packet>, data: seq<byte>, direction: string, now: int, budget: nat)
    ensures
      var r := Added(s, Capture(data, direction, now, FirstTen(Runs(data))), budget);
      var p := r[|r| - 1];
      && p.bytes == |data|
      && p.rawData == data[..if |data| > budget then budget else |data|]
      && p.hexPreview == data[..if |data| > HexPreviewLimit then HexPreviewLimit else |data|]
      && p.protocol == DetectProtocol(data)
      && p.direction == direction && p.timestamp == now
      && |p.asciiStrings| <= MaxStrings
      && forall k :: 0 <= k < |p.asciiStrings| ==> |p.asciiStrings[k]| > MinRunExclusive && AllPrintable(p.asciiStrings[k])
  {
    RunsShape(data);
    var runs := FirstTen(Runs(data));
    assert forall k :: 0 <= k < |runs| ==> runs[k] == Runs(data)[k];
  }

  /** Some element of a non-empty set of ports. */
  method Pick(s: set<int>) returns (x: int)
    requires s != {}
    ensures x in s
  {
    if forall y :: y !in s {
      assert false;
    }
    x :| x in s;
  }

  /** Each entry of `ps` is the instance listening on its key. */
  predicate Keyed(ps: map<int, Instance>)
  {
    forall port :: port in ps ==> ps[port].listenPort == port
  }

  /** The loop of `GetAllProxies`: lists each instance of `ps` once, in
      whatever order the ports are picked. */
  method Collect(ps: map<int, Instance>) returns (r: seq<Instance>)
    requires Keyed(ps)
    ensures |r| == |ps|
    ensures forall i :: 0 <= i < |r| ==> r[i].listenPort in ps && ps[r[i].listenPort] == r[i]
    ensures forall port :: port in ps ==> ps[port] in r
    ensures forall i, j :: 0 <= i < j < |r| ==> r[i] != r[j]
  {
    r := [];
    var todo := ps.Keys;
    ghost var seen: set<int> := {};
    while todo != {}
      invariant todo !! seen && todo + seen == ps.Keys
      invariant |r| == |seen|
      invariant forall i :: 0 <= i < |r| ==> r[i].listenPort in seen && ps[r[i].listenPort] == r[i]
      invariant forall port :: port in seen ==> ps[port] in r
      invariant forall i, j :: 0 <= i < j < |r| ==> r[i].listenPort != r[j].listenPort
      decreases |todo|
    {
      var port := Pick(todo);
      CollectStep(ps, r, seen, port);
      r := r + [ps[port]];
      todo := todo - {port};
      seen := seen + {port};
    }
    assert seen == ps.Keys;
  }

  /** One step of `Collect`: appending the instance of a port not yet seen
      keeps the listed instances keyed and their ports distinct. */
  lemma CollectStep(ps: map<int, Instance>, r: seq<Instance>, seen: set<int>, port: int)
    requires Keyed(ps) && seen <= ps.Keys && port in ps && port !in seen
    requires forall i :: 0 <= i < |r| ==> r[i].listenPort in seen && ps[r[i].listenPort] == r[i]
    requires forall i, j :: 0 <= i < j < |r| ==> r[i].listenPort != r[j].listenPort
    ensures var r' := r + [ps[port]];
      && (forall i :: 0 <= i < |r'| ==> r'[i].listenPort in seen + {port} && ps[r'[i].listenPort] == r'[i])
      && (forall i, j :: 0 <= i < j < |r'| ==> r'[i].listenPort != r'[j].listenPort)
  {
    assert ps[port].listenPort == port;
  }

  /** The loop of `StopAll`: signals and closes every instance of `ps`,
      leaving their byte counters as they were. */
  method StopEach(ps: map<int, Instance>)
    modifies ps.Values
    ensures forall port :: port in ps ==> ps[port].done && !ps[port].listening
    ensures forall port :: port in ps ==> ps[port].bytesCaptured == old(ps[port].bytesCaptured)
  {
    var todo := ps.Keys;
    while todo != {}
      invariant todo <= ps.Keys
      invariant forall port :: port in ps.Keys - todo ==> ps[port].done && !ps[port].listening
      invariant forall port :: port in ps ==> ps[port].bytesCaptured == old(ps[port].bytesCaptured)
      decreases |todo|
    {
      var port := Pick(todo);
      ps[port].Stop();
      todo := todo - {port};
    }
  }

  /** The registry of running proxy instances, keyed by listen port. */
  class ProxyManager {
    var proxies: map<int, Instance>

    /** Every entry is the instance listening on its key, still running and
        with a valid buffer, so no two entries share an instance; and no two
        entries share a capture buffer or its array. */
    ghost predicate Valid()
      reads this, proxies.Values
      reads set port | port in proxies :: proxies[port].buffer
      reads set port | port in proxies :: proxies[port].buffer.data
    {
      && (forall port :: port in proxies ==>
            && proxies[port].listenPort == port && !proxies[port].done && proxies[port].listening
            && proxies[port].Valid())
      && (forall a, b :: a in proxies && b in proxies && a != b ==>
            proxies[a].buffer != proxies[b].buffer && proxies[a].buffer.data != proxies[b].buffer.data)
    }

    /** `NewProxyManager`: no instances. */
    constructor ()
      ensures Valid() && proxies == map[]
    {
      proxies := map[];
    }

    /** `StartProxy`: refuses a port already in use by the registry, then a
        port the listener could not bind (`bindOk` is the outcome of the
        bind), and otherwise registers a fresh instance on that port. */
    method StartProxy(listenPort: int, forwardHost: string, forwardPort: int, captureLimit: int,
                      bindOk: bool, now: int) returns (r: Outcome)
      requires Valid()
      modifies this
      ensures Valid()
      ensures listenPort in old(proxies) ==> r == AlreadyRunning(listenPort) && proxies == old(proxies)
      ensures listenPort !in old(proxies) && !bindOk ==> r == BindFailed(listenPort) && proxies == old(proxies)
      ensures listenPort !in old(proxies) && bindOk ==>
        && r == Ok
        && listenPort in proxies
        && proxies == old(proxies)[listenPort := proxies[listenPort]]
        && fresh(proxies[listenPort]) && fresh(proxies[listenPort].buffer)
        && proxies[listenPort].forwardHost == forwardHost
        && proxies[listenPort].forwardPort == forwardPort
        && proxies[listenPort].startedAt == now
        && proxies[listenPort].buffer.maxSize == (if captureLimit <= 0 then DefaultMaxSize else captureLimit)
        && proxies[listenPort].buffer.Contents == []
        && proxies[listenPort].bytesCaptured == 0
        && proxies[listenPort].Valid()
    {
      if listenPort in proxies {
        return AlreadyRunning(listenPort);
      }
      if !bindOk {
        return BindFailed(listenPort);
      }
      var proxy := new Instance(listenPort, forwardHost, forwardPort, captureLimit, now);
      proxies := proxies[listenPort := proxy];
      r := Ok;
    }

    /** `StopProxy`: an unknown port is an error and changes nothing; a
        running instance is signalled to stop, its listener closed, and it is
        removed; its captured byte total is returned. */
    method StopProxy(listenPort: int) returns (captured: int, r: Outcome)
      requires Valid()
      modifies this, if listenPort in proxies then {proxies[listenPort]} else {}
      ensures Valid()
      ensures listenPort !in old(proxies) ==>
        r == NotRunning(listenPort) && captured == 0 && proxies == old(proxies)
      ensures listenPort in old(proxies) ==>
        && r == Ok
        && proxies == old(proxies) - {listenPort}
        && captured == old(proxies[listenPort].bytesCaptured)
        && old(proxies[listenPort]).bytesCaptured == captured
        && old(proxies[listenPort]).done && !old(proxies[listenPort]).listening
    {
      if listenPort !in proxies {
        return 0, NotRunning(listenPort);
      }
      var proxy := proxies[listenPort];
      proxy.Stop();
      captured := proxy.bytesCaptured;
      proxies := proxies - {listenPort};
      r := Ok;
    }

    /** `GetProxy`: the instance registered on `listenPort`, if any; it is
        the one listening on that port. */
    function GetProxy(listenPort: int): (r: Option<Instance>)
      reads this, proxies.Values
      ensures r.Some? <==> listenPort in proxies
      ensures r.Some? ==> r.value in proxies.Values
      ensures Valid() && r.Some? ==> r.value.listenPort == listenPort && !r.value.done
    {
      if listenPort in proxies then Some(proxies[listenPort]) else None
    }

    /** `GetAllProxies`: every registered instance exactly once, in no
        particular order. */
    method GetAllProxies() returns (r: seq<Instance>)
      requires Valid()
      ensures |r| == |proxies|
      ensures forall i :: 0 <= i < |r| ==> r[i].listenPort in proxies && proxies[r[i].listenPort] == r[i]
      ensures forall port :: port in proxies ==> proxies[port] in r
      ensures forall i, j :: 0 <= i < j < |r| ==> r[i] != r[j]
    {
      r := Collect(proxies);
    }

    /** `StopAll`: signals and closes every instance, then empties the
        registry. */
    method StopAll()
      requires Valid()
      modifies this, proxies.Values
      ensures proxies == map[]
      ensures forall port :: port in old(proxies) ==> old(proxies)[port].done && !old(proxies)[port].listening
      ensures forall port :: port in old(proxies) ==>
        old(proxies)[port].bytesCaptured == old(proxies[port].bytesCaptured)
    {
      StopEach(proxies);
      proxies := map[];
    }
  }

  /** A chunk relayed through the instance on `listenPort` is captured by that
      instance alone: the registry stays valid, and every other instance's
      buffer contents and byte counter are as they were, because each instance
      owns its buffer. */
  method CaptureWhileRegistered(m: ProxyManager, listenPort: int, data: seq<byte>, direction: string, now: int)
    requires m.Valid() && listenPort in m.proxies
    modifies m.proxies[listenPort], m.proxies[listenPort].buffer, m.proxies[listenPort].buffer.data
    ensures m.Valid() && m.proxies == old(m.proxies)
    ensures m.proxies[listenPort].bytesCaptured == old(m.proxies[listenPort].bytesCaptured) + |data|
    ensures m.proxies[listenPort].buffer.Contents ==
      Added(old(m.proxies[listenPort].buffer.Contents), Capture(data, direction, now, FirstTen(Runs(data))),
            m.proxies[listenPort].buffer.maxSize)
    ensures forall port :: port in m.proxies && port != listenPort ==>
      && m.proxies[port].buffer.Contents == old(m.proxies[port].buffer.Contents)
      && m.proxies[port].bytesCaptured == old(m.proxies[port].bytesCaptured)
  {
    var inst := m.proxies[listenPort];
    ghost var ps := m.proxies;
    inst.CaptureData(data, direction, now);
  }

  /** The lifecycle of one proxy: it starts, is listed alone with nothing
      captured and zero usage, a second start on its port is refused, it stops
      with zero bytes captured, and stopping it again is an error. */
  method Lifecycle(now: int) returns (listed: seq<Instance>, usage: real, again: Outcome,
                                      captured: int, stopped: Outcome, stopAgain: Outcome)
    ensures |listed| == 1 && listed[0].bytesCaptured == 0 && usage == 0.0
    ensures again == AlreadyRunning(19090)
    ensures stopped == Ok && captured == 0
    ensures stopAgain == NotRunning(19090)
  {
    var manager := new ProxyManager();
    var started := manager.StartProxy(19090, "localhost", 18080, 1024 * 1024, true, now);
    listed := manager.GetAllProxies();
    var proxy := manager.proxies[19090];
    assert listed[0] == proxy;
    usage := proxy.buffer.UsagePercent();
    again := manager.StartProxy(19090, "localhost", 18080, 1024 * 1024, true, now);
    captured, stopped := manager.StopProxy(19090);
    var ignored;
    ignored, stopAgain := manager.StopProxy(19090);
  }
}
