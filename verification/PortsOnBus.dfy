/**
 Serial ports behind a bus: `Bus::read` and `Bus::write` hand an access to the port that owns the address.
 Every port behaves as if it were alone and given the accesses to its own range.
 */
module PortsOnBus {
  import opened Common
  import Bus
  import Serial
  import SerialLaws

  type Map = seq<Bus.Entry<nat>>

  /** What the guest does on the bus and what the host sends to a port. */
  datatype Access =
    | BusWrite(addr: u64, data: seq<byte>, io: Serial.Io)
    | BusRead(addr: u64, data: seq<byte>)
    | HostInput(port: nat, bytes: seq<byte>, evt: bool)

  /** The operation that an access is for a port, once it is routed. */
  function Routed(target: Option<(u64, nat)>, a: Access): (r: Option<(nat, Serial.Op)>) {
    match a
    case BusWrite(_, data, io) =>
      if target.None? then None else Some((target.value.1, Serial.Write(target.value.0, data, io)))
    case BusRead(_, data) =>
      if target.None? then None else Some((target.value.1, Serial.Read(target.value.0, data)))
    case HostInput(port, bytes, evt) => Some((port, Serial.Queue(bytes, evt)))
  }

  /** An access through the ordered map. An address without a device leaves everything as it is. */
  function Step(devices: Map, ports: seq<Serial.State>, a: Access): (r: seq<Serial.State>)
    ensures |r| == |ports|
  {
    var op := Routed(if a.HostInput? then None else Bus.GetDevice(devices, a.addr), a);
    if op.None? || op.value.0 >= |ports| then ports
    else ports[op.value.0 := Serial.Step(ports[op.value.0], op.value.1)]
  }

  function Run(devices: Map, ports: seq<Serial.State>, accesses: seq<Access>): (r: seq<Serial.State>)
    ensures |r| == |ports|
    decreases |accesses|
  {
    if accesses == [] then ports else Run(devices, Step(devices, ports, accesses[0]), accesses[1..])
  }

  /** The accesses to one port, found by searching the list of ranges. */
  function Own(ranges: Map, port: nat, accesses: seq<Access>): (ops: seq<Serial.Op>) {
    if accesses == [] then []
    else
      var a := accesses[0];
      var op := Routed(if a.HostInput? then None else Bus.Lookup(ranges, a.addr), a);
      (if op.Some? && op.value.0 == port then [op.value.1] else []) + Own(ranges, port, accesses[1..])
  }

  /** Whatever was inserted and accessed, each port ends as it would alone, given its own accesses. */
  lemma {:induction false} PortsAreIsolated(inserts: Map, ports: seq<Serial.State>, accesses: seq<Access>, port: nat)
    requires Bus.AllJudged(inserts) && port < |ports|
    ensures Run(Bus.Run(inserts), ports, accesses)[port]
         == SerialLaws.Run(ports[port], Own(Bus.Accepted(inserts), port, accesses))
    decreases |accesses|
  {
    if accesses != [] {
      var a := accesses[0];
      if !a.HostInput? {
        Bus.RoutesAsList(inserts, a.addr, Bus.Entry(Bus.Range(0, 0, false), 0));
      }
      var op := Routed(if a.HostInput? then None else Bus.Lookup(Bus.Accepted(inserts), a.addr), a);
      var rest := Own(Bus.Accepted(inserts), port, accesses[1..]);
      PortsAreIsolated(inserts, Step(Bus.Run(inserts), ports, a), accesses[1..], port);
      if op.Some? && op.value.0 == port {
        assert ([op.value.1] + rest)[1..] == rest;
      } else {
        assert [] + rest == rest;
      }
    }
  }

  /** The output of a port is what the guest transmits in its range, in order and nothing else. */
  lemma OutputOfPort(inserts: Map, ports: seq<Serial.State>, accesses: seq<Access>, port: nat)
    requires Bus.AllJudged(inserts) && port < |ports|
    ensures Run(Bus.Run(inserts), ports, accesses)[port].output
         == ports[port].output + SerialLaws.AllSent(ports[port], Own(Bus.Accepted(inserts), port, accesses))
  {
    PortsAreIsolated(inserts, ports, accesses, port);
    SerialLaws.OutputIsInOrder(ports[port], Own(Bus.Accepted(inserts), port, accesses));
  }

  /** `Bus::read`: whether the address has a device, and the buffer after the call. */
  function ReadData(target: Option<(u64, nat)>, ports: seq<Serial.State>, data: seq<byte>): (r: (bool, seq<byte>)) {
    if target.None? || target.value.1 >= |ports| then (false, data)
    else (true, Serial.BusRead(ports[target.value.1], target.value.0, data).1)
  }

  /** A read returns what the port that owns the address would return alone, and touches nothing without one. */
  lemma ReadsAreIsolated(inserts: Map, ports: seq<Serial.State>, accesses: seq<Access>, addr: u64, data: seq<byte>)
    requires Bus.AllJudged(inserts)
    ensures var owner: Option<(u64, nat)> := Bus.Lookup(Bus.Accepted(inserts), addr);
            ReadData(Bus.GetDevice(Bus.Run(inserts), addr), Run(Bus.Run(inserts), ports, accesses), data) ==
            if owner.None? || owner.value.1 >= |ports| then (false, data)
            else
              var alone := SerialLaws.Run(ports[owner.value.1], Own(Bus.Accepted(inserts), owner.value.1, accesses));
              (true, Serial.BusRead(alone, owner.value.0, data).1)
  {
    Bus.RoutesAsList<nat>(inserts, addr, Bus.Entry(Bus.Range(0, 0, false), 0));
    var owner: Option<(u64, nat)> := Bus.Lookup(Bus.Accepted(inserts), addr);
    if owner.Some? && owner.value.1 < |ports| {
      PortsAreIsolated(inserts, ports, accesses, owner.value.1);
    }
  }
}
