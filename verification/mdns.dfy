/**
 * What the configuration loader exchanges with the mdns client library and
 * with the log: the service descriptor it builds, the library calls it
 * issues, the diagnostic lines it writes and the causes of a fatal exit.
 *
 * The library itself is not part of this model. Each call either succeeds or
 * fails; which one is decided by a `Library`, a function of the whole call
 * history up to and including the call. Ranging over every such function
 * covers every behaviour the library may have, including refusing a group it
 * already knows.
 */
module Mdns {
  import opened Wrappers
  import Libc

  /** The buffer for a host name holds 256 bytes including the terminating NUL,
      as on OpenBSD (mdnsd.h:26-28). */
  const MAXHOSTNAMELEN := 256

  const UINT16_MAX := 65535

  type Port = x: int | 0 <= x <= 65535

  datatype Protocol = Tcp | Udp

  /** A host override: the host name announced and the IPv4 address it resolves to. */
  datatype Host = Host(name: string, address: Libc.Ipv4)

  /** A validated service entry, as handed to mdns_service_init. Both or
      neither of host name and address: the pairing is in the type. */
  datatype Service = Service(name: string, protocol: Protocol, port: Port, text: string, host: Option<Host>)

  function ProtocolName(p: Protocol): string {
    match p
    case Tcp => "tcp"
    case Udp => "udp"
  }

  /** A call into the mdns client library. */
  datatype Call =
    | Open                                           // mdns_open
    | SetGroupHook                                   // mdns_set_group_hook
    | GroupAdd(group: string)                        // mdns_group_add
    | ServiceInit(group: string, service: Service)   // mdns_service_init
    | GroupAddService(group: string, service: Service) // mdns_group_add_service
    | GroupCommit(group: string)                     // mdns_group_commit

  /** A call made while compiling the services of `group`. */
  predicate IsServiceCall(c: Call, group: string) {
    (c.ServiceInit? || c.GroupAddService?) && c.group == group
  }

  /** A call made while compiling some group. */
  predicate IsGroupCall(c: Call) {
    c.GroupAdd? || c.ServiceInit? || c.GroupAddService? || c.GroupCommit?
  }

  /** Which node lookup of a service entry found no node. */
  datatype NodeFault = MissingItem | MissingKey(pair: int) | MissingValue(pair: int)

  /** Why a service entry is skipped. */
  datatype ServiceFault =
    | ItemNotMapping
    | KeyNotScalar(pair: int)
    | ValueNotScalar(pair: int)
    | BadAddress(text: string)
    | BadPort(text: string, error: Libc.NumError)
    | MissingService
    | BadProtocol(protocol: Option<string>)
    | HostAddressMismatch
    | InitFailed
    | AddFailed

  /** One diagnostic line: what it reports, without its wording or its source position. */
  datatype Diag =
    | Connected
    | GroupKeyNotScalar(index: int)
    | GroupNameTooLong(group: string)
    | GroupNotSequence(group: string)
    | ServiceIgnored(group: string, index: int, fault: ServiceFault)
    | ServiceAdded(group: string, service: Service)

  /** The cause reported by a fatal exit. */
  datatype Fatal =
    | ParseFailed
    | RootNotMapping
    | OpenFailed
    | MissingGroupKey(index: int)
    | MissingGroupValue(index: int)
    | MissingServiceNode(group: string, index: int, fault: NodeFault)
    | GroupAddFailed(group: string)
    | GroupCommitFailed(group: string)

  /** Everything observable so far: library calls, diagnostic lines, and the
      fatal exit if one happened (nothing is done after it). */
  datatype Trace = Trace(calls: seq<Call>, log: seq<Diag>, exit: Option<Fatal>)

  /** The library's answers: whether the last call of a history succeeds. */
  type Library = seq<Call> -> bool

  /** The session handle (struct mdns), seen as the calls made through it. */
  class Session {
    var calls: seq<Call>
    const library: Library

    constructor (library: Library)
      ensures calls == [] && this.library == library
    {
      calls := [];
      this.library := library;
    }

    /** Makes one library call and reports whether it succeeded. */
    method Request(c: Call) returns (ok: bool)
      modifies this
      ensures calls == old(calls) + [c]
      ensures ok == library(calls)
    {
      calls := calls + [c];
      ok := library(calls);
    }
  }

  /** The log sink, seen as the lines written to it. */
  class Log {
    var lines: seq<Diag>

    constructor ()
      ensures lines == []
    {
      lines := [];
    }

    method Emit(d: Diag)
      modifies this
      ensures lines == old(lines) + [d]
    {
      lines := lines + [d];
    }
  }
}
