/** The control-plane load-balancing configuration block: its entities, its
    enum constants and defaults, the errors its validation reports, and the
    host facilities the validation consults. */
module CplbTypes {
  import opened Wrappers

  // ---------------------------------------------------------------------
  // Machine integers
  // ---------------------------------------------------------------------

  const TWO_31: int := 0x8000_0000
  const TWO_32: int := 0x1_0000_0000

  /** Go's `int32`. */
  type Int32 = x: int | -TWO_31 <= x < TWO_31

  /** Go's conversion `int32(x)` of a wider integer: keep the low 32 bits and
      read them as two's complement. */
  function WrapInt32(x: int): (r: Int32)
    ensures -TWO_31 <= x < TWO_31 ==> r == x
    ensures (x - r) % TWO_32 == 0
  {
    var m := x % TWO_32;
    if m < TWO_31 then m else m - TWO_32
  }

  // ---------------------------------------------------------------------
  // Strings
  // ---------------------------------------------------------------------

  /** Number of bytes the UTF-8 encoding of `c` takes. */
  function CharUtf8Len(c: char): (n: nat)
    ensures 1 <= n <= 4
    ensures c as int < 0x80 ==> n == 1
  {
    if c as int < 0x80 then 1
    else if c as int < 0x800 then 2
    else if c as int < 0x1_0000 then 3
    else 4
  }

  /** Go's `len` of a string: the length of its UTF-8 encoding in bytes. */
  function Utf8Len(s: string): (n: nat)
    ensures n == 0 <==> s == ""
    ensures |s| <= n <= 4 * |s|
    ensures (forall c <- s :: c as int < 0x80) ==> n == |s|
  {
    if s == "" then 0
    else
      assert s[0] in s && forall c <- s[1..] :: c in s;
      CharUtf8Len(s[0]) + Utf8Len(s[1..])
  }

  // ---------------------------------------------------------------------
  // Enums and defaults
  // ---------------------------------------------------------------------

  /** keepalived's default virtual router ID, offset by the instance index. */
  const DEFAULT_VIRTUAL_ROUTER_ID: int := 51
  /** keepalived's default advertisement interval, in seconds. */
  const DEFAULT_ADVERT_INTERVAL: Int32 := 1
  /** Default persistence timeout of a virtual server, in seconds. */
  const DEFAULT_PERSISTENCE_TIMEOUT: int := 360
  /** Longest accepted authentication secret, in bytes. */
  const MAX_AUTH_PASS_BYTES: nat := 8
  /** Bounds of the range check applied to an explicit router ID. */
  const MIN_CHECKED_ROUTER_ID: int := 0
  const MAX_ROUTER_ID: int := 255

  /** The only supported `CPLBType`. */
  const TYPE_KEEPALIVED: string := "Keepalived"

  const ALGO_RR: string := "rr"
  /** Every `KeepalivedLBAlgo` the validator accepts. */
  const LB_ALGOS: set<string> := {"rr", "wrr", "lc", "wlc", "lblc", "dh", "sh", "sed", "nq"}

  const KIND_DR: string := "DR"
  /** Every `KeepalivedLBKind` the validator accepts. */
  const LB_KINDS: set<string> := {"NAT", "DR", "TUN"}

  // ---------------------------------------------------------------------
  // Entities
  // ---------------------------------------------------------------------

  /** One VRRP virtual-router group. */
  datatype VrrpInstance = VrrpInstance(
    virtualIPs: seq<string>,
    interface: string,
    virtualRouterID: Option<Int32>,
    advertInterval: Option<Int32>,
    authPass: string)

  /** One load-balanced virtual server (IPVS service). `delayLoop` and
      `persistenceTimeoutSeconds` are Go `int`s that are only compared and
      assigned constants, so their width never matters. */
  datatype VirtualServer = VirtualServer(
    ipAddress: string,
    delayLoop: int,
    lbAlgo: string,
    lbKind: string,
    persistenceTimeoutSeconds: int)

  datatype KeepalivedSpec = KeepalivedSpec(
    vrrpInstances: seq<VrrpInstance>,
    virtualServers: seq<VirtualServer>)

  /** The root of the block; `keepalived` is a pointer in Go. */
  datatype CplbSpec = CplbSpec(
    enabled: bool,
    cplbType: string,
    keepalived: Option<KeepalivedSpec>)

  // ---------------------------------------------------------------------
  // Errors
  // ---------------------------------------------------------------------

  /** One reported problem. Constructors carry exactly the values the
      corresponding message quotes. */
  datatype ValidationError =
    | DefaultNicLookupFailed(cause: string)
    | RouterIdOutOfRange
    | AuthPassMissing
    | AuthPassTooLong
    | VirtualIPsMissing
    | VirtualIPNotCIDR(vip: string)
    | IPAddressMissing
    | InvalidIPAddress(address: string)
    | InvalidLBAlgo(algo: string)
    | InvalidLBKind(kind: string)
    | NegativePersistenceTimeout
    | NegativeDelayLoop
    | UnsupportedType(cplbType: string)
    | ExternalAddressConflict
  {
    /** Which part of `Validate` can report this error: 0 the type check,
        1 the VRRP instances, 2 the virtual servers, 3 the cross-field check. */
    function Stage(): (s: nat)
      ensures s <= 3
    {
      match this
      case UnsupportedType(_) => 0
      case DefaultNicLookupFailed(_) => 1
      case RouterIdOutOfRange => 1
      case AuthPassMissing => 1
      case AuthPassTooLong => 1
      case VirtualIPsMissing => 1
      case VirtualIPNotCIDR(_) => 1
      case IPAddressMissing => 2
      case InvalidIPAddress(_) => 2
      case InvalidLBAlgo(_) => 2
      case InvalidLBKind(_) => 2
      case NegativePersistenceTimeout => 2
      case NegativeDelayLoop => 2
      case ExternalAddressConflict => 3
    }
  }

  /** Every error of `errs` comes from stage `s`. */
  predicate AllFromStage(errs: seq<ValidationError>, s: nat) {
    forall e <- errs :: e.Stage() == s
  }

  /** Number of `DefaultNicLookupFailed` errors in `errs`, whatever their cause. */
  function NicErrorCount(errs: seq<ValidationError>): (n: nat)
    ensures n <= |errs|
    ensures n == 0 <==> forall e <- errs :: !e.DefaultNicLookupFailed?
  {
    if errs == [] then 0
    else (if errs[0].DefaultNicLookupFailed? then 1 else 0) + NicErrorCount(errs[1..])
  }

  /** A value together with the errors found while validating it. */
  datatype Validated<T> = Validated(value: T, errors: seq<ValidationError>)

  // ---------------------------------------------------------------------
  // Host facilities
  // ---------------------------------------------------------------------

  /** What one call of the default-interface resolver returned: the name it
      produced and, if it failed, the cause. The name is used even when the
      call failed. */
  datatype NicLookup = NicLookup(name: string, failure: Option<string>)

  /** A recognizer of IP address literals (dotted-quad IPv4 as in RFC 791,
      textual IPv6 as in section 2.2 of RFC 4291). Every such recognizer
      rejects the empty string. */
  type IPLiteralSyntax = f: string -> bool | !f("") witness (s: string) => false

  /** The facilities of the host the validation runs on: the result the
      default-interface resolver gives, the CIDR recognizer (section 3.1 of
      RFC 4632, section 2.3 of RFC 4291) and the IP-literal recognizer. */
  datatype Host = Host(
    defaultNic: NicLookup,
    isCIDR: string -> bool,
    isIPLiteral: IPLiteralSyntax)
}
