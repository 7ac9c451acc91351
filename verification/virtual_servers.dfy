/** Validation and defaulting of the virtual servers of a keepalived spec
    (`KeepalivedSpec.validateVirtualServers`). */
module VirtualServerValidation {
  import opened CplbTypes
  import opened Seqs

  // ---------------------------------------------------------------------
  // Per-field rules
  // ---------------------------------------------------------------------

  /** The two independent checks on the address: it must be set, and it must
      be an IP literal. An empty address fails both. */
  function IPAddressErrors(address: string, isIPLiteral: IPLiteralSyntax): (r: seq<ValidationError>)
    ensures AllFromStage(r, 2)
  {
    (if address == "" then [IPAddressMissing] else [])
    + (if !isIPLiteral(address) then [InvalidIPAddress(address)] else [])
  }

  /** An explicit algorithm outside the known set is reported, naming it. */
  function LBAlgoErrors(algo: string): (r: seq<ValidationError>)
    ensures AllFromStage(r, 2)
  {
    if algo != "" && algo !in LB_ALGOS then [InvalidLBAlgo(algo)] else []
  }

  /** An explicit forwarding kind outside the known set is reported, naming it. */
  function LBKindErrors(kind: string): (r: seq<ValidationError>)
    ensures AllFromStage(r, 2)
  {
    if kind != "" && kind !in LB_KINDS then [InvalidLBKind(kind)] else []
  }

  /** A negative persistence timeout is reported; zero means unset. */
  function PersistenceTimeoutErrors(timeout: int): (r: seq<ValidationError>)
    ensures AllFromStage(r, 2)
  {
    if timeout < 0 then [NegativePersistenceTimeout] else []
  }

  /** A negative delay loop is reported. */
  function DelayLoopErrors(delay: int): (r: seq<ValidationError>)
    ensures AllFromStage(r, 2)
  {
    if delay < 0 then [NegativeDelayLoop] else []
  }

  // ---------------------------------------------------------------------
  // Declarative readings of the rules
  // ---------------------------------------------------------------------

  /** A virtual server the validator accepts, stated field by field. */
  predicate VirtualServerValid(vs: VirtualServer, isIPLiteral: IPLiteralSyntax) {
    && isIPLiteral(vs.ipAddress)
    && (vs.lbAlgo == "" || vs.lbAlgo in LB_ALGOS)
    && (vs.lbKind == "" || vs.lbKind in LB_KINDS)
    && vs.persistenceTimeoutSeconds >= 0
    && vs.delayLoop >= 0
  }

  /** Every field with a default holds a non-zero value. */
  predicate VirtualServerDefaulted(vs: VirtualServer) {
    vs.lbAlgo != "" && vs.lbKind != "" && vs.persistenceTimeoutSeconds != 0
  }

  /** `after` differs from `before` only in fields `before` left at their
      zero value. */
  predicate FillsOnlyUnsetServer(before: VirtualServer, after: VirtualServer) {
    && after.ipAddress == before.ipAddress
    && after.delayLoop == before.delayLoop
    && (before.lbAlgo != "" ==> after.lbAlgo == before.lbAlgo)
    && (before.lbKind != "" ==> after.lbKind == before.lbKind)
    && (before.persistenceTimeoutSeconds != 0 ==> after.persistenceTimeoutSeconds == before.persistenceTimeoutSeconds)
  }

  // ---------------------------------------------------------------------
  // One iteration of the server loop
  // ---------------------------------------------------------------------

  /** The server with its zero-valued fields filled in: algorithm `rr`,
      kind `DR`, persistence timeout 360 seconds. Invalid values stay. */
  function DefaultVirtualServer(vs: VirtualServer): (d: VirtualServer)
    ensures FillsOnlyUnsetServer(vs, d)
    ensures VirtualServerDefaulted(d)
  {
    vs.(
      lbAlgo := if vs.lbAlgo == "" then ALGO_RR else vs.lbAlgo,
      lbKind := if vs.lbKind == "" then KIND_DR else vs.lbKind,
      persistenceTimeoutSeconds :=
        if vs.persistenceTimeoutSeconds == 0 then DEFAULT_PERSISTENCE_TIMEOUT else vs.persistenceTimeoutSeconds)
  }

  /** The errors one server reports, in the order its checks run: address,
      algorithm, kind, persistence timeout, delay loop. A server is reported
      on exactly when it breaks one of the rules `VirtualServerValid` lists. */
  function VirtualServerErrors(vs: VirtualServer, isIPLiteral: IPLiteralSyntax): (errs: seq<ValidationError>)
    ensures errs == [] <==> VirtualServerValid(vs, isIPLiteral)
    ensures AllFromStage(errs, 2)
  {
    IPAddressErrors(vs.ipAddress, isIPLiteral)
    + (LBAlgoErrors(vs.lbAlgo)
       + (LBKindErrors(vs.lbKind)
          + (PersistenceTimeoutErrors(vs.persistenceTimeoutSeconds)
             + DelayLoopErrors(vs.delayLoop))))
  }

  /** How often `x` occurs among a server's errors, check by check. */
  lemma ServerErrorsCount(vs: VirtualServer, isIPLiteral: IPLiteralSyntax, x: ValidationError)
    ensures Count(VirtualServerErrors(vs, isIPLiteral), x)
            == Count(IPAddressErrors(vs.ipAddress, isIPLiteral), x)
               + Count(LBAlgoErrors(vs.lbAlgo), x)
               + Count(LBKindErrors(vs.lbKind), x)
               + Count(PersistenceTimeoutErrors(vs.persistenceTimeoutSeconds), x)
               + Count(DelayLoopErrors(vs.delayLoop), x)
  {
    var ipErrs := IPAddressErrors(vs.ipAddress, isIPLiteral);
    var algoErrs := LBAlgoErrors(vs.lbAlgo);
    var kindErrs := LBKindErrors(vs.lbKind);
    var ptoErrs := PersistenceTimeoutErrors(vs.persistenceTimeoutSeconds);
    var delayErrs := DelayLoopErrors(vs.delayLoop);
    CountAppend(ptoErrs, delayErrs, x);
    CountAppend(kindErrs, ptoErrs + delayErrs, x);
    CountAppend(algoErrs, kindErrs + (ptoErrs + delayErrs), x);
    CountAppend(ipErrs, algoErrs + (kindErrs + (ptoErrs + delayErrs)), x);
  }

  /** An empty address yields two errors, first "must be defined" and then
      "invalid IP address", at the head of the server's report. */
  lemma EmptyIPAddressReportedTwice(vs: VirtualServer, isIPLiteral: IPLiteralSyntax)
    requires vs.ipAddress == ""
    ensures var errs := VirtualServerErrors(vs, isIPLiteral);
            |errs| >= 2 && errs[0] == IPAddressMissing && errs[1] == InvalidIPAddress("")
  {
    assert IPAddressErrors(vs.ipAddress, isIPLiteral) == [IPAddressMissing, InvalidIPAddress("")];
  }

  /** The address is never changed. It is reported as missing exactly when
      empty, and as invalid exactly once when it is not an IP literal; no
      other address is ever named. */
  lemma IPAddressRule(vs: VirtualServer, isIPLiteral: IPLiteralSyntax)
    ensures DefaultVirtualServer(vs).ipAddress == vs.ipAddress
    ensures var errs := VirtualServerErrors(vs, isIPLiteral);
      && Count(errs, IPAddressMissing) == (if vs.ipAddress == "" then 1 else 0)
      && Count(errs, InvalidIPAddress(vs.ipAddress)) == (if isIPLiteral(vs.ipAddress) then 0 else 1)
      && (forall e <- errs :: e.InvalidIPAddress? ==> e.address == vs.ipAddress)
  {
    ServerErrorsNameOwnValues(vs, isIPLiteral);
    var ip := vs.ipAddress;
    var missing := if ip == "" then [IPAddressMissing] else [];
    var invalid := if !isIPLiteral(ip) then [InvalidIPAddress(ip)] else [];
    assert Count(VirtualServerErrors(vs, isIPLiteral), IPAddressMissing) == (if ip == "" then 1 else 0) by {
      OnlyAddressChecksNameAddress(vs, isIPLiteral, IPAddressMissing);
      CountAppend(missing, invalid, IPAddressMissing);
      CountSingleton(IPAddressMissing, IPAddressMissing);
      CountSingleton(InvalidIPAddress(ip), IPAddressMissing);
    }
    assert Count(VirtualServerErrors(vs, isIPLiteral), InvalidIPAddress(ip)) == (if isIPLiteral(ip) then 0 else 1) by {
      OnlyAddressChecksNameAddress(vs, isIPLiteral, InvalidIPAddress(ip));
      CountAppend(missing, invalid, InvalidIPAddress(ip));
      CountSingleton(IPAddressMissing, InvalidIPAddress(ip));
      CountSingleton(InvalidIPAddress(ip), InvalidIPAddress(ip));
    }
  }

  /** Address errors come only from the address checks. */
  lemma OnlyAddressChecksNameAddress(vs: VirtualServer, isIPLiteral: IPLiteralSyntax, x: ValidationError)
    requires x.IPAddressMissing? || x.InvalidIPAddress?
    ensures Count(VirtualServerErrors(vs, isIPLiteral), x) == Count(IPAddressErrors(vs.ipAddress, isIPLiteral), x)
  {
    ServerErrorsCount(vs, isIPLiteral, x);
    assert x !in LBAlgoErrors(vs.lbAlgo);
    assert x !in LBKindErrors(vs.lbKind);
    assert x !in PersistenceTimeoutErrors(vs.persistenceTimeoutSeconds);
    assert x !in DelayLoopErrors(vs.delayLoop);
  }

  /** Every address, algorithm or kind a server's report names is that
      server's own. */
  lemma ServerErrorsNameOwnValues(vs: VirtualServer, isIPLiteral: IPLiteralSyntax)
    ensures forall e <- VirtualServerErrors(vs, isIPLiteral) ::
      && (e.InvalidIPAddress? ==> e.address == vs.ipAddress)
      && (e.InvalidLBAlgo? ==> e.algo == vs.lbAlgo)
      && (e.InvalidLBKind? ==> e.kind == vs.lbKind)
  {
    var ipErrs := IPAddressErrors(vs.ipAddress, isIPLiteral);
    var algoErrs := LBAlgoErrors(vs.lbAlgo);
    var kindErrs := LBKindErrors(vs.lbKind);
    var ptoErrs := PersistenceTimeoutErrors(vs.persistenceTimeoutSeconds);
    var delayErrs := DelayLoopErrors(vs.delayLoop);
    forall e <- VirtualServerErrors(vs, isIPLiteral)
      ensures e.InvalidIPAddress? ==> e.address == vs.ipAddress
      ensures e.InvalidLBAlgo? ==> e.algo == vs.lbAlgo
      ensures e.InvalidLBKind? ==> e.kind == vs.lbKind
    {
      assert e in ipErrs || e in algoErrs || e in kindErrs || e in ptoErrs || e in delayErrs;
    }
  }

  /** An empty algorithm becomes `rr`; a set one is kept, even when it is
      unknown, and is reported exactly once when it is outside the known
      set. */
  lemma LBAlgoRule(vs: VirtualServer, isIPLiteral: IPLiteralSyntax)
    ensures vs.lbAlgo == "" ==> DefaultVirtualServer(vs).lbAlgo == ALGO_RR
    ensures vs.lbAlgo != "" ==> DefaultVirtualServer(vs).lbAlgo == vs.lbAlgo
    ensures var errs := VirtualServerErrors(vs, isIPLiteral);
      && Count(errs, InvalidLBAlgo(vs.lbAlgo)) == (if vs.lbAlgo == "" || vs.lbAlgo in LB_ALGOS then 0 else 1)
      && (forall e <- errs :: e.InvalidLBAlgo? ==> e.algo == vs.lbAlgo)
  {
    ServerErrorsNameOwnValues(vs, isIPLiteral);
    var x := InvalidLBAlgo(vs.lbAlgo);
    assert Count(VirtualServerErrors(vs, isIPLiteral), x) == (if vs.lbAlgo == "" || vs.lbAlgo in LB_ALGOS then 0 else 1) by {
      ServerErrorsCount(vs, isIPLiteral, x);
      assert x !in IPAddressErrors(vs.ipAddress, isIPLiteral);
      assert x !in LBKindErrors(vs.lbKind);
      assert x !in PersistenceTimeoutErrors(vs.persistenceTimeoutSeconds);
      assert x !in DelayLoopErrors(vs.delayLoop);
      if LBAlgoErrors(vs.lbAlgo) != [] {
        CountSingleton(x, x);
      }
    }
  }

  /** An empty forwarding kind becomes `DR`; a set one is kept, even when it
      is unknown, and is reported exactly once when it is outside the known
      set. */
  lemma LBKindRule(vs: VirtualServer, isIPLiteral: IPLiteralSyntax)
    ensures vs.lbKind == "" ==> DefaultVirtualServer(vs).lbKind == KIND_DR
    ensures vs.lbKind != "" ==> DefaultVirtualServer(vs).lbKind == vs.lbKind
    ensures var errs := VirtualServerErrors(vs, isIPLiteral);
      && Count(errs, InvalidLBKind(vs.lbKind)) == (if vs.lbKind == "" || vs.lbKind in LB_KINDS then 0 else 1)
      && (forall e <- errs :: e.InvalidLBKind? ==> e.kind == vs.lbKind)
  {
    ServerErrorsNameOwnValues(vs, isIPLiteral);
    var x := InvalidLBKind(vs.lbKind);
    assert Count(VirtualServerErrors(vs, isIPLiteral), x) == (if vs.lbKind == "" || vs.lbKind in LB_KINDS then 0 else 1) by {
      ServerErrorsCount(vs, isIPLiteral, x);
      assert x !in IPAddressErrors(vs.ipAddress, isIPLiteral);
      assert x !in LBAlgoErrors(vs.lbAlgo);
      assert x !in PersistenceTimeoutErrors(vs.persistenceTimeoutSeconds);
      assert x !in DelayLoopErrors(vs.delayLoop);
      if LBKindErrors(vs.lbKind) != [] {
        CountSingleton(x, x);
      }
    }
  }

  /** A zero persistence timeout becomes 360; a negative one is kept and
      reported exactly once; a positive one is kept and not reported. */
  lemma PersistenceTimeoutRule(vs: VirtualServer, isIPLiteral: IPLiteralSyntax)
    ensures var t := vs.persistenceTimeoutSeconds;
            var d := DefaultVirtualServer(vs);
            var n := Count(VirtualServerErrors(vs, isIPLiteral), NegativePersistenceTimeout);
      && (t == 0 ==> d.persistenceTimeoutSeconds == DEFAULT_PERSISTENCE_TIMEOUT && n == 0)
      && (t < 0 ==> d.persistenceTimeoutSeconds == t && n == 1)
      && (t > 0 ==> d.persistenceTimeoutSeconds == t && n == 0)
  {
    ServerErrorsCount(vs, isIPLiteral, NegativePersistenceTimeout);
    if vs.persistenceTimeoutSeconds < 0 {
      CountSingleton(NegativePersistenceTimeout, NegativePersistenceTimeout);
    }
  }

  /** The delay loop is never changed and is reported exactly once when
      negative. */
  lemma DelayLoopRule(vs: VirtualServer, isIPLiteral: IPLiteralSyntax)
    ensures DefaultVirtualServer(vs).delayLoop == vs.delayLoop
    ensures Count(VirtualServerErrors(vs, isIPLiteral), NegativeDelayLoop) == (if vs.delayLoop < 0 then 1 else 0)
  {
    ServerErrorsCount(vs, isIPLiteral, NegativeDelayLoop);
    if vs.delayLoop < 0 {
      CountSingleton(NegativeDelayLoop, NegativeDelayLoop);
    }
  }

  // ---------------------------------------------------------------------
  // The loop over all servers
  // ---------------------------------------------------------------------

  /** The check of one server, as a function of the server. */
  function ServerReport(isIPLiteral: IPLiteralSyntax): VirtualServer -> seq<ValidationError> {
    vs => VirtualServerErrors(vs, isIPLiteral)
  }

  /** The errors of all servers, server after server: none exactly when
      every server is valid. */
  function VirtualServersErrors(servers: seq<VirtualServer>, isIPLiteral: IPLiteralSyntax): (errs: seq<ValidationError>)
    ensures errs == [] <==> forall vs <- servers :: VirtualServerValid(vs, isIPLiteral)
    ensures AllFromStage(errs, 2)
  {
    FlatMapAll(ServerReport(isIPLiteral), servers, (e: ValidationError) => e.Stage() == 2);
    FlatMapEmptyIff(ServerReport(isIPLiteral), servers);
    FlatMap(ServerReport(isIPLiteral), servers)
  }

  /** `validateVirtualServers`: every server defaulted in place (algorithm
      `rr`, kind `DR`, persistence timeout 360 seconds where unset) and the
      errors of all servers; the VRRP instances are untouched. */
  function ValidateVirtualServers(k: KeepalivedSpec, host: Host): (r: Validated<KeepalivedSpec>)
    ensures r.value.vrrpInstances == k.vrrpInstances
    ensures |r.value.virtualServers| == |k.virtualServers|
    ensures forall i :: 0 <= i < |k.virtualServers| ==>
              && FillsOnlyUnsetServer(k.virtualServers[i], r.value.virtualServers[i])
              && VirtualServerDefaulted(r.value.virtualServers[i])
    ensures forall i :: 0 <= i < |k.virtualServers| ==>
              && (k.virtualServers[i].lbAlgo == "" ==> r.value.virtualServers[i].lbAlgo == ALGO_RR)
              && (k.virtualServers[i].lbKind == "" ==> r.value.virtualServers[i].lbKind == KIND_DR)
              && (k.virtualServers[i].persistenceTimeoutSeconds == 0 ==>
                    r.value.virtualServers[i].persistenceTimeoutSeconds == DEFAULT_PERSISTENCE_TIMEOUT)
    ensures r.errors == [] <==> forall vs <- k.virtualServers :: VirtualServerValid(vs, host.isIPLiteral)
    ensures AllFromStage(r.errors, 2)
  {
    var servers := k.virtualServers;
    var defaulted := seq(|servers|, i requires 0 <= i < |servers| => DefaultVirtualServer(servers[i]));
    Validated(k.(virtualServers := defaulted), VirtualServersErrors(servers, host.isIPLiteral))
  }
}

/** Properties of the server loop as a whole. */
module VirtualServerProperties {
  import opened CplbTypes
  import opened Seqs
  import opened VirtualServerValidation

  /** The reports for a concatenation of server lists are the reports for its
      first part followed by those for its second. */
  lemma ServersErrorsAppend(a: seq<VirtualServer>, b: seq<VirtualServer>, isIPLiteral: IPLiteralSyntax)
    ensures VirtualServersErrors(a + b, isIPLiteral) == VirtualServersErrors(a, isIPLiteral) + VirtualServersErrors(b, isIPLiteral)
  {
    FlatMapAppend(ServerReport(isIPLiteral), a, b);
  }

  /** The reports of the server at position `j` come after those of every
      earlier server and before those of every later one. */
  lemma ServerReportsInPlace(servers: seq<VirtualServer>, isIPLiteral: IPLiteralSyntax, j: nat)
    requires j < |servers|
    ensures VirtualServersErrors(servers, isIPLiteral)
            == VirtualServersErrors(servers[..j], isIPLiteral)
               + VirtualServerErrors(servers[j], isIPLiteral)
               + VirtualServersErrors(servers[j + 1..], isIPLiteral)
  {
    FlatMapAt(ServerReport(isIPLiteral), servers, j);
  }

  /** Addresses are not required to be unique: two servers sharing an
      address are reported on exactly as each would be on its own, and such
      a pair is accepted exactly when both servers are valid. */
  lemma SharedAddressNotReported(a: VirtualServer, b: VirtualServer, isIPLiteral: IPLiteralSyntax)
    requires a.ipAddress == b.ipAddress
    ensures VirtualServersErrors([a, b], isIPLiteral)
            == VirtualServerErrors(a, isIPLiteral) + VirtualServerErrors(b, isIPLiteral)
    ensures VirtualServersErrors([a, b], isIPLiteral) == []
            <==> VirtualServerValid(a, isIPLiteral) && VirtualServerValid(b, isIPLiteral)
  {
    assert [a, b] == [a] + [b];
    ServersErrorsAppend([a], [b], isIPLiteral);
  }

  /** A server is left as it is exactly when its defaulted fields are set. */
  lemma ServerFixpointIff(vs: VirtualServer)
    ensures DefaultVirtualServer(vs) == vs <==> VirtualServerDefaulted(vs)
  {
  }

  /** Running the server loop on its own output leaves the spec unchanged. */
  lemma ServerDefaultingIdempotent(k: KeepalivedSpec, host: Host)
    ensures var once := ValidateVirtualServers(k, host).value;
            ValidateVirtualServers(once, host).value == once
  {
    var once := ValidateVirtualServers(k, host).value;
    var twice := ValidateVirtualServers(once, host).value;
    forall i | 0 <= i < |once.virtualServers|
      ensures twice.virtualServers[i] == once.virtualServers[i]
    {
      ServerFixpointIff(once.virtualServers[i]);
    }
  }

  /** Defaulting never turns an accepted server list into a rejected one:
      the defaults themselves pass every check. */
  lemma ServersSecondPassStaysValid(k: KeepalivedSpec, host: Host)
    requires ValidateVirtualServers(k, host).errors == []
    ensures ValidateVirtualServers(ValidateVirtualServers(k, host).value, host).errors == []
  {
    var once := ValidateVirtualServers(k, host).value;
    forall vs' | vs' in once.virtualServers
      ensures VirtualServerValid(vs', host.isIPLiteral)
    {
      var j :| 0 <= j < |once.virtualServers| && once.virtualServers[j] == vs';
      assert VirtualServerValid(k.virtualServers[j], host.isIPLiteral);
    }
  }
}
