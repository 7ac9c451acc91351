/** Validation and defaulting of the VRRP instances of a keepalived spec
    (`KeepalivedSpec.validateVRRPInstances`). */
module VrrpValidation {
  import opened Wrappers
  import opened CplbTypes
  import opened Seqs

  // ---------------------------------------------------------------------
  // Per-field rules
  // ---------------------------------------------------------------------

  /** The router ID the instance at `index` receives when it declares none:
      `int32(51 + index)`. */
  function DefaultRouterId(index: nat): (id: Int32)
    ensures index < TWO_31 - DEFAULT_VIRTUAL_ROUTER_ID ==> id == DEFAULT_VIRTUAL_ROUTER_ID + index
  {
    WrapInt32(DEFAULT_VIRTUAL_ROUTER_ID + index)
  }

  /** The range an explicit router ID is checked against. Its lower end is 0,
      not the 1 the error message announces. */
  predicate RouterIdInCheckedRange(id: int) {
    MIN_CHECKED_ROUTER_ID <= id <= MAX_ROUTER_ID
  }

  /** The lookup error, if the interface had to be resolved and resolution
      failed. */
  function NicErrors(interface: string, nic: NicLookup): (r: seq<ValidationError>)
    ensures AllFromStage(r, 1)
  {
    if interface == "" && nic.failure.Some? then [DefaultNicLookupFailed(nic.failure.value)] else []
  }

  /** The range error for an explicit router ID; a missing one is defaulted,
      not checked. */
  function RouterIdErrors(id: Option<Int32>): (r: seq<ValidationError>)
    ensures AllFromStage(r, 1)
  {
    if id.Some? && !RouterIdInCheckedRange(id.value) then [RouterIdOutOfRange] else []
  }

  /** The two independent checks on the authentication secret. */
  function AuthPassErrors(pass: string): (r: seq<ValidationError>)
    ensures AllFromStage(r, 1)
  {
    (if pass == "" then [AuthPassMissing] else [])
    + (if Utf8Len(pass) > MAX_AUTH_PASS_BYTES then [AuthPassTooLong] else [])
  }

  /** One error per entry of `vips` that is not in CIDR notation, in list
      order, each naming its entry. */
  function InvalidCIDRs(vips: seq<string>, isCIDR: string -> bool): (r: seq<ValidationError>)
    ensures |r| <= |vips|
    ensures forall e <- r :: e.VirtualIPNotCIDR? && e.vip in vips && !isCIDR(e.vip)
    ensures r == [] <==> forall v <- vips :: isCIDR(v)
    ensures AllFromStage(r, 1)
  {
    if vips == [] then []
    else
      assert forall v <- vips :: v == vips[0] || v in vips[1..];
      (if isCIDR(vips[0]) then [] else [VirtualIPNotCIDR(vips[0])]) + InvalidCIDRs(vips[1..], isCIDR)
  }

  /** Each malformed entry is reported once per occurrence, and a
      well-formed one never. */
  lemma {:induction false} InvalidCIDRsCount(vips: seq<string>, isCIDR: string -> bool, v: string)
    ensures Count(InvalidCIDRs(vips, isCIDR), VirtualIPNotCIDR(v))
            == (if isCIDR(v) then 0 else Count(vips, v))
    decreases |vips|
  {
    if vips != [] {
      var head := if isCIDR(vips[0]) then [] else [VirtualIPNotCIDR(vips[0])];
      CountAppend(head, InvalidCIDRs(vips[1..], isCIDR), VirtualIPNotCIDR(v));
      InvalidCIDRsCount(vips[1..], isCIDR, v);
      if !isCIDR(vips[0]) {
        CountSingleton(VirtualIPNotCIDR(vips[0]), VirtualIPNotCIDR(v));
      }
    }
  }

  /** Reports follow list order: the report for a concatenation is the
      report for its first part followed by the report for its second. */
  lemma {:induction false} InvalidCIDRsAppend(a: seq<string>, b: seq<string>, isCIDR: string -> bool)
    ensures InvalidCIDRs(a + b, isCIDR) == InvalidCIDRs(a, isCIDR) + InvalidCIDRs(b, isCIDR)
    decreases |a|
  {
    if a == [] {
      assert a + b == b;
    } else {
      var head := if isCIDR(a[0]) then [] else [VirtualIPNotCIDR(a[0])];
      assert InvalidCIDRs(a + b, isCIDR) == head + InvalidCIDRs(a[1..] + b, isCIDR) by {
        assert (a + b)[0] == a[0];
        assert (a + b)[1..] == a[1..] + b;
      }
      InvalidCIDRsAppend(a[1..], b, isCIDR);
      AppendAssociative(head, InvalidCIDRs(a[1..], isCIDR), InvalidCIDRs(b, isCIDR));
    }
  }

  /** The virtual-IP list must be non-empty and every entry a CIDR. */
  function VirtualIPErrors(vips: seq<string>, isCIDR: string -> bool): (r: seq<ValidationError>)
    ensures AllFromStage(r, 1)
  {
    (if |vips| == 0 then [VirtualIPsMissing] else []) + InvalidCIDRs(vips, isCIDR)
  }

  // ---------------------------------------------------------------------
  // Declarative readings of the rules
  // ---------------------------------------------------------------------

  /** An instance the validator accepts, stated field by field. */
  predicate VrrpInstanceValid(inst: VrrpInstance, host: Host) {
    && (inst.interface == "" ==> host.defaultNic.failure.None?)
    && (inst.virtualRouterID.Some? ==> RouterIdInCheckedRange(inst.virtualRouterID.value))
    && inst.authPass != ""
    && Utf8Len(inst.authPass) <= MAX_AUTH_PASS_BYTES
    && |inst.virtualIPs| > 0
    && forall v <- inst.virtualIPs :: host.isCIDR(v)
  }

  /** Every optional field of the instance holds a value. */
  predicate VrrpInstanceDefaulted(inst: VrrpInstance) {
    inst.virtualRouterID.Some? && inst.advertInterval.Some?
  }

  /** `after` differs from `before` only in fields `before` left unset. */
  predicate FillsOnlyUnsetVrrp(before: VrrpInstance, after: VrrpInstance) {
    && (before.interface != "" ==> after.interface == before.interface)
    && (before.virtualRouterID.Some? ==> after.virtualRouterID == before.virtualRouterID)
    && (before.advertInterval.Some? ==> after.advertInterval == before.advertInterval)
    && after.authPass == before.authPass
    && after.virtualIPs == before.virtualIPs
  }

  // ---------------------------------------------------------------------
  // One iteration of the instance loop
  // ---------------------------------------------------------------------

  /** The instance at `index` with its unset fields filled in: the interface
      from the resolver (whatever it returned), the router ID from the
      position, the advertisement interval with 1 second. */
  function DefaultVrrpInstance(inst: VrrpInstance, index: nat, nic: NicLookup): (d: VrrpInstance)
    ensures FillsOnlyUnsetVrrp(inst, d)
    ensures VrrpInstanceDefaulted(d)
  {
    inst.(
      interface := if inst.interface == "" then nic.name else inst.interface,
      virtualRouterID := if inst.virtualRouterID.None? then Some(DefaultRouterId(index)) else inst.virtualRouterID,
      advertInterval := if inst.advertInterval.None? then Some(DEFAULT_ADVERT_INTERVAL) else inst.advertInterval)
  }

  /** The errors one instance reports, in the order its checks run:
      interface, router ID, secret, virtual IPs. They do not depend on the
      instance's position. An instance is reported on exactly when it breaks
      one of the rules `VrrpInstanceValid` lists. */
  function VrrpInstanceErrors(inst: VrrpInstance, host: Host): (errs: seq<ValidationError>)
    ensures errs == [] <==> VrrpInstanceValid(inst, host)
    ensures AllFromStage(errs, 1)
  {
    NicErrors(inst.interface, host.defaultNic)
    + (RouterIdErrors(inst.virtualRouterID)
       + (AuthPassErrors(inst.authPass)
          + VirtualIPErrors(inst.virtualIPs, host.isCIDR)))
  }

  /** An empty interface is overwritten with whatever the resolver produced,
      even when it failed, and a failure is reported exactly once with its
      cause; a set interface is kept and the resolver's outcome is irrelevant. */
  lemma InterfaceRule(inst: VrrpInstance, index: nat, host: Host)
    ensures var d := DefaultVrrpInstance(inst, index, host.defaultNic);
            var errs := VrrpInstanceErrors(inst, host);
      && (inst.interface != "" ==> d.interface == inst.interface && NicErrorCount(errs) == 0)
      && (inst.interface == "" ==> d.interface == host.defaultNic.name)
      && NicErrorCount(errs) == (if inst.interface == "" && host.defaultNic.failure.Some? then 1 else 0)
      && (inst.interface == "" && host.defaultNic.failure.Some? ==>
            DefaultNicLookupFailed(host.defaultNic.failure.value) in errs)
  {
    var nicErrs := NicErrors(inst.interface, host.defaultNic);
    var idErrs := RouterIdErrors(inst.virtualRouterID);
    var passErrs := AuthPassErrors(inst.authPass);
    var vipErrs := VirtualIPErrors(inst.virtualIPs, host.isCIDR);
    assert NicErrorCount(idErrs) == 0;
    assert NicErrorCount(passErrs) == 0;
    assert NicErrorCount(vipErrs) == 0 by {
      forall e <- vipErrs ensures !e.DefaultNicLookupFailed? {
        if e !in InvalidCIDRs(inst.virtualIPs, host.isCIDR) {
          assert e == VirtualIPsMissing;
        }
      }
    }
    NicErrorCountAppend(passErrs, vipErrs);
    NicErrorCountAppend(idErrs, passErrs + vipErrs);
    NicErrorCountAppend(nicErrs, idErrs + (passErrs + vipErrs));
  }

  /** How often `x` occurs among an instance's errors, check by check. */
  lemma InstanceErrorsCount(inst: VrrpInstance, host: Host, x: ValidationError)
    ensures Count(VrrpInstanceErrors(inst, host), x)
            == Count(NicErrors(inst.interface, host.defaultNic), x)
               + Count(RouterIdErrors(inst.virtualRouterID), x)
               + Count(AuthPassErrors(inst.authPass), x)
               + Count(VirtualIPErrors(inst.virtualIPs, host.isCIDR), x)
  {
    var nicErrs := NicErrors(inst.interface, host.defaultNic);
    var idErrs := RouterIdErrors(inst.virtualRouterID);
    var passErrs := AuthPassErrors(inst.authPass);
    var vipErrs := VirtualIPErrors(inst.virtualIPs, host.isCIDR);
    CountAppend(passErrs, vipErrs, x);
    CountAppend(idErrs, passErrs + vipErrs, x);
    CountAppend(nicErrs, idErrs + (passErrs + vipErrs), x);
  }

  /** A missing router ID is defaulted by position and never checked; an
      explicit one is kept and reported exactly once when outside 0..255. */
  lemma RouterIdRule(inst: VrrpInstance, index: nat, host: Host)
    ensures var d := DefaultVrrpInstance(inst, index, host.defaultNic);
            var errs := VrrpInstanceErrors(inst, host);
      && (inst.virtualRouterID.None? ==>
            d.virtualRouterID == Some(DefaultRouterId(index)) && RouterIdOutOfRange !in errs)
      && (inst.virtualRouterID.Some? ==>
            && d.virtualRouterID == inst.virtualRouterID
            && Count(errs, RouterIdOutOfRange)
               == (if RouterIdInCheckedRange(inst.virtualRouterID.value) then 0 else 1))
  {
    InstanceErrorsCount(inst, host, RouterIdOutOfRange);
    assert RouterIdOutOfRange !in VirtualIPErrors(inst.virtualIPs, host.isCIDR);
    if RouterIdErrors(inst.virtualRouterID) != [] {
      CountSingleton(RouterIdOutOfRange, RouterIdOutOfRange);
    }
  }

  /** A missing advertisement interval becomes 1; an explicit one is kept.
      No error ever concerns it. */
  lemma AdvertIntervalRule(inst: VrrpInstance, index: nat, host: Host)
    ensures var d := DefaultVrrpInstance(inst, index, host.defaultNic);
      && (inst.advertInterval.None? ==> d.advertInterval == Some(DEFAULT_ADVERT_INTERVAL))
      && (inst.advertInterval.Some? ==> d.advertInterval == inst.advertInterval)
      && VrrpInstanceErrors(inst, host) == VrrpInstanceErrors(inst.(advertInterval := None), host)
  {
  }

  /** The secret is never changed; an empty one is reported once as missing,
      one over 8 bytes once as too long, and one of 1 to 8 bytes not at all. */
  lemma AuthPassRule(inst: VrrpInstance, index: nat, host: Host)
    ensures var d := DefaultVrrpInstance(inst, index, host.defaultNic);
            var errs := VrrpInstanceErrors(inst, host);
      && d.authPass == inst.authPass
      && Count(errs, AuthPassMissing) == (if inst.authPass == "" then 1 else 0)
      && Count(errs, AuthPassTooLong) == (if Utf8Len(inst.authPass) > MAX_AUTH_PASS_BYTES then 1 else 0)
  {
    var pass := inst.authPass;
    var missing := if pass == "" then [AuthPassMissing] else [];
    var tooLong := if Utf8Len(pass) > MAX_AUTH_PASS_BYTES then [AuthPassTooLong] else [];
    assert Count(VrrpInstanceErrors(inst, host), AuthPassMissing) == (if pass == "" then 1 else 0) by {
      OnlyPassChecksNamePass(inst, host, AuthPassMissing);
      CountAppend(missing, tooLong, AuthPassMissing);
      CountSingleton(AuthPassMissing, AuthPassMissing);
      CountSingleton(AuthPassTooLong, AuthPassMissing);
    }
    assert Count(VrrpInstanceErrors(inst, host), AuthPassTooLong)
           == (if Utf8Len(pass) > MAX_AUTH_PASS_BYTES then 1 else 0) by {
      OnlyPassChecksNamePass(inst, host, AuthPassTooLong);
      CountAppend(missing, tooLong, AuthPassTooLong);
      CountSingleton(AuthPassMissing, AuthPassTooLong);
      CountSingleton(AuthPassTooLong, AuthPassTooLong);
    }
  }

  /** Secret errors come only from the secret checks. */
  lemma OnlyPassChecksNamePass(inst: VrrpInstance, host: Host, x: ValidationError)
    requires x == AuthPassMissing || x == AuthPassTooLong
    ensures Count(VrrpInstanceErrors(inst, host), x) == Count(AuthPassErrors(inst.authPass), x)
  {
    InstanceErrorsCount(inst, host, x);
    assert x !in NicErrors(inst.interface, host.defaultNic);
    assert x !in RouterIdErrors(inst.virtualRouterID);
    assert x !in VirtualIPErrors(inst.virtualIPs, host.isCIDR);
  }

  /** The virtual-IP list is never changed; an empty list is reported once,
      and every entry that is not a CIDR is reported once per occurrence,
      naming it. */
  lemma VirtualIPsRule(inst: VrrpInstance, index: nat, host: Host, v: string)
    ensures var d := DefaultVrrpInstance(inst, index, host.defaultNic);
            var errs := VrrpInstanceErrors(inst, host);
      && d.virtualIPs == inst.virtualIPs
      && Count(errs, VirtualIPsMissing) == (if |inst.virtualIPs| == 0 then 1 else 0)
      && Count(errs, VirtualIPNotCIDR(v)) == (if host.isCIDR(v) then 0 else Count(inst.virtualIPs, v))
  {
    var vips := inst.virtualIPs;
    var missing := if |vips| == 0 then [VirtualIPsMissing] else [];
    var cidrErrs := InvalidCIDRs(vips, host.isCIDR);
    assert Count(VrrpInstanceErrors(inst, host), VirtualIPsMissing) == (if |vips| == 0 then 1 else 0) by {
      OnlyVipChecksNameVips(inst, host, VirtualIPsMissing);
      CountAppend(missing, cidrErrs, VirtualIPsMissing);
      CountSingleton(VirtualIPsMissing, VirtualIPsMissing);
      assert VirtualIPsMissing !in cidrErrs;
    }
    assert Count(VrrpInstanceErrors(inst, host), VirtualIPNotCIDR(v))
           == (if host.isCIDR(v) then 0 else Count(vips, v)) by {
      OnlyVipChecksNameVips(inst, host, VirtualIPNotCIDR(v));
      CountAppend(missing, cidrErrs, VirtualIPNotCIDR(v));
      CountSingleton(VirtualIPsMissing, VirtualIPNotCIDR(v));
      InvalidCIDRsCount(vips, host.isCIDR, v);
    }
  }

  /** Virtual-IP errors come only from the virtual-IP checks. */
  lemma OnlyVipChecksNameVips(inst: VrrpInstance, host: Host, x: ValidationError)
    requires x.VirtualIPsMissing? || x.VirtualIPNotCIDR?
    ensures Count(VrrpInstanceErrors(inst, host), x) == Count(VirtualIPErrors(inst.virtualIPs, host.isCIDR), x)
  {
    InstanceErrorsCount(inst, host, x);
    assert x !in NicErrors(inst.interface, host.defaultNic);
    assert x !in RouterIdErrors(inst.virtualRouterID);
    assert x !in AuthPassErrors(inst.authPass);
  }

  lemma {:induction false} NicErrorCountAppend(a: seq<ValidationError>, b: seq<ValidationError>)
    ensures NicErrorCount(a + b) == NicErrorCount(a) + NicErrorCount(b)
    decreases |a|
  {
    if a == [] {
      assert a + b == b;
    } else {
      assert (a + b)[1..] == a[1..] + b;
      NicErrorCountAppend(a[1..], b);
    }
  }

  // ---------------------------------------------------------------------
  // The loop over all instances
  // ---------------------------------------------------------------------

  /** The check of one instance, as a function of the instance. */
  function InstanceReport(host: Host): VrrpInstance -> seq<ValidationError> {
    inst => VrrpInstanceErrors(inst, host)
  }

  /** The errors of all instances, instance after instance: none exactly
      when every instance is valid. */
  function VrrpErrors(insts: seq<VrrpInstance>, host: Host): (errs: seq<ValidationError>)
    ensures errs == [] <==> forall inst <- insts :: VrrpInstanceValid(inst, host)
    ensures AllFromStage(errs, 1)
  {
    FlatMapAll(InstanceReport(host), insts, (e: ValidationError) => e.Stage() == 1);
    FlatMapEmptyIff(InstanceReport(host), insts);
    FlatMap(InstanceReport(host), insts)
  }

  /** `validateVRRPInstances`: every instance defaulted in place, with its own
      position (an empty interface from the resolver, a missing router ID
      from the position, a missing interval with 1 second), and the errors of
      all instances; the virtual servers are untouched. */
  function ValidateVrrpInstances(k: KeepalivedSpec, host: Host): (r: Validated<KeepalivedSpec>)
    ensures r.value.virtualServers == k.virtualServers
    ensures |r.value.vrrpInstances| == |k.vrrpInstances|
    ensures forall i :: 0 <= i < |k.vrrpInstances| ==>
              && FillsOnlyUnsetVrrp(k.vrrpInstances[i], r.value.vrrpInstances[i])
              && VrrpInstanceDefaulted(r.value.vrrpInstances[i])
    ensures forall i :: 0 <= i < |k.vrrpInstances| ==>
              && (k.vrrpInstances[i].interface == "" ==>
                    r.value.vrrpInstances[i].interface == host.defaultNic.name)
              && (k.vrrpInstances[i].virtualRouterID.None? ==>
                    r.value.vrrpInstances[i].virtualRouterID == Some(DefaultRouterId(i)))
              && (k.vrrpInstances[i].advertInterval.None? ==>
                    r.value.vrrpInstances[i].advertInterval == Some(DEFAULT_ADVERT_INTERVAL))
    ensures r.errors == [] <==> forall inst <- k.vrrpInstances :: VrrpInstanceValid(inst, host)
    ensures AllFromStage(r.errors, 1)
  {
    var insts := k.vrrpInstances;
    var defaulted := seq(|insts|, i requires 0 <= i < |insts| => DefaultVrrpInstance(insts[i], i, host.defaultNic));
    Validated(k.(vrrpInstances := defaulted), VrrpErrors(insts, host))
  }
}

/** Properties of the instance loop as a whole. */
module VrrpProperties {
  import opened Wrappers
  import opened CplbTypes
  import opened Seqs
  import opened VrrpValidation

  // ---------------------------------------------------------------------
  // Acceptance
  // ---------------------------------------------------------------------

  /** An instance with a set interface does not depend on the resolver:
      whatever it would return, the instance is defaulted and reported on
      alike. */
  lemma SetInterfaceIgnoresResolver(inst: VrrpInstance, index: nat, host: Host, other: NicLookup)
    requires inst.interface != ""
    ensures DefaultVrrpInstance(inst, index, other) == DefaultVrrpInstance(inst, index, host.defaultNic)
    ensures VrrpInstanceErrors(inst, host.(defaultNic := other)) == VrrpInstanceErrors(inst, host)
  {
  }

  /** The loop reports a range error exactly when some instance declares a
      router ID outside 0..255; defaulted IDs never cause one. */
  lemma {:induction false} RouterIdReportedIff(insts: seq<VrrpInstance>, host: Host)
    ensures RouterIdOutOfRange in VrrpErrors(insts, host)
            <==> exists inst <- insts :: inst.virtualRouterID.Some? && !RouterIdInCheckedRange(inst.virtualRouterID.value)
    decreases |insts|
  {
    if insts != [] {
      RouterIdRule(insts[0], 0, host);
      RouterIdReportedIff(insts[1..], host);
      assert forall inst <- insts :: inst == insts[0] || inst in insts[1..];
    }
  }

  // ---------------------------------------------------------------------
  // Order of the reports
  // ---------------------------------------------------------------------

  /** The reports for a concatenation of instance lists are the reports for
      its first part followed by those for its second. */
  lemma VrrpErrorsAppend(a: seq<VrrpInstance>, b: seq<VrrpInstance>, host: Host)
    ensures VrrpErrors(a + b, host) == VrrpErrors(a, host) + VrrpErrors(b, host)
  {
    FlatMapAppend(InstanceReport(host), a, b);
  }

  /** The reports of the instance at position `j` come after those of every
      earlier instance and before those of every later one. */
  lemma InstanceReportsInPlace(insts: seq<VrrpInstance>, host: Host, j: nat)
    requires j < |insts|
    ensures VrrpErrors(insts, host)
            == VrrpErrors(insts[..j], host) + VrrpInstanceErrors(insts[j], host) + VrrpErrors(insts[j + 1..], host)
  {
    FlatMapAt(InstanceReport(host), insts, j);
  }

  // ---------------------------------------------------------------------
  // Defaulted router IDs
  // ---------------------------------------------------------------------

  /** Two positions of the same spec never share a defaulted router ID: the
      32-bit truncation of `51 + i` is one-to-one over fewer than 2^32
      positions. */
  lemma DefaultRouterIdInjective(i: nat, j: nat)
    requires i < TWO_32 && j < TWO_32
    requires DefaultRouterId(i) == DefaultRouterId(j)
    ensures i == j
  {
    var r := DefaultRouterId(i);
    assert (DEFAULT_VIRTUAL_ROUTER_ID + i - r) % TWO_32 == 0;
    assert (DEFAULT_VIRTUAL_ROUTER_ID + j - r) % TWO_32 == 0;
    var p := (DEFAULT_VIRTUAL_ROUTER_ID + i - r) / TWO_32;
    var q := (DEFAULT_VIRTUAL_ROUTER_ID + j - r) / TWO_32;
    assert i - j == (p - q) * TWO_32;
  }

  /** Instances without a router ID receive pairwise distinct IDs. */
  lemma DefaultedRouterIdsDistinct(k: KeepalivedSpec, host: Host, i: nat, j: nat)
    requires |k.vrrpInstances| <= TWO_32
    requires i < |k.vrrpInstances| && j < |k.vrrpInstances| && i != j
    requires k.vrrpInstances[i].virtualRouterID.None? && k.vrrpInstances[j].virtualRouterID.None?
    ensures var out := ValidateVrrpInstances(k, host).value.vrrpInstances;
            out[i].virtualRouterID != out[j].virtualRouterID
  {
    if DefaultRouterId(i) == DefaultRouterId(j) {
      DefaultRouterIdInjective(i, j);
    }
  }

  /** When no instance declares a router ID (and there are fewer than
      2^31 - 51 of them), the IDs are 51, 52, ... in list order. */
  lemma DefaultedRouterIdsSequential(k: KeepalivedSpec, host: Host)
    requires |k.vrrpInstances| <= TWO_31 - DEFAULT_VIRTUAL_ROUTER_ID
    requires forall inst <- k.vrrpInstances :: inst.virtualRouterID.None?
    ensures var out := ValidateVrrpInstances(k, host).value.vrrpInstances;
            forall i :: 0 <= i < |out| ==> out[i].virtualRouterID == Some(DEFAULT_VIRTUAL_ROUTER_ID + i)
  {
    var out := ValidateVrrpInstances(k, host).value.vrrpInstances;
    forall i | 0 <= i < |out|
      ensures out[i].virtualRouterID == Some(DEFAULT_VIRTUAL_ROUTER_ID + i)
    {
      assert k.vrrpInstances[i] in k.vrrpInstances;
    }
  }

  // ---------------------------------------------------------------------
  // Running the loop twice
  // ---------------------------------------------------------------------

  /** An instance is left as it is exactly when its optional fields are set
      and its interface either is set or would be reset to the same empty
      name. */
  lemma InstanceFixpointIff(inst: VrrpInstance, index: nat, nic: NicLookup)
    ensures DefaultVrrpInstance(inst, index, nic) == inst
            <==> VrrpInstanceDefaulted(inst) && (inst.interface == "" ==> nic.name == "")
  {
  }

  /** Defaulting an already defaulted instance changes nothing, whatever
      position it is validated at. */
  lemma InstanceDefaultingIdempotent(inst: VrrpInstance, index: nat, index': nat, nic: NicLookup)
    ensures var once := DefaultVrrpInstance(inst, index, nic);
            DefaultVrrpInstance(once, index', nic) == once
  {
    InstanceFixpointIff(DefaultVrrpInstance(inst, index, nic), index', nic);
  }

  /** Running the instance loop on its own output leaves the spec unchanged. */
  lemma VrrpDefaultingIdempotent(k: KeepalivedSpec, host: Host)
    ensures var once := ValidateVrrpInstances(k, host).value;
            ValidateVrrpInstances(once, host).value == once
  {
    var once := ValidateVrrpInstances(k, host).value;
    var twice := ValidateVrrpInstances(once, host).value;
    forall i | 0 <= i < |k.vrrpInstances|
      ensures twice.vrrpInstances[i] == once.vrrpInstances[i]
    {
      InstanceDefaultingIdempotent(k.vrrpInstances[i], i, i, host.defaultNic);
    }
  }

  /** A defaulted ID at position `i` passes the range check on a later run
      exactly when `i` is below 205. */
  lemma DefaultRouterIdInCheckedRangeIff(i: nat)
    requires i < TWO_31 - DEFAULT_VIRTUAL_ROUTER_ID
    ensures RouterIdInCheckedRange(DefaultRouterId(i)) <==> i <= MAX_ROUTER_ID - DEFAULT_VIRTUAL_ROUTER_ID
  {
  }

  /** With at most 205 instances, a spec the loop accepts is accepted again
      after defaulting. */
  lemma SecondPassStaysValid(k: KeepalivedSpec, host: Host)
    requires |k.vrrpInstances| <= MAX_ROUTER_ID - DEFAULT_VIRTUAL_ROUTER_ID + 1
    requires ValidateVrrpInstances(k, host).errors == []
    ensures ValidateVrrpInstances(ValidateVrrpInstances(k, host).value, host).errors == []
  {
    var once := ValidateVrrpInstances(k, host).value;
    forall inst' | inst' in once.vrrpInstances
      ensures VrrpInstanceValid(inst', host)
    {
      var j :| 0 <= j < |once.vrrpInstances| && once.vrrpInstances[j] == inst';
      assert VrrpInstanceValid(k.vrrpInstances[j], host);
      DefaultRouterIdInCheckedRangeIff(j);
    }
  }

  /** Defaulted IDs are never range-checked: an instance at position 205 or
      later without an ID is not reported by the first run, receives an ID
      above 255, and a second run over the result reports it. */
  lemma DefaultedRouterIdEscapesCheck(k: KeepalivedSpec, host: Host, i: nat)
    requires MAX_ROUTER_ID - DEFAULT_VIRTUAL_ROUTER_ID < i < |k.vrrpInstances|
    requires |k.vrrpInstances| <= TWO_31 - DEFAULT_VIRTUAL_ROUTER_ID
    requires k.vrrpInstances[i].virtualRouterID.None?
    ensures RouterIdOutOfRange !in VrrpInstanceErrors(k.vrrpInstances[i], host)
    ensures var once := ValidateVrrpInstances(k, host).value;
            && once.vrrpInstances[i].virtualRouterID == Some(DEFAULT_VIRTUAL_ROUTER_ID + i)
            && DEFAULT_VIRTUAL_ROUTER_ID + i > MAX_ROUTER_ID
            && RouterIdOutOfRange in ValidateVrrpInstances(once, host).errors
  {
    RouterIdRule(k.vrrpInstances[i], i, host);
    var once := ValidateVrrpInstances(k, host).value;
    var inst := once.vrrpInstances[i];
    assert inst.virtualRouterID == Some(DEFAULT_VIRTUAL_ROUTER_ID + i);
    assert RouterIdOutOfRange in VrrpInstanceErrors(inst, host) by {
      RouterIdRule(inst, i, host);
    }
    assert RouterIdOutOfRange in VrrpErrors(once.vrrpInstances, host) by {
      InstanceReportsInPlace(once.vrrpInstances, host, i);
    }
  }
}
