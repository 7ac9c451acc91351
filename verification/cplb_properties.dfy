/** Properties of `Validate` as a whole. */
module CplbProperties {
  import opened Wrappers
  import opened CplbTypes
  import opened Seqs
  import opened VrrpValidation
  import opened VrrpProperties
  import opened VirtualServerValidation
  import opened VirtualServerProperties
  import opened Cplb

  /** A configuration `Validate` accepts, stated rule by rule: a nil one, or
      one with a supported type, valid instances and servers, and no virtual
      servers next to an external address. */
  predicate SpecValid(c: Option<CplbSpec>, externalAddress: string, host: Host) {
    c.Some? && c.value.keepalived.Some? ==>
      var k := c.value.keepalived.value;
      && (c.value.cplbType == "" || c.value.cplbType == TYPE_KEEPALIVED)
      && (forall inst <- k.vrrpInstances :: VrrpInstanceValid(inst, host))
      && (forall vs <- k.virtualServers :: VirtualServerValid(vs, host.isIPLiteral))
      && !(externalAddress != "" && |k.virtualServers| > 0)
  }

  /** The errors of a call on a spec with a keepalived section, group by
      group. */
  lemma ValidateErrorsParts(spec: CplbSpec, externalAddress: string, host: Host)
    requires spec.keepalived.Some?
    ensures var k := spec.keepalived.value;
            Validate(Some(spec), externalAddress, host).errors
            == TypeErrors(spec.cplbType)
               + VrrpErrors(k.vrrpInstances, host)
               + VirtualServersErrors(k.virtualServers, host.isIPLiteral)
               + ConflictErrors(externalAddress, k.virtualServers)
  {
  }

  /** The keepalived section `Validate` returns is the input's, defaulted by
      both nested validators: every instance and server stays at its
      position, only unset fields change, and each receives its default. */
  lemma ValidateDefaultsNested(spec: CplbSpec, externalAddress: string, host: Host)
    requires spec.keepalived.Some?
    ensures var k := spec.keepalived.value;
            var out := Validate(Some(spec), externalAddress, host).spec.value.keepalived.value;
      && |out.vrrpInstances| == |k.vrrpInstances|
      && |out.virtualServers| == |k.virtualServers|
      && (forall i :: 0 <= i < |k.vrrpInstances| ==>
            && FillsOnlyUnsetVrrp(k.vrrpInstances[i], out.vrrpInstances[i])
            && VrrpInstanceDefaulted(out.vrrpInstances[i])
            && (k.vrrpInstances[i].interface == "" ==>
                  out.vrrpInstances[i].interface == host.defaultNic.name)
            && (k.vrrpInstances[i].virtualRouterID.None? ==>
                  out.vrrpInstances[i].virtualRouterID == Some(DefaultRouterId(i)))
            && (k.vrrpInstances[i].advertInterval.None? ==>
                  out.vrrpInstances[i].advertInterval == Some(DEFAULT_ADVERT_INTERVAL)))
      && (forall i :: 0 <= i < |k.virtualServers| ==>
            && FillsOnlyUnsetServer(k.virtualServers[i], out.virtualServers[i])
            && VirtualServerDefaulted(out.virtualServers[i])
            && (k.virtualServers[i].lbAlgo == "" ==> out.virtualServers[i].lbAlgo == ALGO_RR)
            && (k.virtualServers[i].lbKind == "" ==> out.virtualServers[i].lbKind == KIND_DR)
            && (k.virtualServers[i].persistenceTimeoutSeconds == 0 ==>
                  out.virtualServers[i].persistenceTimeoutSeconds == DEFAULT_PERSISTENCE_TIMEOUT))
  {
    var k := spec.keepalived.value;
    var vrrp := ValidateVrrpInstances(k, host).value;
    assert vrrp.virtualServers == k.virtualServers;
  }

  /** `Validate` reports nothing exactly when the configuration is valid. */
  lemma ValidateAcceptsIff(c: Option<CplbSpec>, externalAddress: string, host: Host)
    requires Validate(c, externalAddress, host).Returned?
    ensures Validate(c, externalAddress, host).errors == [] <==> SpecValid(c, externalAddress, host)
  {
    if c.Some? {
      ValidateErrorsParts(c.value, externalAddress, host);
    }
  }

  /** The type error, if any, heads a report whose other errors come from
      later stages. */
  lemma TypeErrorHeads(t: string, rest: seq<ValidationError>)
    requires forall e <- rest :: e.Stage() != 0
    ensures var errs := TypeErrors(t) + rest;
      && (forall e <- errs :: e.UnsupportedType? ==> e.cplbType == t)
      && Count(errs, UnsupportedType(t)) == (if t == "" || t == TYPE_KEEPALIVED then 0 else 1)
      && (t != "" && t != TYPE_KEEPALIVED ==> errs[0] == UnsupportedType(t))
  {
    CountAppend(TypeErrors(t), rest, UnsupportedType(t));
    if TypeErrors(t) != [] {
      CountSingleton(UnsupportedType(t), UnsupportedType(t));
    }
  }

  /** The errors after the type error: instances, servers, conflict. */
  function ErrorsAfterType(k: KeepalivedSpec, externalAddress: string, host: Host): (rest: seq<ValidationError>)
    ensures forall e <- rest :: e.Stage() != 0
  {
    var vrrpErrs := VrrpErrors(k.vrrpInstances, host);
    var serverErrs := VirtualServersErrors(k.virtualServers, host.isIPLiteral);
    var conflictErrs := ConflictErrors(externalAddress, k.virtualServers);
    assert forall e <- vrrpErrs + serverErrs + conflictErrs :: e in vrrpErrs || e in serverErrs || e in conflictErrs;
    vrrpErrs + serverErrs + conflictErrs
  }

  /** A report is the type error, if any, followed by the rest. */
  lemma TypeErrorFirst(spec: CplbSpec, externalAddress: string, host: Host)
    requires spec.keepalived.Some?
    ensures Validate(Some(spec), externalAddress, host).errors
            == TypeErrors(spec.cplbType) + ErrorsAfterType(spec.keepalived.value, externalAddress, host)
  {
    var k := spec.keepalived.value;
    var t := TypeErrors(spec.cplbType);
    var v := VrrpErrors(k.vrrpInstances, host);
    var s := VirtualServersErrors(k.virtualServers, host.isIPLiteral);
    var c := ConflictErrors(externalAddress, k.virtualServers);
    assert Validate(Some(spec), externalAddress, host).errors == t + v + s + c by {
      ValidateErrorsParts(spec, externalAddress, host);
    }
    assert ErrorsAfterType(k, externalAddress, host) == v + s + c;
    AppendAssociative(t, v, s);
    AppendAssociative(t, v + s, c);
  }

  /** An empty type becomes `Keepalived` and `Keepalived` stays, neither
      reported; any other type is kept and reported exactly once, first. */
  lemma TypeRule(spec: CplbSpec, externalAddress: string, host: Host)
    requires spec.keepalived.Some?
    ensures var r := Validate(Some(spec), externalAddress, host);
      && (spec.cplbType == "" ==> r.spec.value.cplbType == TYPE_KEEPALIVED)
      && (spec.cplbType != "" ==> r.spec.value.cplbType == spec.cplbType)
      && (forall e <- r.errors :: e.UnsupportedType? ==> e.cplbType == spec.cplbType)
      && Count(r.errors, UnsupportedType(spec.cplbType))
         == (if spec.cplbType == "" || spec.cplbType == TYPE_KEEPALIVED then 0 else 1)
      && (spec.cplbType != "" && spec.cplbType != TYPE_KEEPALIVED ==> r.errors[0] == UnsupportedType(spec.cplbType))
  {
    TypeErrorFirst(spec, externalAddress, host);
    TypeErrorHeads(spec.cplbType, ErrorsAfterType(spec.keepalived.value, externalAddress, host));
  }

  /** Both nested validators run whatever the type: changing the type only
      adds or removes the type error at the front and changes nothing else. */
  lemma NestedValidationIgnoresType(spec: CplbSpec, externalAddress: string, host: Host, t: string)
    requires spec.keepalived.Some?
    ensures var withType := Validate(Some(spec.(cplbType := t)), externalAddress, host);
            var unset := Validate(Some(spec.(cplbType := "")), externalAddress, host);
      && withType.spec.value.keepalived == unset.spec.value.keepalived
      && withType.errors
         == (if t == "" || t == TYPE_KEEPALIVED then [] else [UnsupportedType(t)]) + unset.errors
  {
    var rest := ErrorsAfterType(spec.keepalived.value, externalAddress, host);
    assert Validate(Some(spec.(cplbType := t)), externalAddress, host).errors == TypeErrors(t) + rest by {
      TypeErrorFirst(spec.(cplbType := t), externalAddress, host);
    }
    assert Validate(Some(spec.(cplbType := "")), externalAddress, host).errors == rest by {
      TypeErrorFirst(spec.(cplbType := ""), externalAddress, host);
      assert TypeErrors("") + rest == rest;
    }
  }

  /** The conflict error is the last of a report whose earlier errors come
      from earlier stages. */
  lemma ConflictErrorLast(externalAddress: string, servers: seq<VirtualServer>, front: seq<ValidationError>)
    requires forall e <- front :: e.Stage() != 3
    ensures var errs := front + ConflictErrors(externalAddress, servers);
            var conflict := externalAddress != "" && |servers| > 0;
      && Count(errs, ExternalAddressConflict) == (if conflict then 1 else 0)
      && (conflict ==> errs[|errs| - 1] == ExternalAddressConflict)
  {
    CountAppend(front, ConflictErrors(externalAddress, servers), ExternalAddressConflict);
    if ConflictErrors(externalAddress, servers) != [] {
      CountSingleton(ExternalAddressConflict, ExternalAddressConflict);
    }
  }

  /** The conflict is reported exactly once, last, exactly when an external
      address is set and there is at least one virtual server, whatever the
      VRRP instances are. */
  lemma ConflictRule(spec: CplbSpec, externalAddress: string, host: Host)
    requires spec.keepalived.Some?
    ensures var errs := Validate(Some(spec), externalAddress, host).errors;
            var conflict := externalAddress != "" && |spec.keepalived.value.virtualServers| > 0;
      && Count(errs, ExternalAddressConflict) == (if conflict then 1 else 0)
      && (conflict ==> errs[|errs| - 1] == ExternalAddressConflict)
  {
    var k := spec.keepalived.value;
    var front := TypeErrors(spec.cplbType) + VrrpErrors(k.vrrpInstances, host)
                 + VirtualServersErrors(k.virtualServers, host.isIPLiteral);
    assert Validate(Some(spec), externalAddress, host).errors
           == front + ConflictErrors(externalAddress, k.virtualServers) by {
      ValidateErrorsParts(spec, externalAddress, host);
    }
    assert forall e <- front :: e.Stage() != 3;
    ConflictErrorLast(externalAddress, k.virtualServers, front);
  }

  /** `enabled` is never consulted: a disabled configuration is checked and
      defaulted like an enabled one. */
  lemma EnabledIgnored(spec: CplbSpec, externalAddress: string, host: Host, b: bool)
    requires spec.keepalived.Some?
    ensures var r := Validate(Some(spec), externalAddress, host);
            var r' := Validate(Some(spec.(enabled := b)), externalAddress, host);
      && r'.errors == r.errors
      && r'.spec.value == r.spec.value.(enabled := b)
  {
  }

  /** Validating the result of a call again leaves it unchanged. */
  lemma ValidateIdempotent(c: Option<CplbSpec>, externalAddress: string, host: Host)
    requires Validate(c, externalAddress, host).Returned?
    ensures var once := Validate(c, externalAddress, host).spec;
            var twice := Validate(once, externalAddress, host);
            twice.Returned? && twice.spec == once
  {
    if c.Some? {
      var k := c.value.keepalived.value;
      var vrrp := ValidateVrrpInstances(k, host).value;
      var k1 := ValidateVirtualServers(vrrp, host).value;
      VrrpDefaultingIdempotent(k, host);
      ServerDefaultingIdempotent(vrrp, host);
      var vrrp2 := ValidateVrrpInstances(k1, host).value;
      assert vrrp2.vrrpInstances == ValidateVrrpInstances(vrrp, host).value.vrrpInstances;
      assert vrrp2 == vrrp.(virtualServers := k1.virtualServers);
      assert ValidateVirtualServers(vrrp2, host).value == k1;
    }
  }

  /** With at most 205 VRRP instances, a configuration that `Validate`
      accepts is accepted again after defaulting. */
  lemma RevalidationStaysValid(c: Option<CplbSpec>, externalAddress: string, host: Host)
    requires Validate(c, externalAddress, host).Returned?
    requires Validate(c, externalAddress, host).errors == []
    requires c.Some? ==> |c.value.keepalived.value.vrrpInstances| <= MAX_ROUTER_ID - DEFAULT_VIRTUAL_ROUTER_ID + 1
    ensures Validate(Validate(c, externalAddress, host).spec, externalAddress, host).errors == []
  {
    if c.Some? {
      var k := c.value.keepalived.value;
      var once := Validate(c, externalAddress, host).spec.value;
      ValidateAcceptsIff(c, externalAddress, host);
      NestedDefaultingStaysValid(k, host);
      assert once.keepalived == Some(ValidateVirtualServers(ValidateVrrpInstances(k, host).value, host).value);
      ValidateAcceptsIff(Some(once), externalAddress, host);
    }
  }

  /** Both nested validators together keep a keepalived section with at most
      205 instances valid. */
  lemma NestedDefaultingStaysValid(k: KeepalivedSpec, host: Host)
    requires |k.vrrpInstances| <= MAX_ROUTER_ID - DEFAULT_VIRTUAL_ROUTER_ID + 1
    requires forall inst <- k.vrrpInstances :: VrrpInstanceValid(inst, host)
    requires forall vs <- k.virtualServers :: VirtualServerValid(vs, host.isIPLiteral)
    ensures var out := ValidateVirtualServers(ValidateVrrpInstances(k, host).value, host).value;
      && |out.virtualServers| == |k.virtualServers|
      && (forall inst <- out.vrrpInstances :: VrrpInstanceValid(inst, host))
      && (forall vs <- out.virtualServers :: VirtualServerValid(vs, host.isIPLiteral))
  {
    var vrrp := ValidateVrrpInstances(k, host).value;
    SecondPassStaysValid(k, host);
    ServersSecondPassStaysValid(vrrp, host);
  }

  /** `Validate` reports a range error exactly when some instance declares a
      router ID outside 0..255; the type, the servers and the conflict check
      never cause one. */
  lemma RouterIdReportedByValidateIff(spec: CplbSpec, externalAddress: string, host: Host)
    requires spec.keepalived.Some?
    ensures RouterIdOutOfRange in Validate(Some(spec), externalAddress, host).errors
            <==> exists inst <- spec.keepalived.value.vrrpInstances ::
                   inst.virtualRouterID.Some? && !RouterIdInCheckedRange(inst.virtualRouterID.value)
  {
    var k := spec.keepalived.value;
    var t := TypeErrors(spec.cplbType);
    var v := VrrpErrors(k.vrrpInstances, host);
    var s := VirtualServersErrors(k.virtualServers, host.isIPLiteral);
    var c := ConflictErrors(externalAddress, k.virtualServers);
    assert Validate(Some(spec), externalAddress, host).errors == t + v + s + c by {
      ValidateErrorsParts(spec, externalAddress, host);
    }
    assert RouterIdOutOfRange !in t && RouterIdOutOfRange !in s && RouterIdOutOfRange !in c;
    RouterIdReportedIff(k.vrrpInstances, host);
  }

  /** A configuration with more than 205 VRRP instances, none of which
      declares a router ID, is not reported on for router IDs by the first
      call, but the second call over its result reports the defaulted IDs
      above 255. */
  lemma RevalidationReportsDefaultedRouterIds(spec: CplbSpec, externalAddress: string, host: Host)
    requires spec.keepalived.Some?
    requires var insts := spec.keepalived.value.vrrpInstances;
             MAX_ROUTER_ID - DEFAULT_VIRTUAL_ROUTER_ID + 1 < |insts| <= TWO_31 - DEFAULT_VIRTUAL_ROUTER_ID
             && forall inst <- insts :: inst.virtualRouterID.None?
    ensures var once := Validate(Some(spec), externalAddress, host);
            && RouterIdOutOfRange !in once.errors
            && RouterIdOutOfRange in Validate(once.spec, externalAddress, host).errors
  {
    var k := spec.keepalived.value;
    var i := MAX_ROUTER_ID - DEFAULT_VIRTUAL_ROUTER_ID + 1;
    var once := Validate(Some(spec), externalAddress, host).spec.value;
    RouterIdReportedByValidateIff(spec, externalAddress, host);
    assert k.vrrpInstances[i] in k.vrrpInstances;
    var inst := once.keepalived.value.vrrpInstances[i];
    assert inst.virtualRouterID == Some(DEFAULT_VIRTUAL_ROUTER_ID + i) by {
      ValidateDefaultsNested(spec, externalAddress, host);
    }
    assert inst in once.keepalived.value.vrrpInstances;
    RouterIdReportedByValidateIff(once, externalAddress, host);
  }
}
