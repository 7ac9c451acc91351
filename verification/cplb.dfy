/** The top-level check of the control-plane load-balancing block
    (`ControlPlaneLoadBalancingSpec.Validate`): the type, both nested
    validators, and the conflict with an external API address. */
module Cplb {
  import opened Wrappers
  import opened CplbTypes
  import opened Seqs
  import opened VrrpValidation
  import opened VirtualServerValidation

  /** How a call of `Validate` ends: it returns the (possibly defaulted)
      receiver and the errors, or it dereferences the missing keepalived
      section and panics. */
  datatype Outcome =
    | Returned(spec: Option<CplbSpec>, errors: seq<ValidationError>)
    | NilDereference

  /** Errors appear grouped by the part of `Validate` that reports them. */
  predicate OrderedByStage(errs: seq<ValidationError>) {
    forall i, j :: 0 <= i < j < |errs| ==> errs[i].Stage() <= errs[j].Stage()
  }

  /** An unsupported type is reported, naming it; empty means unset. */
  function TypeErrors(cplbType: string): (r: seq<ValidationError>)
    ensures r == [] <==> cplbType == "" || cplbType == TYPE_KEEPALIVED
    ensures |r| <= 1 && forall e <- r :: e == UnsupportedType(cplbType)
    ensures AllFromStage(r, 0)
  {
    if cplbType == "" || cplbType == TYPE_KEEPALIVED then [] else [UnsupportedType(cplbType)]
  }

  /** Virtual servers cannot be combined with an external API address. */
  function ConflictErrors(externalAddress: string, servers: seq<VirtualServer>): (r: seq<ValidationError>)
    ensures r == [] <==> externalAddress == "" || servers == []
    ensures |r| <= 1 && forall e <- r :: e == ExternalAddressConflict
    ensures AllFromStage(r, 3)
  {
    if externalAddress != "" && |servers| > 0 then [ExternalAddressConflict] else []
  }

  /** Four groups of errors, each from one stage and the stages rising, are
      ordered by stage. */
  lemma StagesInOrder(t: seq<ValidationError>, v: seq<ValidationError>, s: seq<ValidationError>, c: seq<ValidationError>)
    requires AllFromStage(t, 0) && AllFromStage(v, 1) && AllFromStage(s, 2) && AllFromStage(c, 3)
    ensures OrderedByStage(t + v + s + c)
  {
    var all := t + v + s + c;
    forall i, j | 0 <= i < j < |all|
      ensures all[i].Stage() <= all[j].Stage()
    {
      assert all[i] in all && all[j] in all;
      if i < |t| {
        assert all[i] == t[i];
      } else if i < |t| + |v| {
        assert all[i] == v[i - |t|];
        assert j >= |t|;
        if j < |t| + |v| { assert all[j] == v[j - |t|]; }
      } else if i < |t| + |v| + |s| {
        assert all[i] == s[i - |t| - |v|];
        if j < |t| + |v| + |s| { assert all[j] == s[j - |t| - |v|]; }
        else { assert all[j] == c[j - |t| - |v| - |s|]; }
      } else {
        assert all[i] == c[i - |t| - |v| - |s|];
        assert all[j] == c[j - |t| - |v| - |s|];
      }
    }
  }

  /** `Validate`. A nil receiver is valid. Otherwise the type is defaulted or
      checked, the VRRP instances and then the virtual servers are defaulted
      and checked whatever the type check found, and the external address is
      checked against the virtual servers. The errors are concatenated in
      that order. Without a keepalived section the call panics. */
  function Validate(c: Option<CplbSpec>, externalAddress: string, host: Host): (r: Outcome)
    ensures c.None? ==> r == Returned(None, [])
    ensures c.Some? && c.value.keepalived.None? ==> r == NilDereference
    ensures c.Some? && c.value.keepalived.Some? ==>
              && r.Returned? && r.spec.Some? && r.spec.value.keepalived.Some?
              && r.spec.value.enabled == c.value.enabled
              && r.spec.value.cplbType != ""
    ensures r.Returned? ==> OrderedByStage(r.errors)
  {
    match c
    case None => Returned(None, [])
    case Some(spec) =>
      match spec.keepalived
      case None => NilDereference
      case Some(k) =>
        var typeErrs := TypeErrors(spec.cplbType);
        var vrrp := ValidateVrrpInstances(k, host);
        var servers := ValidateVirtualServers(vrrp.value, host);
        var conflictErrs := ConflictErrors(externalAddress, servers.value.virtualServers);
        StagesInOrder(typeErrs, vrrp.errors, servers.errors, conflictErrs);
        var cplbType := if spec.cplbType == "" then TYPE_KEEPALIVED else spec.cplbType;
        Returned(Some(spec.(cplbType := cplbType, keepalived := Some(servers.value))),
                 typeErrs + vrrp.errors + servers.errors + conflictErrs)
  }
}
