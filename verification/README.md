# Control-plane load balancing: validation and defaulting

A Dafny model of the validation of k0s's control-plane load-balancing
configuration block (`ControlPlaneLoadBalancingSpec` in
`pkg/apis/k0s/v1beta1/cplb.go`). `Validate` checks the load-balancer type,
then every VRRP instance (`validateVRRPInstances`), then every virtual
server (`validateVirtualServers`), and finally whether virtual servers are
combined with an external API address. On the way it fills unset fields with
keepalived's defaults. It reports every problem it finds, in check order,
and does not stop at the first one.

The Go code changes the receiver in place and returns a list of errors. The
model returns both: the defaulted value and the list of errors.

- `CplbTypes` holds the entities (`VrrpInstance`, `VirtualServer`,
  `KeepalivedSpec`, `CplbSpec`), the constants, and one `ValidationError`
  constructor per message, carrying the value the message quotes.
  - Go's `*int32` fields are `Option<Int32>`.
  - Go's `int32(x)` conversion is `WrapInt32`.
  - Go's byte length of a string is `Utf8Len`.
- `Host` holds what the validation asks the machine it runs on. The
  default-interface resolver is injected as the result it returns. The CIDR
  and IP-literal parsers are injected as recognizers. Every IP-literal
  recognizer rejects the empty string.
- `VrrpValidation` and `VirtualServerValidation` model one pass of each loop.
  - Each has a per-element defaulting function and a per-element error
    function, with one small function per check.
  - The loop itself is the element-wise map for the values, and
    `Seqs.FlatMap` for the errors.
  - For each field, a `*Rule` lemma states how it is defaulted and how
    often each of its errors is reported.
  - Each has a declarative validity predicate. The contracts of the
    per-element and the loop error functions say that the errors are empty
    exactly when the element, or every element, satisfies it.
  - The one-check functions (`NicErrors`, `RouterIdErrors`,
    `AuthPassErrors`, `VirtualIPErrors`, `IPAddressErrors`, `LBAlgoErrors`,
    `LBKindErrors`, `PersistenceTimeoutErrors`, `DelayLoopErrors`) have no
    rows of their own. What each reports is stated by the `*Rule` row of its
    field.
- `VrrpProperties` and `VirtualServerProperties` state properties of the
  whole loop: order of the reports, idempotent defaulting, and distinct
  defaulted router IDs. They also cover the one case where defaulting turns
  an accepted spec into a rejected one.
- `Cplb.Validate` is the top-level entry point.
  - A nil receiver returns no errors.
  - A receiver without a keepalived section ends in `NilDereference`: the
    Go code dereferences the nil pointer.
  - Otherwise it returns the defaulted spec and the errors, grouped by
    stage.
- `CplbProperties` states what `Validate` promises as a whole.

Two behaviours of the code are easy to misread. The model follows the code
in both.

- An explicit router ID of 0 is accepted: the check is `< 0`. The message
  and the field's comment both say the range is 1-255.
  `RouterIdInCheckedRange` and `RouterIdRule` state the range as written.
- `Validate` never consults `Enabled`. A disabled block is checked and
  defaulted exactly like an enabled one (`EnabledIgnored`).

## Model

| member | source | states |
|---|---|---|
| CplbTypes.WrapInt32 | pkg/apis/k0s/v1beta1/cplb.go:119 | the 32-bit conversion of the default router ID leaves in-range values unchanged and otherwise differs from its argument by a multiple of 2^32 |
| CplbTypes.Utf8Len | pkg/apis/k0s/v1beta1/cplb.go:133 | the length the secret check measures is in bytes: zero exactly for the empty string, between one and four bytes per character, and exactly one byte per character for ASCII text |
| VrrpValidation.DefaultRouterId | pkg/apis/k0s/v1beta1/cplb.go:118-120 | an instance at position i without an ID receives 51 + i whenever that fits in an int32 |
| VrrpValidation.DefaultVrrpInstance | pkg/apis/k0s/v1beta1/cplb.go:109-128 | defaulting changes only fields that were unset (interface, router ID, advertisement interval), and leaves every defaulted field set |
| VrrpValidation.InvalidCIDRs | pkg/apis/k0s/v1beta1/cplb.go:140-144 | at most one error per virtual-IP entry; each error names an entry of the list that is not a CIDR; there is no error exactly when every entry is a CIDR |
| VrrpValidation.InvalidCIDRsCount | pkg/apis/k0s/v1beta1/cplb.go:140-144 | a malformed entry is reported once per occurrence in the list; a well-formed one never |
| VrrpValidation.InvalidCIDRsAppend | pkg/apis/k0s/v1beta1/cplb.go:140-144 | the virtual-IP errors follow list order |
| VrrpValidation.InterfaceRule | pkg/apis/k0s/v1beta1/cplb.go:110-116 | an empty interface takes the resolver's name even when the lookup failed; a failure is reported exactly once with its cause; a set interface is kept and never causes a lookup error |
| VrrpValidation.RouterIdRule | pkg/apis/k0s/v1beta1/cplb.go:118-123 | a missing router ID gets its positional default and is never range-checked; an explicit ID is kept and reported exactly once when outside 0..255 |
| VrrpValidation.AdvertIntervalRule | pkg/apis/k0s/v1beta1/cplb.go:125-128 | a missing advertisement interval becomes 1 and an explicit one is kept; the interval never affects the errors |
| VrrpValidation.AuthPassRule | pkg/apis/k0s/v1beta1/cplb.go:130-135 | the secret is unchanged; it is reported once as missing when empty, and once as too long when over 8 bytes |
| VrrpValidation.VirtualIPsRule | pkg/apis/k0s/v1beta1/cplb.go:137-144 | the list is unchanged; an empty list is reported once; each non-CIDR entry is reported once per occurrence |
| VrrpValidation.VrrpInstanceErrors | pkg/apis/k0s/v1beta1/cplb.go:110-144 | one instance is reported on exactly when it breaks one of the rules `VrrpInstanceValid` lists (interface resolvable when empty, explicit ID in 0..255, secret of 1 to 8 bytes, non-empty list of CIDRs); its errors all come from the instance stage |
| VrrpValidation.VrrpErrors | pkg/apis/k0s/v1beta1/cplb.go:109-146 | the loop's errors are empty exactly when every instance is valid, and all come from the instance stage |
| VrrpValidation.ValidateVrrpInstances | pkg/apis/k0s/v1beta1/cplb.go:104-147 | the loop keeps the virtual servers and the number of instances; it defaults each instance in place, changing only unset fields: an empty interface becomes the resolver's name, a missing router ID becomes the default for its own position, a missing interval becomes 1; it reports nothing exactly when every instance is valid, and every error comes from the instance stage |
| VrrpProperties.SetInterfaceIgnoresResolver | pkg/apis/k0s/v1beta1/cplb.go:110-116 | for an instance whose interface is set, the resolver is not consulted: any resolver result gives the same defaulted instance and the same errors |
| VrrpProperties.RouterIdReportedIff | pkg/apis/k0s/v1beta1/cplb.go:118-123 | the loop reports a range error exactly when some instance declares an ID outside 0..255 |
| VrrpProperties.VrrpErrorsAppend | pkg/apis/k0s/v1beta1/cplb.go:109-146 | the reports for a concatenation of instance lists are those of the first list followed by those of the second |
| VrrpProperties.InstanceReportsInPlace | pkg/apis/k0s/v1beta1/cplb.go:109-146 | the reports of the instance at position j come after those of every earlier instance and before those of every later one |
| VrrpProperties.DefaultRouterIdInjective | pkg/apis/k0s/v1beta1/cplb.go:119 | the truncated default `int32(51 + i)` is one-to-one over fewer than 2^32 positions |
| VrrpProperties.DefaultedRouterIdsDistinct | pkg/apis/k0s/v1beta1/cplb.go:118-120 | two instances of one spec that both lacked a router ID receive different IDs |
| VrrpProperties.DefaultedRouterIdsSequential | pkg/apis/k0s/v1beta1/cplb.go:118-120 | when no instance declares an ID, the IDs are 51, 52, ... in list order |
| VrrpProperties.InstanceFixpointIff | pkg/apis/k0s/v1beta1/cplb.go:110-128 | defaulting leaves an instance unchanged exactly when its optional fields are set and its interface is set or would be reset to the same empty name |
| VrrpProperties.InstanceDefaultingIdempotent | pkg/apis/k0s/v1beta1/cplb.go:110-128 | defaulting an already defaulted instance changes nothing |
| VrrpProperties.VrrpDefaultingIdempotent | pkg/apis/k0s/v1beta1/cplb.go:104-147 | running the instance loop on its own output leaves the spec unchanged |
| VrrpProperties.DefaultRouterIdInCheckedRangeIff | pkg/apis/k0s/v1beta1/cplb.go:119-121 | a defaulted router ID would pass the range check exactly for positions 0..204 |
| VrrpProperties.SecondPassStaysValid | pkg/apis/k0s/v1beta1/cplb.go:104-147 | with at most 205 instances, a list the loop accepts is accepted again after defaulting |
| VrrpProperties.DefaultedRouterIdEscapesCheck | pkg/apis/k0s/v1beta1/cplb.go:118-123 | an instance at position 205 or later without an ID is not reported, receives an ID above 255, and is reported when its defaulted value is checked again |
| VirtualServerValidation.DefaultVirtualServer | pkg/apis/k0s/v1beta1/cplb.go:225-251 | defaulting changes only the algorithm, kind and persistence timeout, and only when they were unset; afterwards all three are set |
| VirtualServerValidation.EmptyIPAddressReportedTwice | pkg/apis/k0s/v1beta1/cplb.go:218-223 | an empty address heads the server's report with two errors: "must be defined", then "invalid IP address" |
| VirtualServerValidation.IPAddressRule | pkg/apis/k0s/v1beta1/cplb.go:218-223 | the address is unchanged; it is reported once as missing exactly when empty, and once as invalid exactly when it is not an IP literal; no other address is named |
| VirtualServerValidation.ServerErrorsNameOwnValues | pkg/apis/k0s/v1beta1/cplb.go:221-245 | every address, algorithm or kind a server's errors quote is that server's own |
| VirtualServerValidation.LBAlgoRule | pkg/apis/k0s/v1beta1/cplb.go:225-234 | an empty algorithm becomes rr; a set one is kept even when unknown, and reported once exactly when it is outside the nine known algorithms |
| VirtualServerValidation.LBKindRule | pkg/apis/k0s/v1beta1/cplb.go:236-245 | an empty kind becomes DR; a set one is kept even when unknown, and reported once exactly when it is not NAT, DR or TUN |
| VirtualServerValidation.PersistenceTimeoutRule | pkg/apis/k0s/v1beta1/cplb.go:247-251 | a zero timeout becomes 360 and is not reported; a negative one is kept and reported once; a positive one is kept and not reported |
| VirtualServerValidation.DelayLoopRule | pkg/apis/k0s/v1beta1/cplb.go:253-255 | the delay loop is unchanged, and reported once exactly when negative |
| VirtualServerValidation.VirtualServerErrors | pkg/apis/k0s/v1beta1/cplb.go:218-255 | one server is reported on exactly when it breaks one of the rules `VirtualServerValid` lists (address an IP literal, algorithm and kind empty or known, timeout and delay loop not negative); its errors all come from the server stage |
| VirtualServerValidation.VirtualServersErrors | pkg/apis/k0s/v1beta1/cplb.go:217-257 | the loop's errors are empty exactly when every server is valid, and all come from the server stage |
| VirtualServerValidation.ValidateVirtualServers | pkg/apis/k0s/v1beta1/cplb.go:215-258 | the loop keeps the VRRP instances and the number of servers; it defaults each server in place, changing only unset fields: an empty algorithm becomes rr, an empty kind DR, a zero persistence timeout 360; it reports nothing exactly when every server is valid, and every error comes from the server stage |
| VirtualServerProperties.ServersErrorsAppend | pkg/apis/k0s/v1beta1/cplb.go:217-257 | the reports for a concatenation of server lists are those of the first list followed by those of the second |
| VirtualServerProperties.ServerReportsInPlace | pkg/apis/k0s/v1beta1/cplb.go:217-257 | the reports of the server at position j come after those of every earlier server and before those of every later one |
| VirtualServerProperties.SharedAddressNotReported | pkg/apis/k0s/v1beta1/cplb.go:150-152 | the loop does not enforce unique addresses, although the list is declared as keyed by address: two servers sharing an address get exactly the errors each gets alone, and the pair is accepted exactly when both servers are valid |
| VirtualServerProperties.ServerFixpointIff | pkg/apis/k0s/v1beta1/cplb.go:225-251 | defaulting leaves a server unchanged exactly when its algorithm, kind and timeout are set |
| VirtualServerProperties.ServerDefaultingIdempotent | pkg/apis/k0s/v1beta1/cplb.go:215-258 | running the server loop on its own output leaves the spec unchanged |
| VirtualServerProperties.ServersSecondPassStaysValid | pkg/apis/k0s/v1beta1/cplb.go:215-258 | a server list the loop accepts is accepted again after defaulting |
| Cplb.TypeErrors | pkg/apis/k0s/v1beta1/cplb.go:267-273 | the type is reported exactly when it is neither empty nor Keepalived, at most once, naming the type |
| Cplb.ConflictErrors | pkg/apis/k0s/v1beta1/cplb.go:277-280 | the conflict is reported exactly when an external address is set and there is at least one virtual server, at most once |
| Cplb.StagesInOrder | pkg/apis/k0s/v1beta1/cplb.go:265-282 | errors of the four stages, concatenated in stage order, are ordered by stage |
| Cplb.Validate | pkg/apis/k0s/v1beta1/cplb.go:261-283 | a nil receiver gives no errors; a missing keepalived section panics; otherwise the result keeps `enabled`, has a non-empty type and a keepalived section, and its errors are ordered type, instances, servers, conflict |
| CplbProperties.ValidateErrorsParts | pkg/apis/k0s/v1beta1/cplb.go:265-282 | the errors of a call on a spec with a keepalived section are the type errors, then the instance loop's errors, then the server loop's errors, then the conflict error |
| CplbProperties.ValidateDefaultsNested | pkg/apis/k0s/v1beta1/cplb.go:275-276 | the keepalived section returned is the input's with both loops applied: same number of instances and servers, each changed only in unset fields and given its default (resolver's interface, positional router ID, interval 1, rr, DR, 360) |
| CplbProperties.ValidateAcceptsIff | pkg/apis/k0s/v1beta1/cplb.go:261-283 | `Validate` reports nothing exactly when the configuration satisfies the declarative rule set `SpecValid` |
| CplbProperties.TypeErrorHeads | pkg/apis/k0s/v1beta1/cplb.go:267-273 | the type error, if any, is first, appears once, and names the given type |
| CplbProperties.TypeRule | pkg/apis/k0s/v1beta1/cplb.go:267-273 | an empty type becomes Keepalived and Keepalived stays, neither reported; any other type is kept, reported once and first |
| CplbProperties.NestedValidationIgnoresType | pkg/apis/k0s/v1beta1/cplb.go:267-276 | both nested validators run whatever the type: changing the type only adds or removes the leading type error |
| CplbProperties.ConflictRule | pkg/apis/k0s/v1beta1/cplb.go:277-280 | the conflict is reported once and last, exactly when an external address is set and there is a virtual server |
| CplbProperties.EnabledIgnored | pkg/apis/k0s/v1beta1/cplb.go:261-283 | `enabled` does not influence the errors or the defaulting |
| CplbProperties.ValidateIdempotent | pkg/apis/k0s/v1beta1/cplb.go:261-283 | validating the result of a call again leaves it unchanged |
| CplbProperties.RevalidationStaysValid | pkg/apis/k0s/v1beta1/cplb.go:261-283 | with at most 205 VRRP instances, an accepted configuration is accepted again after defaulting |
| CplbProperties.NestedDefaultingStaysValid | pkg/apis/k0s/v1beta1/cplb.go:275-276 | with at most 205 instances, both loops together turn a valid keepalived section into a valid one with the same number of servers |
| CplbProperties.RouterIdReportedByValidateIff | pkg/apis/k0s/v1beta1/cplb.go:118-123 | `Validate` reports a router-ID range error exactly when some instance declares an ID outside 0..255 |
| CplbProperties.RevalidationReportsDefaultedRouterIds | pkg/apis/k0s/v1beta1/cplb.go:118-123 | with 206 or more instances and no declared IDs, the first call reports no router-ID error, but validating its output reports one |

## Left out

- The default-interface lookup (`getDefaultNIC`) reads the host's routing table. It is modelled by the result it returns, and that result is the same for every instance in one call. The Go code calls the resolver again for each instance with an empty interface, and each call could answer differently.
- The passing of a resolver function to `validateVRRPInstances` is left out: `Validate` always passes nil, which selects the host resolver.
- `net.ParseCIDR` and `net.ParseIP` are not modelled in detail. They become recognizers supplied by the host. The only fact assumed about them is that the empty string is not an IP literal.
- Error message text and `%w` wrapping are not modelled. Each message is a `ValidationError` constructor carrying the values it quotes.
- The JSON and kubebuilder annotations (defaults, enums, minimums, list-map keys) belong to the API schema layer. The code does not enforce them, so they are not modelled.
- `RealServer` is declared in the file but not used by the validation, so it is not modelled.
- Go strings that are not valid UTF-8 are not modelled: strings are sequences of Unicode scalar values, and `Utf8Len` counts their UTF-8 bytes.
- Go `int` fields (`DelayLoop`, `PersistenceTimeoutSeconds`) are unbounded integers. They are only compared with constants and assigned constants, so their width never matters.
- The Go code returns `nil` for a nil receiver and an empty, non-nil list otherwise. The model does not distinguish the two; both are an empty list.
- Concurrency is not modelled: the Go methods mutate the receiver without locking.
