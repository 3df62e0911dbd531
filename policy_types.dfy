/**
 * The metadata a policy pack is made of (cmd/pulumi-analyzer-policy-opa/policy.go).
 * The pack and its rules are built once at load time and only read afterwards,
 * so they are values here.
 */
module PolicyTypes {

  /** `enforcementLevel` is a Go `int`; the loader only ever produces 0 and 1. */
  type EnforcementLevel = int

  const AdvisoryRule: EnforcementLevel := 0
  const MandatoryRule: EnforcementLevel := 1

  /** `policyRule`: one Rego rule exposed as a policy. */
  datatype PolicyRule = PolicyRule(
    name: string,
    displayName: string,
    description: string,
    message: string,
    level: EnforcementLevel)

  /** `policyPack`: the pack name, its display name and its policies in order. */
  datatype PolicyPack = PolicyPack(
    name: string,
    displayName: string,
    policies: seq<PolicyRule>)
}
