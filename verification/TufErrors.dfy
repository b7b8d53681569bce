/** The verifier's error cases; free-form message texts are dropped. */
module TufErrors {
  datatype TufError =
    | Malformed
    | ThresholdNotMet(role: string, valid: nat, needed: nat)
    | Expired(role: string)
    | HashMismatch(name: string)
    | VersionMismatch(role: string)
    | Rollback(role: string, old_: nat, new_: nat)
    | Missing(name: string)
    | LimitExceeded(name: string)
}
