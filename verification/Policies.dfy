/** The classified policy of a stored record, as selection and the gate see it. */
module Policies {
  import opened Bytes

  datatype Status =
    | Verified | Expired | Invalid | Unverifiable | Legacy
    | RecordMissing | RecordUnreadable | NotEvaluated | Unknown

  datatype Mode = Standard | Strict

  /** `digest` names the signed bytes, so it determines the other fields. */
  datatype Policy = Policy(digest: string, generation: nat, mode: Mode, unlockTime: real, commitment: string)

  /** What a release decision rests on. */
  datatype Selection = Selection(status: Status, policy: Option<Policy>, enrolled: bool)

  predicate Authentic(found: Selection) {
    (found.status.Verified? || found.status.Expired?) && found.policy.Some?
  }

  /** Verified or expired, with its policy; no other status is believed. */
  lemma AuthenticMeans(status: Status, policy: Option<Policy>, enrolled: bool)
    ensures Authentic(Selection(status, policy, enrolled)) <==> policy.Some? && (status == Verified || status == Expired)
  {
  }
}
