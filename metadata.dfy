/**
 * Metadata Client: the set of published versions built from the version
 * manifest, and the entity UID fetched with a bounded retry. The backend
 * calls themselves are inputs: what the manifest request answered, and what
 * each metadata attempt produced.
 */
module Metadata {
  import opened Wrappers
  import opened Constants

  /** How the request for `versions.json` ended. */
  datatype ManifestResponse =
    | Ok(entries: seq<string>)   // a success status and a list of tokens
    | NotOk(status: int)         // any other status: logged, read as an empty list
    | Rejected                   // the request itself threw

  /**
   * getVersionsMetadata as seen by getVersions: the list of tokens, `[]` for a
   * non-success status, nothing when the request threw (getVersions then
   * rejects and the reconciler stops).
   */
  function ManifestEntries(response: ManifestResponse): (r: Option<seq<string>>)
    ensures r.None? <==> response.Rejected?
    ensures response.NotOk? ==> r == Some([])
    ensures response.Ok? ==> r == Some(response.entries)
  {
    match response
    case Ok(entries) => Some(entries)
    case NotOk(_) => Some([])
    case Rejected => None
  }

  /** The version set getVersions promises: `latest` and every manifest entry, nothing else. */
  ghost predicate IsVersionSet(versions: set<string>, manifest: seq<string>) {
    forall v :: v in versions <==> v == DefaultVersion || v in manifest
  }

  /** getVersions: a fresh set, `latest` added first, then each manifest entry. */
  method GetVersions(manifest: seq<string>) returns (versions: set<string>)
    ensures DefaultVersion in versions
    ensures forall k :: 0 <= k < |manifest| ==> manifest[k] in versions
    ensures forall v :: v in versions ==> v == DefaultVersion || v in manifest
  {
    versions := {};
    versions := versions + {DefaultVersion};
    if |manifest| != 0 {
      for i := 0 to |manifest|
        invariant DefaultVersion in versions
        invariant forall k :: 0 <= k < i ==> manifest[k] in versions
        invariant forall v :: v in versions ==> v == DefaultVersion || v in manifest[..i]
      {
        versions := versions + {manifest[i]};
      }
    }
    assert manifest[..|manifest|] == manifest;
  }

  /** A failed manifest request leaves `latest` as the only version. */
  lemma FailedManifestGivesLatestOnly(versions: set<string>, response: ManifestResponse)
    requires response.NotOk?
    requires IsVersionSet(versions, ManifestEntries(response).value)
    ensures versions == {DefaultVersion}
  {
    forall v | v in versions ensures v == DefaultVersion { }
  }

  /** The number of metadata requests getEntityUid makes at most. */
  const MaxAttempts: nat := 5

  /** How one metadata request ended: it threw, or it answered with the entity's UID. */
  datatype Attempt = Failed | Succeeded(uid: string)

  /** The outcome of attempt `k`; attempts beyond the given ones fail. */
  function AttemptOutcome(attempts: seq<Attempt>, k: nat): Attempt {
    if k < |attempts| then attempts[k] else Failed
  }

  /**
   * The UID getEntityUid resolves to when attempts `from`, `from + 1`, …
   * are still to be made: that of the first successful attempt below the
   * limit, or none when all of them fail.
   */
  function FirstSuccess(attempts: seq<Attempt>, from: nat): (r: Option<string>)
    decreases MaxAttempts - from
    ensures r.Some? ==> exists k :: from <= k < MaxAttempts && AttemptOutcome(attempts, k) == Succeeded(r.value) &&
                                   forall j :: from <= j < k ==> AttemptOutcome(attempts, j).Failed?
    ensures r.None? <==> forall j :: from <= j < MaxAttempts ==> AttemptOutcome(attempts, j).Failed?
  {
    if from >= MaxAttempts then None
    else match AttemptOutcome(attempts, from)
      case Succeeded(uid) => Some(uid)
      case Failed => FirstSuccess(attempts, from + 1)
  }

  /**
   * getEntityUid: up to five attempts, each failure swallowed; the UID of the
   * first success, or a failure after the fifth failed attempt. `tries` is
   * the number of requests made.
   */
  method GetEntityUid(attempts: seq<Attempt>) returns (uid: Option<string>, tries: nat)
    ensures uid == FirstSuccess(attempts, 0)
    ensures 1 <= tries <= MaxAttempts
    ensures forall j :: 0 <= j < tries - 1 ==> AttemptOutcome(attempts, j).Failed?
    ensures uid.Some? ==> AttemptOutcome(attempts, tries - 1) == Succeeded(uid.value)
    ensures uid.None? ==> tries == MaxAttempts
  {
    var index := 0;
    while index < MaxAttempts
      invariant 0 <= index <= MaxAttempts
      invariant forall j :: 0 <= j < index ==> AttemptOutcome(attempts, j).Failed?
      invariant FirstSuccess(attempts, index) == FirstSuccess(attempts, 0)
    {
      match AttemptOutcome(attempts, index) {
        case Succeeded(u) =>
          return Some(u), index + 1;
        case Failed =>
      }
      index := index + 1;
    }
    return None, MaxAttempts;
  }
}
