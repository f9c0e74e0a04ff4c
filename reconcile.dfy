/**
 * Version Reconciler: once the versions and the entity UID are known, what
 * happens to the version read from the URL and the selection the tab
 * remembers for the entity.
 */
module Reconcile {
  import opened Wrappers
  import opened Constants
  import opened Text
  import opened Paths

  /** What init does after the UID is known. */
  datatype Decision =
    | Persist(version: string)    // remember the URL's version for the entity
    | Redirect(version: string)   // show the remembered version instead of `latest`
    | Keep                        // leave both as they are

  /** A remembered selection worth restoring: present, not empty, not `latest`, still published. */
  predicate IsRestorable(sessionVersion: Option<string>, versions: set<string>) {
    sessionVersion.Some? && sessionVersion.value != "" && sessionVersion.value != DefaultVersion &&
    sessionVersion.value in versions
  }

  /**
   * The reconciler's decision table: a published non-default URL version is
   * persisted; on `latest`, a restorable remembered selection is redirected
   * to; anything else is kept.
   */
  function Decide(urlVersion: string, versions: set<string>, sessionVersion: Option<string>): (r: Decision)
    ensures r.Persist? <==> urlVersion != DefaultVersion && urlVersion in versions
    ensures r.Redirect? <==> urlVersion == DefaultVersion && IsRestorable(sessionVersion, versions)
    ensures r.Persist? ==> r.version == urlVersion
    ensures r.Redirect? ==> r.version == sessionVersion.value
    ensures !r.Keep? ==> r.version in versions && r.version != DefaultVersion
  {
    if urlVersion != DefaultVersion && urlVersion in versions then Persist(urlVersion)
    else if urlVersion == DefaultVersion && IsRestorable(sessionVersion, versions) then Redirect(sessionVersion.value)
    else Keep
  }

  /**
   * Session memory: once a version was persisted for the entity, coming back
   * to the entity's `latest` pages redirects to it, as long as it is published.
   */
  lemma PersistedVersionIsRestored(urlVersion: string, versions: set<string>, sessionVersion: Option<string>)
    requires Decide(urlVersion, versions, sessionVersion).Persist?
    requires urlVersion != ""
    ensures Decide(DefaultVersion, versions, Some(urlVersion)) == Redirect(urlVersion)
  {
  }

  /**
   * A redirect settles: the page the reconciler redirects to (same entity,
   * same directory path) reads back the remembered version, which the next
   * reconciliation then persists instead of redirecting again. For the
   * extractor as written this needs the directory path not to occur in
   * `/versions/{v}{d}` ahead of its place at the end; the corrected
   * extractor needs nothing more.
   */
  lemma RedirectSettles(rootUrl: string, d: string, versions: set<string>, sessionVersion: Option<string>)
    requires IsDirectoryPath(d)
    requires Decide(DefaultVersion, versions, sessionVersion).Redirect?
    requires IsVersionToken(sessionVersion.value)
    requires var rel := "/versions/" + sessionVersion.value + d;
      d != "" ==> IndexOf(rel, d) == Some(|rel| - |d|)
    ensures var v := sessionVersion.value;
      var t := RedirectTarget(rootUrl, d, v);
      Decide(VersionFromUrlAsWritten(t, rootUrl, DirectoryPath(t, rootUrl)), versions, sessionVersion) == Persist(v)
    ensures var v := sessionVersion.value;
      var t := RedirectTarget(rootUrl, d, v);
      Decide(VersionFromUrl(t, rootUrl, DirectoryPath(t, rootUrl)), versions, sessionVersion) == Persist(v)
  {
    RedirectVersionRoundTripAsWritten(rootUrl, d, sessionVersion.value);
    RedirectVersionRoundTrip(rootUrl, d, sessionVersion.value);
  }

  /** Off `latest`, the remembered selection plays no part. */
  lemma SessionIgnoredOffDefault(urlVersion: string, versions: set<string>, s1: Option<string>, s2: Option<string>)
    requires urlVersion != DefaultVersion
    ensures Decide(urlVersion, versions, s1) == Decide(urlVersion, versions, s2)
    ensures Decide(urlVersion, versions, s1) != Keep <==> urlVersion in versions
  {
  }
}
