/**
 * The versioning component's state as one object: the tab's session storage,
 * the module-level variables the source shares between its functions (root
 * URL, directory path, version, versions, entity UID), the state the
 * selector renders, the last location `window.location.replace` was given,
 * the tabs opened and the warnings posted.
 *
 * The backend answers are parameters of the operations that wait for them;
 * init runs to completion inside the navigation that starts it.
 */
module Session {
  import opened Wrappers
  import opened Text
  import opened Constants
  import opened Locator
  import opened Paths
  import opened Metadata
  import opened Reconcile
  import opened EditLink

  /** The session-storage key for `key`, prefixed to avoid collisions with other items. */
  function StorageKey(key: string): string {
    ComponentPrefix + "-" + key
  }

  /** The key under which the selection for an entity is remembered (`version-undefined` without a UID). */
  function EntityKey(uid: Option<string>): string {
    "version-" + Render(uid)
  }

  /** getSessionStorage: the item under the prefixed key, `null` (None) when absent. */
  function GetSessionStorage(store: map<string, string>, key: string): (r: Option<string>)
    ensures r.Some? <==> ComponentPrefix + "-" + key in store
    ensures r.Some? ==> r.value == store[ComponentPrefix + "-" + key]
  {
    if StorageKey(key) in store then Some(store[StorageKey(key)]) else None
  }

  /** Distinct keys never share a storage item. */
  lemma StorageKeyInjective(a: string, b: string)
    requires StorageKey(a) == StorageKey(b)
    ensures a == b
  {
    var n := |ComponentPrefix| + 1;
    assert StorageKey(a)[n..] == a;
    assert StorageKey(b)[n..] == b;
  }

  /** Reading a key after writing one: the written value for the same key, the old item otherwise. */
  lemma GetAfterSet(store: map<string, string>, written: string, value: string, key: string)
    ensures GetSessionStorage(store[StorageKey(written) := value], key) ==
      (if key == written then Some(value) else GetSessionStorage(store, key))
  {
    if key != written && StorageKey(key) == StorageKey(written) {
      StorageKeyInjective(key, written);
    }
  }

  /** Every item the store has now either was there unchanged before or holds a member of `versions`. */
  ghost predicate WritesOnly(store: map<string, string>, before: map<string, string>, versions: set<string>) {
    forall k :: k in store ==> (k in before && store[k] == before[k]) || store[k] in versions
  }

  /** The part of the component's state that init reads and writes. */
  datatype Snapshot = Snapshot(
    store: map<string, string>,
    version: string,
    redirect: Option<string>,
    versions: set<string>,
    entityUid: Option<string>,
    renderedVersion: string,
    renderedVersions: set<string>)

  /**
   * What init does to the state `before`, given how the manifest request
   * and the metadata attempts end: nothing when the manifest request throws;
   * the versions loaded and shown, and then nothing more when no UID was
   * fetched; otherwise the UID is kept and the reconciler's decision applied.
   */
  ghost predicate InitEffect(response: ManifestResponse, attempts: seq<Attempt>, rootUrl: string, directoryPath: string,
                             before: Snapshot, after: Snapshot)
  {
    if response.Rejected? then after == before
    else
      var loaded := before.(versions := after.versions, renderedVersions := after.versions,
                            renderedVersion := before.version);
      IsVersionSet(after.versions, ManifestEntries(response).value) &&
      match FirstSuccess(attempts, 0)
      case None => after == loaded
      case Some(uid) => ReconcileEffect(uid, rootUrl, directoryPath, loaded.(entityUid := Some(uid)), after)
  }

  /**
   * The end of init, once the versions and the UID are known: the store, the
   * version and the location as `Decide` rules for the version read from the
   * URL and the selection remembered for the entity.
   */
  ghost predicate ReconcileEffect(uid: string, rootUrl: string, directoryPath: string, before: Snapshot, after: Snapshot) {
    var key := StorageKey(EntityKey(Some(uid)));
    match Decide(before.version, before.versions, GetSessionStorage(before.store, EntityKey(Some(uid))))
    case Keep => after == before
    case Persist(v) => after == before.(store := before.store[key := v])
    case Redirect(v) =>
      after == before.(store := before.store[key := v], version := v, renderedVersion := v,
                       redirect := Some(RedirectTarget(rootUrl, directoryPath, v)))
  }

  /**
   * Init writes only published versions into the session storage, and a
   * redirect it starts goes to the page of the version it makes active,
   * which is published and not `latest`.
   */
  lemma InitWritesOnlyVersions(response: ManifestResponse, attempts: seq<Attempt>, rootUrl: string, directoryPath: string,
                               before: Snapshot, after: Snapshot)
    requires InitEffect(response, attempts, rootUrl, directoryPath, before, after)
    ensures WritesOnly(after.store, before.store, after.versions)
    ensures after.redirect != before.redirect ==>
      after.version in after.versions && after.version != DefaultVersion &&
      after.redirect == Some(RedirectTarget(rootUrl, directoryPath, after.version))
  {
    if !response.Rejected? && FirstSuccess(attempts, 0).Some? {
      var uid := FirstSuccess(attempts, 0).value;
      var d := Decide(before.version, after.versions, GetSessionStorage(before.store, EntityKey(Some(uid))));
      if !d.Keep? {
        assert after.store == before.store[StorageKey(EntityKey(Some(uid))) := d.version];
      }
    }
  }

  class VersioningView {
    /** The tab's session storage. */
    var store: map<string, string>
    /** The relevant path of the navigation that last ran init. */
    var previousRelevantPath: string
    /** The last location handed to `window.location.replace`, if any. */
    var redirect: Option<string>
    var rootUrl: string
    var directoryPath: string
    /** The active version, which the click handler reads. */
    var version: string
    var versions: set<string>
    var entityUid: Option<string>
    /** What the selector shows. */
    var renderedVersion: string
    var renderedVersions: set<string>
    /** The URLs opened in new tabs, in order. */
    var openedTabs: seq<string>
    /** How many release warnings were posted. */
    var warnings: nat

    /** The state init reads and writes. */
    function Snap(): Snapshot
      reads this
    {
      Snapshot(store, version, redirect, versions, entityUid, renderedVersion, renderedVersions)
    }

    /** A fresh component in a tab whose session storage holds `store`. */
    constructor(store: map<string, string>)
      ensures this.store == store && previousRelevantPath == "" && redirect == None
      ensures version == DefaultVersion && versions == {} && entityUid == None
      ensures renderedVersion == DefaultVersion && renderedVersions == {DefaultVersion}
      ensures openedTabs == [] && warnings == 0
    {
      this.store := store;
      previousRelevantPath := "";
      redirect := None;
      rootUrl := "";
      directoryPath := "";
      version := DefaultVersion;
      versions := {};
      entityUid := None;
      renderedVersion := DefaultVersion;
      renderedVersions := {DefaultVersion};
      openedTabs := [];
      warnings := 0;
    }

    /** setSessionStorage: write the item under the prefixed key. */
    method SetSessionStorage(key: string, value: string)
      modifies this`store
      ensures store == old(store)[StorageKey(key) := value]
      ensures GetSessionStorage(store, key) == Some(value)
    {
      store := store[StorageKey(key) := value];
    }

    /** changePage: remember `v` for the entity and replace the location with `v`'s page. */
    method ChangePage(v: string)
      modifies this`store, this`redirect
      ensures store == old(store)[StorageKey(EntityKey(entityUid)) := v]
      ensures redirect == Some(RedirectTarget(rootUrl, directoryPath, v))
    {
      SetSessionStorage("version-" + Render(entityUid), v);
      if v == DefaultVersion {
        redirect := Some(rootUrl + directoryPath);
      } else {
        redirect := Some(rootUrl + "/versions/" + v + directoryPath);
      }
    }

    /** handleChange: the user picked `v` in the selector. */
    method HandleChange(v: string)
      modifies this`version, this`renderedVersion, this`store, this`redirect
      ensures version == v && renderedVersion == v
      ensures store == old(store)[StorageKey(EntityKey(entityUid)) := v]
      ensures redirect == Some(RedirectTarget(rootUrl, directoryPath, v))
    {
      version := v;
      renderedVersion := version;
      ChangePage(version);
    }

    /**
     * init: load the versions, then the UID, then apply the reconciler's
     * decision. A rejected manifest request or a UID that could not be
     * fetched stops it; nothing else is touched then.
     */
    method Init(response: ManifestResponse, attempts: seq<Attempt>)
      modifies this`versions, this`renderedVersions, this`renderedVersion, this`entityUid
      modifies this`store, this`version, this`redirect
      ensures InitEffect(response, attempts, rootUrl, directoryPath, old(Snap()), Snap())
    {
      var manifest := ManifestEntries(response);
      if manifest.None? {
        return;
      }
      versions := GetVersions(manifest.value);
      renderedVersions := versions;
      renderedVersion := version;
      var uid, _ := GetEntityUid(attempts);
      if uid.None? {
        return;
      }
      entityUid := uid;
      RestoreOrPersist();
    }

    /**
     * The tail of init: a published URL version other than `latest` is
     * remembered for the entity; on `latest`, a remembered selection that is
     * still published is made active and navigated to.
     */
    method RestoreOrPersist()
      requires entityUid.Some?
      modifies this`store, this`version, this`renderedVersion, this`redirect
      ensures ReconcileEffect(entityUid.value, rootUrl, directoryPath, old(Snap()), Snap())
    {
      var sessionVersion := GetSessionStorage(store, "version-" + Render(entityUid));
      if version != DefaultVersion && version in versions {
        SetSessionStorage("version-" + Render(entityUid), version);
        return;
      }
      if version == DefaultVersion && sessionVersion.Some? && sessionVersion.value != "" &&
         sessionVersion.value != DefaultVersion && sessionVersion.value in versions {
        version := sessionVersion.value;
        renderedVersion := version;
        ChangePage(version);
        return;
      }
    }

    /** The start of the navigation effect: entity, root URL, directory path and version from the location. */
    method Locate(loc: Location)
      modifies this`rootUrl, this`directoryPath, this`version
      ensures rootUrl == CreateRootUrl(loc, GetBasicEntityFromUrl(loc.href, Origin(loc)), IsCatalogPath(loc.pathname))
      ensures directoryPath == DirectoryPath(loc.href, rootUrl)
      ensures version == VersionFromUrlAsWritten(loc.href, rootUrl, directoryPath)
    {
      var entity := GetBasicEntityFromUrl(loc.href, Origin(loc));
      rootUrl := CreateRootUrl(loc, entity, IsCatalogPath(loc.pathname));
      directoryPath := GetDirectoryPath(loc.href, rootUrl);
      version := VersionFromUrlAsWritten(loc.href, rootUrl, directoryPath);
    }

    /** The gate of the navigation effect: init runs only when the relevant path changed. */
    method InitIfRelevant(pathname: string, response: ManifestResponse, attempts: seq<Attempt>)
      modifies this`previousRelevantPath
      modifies this`versions, this`renderedVersions, this`renderedVersion, this`entityUid
      modifies this`store, this`version, this`redirect
      ensures previousRelevantPath == RelevantPath(pathname)
      ensures RelevantPath(pathname) == old(previousRelevantPath) ==> Snap() == old(Snap())
      ensures RelevantPath(pathname) != old(previousRelevantPath) ==>
        InitEffect(response, attempts, rootUrl, directoryPath, old(Snap()), Snap())
    {
      var relevantPath := RelevantPath(pathname);
      if relevantPath != previousRelevantPath {
        previousRelevantPath := relevantPath;
        Init(response, attempts);
      }
    }

    /**
     * The effect run on every navigation: locate the entity, rebuild the root
     * URL, the directory path and the version, and run init only when the
     * relevant path changed.
     */
    method OnLocationChange(loc: Location, response: ManifestResponse, attempts: seq<Attempt>)
      modifies this`rootUrl, this`directoryPath, this`previousRelevantPath
      modifies this`versions, this`renderedVersions, this`renderedVersion, this`entityUid
      modifies this`store, this`version, this`redirect
      ensures rootUrl == CreateRootUrl(loc, GetBasicEntityFromUrl(loc.href, Origin(loc)), IsCatalogPath(loc.pathname))
      ensures directoryPath == DirectoryPath(loc.href, rootUrl)
      ensures previousRelevantPath == RelevantPath(loc.pathname)
      ensures var located := old(Snap()).(version := VersionFromUrlAsWritten(loc.href, rootUrl, directoryPath));
        (RelevantPath(loc.pathname) == old(previousRelevantPath) ==> Snap() == located) &&
        (RelevantPath(loc.pathname) != old(previousRelevantPath) ==>
           InitEffect(response, attempts, rootUrl, directoryPath, located, Snap()))
    {
      Locate(loc);
      InitIfRelevant(loc.pathname, response, attempts);
    }

    /**
     * handleLinkClick: away from `latest`, a click on the edit button is
     * cancelled; a release version disables the link and posts a warning,
     * any other version opens the rewritten edit URL in a new tab. `after`
     * is the composed path as the click leaves it.
     */
    method HandleLinkClick(path: seq<Element>) returns (after: seq<Element>, cancelled: bool)
      modifies this`openedTabs, this`warnings
      ensures var act := EditLinkAction(version, path);
        cancelled == (act != Ignore) &&
        (act.Disable? ==> after == MarkDisabled(path) && warnings == old(warnings) + 1 && openedTabs == old(openedTabs)) &&
        (act.Open? ==> after == path && warnings == old(warnings) && openedTabs == old(openedTabs) + [act.url]) &&
        (act.Ignore? ==> after == path && warnings == old(warnings) && openedTabs == old(openedTabs))
    {
      after, cancelled := path, false;
      if version != DefaultVersion {
        var anchor := FirstAnchor(path);
        if anchor.Some? && anchor.value.href != "" {
          if IsEditButton(anchor.value) {
            cancelled := true;
            var editUrl := anchor.value.href;
            if IsRelease(version) {
              after := MarkDisabled(path);
              warnings := warnings + 1;
            } else {
              if HasMergeRequestId(version) {
                var branch := Branch(version);
                editUrl := ReplaceFirstMatch(EditBranchSegment, editUrl, "/edit/" + branch + "/");
              } else if Contains(editUrl, "/edit/main/") {
                editUrl := ReplaceFirst(editUrl, "/edit/main/", "/edit/" + version + "/");
              }
              openedTabs := openedTabs + [editUrl];
            }
          }
        }
      }
    }
  }
}
