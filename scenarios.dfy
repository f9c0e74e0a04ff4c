/**
 * Worked examples of the component, proved on the model: an entity's
 * `latest` start page with and without a remembered selection, a page of a
 * merge-request version, and a click on the edit link of a release version.
 */
module Scenarios {
  import opened Wrappers
  import opened Text
  import opened Constants
  import opened Locator
  import opened Paths
  import opened Metadata
  import opened EditLink
  import opened Session

  /** The start page's URL is the root URL followed by `/`. */
  lemma StartPageHref(loc: Location, ns: string, kind: string, name: string)
    requires loc.pathname == "/docs/" + ns + "/" + kind + "/" + name + "/"
    requires loc.href == Origin(loc) + loc.pathname
    ensures loc.href == CreateRootUrl(loc, BasicEntity(Some(ns), Some(kind), Some(name)), false) + "/"
  {
    var e := BasicEntity(Some(ns), Some(kind), Some(name));
    var tail := ns + "/" + kind + "/" + name;
    assert EntityPath(e) == "/" + tail;
    assert loc.pathname == "/docs/" + tail + "/";
    assert "/docs/" == "/docs" + "/";
  }

  /** The root URL followed by `/` has an empty directory path and, with either extractor, the version `latest`. */
  lemma RootPage(rootUrl: string)
    ensures DirectoryPath(rootUrl + "/", rootUrl) == ""
    ensures VersionFromUrlAsWritten(rootUrl + "/", rootUrl, "") == DefaultVersion
    ensures VersionFromUrl(rootUrl + "/", rootUrl, "") == DefaultVersion
  {
    assert rootUrl + "/" == rootUrl + "" + "/";
    ExtractorsAgreeOnLatestPages(rootUrl, "");
  }

  /** A `/docs/…` pathname is not a catalog path. */
  lemma DocsPathIsNotCatalog(pathname: string, rest: string)
    requires pathname == "/docs/" + rest
    ensures !IsCatalogPath(pathname)
  {
    assert pathname[1] == 'd';
  }

  /**
   * The standalone start page of an entity (see StartPageHref): the entity
   * is located, the page is not in the catalog, its directory path is empty
   * and its version is `latest`.
   */
  lemma StandaloneStartPage(loc: Location, e: BasicEntity)
    requires e.namespace.Some? && e.kind.Some? && e.name.Some?
    requires IsSegment(e.namespace.value) && IsSegment(e.kind.value) && IsSegment(e.name.value)
    requires loc.href == CreateRootUrl(loc, e, false) + "/"
    requires StartsWith(loc.pathname, "/docs/")
    ensures GetBasicEntityFromUrl(loc.href, Origin(loc)) == e && !IsCatalogPath(loc.pathname)
    ensures DirectoryPath(loc.href, CreateRootUrl(loc, e, false)) == ""
    ensures VersionFromUrlAsWritten(loc.href, CreateRootUrl(loc, e, false), "") == DefaultVersion
  {
    StartPageEntity(loc, e);
    RootPage(CreateRootUrl(loc, e, false));
  }

  /** The start page locates its entity and is not a catalog page. */
  lemma StartPageEntity(loc: Location, e: BasicEntity)
    requires e.namespace.Some? && e.kind.Some? && e.name.Some?
    requires IsSegment(e.namespace.value) && IsSegment(e.kind.value) && IsSegment(e.name.value)
    requires loc.href == CreateRootUrl(loc, e, false) + "/"
    requires StartsWith(loc.pathname, "/docs/")
    ensures GetBasicEntityFromUrl(loc.href, Origin(loc)) == e && !IsCatalogPath(loc.pathname)
  {
    RootUrlLocatesEntity(loc, e.namespace.value, e.kind.value, e.name.value, false, "/");
    DocsPathIsNotCatalog(loc.pathname, loc.pathname[6..]);
  }

  /**
   * Without a remembered selection, the start page stays on `latest`: the
   * manifest's versions are loaded, nothing is stored and nothing redirects.
   */
  method StartPageWithoutSelection(loc: Location, e: BasicEntity, uid: string) returns (view: VersioningView)
    requires e.namespace.Some? && e.kind.Some? && e.name.Some?
    requires IsSegment(e.namespace.value) && IsSegment(e.kind.value) && IsSegment(e.name.value)
    requires loc.href == CreateRootUrl(loc, e, false) + "/"
    requires StartsWith(loc.pathname, "/docs/")
    ensures view.version == DefaultVersion && view.renderedVersion == DefaultVersion
    ensures view.versions == {DefaultVersion, "v1.0"} && view.renderedVersions == view.versions
    ensures view.redirect == None && view.store == map[]
  {
    StandaloneStartPage(loc, e);
    view := new VersioningView(map[]);
    ghost var before := view.Snap();
    view.OnLocationChange(loc, Ok(["v1.0"]), [Succeeded(uid)]);
    KeptSnapshot(uid, view.rootUrl, view.directoryPath, before, view.Snap());
  }

  /**
   * Init on a `latest` page whose entity has nothing remembered, with `v1.0`
   * published: the versions are loaded and nothing else changes.
   */
  lemma KeptSnapshot(uid: string, root: string, d: string, before: Snapshot, after: Snapshot)
    requires before.version == DefaultVersion && before.redirect == None && before.store == map[]
    requires InitEffect(Ok(["v1.0"]), [Succeeded(uid)], root, d, before, after)
    ensures after.version == DefaultVersion && after.renderedVersion == DefaultVersion
    ensures after.versions == {DefaultVersion, "v1.0"} && after.renderedVersions == after.versions
    ensures after.redirect == None && after.store == map[]
  {
    assert GetSessionStorage(before.store, EntityKey(Some(uid))) == None;
    assert FirstSuccess([Succeeded(uid)], 0) == Some(uid);
    assert after.versions == {DefaultVersion, "v1.0"};
  }

  /**
   * Init on a `latest` page in directory `d` whose entity has `v1.0`
   * remembered, with `v1.0` published: the selection is restored and the
   * page of `v1.0` in the same directory is loaded.
   */
  lemma RestoredSnapshot(uid: string, root: string, d: string, before: Snapshot, after: Snapshot)
    requires before.version == DefaultVersion
    requires before.store == map[StorageKey(EntityKey(Some(uid))) := "v1.0"]
    requires InitEffect(Ok(["v1.0"]), [Succeeded(uid)], root, d, before, after)
    ensures after.redirect == Some(root + "/versions/" + "v1.0" + d)
    ensures after.version == "v1.0" && after.renderedVersion == "v1.0"
    ensures after.versions == {DefaultVersion, "v1.0"}
    ensures after.store == before.store
  {
    assert GetSessionStorage(before.store, EntityKey(Some(uid))) == Some("v1.0");
    assert FirstSuccess([Succeeded(uid)], 0) == Some(uid);
    assert RedirectTarget(root, d, "v1.0") == root + "/versions/" + "v1.0" + d;
    assert after.versions == {DefaultVersion, "v1.0"};
  }

  /**
   * With `v1.0` remembered for the entity, the start page redirects to the
   * `v1.0` page of the same directory, `{root}/versions/v1.0`, and makes
   * `v1.0` the active version.
   */
  method StartPageRestoresSelection(loc: Location, e: BasicEntity, uid: string) returns (view: VersioningView)
    requires e.namespace.Some? && e.kind.Some? && e.name.Some?
    requires IsSegment(e.namespace.value) && IsSegment(e.kind.value) && IsSegment(e.name.value)
    requires loc.href == CreateRootUrl(loc, e, false) + "/"
    requires StartsWith(loc.pathname, "/docs/")
    ensures view.redirect == Some(CreateRootUrl(loc, e, false) + "/versions/" + "v1.0")
    ensures view.version == "v1.0" && view.renderedVersion == "v1.0"
    ensures view.versions == {DefaultVersion, "v1.0"}
    ensures view.store == map[StorageKey(EntityKey(Some(uid))) := "v1.0"]
  {
    StandaloneStartPage(loc, e);
    view := new VersioningView(map[StorageKey(EntityKey(Some(uid))) := "v1.0"]);
    ghost var before := view.Snap();
    view.OnLocationChange(loc, Ok(["v1.0"]), [Succeeded(uid)]);
    ghost var root := CreateRootUrl(loc, e, false);
    RestoredSnapshot(uid, root, "", before, view.Snap());
    assert root + "/versions/" + "v1.0" + "" == root + "/versions/" + "v1.0";
  }

  /**
   * A `latest` page below the start page, with the usual final `/`:
   * `{root}/guide/` has directory path `/guide` and, as the code reads it,
   * the version `latest`.
   */
  lemma GuidePage(loc: Location, e: BasicEntity)
    requires e.namespace.Some? && e.kind.Some? && e.name.Some?
    requires IsSegment(e.namespace.value) && IsSegment(e.kind.value) && IsSegment(e.name.value)
    requires loc.href == CreateRootUrl(loc, e, false) + "/guide" + "/"
    requires StartsWith(loc.pathname, "/docs/")
    ensures GetBasicEntityFromUrl(loc.href, Origin(loc)) == e && !IsCatalogPath(loc.pathname)
    ensures DirectoryPath(loc.href, CreateRootUrl(loc, e, false)) == "/guide"
    ensures VersionFromUrlAsWritten(loc.href, CreateRootUrl(loc, e, false), "/guide") == DefaultVersion
  {
    var root := CreateRootUrl(loc, e, false);
    assert root + "/guide" + "/" == root + "/guide/";
    RootUrlLocatesEntity(loc, e.namespace.value, e.kind.value, e.name.value, false, "/guide/");
    DocsPathIsNotCatalog(loc.pathname, loc.pathname[6..]);
    GuideIsDirectoryPath();
    ExtractorsAgreeOnLatestPages(root, "/guide");
    TrailingSlashDirectoryPath(root, "/guide");
  }

  /** `/guide` is a directory path: one clean segment. */
  lemma GuideIsDirectoryPath()
    ensures IsDirectoryPath("/guide")
  {
    assert "/guide"[1..] == "guide";
    SplitNoSeparator("guide", '/');
  }

  /**
   * With `v1.0` remembered for the entity, the page `{root}/guide/` redirects
   * to `{root}/versions/v1.0/guide`, the `v1.0` page of the same directory.
   */
  method GuidePageRestoresSelection(loc: Location, e: BasicEntity, uid: string) returns (view: VersioningView)
    requires e.namespace.Some? && e.kind.Some? && e.name.Some?
    requires IsSegment(e.namespace.value) && IsSegment(e.kind.value) && IsSegment(e.name.value)
    requires loc.href == CreateRootUrl(loc, e, false) + "/guide" + "/"
    requires StartsWith(loc.pathname, "/docs/")
    ensures view.redirect == Some(CreateRootUrl(loc, e, false) + "/versions/" + "v1.0" + "/guide")
    ensures view.version == "v1.0" && view.renderedVersion == "v1.0"
    ensures view.store == map[StorageKey(EntityKey(Some(uid))) := "v1.0"]
  {
    GuidePage(loc, e);
    view := new VersioningView(map[StorageKey(EntityKey(Some(uid))) := "v1.0"]);
    ghost var before := view.Snap();
    view.OnLocationChange(loc, Ok(["v1.0"]), [Succeeded(uid)]);
    RestoredSnapshot(uid, CreateRootUrl(loc, e, false), "/guide", before, view.Snap());
  }

  /**
   * A page of a merge-request version: `{root}/versions/MR-42-feature-x/guide`
   * has directory path `/guide` and, as the code reads it, the version
   * `MR-42-feature-x`; the corrected extractor agrees.
   */
  lemma MergeRequestPage(rootUrl: string)
    ensures var href := rootUrl + "/versions/" + "MR-42-feature-x" + "/guide";
      DirectoryPath(href, rootUrl) == "/guide" &&
      VersionFromUrlAsWritten(href, rootUrl, "/guide") == "MR-42-feature-x" &&
      VersionFromUrl(href, rootUrl, "/guide") == "MR-42-feature-x"
  {
    var d := "/guide";
    var v := "MR-42-feature-x";
    GuideIsDirectoryPath();
    assert IsVersionToken(v);
    var rel := "/versions/" + v + d;
    assert rel[1] == 'v' && ("/" + v + d)[1] == 'M';
    DirectoryFirstAtEnd(v, d);
    RedirectDirectoryRoundTrip(rootUrl, d, v);
    AsWrittenBelowVersionRoot(rootUrl, d, v);
    RedirectVersionRoundTrip(rootUrl, d, v);
  }

  /**
   * A click on the edit link while the release `v2.0` is active is cancelled,
   * disables the link and posts one warning; a second click on the disabled
   * link does nothing more.
   */
  method ReleaseEditClick(href: string) returns (view: VersioningView, first: bool, second: bool)
    requires href != ""
    ensures first && !second
    ensures view.warnings == 1 && view.openedTabs == []
  {
    view := new VersioningView(map[]);
    view.HandleChange("v2.0");
    var path := [AnchorElement(Anchor(href, [EditButtonClass], EditTitle))];
    EditTitleIsEdit();
    DottedNumberIsRelease(["2", "0"]);
    assert "v2.0" == "v" + Join(["2", "0"], '.');
    assert EditLinkAction(view.version, path) == Disable;
    var after;
    after, first := view.HandleLinkClick(path);
    DisabledLinkIsInert(view.version, path);
    after, second := view.HandleLinkClick(after);
  }
}
