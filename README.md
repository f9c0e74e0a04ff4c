# TechDocs versioning add-on: version resolution and edit-link policy

This project models the core of the Backstage TechDocs versioning add-on in Dafny.
That core is the logic in `TechDocsVersioningComponent.tsx` that decides which version of an entity's documentation is shown and where the "edit this page" link leads.

- **Entity locator and root URL.** The locator reads namespace, kind and name from path segments 2 to 4 of the URL. It tells whether the page is embedded in the catalog. It then builds the entity's documentation root: `/docs/{ns}/{kind}/{name}`, or `/catalog/{ns}/{kind}/{name}/docs` inside the catalog.
- **Directory path and version.** The directory path is the page's place in the documentation tree. It is computed from the URL with the index loop of `getDirectoryPath`, which drops empty segments, `versions` and the segment after each `versions`. The version is the first segment left once the root and the directory path are removed, or `latest`.
- **Versions and entity UID.** The version set is `latest` plus the entries of the published manifest. The entity UID is fetched with up to five attempts. Backend answers are inputs: `ManifestResponse` and a sequence of `Attempt`s.
- **Session memory and reconciler.** A selection is remembered per entity in the tab's session storage, under `techdocs-versioning-version-{uid}`. When the first four path segments change, `init` does one of three things. It persists a published URL version. Or, on `latest`, it redirects to a remembered published selection. Otherwise it leaves everything alone.
- **Navigator.** `changePage` stores the selection and replaces the location with `{root}{dir}` for `latest`, or `{root}/versions/{v}{dir}` otherwise. The model records the location instead of loading it.
- **Edit-link rewriter.** Away from `latest`, a click on the edit button is cancelled. For a release version (`^v(\d+(\.\d+){0,2})$`) the link is disabled and a warning is posted. For a merge-request version (`MR-\d+-`) the URL's first `/edit/<segment>/` is pointed at the branch. For any other version, the first `/edit/main/` is pointed at the version.

The modules follow the component's structure:
- `Text`: JavaScript's `replace` with a string pattern, `split`, `join` and `includes`.
- `Locator`
- `Paths`
- `Metadata`
- `EditLink`
- `Reconcile`
- `Session`: a `VersioningView` class holding the module-level variables, the session storage map, the recorded redirect, the opened tabs and the warning count.
- `Scenarios`: worked examples of an entity's pages and of an edit click, worked through in the model.

The model follows the code, including where a reader might expect something else:
- When a remembered `v1.0` is restored on an entity's start page `/docs/default/component/my-service/`, one might expect `.../my-service/versions/v1.0/` with a trailing slash. The code's directory path for the start page is `""`, so the target is `.../my-service/versions/v1.0` (see `Scenarios.StartPageRestoresSelection`).
- The directory path of a version's root page `{root}/versions/{v}` is `"/"`, while that of the root page `{root}/` is `""` (see `Paths.RedirectDirectoryRoundTrip`).
- The component reads the version with `getVersionFromUrl` as written, which removes the first occurrence of the directory path wherever it is (`Paths.VersionFromUrlAsWritten`). `Session` uses exactly that extractor. A corrected extractor, which removes the directory path (and a final `/` after it) from the end, is modelled beside it as `Paths.VersionFromUrl`. The two agree on every page `{root}{d}` and `{root}{d}/` (`Paths.ExtractorsAgreeOnLatestPages`) and on every redirect target whose directory path first occurs at its end. They differ on the input under Findings.

Source paths below are relative to the repository root.

## Model

| member | source | states |
|---|---|---|
| Text.ReplacePrefix | plugins/backstage-plugin-techdocs-addon-versioning/src/TechDocsVersioning/TechDocsVersioningComponent.tsx:43 | when the origin (or root) begins the URL, `replace` removes exactly that prefix and leaves the rest |
| Text.IndexOfFrom | plugins/backstage-plugin-techdocs-addon-versioning/src/TechDocsVersioning/TechDocsVersioningComponent.tsx:165 | the index `replace` acts on is the first occurrence of the pattern; none is reported only when the pattern does not occur |
| Text.ReplaceFirst | plugins/backstage-plugin-techdocs-addon-versioning/src/TechDocsVersioning/TechDocsVersioningComponent.tsx:210 | without an occurrence of the pattern the string is unchanged; with one, the result is as long as the string with the pattern exchanged for the replacement |
| Text.ReplaceFirstParts | plugins/backstage-plugin-techdocs-addon-versioning/src/TechDocsVersioning/TechDocsVersioningComponent.tsx:210 | the result keeps what precedes the first occurrence, has the replacement in its place, and keeps what follows it |
| Text.Split | plugins/backstage-plugin-techdocs-addon-versioning/src/TechDocsVersioning/TechDocsVersioningComponent.tsx:44 | `split('/')` yields at least one part and no part contains the separator |
| Text.SplitJoin | plugins/backstage-plugin-techdocs-addon-versioning/src/TechDocsVersioning/TechDocsVersioningComponent.tsx:192 | splitting a join of separator-free parts gives the parts back |
| Text.JoinSplit | plugins/backstage-plugin-techdocs-addon-versioning/src/TechDocsVersioning/TechDocsVersioningComponent.tsx:173 | joining the parts of a split gives the string back |
| Locator.GetBasicEntityFromUrl | plugins/backstage-plugin-techdocs-addon-versioning/src/TechDocsVersioning/TechDocsVersioningComponent.tsx:41-50 | fields are missing only at the end (a name implies a kind implies a namespace), and each present field is a single path segment |
| Locator.EntityFromWellFormedUrl | plugins/backstage-plugin-techdocs-addon-versioning/src/TechDocsVersioning/TechDocsVersioningComponent.tsx:41-50 | for `origin/{top}/{ns}/{kind}/{name}[/…]` the entity is exactly (ns, kind, name) |
| Locator.EntityFromShortUrl | plugins/backstage-plugin-techdocs-addon-versioning/src/TechDocsVersioning/TechDocsVersioningComponent.tsx:41-50 | `/{top}`, `/{top}/{ns}` and `/{top}/{ns}/{kind}` leave the missing fields undefined instead of failing |
| Locator.IsCatalogPath | plugins/backstage-plugin-techdocs-addon-versioning/src/TechDocsVersioning/TechDocsVersioningComponent.tsx:119-125 | holds iff the path starts with `/catalog` or `catalog` (the `/catalog/` test is subsumed) |
| Locator.CreateRootUrl | plugins/backstage-plugin-techdocs-addon-versioning/src/TechDocsVersioning/TechDocsVersioningComponent.tsx:134-153 | the root begins with the origin; it is origin + `/catalog/{ns}/{kind}/{name}/docs` in the catalog, origin + `/docs/{ns}/{kind}/{name}` otherwise |
| Locator.RootUrlLocatesEntity | plugins/backstage-plugin-techdocs-addon-versioning/src/TechDocsVersioning/TechDocsVersioningComponent.tsx:134-153 | every URL below the root built for an entity locates that same entity again, in both shapes |
| Locator.RelevantPath | plugins/backstage-plugin-techdocs-addon-versioning/src/TechDocsVersioning/TechDocsVersioningComponent.tsx:355-356 | the relevant path splits into `""` and segments 1 to 4 of the pathname, each `undefined` when missing |
| Locator.RelevantPathIdempotent | plugins/backstage-plugin-techdocs-addon-versioning/src/TechDocsVersioning/TechDocsVersioningComponent.tsx:355-356 | the relevant path of a relevant path is itself |
| Locator.RelevantPathIgnoresSubpath | plugins/backstage-plugin-techdocs-addon-versioning/src/TechDocsVersioning/TechDocsVersioningComponent.tsx:355-356 | the relevant path is `/p1/p2/p3/p4`; pages that differ only below it share it |
| Paths.CleanParts | plugins/backstage-plugin-techdocs-addon-versioning/src/TechDocsVersioning/TechDocsVersioningComponent.tsx:179-190 | kept segments are non-empty, never `versions`, and drawn from the input |
| Paths.CleanPartsOfClean | plugins/backstage-plugin-techdocs-addon-versioning/src/TechDocsVersioning/TechDocsVersioningComponent.tsx:179-190 | segments that are all clean are all kept, in their order |
| Paths.CleanPartsAfterVersion | plugins/backstage-plugin-techdocs-addon-versioning/src/TechDocsVersioning/TechDocsVersioningComponent.tsx:185-188 | an empty segment, a `versions` segment and the segment after it are all dropped |
| Paths.DirectoryPath | plugins/backstage-plugin-techdocs-addon-versioning/src/TechDocsVersioning/TechDocsVersioningComponent.tsx:164-193 | the result is `""` exactly when the relative path is `""` or `/`; otherwise it is `/` followed by clean segments (`/` alone when every segment was dropped) |
| Paths.GetDirectoryPath | plugins/backstage-plugin-techdocs-addon-versioning/src/TechDocsVersioning/TechDocsVersioningComponent.tsx:164-193 | the index loop, with its skip of the segment after `versions`, computes `DirectoryPath` |
| Paths.DirectoryPathIdempotent | plugins/backstage-plugin-techdocs-addon-versioning/src/TechDocsVersioning/TechDocsVersioningComponent.tsx:164-193 | applied to root + one of its own results it returns that result (with `/` read as `""`) |
| Paths.CleanPartsTrailingEmpty | plugins/backstage-plugin-techdocs-addon-versioning/src/TechDocsVersioning/TechDocsVersioningComponent.tsx:179-190 | a trailing empty segment is dropped like any other |
| Paths.TrailingSlashDirectoryPath | plugins/backstage-plugin-techdocs-addon-versioning/src/TechDocsVersioning/TechDocsVersioningComponent.tsx:164-193 | a final `/` after a page's URL does not change its directory path |
| Paths.VersionedDirectoryPath | plugins/backstage-plugin-techdocs-addon-versioning/src/TechDocsVersioning/TechDocsVersioningComponent.tsx:164-193 | `{root}/versions/{v}{d}` has directory path `d`, or `/` when `d` is `""` |
| Paths.ExtractVersion | plugins/backstage-plugin-techdocs-addon-versioning/src/TechDocsVersioning/TechDocsVersioningComponent.tsx:212-220 | the version is never empty, never `versions`, holds no `/`, and is `latest` for a remainder `""` or `/` |
| Paths.ExtractVersionFirstSegment | plugins/backstage-plugin-techdocs-addon-versioning/src/TechDocsVersioning/TechDocsVersioningComponent.tsx:216-218 | the version is the first segment that is neither empty nor `versions` |
| Paths.ExtractVersionDefault | plugins/backstage-plugin-techdocs-addon-versioning/src/TechDocsVersioning/TechDocsVersioningComponent.tsx:216-220 | when no segment survives the filter the version is `latest` |
| Paths.VersionFromUrlAsWritten | plugins/backstage-plugin-techdocs-addon-versioning/src/TechDocsVersioning/TechDocsVersioningComponent.tsx:203-221 | the version read as the code does it is never empty, never `versions` and holds no `/`; it is `latest` when the URL is the root, with or without a final `/` |
| Paths.StripDirectory | plugins/backstage-plugin-techdocs-addon-versioning/src/TechDocsVersioning/TechDocsVersioningComponent.tsx:210 | the corrected removal: the result followed by the directory path (with its final `/`, when the input ends with one) is the input; an input ending with neither is kept |
| Paths.ExtractorsAgreeOnLatestPages | plugins/backstage-plugin-techdocs-addon-versioning/src/TechDocsVersioning/TechDocsVersioningComponent.tsx:203-221 | on `{root}{d}` and `{root}{d}/`, with each page's own directory path, the code as written and the corrected extractor both read `latest` |
| Paths.RedirectTarget | plugins/backstage-plugin-techdocs-addon-versioning/src/TechDocsVersioning/TechDocsVersioningComponent.tsx:263-268 | the target begins with the root and ends with the directory path |
| Paths.VersionedRelative | plugins/backstage-plugin-techdocs-addon-versioning/src/TechDocsVersioning/TechDocsVersioningComponent.tsx:266-268 | relative to the root, the target for a version other than `latest` is `/versions/{v}{d}` |
| Paths.RedirectDirectoryRoundTrip | plugins/backstage-plugin-techdocs-addon-versioning/src/TechDocsVersioning/TechDocsVersioningComponent.tsx:261-270 | the directory path read back from the redirect target is the one the target was built with, up to `""`/`/` at a root page |
| Paths.LatestVersionRoundTrip | plugins/backstage-plugin-techdocs-addon-versioning/src/TechDocsVersioning/TechDocsVersioningComponent.tsx:203-221 | the target for `latest` reads back `latest`, as the code reads it and with the corrected extractor |
| Paths.VersionedRoundTrip | plugins/backstage-plugin-techdocs-addon-versioning/src/TechDocsVersioning/TechDocsVersioningComponent.tsx:203-221 | with the corrected extractor, the target for a version token other than `latest` reads back that token |
| Paths.RedirectVersionRoundTrip | plugins/backstage-plugin-techdocs-addon-versioning/src/TechDocsVersioning/TechDocsVersioningComponent.tsx:203-221 | with the corrected extractor, for every version token (non-empty, no `/`, not `versions`) and every directory path, the version read back from the redirect target is the token |
| Paths.RedirectVersionRoundTripAsWritten | plugins/backstage-plugin-techdocs-addon-versioning/src/TechDocsVersioning/TechDocsVersioningComponent.tsx:209-210 | the code as written reads the token back when the directory path first occurs at the end of `/versions/{v}{d}` |
| Paths.DirectoryFirstAtEnd | plugins/backstage-plugin-techdocs-addon-versioning/src/TechDocsVersioning/TechDocsVersioningComponent.tsx:210 | a `/`-led directory path that begins neither `/versions/{v}{d}` nor `/{v}{d}` first occurs at the end of `/versions/{v}{d}`, so the code's `replace` removes it there |
| Paths.AsWrittenRemovesEarlyOccurrence | plugins/backstage-plugin-techdocs-addon-versioning/src/TechDocsVersioning/TechDocsVersioningComponent.tsx:210 | when `/versions/{v}{d}` begins with `d`, the code as written reads the version from what follows that early occurrence |
| Paths.AsWrittenMisreadsVersion | plugins/backstage-plugin-techdocs-addon-versioning/src/TechDocsVersioning/TechDocsVersioningComponent.tsx:210 | for directory path `/version` and any token `v`, the code as written reads version `s`; the corrected extractor reads `v` |
| Metadata.ManifestEntries | plugins/backstage-plugin-techdocs-addon-versioning/src/TechDocsVersioning/TechDocsVersioningComponent.tsx:70-76 | a non-success status gives `[]`, a success its list, and only a thrown request gives nothing |
| Metadata.GetVersions | plugins/backstage-plugin-techdocs-addon-versioning/src/TechDocsVersioning/TechDocsVersioningComponent.tsx:227-238 | the set contains `latest` and every manifest entry, and nothing else |
| Metadata.FailedManifestGivesLatestOnly | plugins/backstage-plugin-techdocs-addon-versioning/src/TechDocsVersioning/TechDocsVersioningComponent.tsx:70-75 | after a non-success status the version set is exactly `{latest}` |
| Metadata.FirstSuccess | plugins/backstage-plugin-techdocs-addon-versioning/src/TechDocsVersioning/TechDocsVersioningComponent.tsx:245-255 | the UID is that of the first successful attempt among the first five, every earlier one failed; there is none iff all five fail |
| Metadata.GetEntityUid | plugins/backstage-plugin-techdocs-addon-versioning/src/TechDocsVersioning/TechDocsVersioningComponent.tsx:245-255 | the retry loop returns `FirstSuccess`; it makes 1 to 5 requests, all but the last failed, and exactly 5 when it fails |
| EditLink.MatchAt | plugins/backstage-plugin-techdocs-addon-versioning/src/TechDocsVersioning/TechDocsVersioningComponent.tsx:404-408 | a match lies inside the string and spells its pattern: `MR-`, one or more digits and `-`; or `/edit/`, one or more characters other than `/`, and `/` |
| EditLink.FirstMatchFrom | plugins/backstage-plugin-techdocs-addon-versioning/src/TechDocsVersioning/TechDocsVersioningComponent.tsx:404-409 | the match found is the leftmost one; none is found only when no position matches |
| EditLink.FirstMatchAt | plugins/backstage-plugin-techdocs-addon-versioning/src/TechDocsVersioning/TechDocsVersioningComponent.tsx:404-408 | a match with no match before it is the leftmost one |
| EditLink.ReplaceFirstMatch | plugins/backstage-plugin-techdocs-addon-versioning/src/TechDocsVersioning/TechDocsVersioningComponent.tsx:405-410 | without a match the string is unchanged; with one, the result is as long as the string with the match exchanged for the replacement |
| EditLink.ReplaceFirstMatchParts | plugins/backstage-plugin-techdocs-addon-versioning/src/TechDocsVersioning/TechDocsVersioningComponent.tsx:405-410 | the result keeps what precedes the leftmost match, has the replacement in its place, and keeps what follows it |
| EditLink.IsRelease | plugins/backstage-plugin-techdocs-addon-versioning/src/TechDocsVersioning/TechDocsVersioningComponent.tsx:392 | a release begins with `v` followed by a digit |
| EditLink.Branch | plugins/backstage-plugin-techdocs-addon-versioning/src/TechDocsVersioning/TechDocsVersioningComponent.tsx:405 | without a merge-request id the branch is the version itself; with one, the id (at least `MR-`, a digit and `-`) is cut out |
| EditLink.RewriteEditUrl | plugins/backstage-plugin-techdocs-addon-versioning/src/TechDocsVersioning/TechDocsVersioningComponent.tsx:403-425 | for a merge-request version the URL is unchanged without an `/edit/<segment>/`, and otherwise `/edit/{branch}/` stands where the first one began, with everything before it kept; for any other version the same holds for `/edit/main/` and `/edit/{version}/` |
| EditLink.MarkDisabled | plugins/backstage-plugin-techdocs-addon-versioning/src/TechDocsVersioning/TechDocsVersioningComponent.tsx:393-397 | the path keeps its length, and the only element that can change is the first anchor, which becomes its disabled form; every element before it is not an anchor |
| EditLink.FirstAnchorOfMarkDisabled | plugins/backstage-plugin-techdocs-addon-versioning/src/TechDocsVersioning/TechDocsVersioningComponent.tsx:393-397 | after disabling, the first anchor is the disabled form of the old first anchor |
| EditLink.FirstAnchor | plugins/backstage-plugin-techdocs-addon-versioning/src/TechDocsVersioning/TechDocsVersioningComponent.tsx:371-374 | the anchor found is the first anchor of the composed path: every element before it is not an anchor; none only when the path holds no anchor |
| EditLink.EditLinkAction | plugins/backstage-plugin-techdocs-addon-versioning/src/TechDocsVersioning/TechDocsVersioningComponent.tsx:366-426 | a click acts iff the version is not `latest` and the first anchor is the edit button; it disables iff it acts and the version is a release; otherwise it opens the rewritten URL |
| EditLink.ReleaseIsDottedNumber | plugins/backstage-plugin-techdocs-addon-versioning/src/TechDocsVersioning/TechDocsVersioningComponent.tsx:392 | a release is `v` followed by one to three dot-separated digit groups |
| EditLink.DottedNumberIsRelease | plugins/backstage-plugin-techdocs-addon-versioning/src/TechDocsVersioning/TechDocsVersioningComponent.tsx:392 | `v` followed by one to three dot-separated digit groups is a release |
| EditLink.ReleaseExamples | plugins/backstage-plugin-techdocs-addon-versioning/src/TechDocsVersioning/TechDocsVersioningComponent.tsx:391-392 | `v1`, `v1.2` and `v1.2.3` are releases |
| EditLink.FourGroupsNotRelease | plugins/backstage-plugin-techdocs-addon-versioning/src/TechDocsVersioning/TechDocsVersioningComponent.tsx:391-392 | `v1.2.3.4` is not a release |
| EditLink.WordsNotRelease | plugins/backstage-plugin-techdocs-addon-versioning/src/TechDocsVersioning/TechDocsVersioningComponent.tsx:391-392 | `version1` and `MR-12-foo` are not releases |
| EditLink.MergeRequestIsNotRelease | plugins/backstage-plugin-techdocs-addon-versioning/src/TechDocsVersioning/TechDocsVersioningComponent.tsx:392 | no merge-request version `MR-{n}-{b}` is a release |
| EditLink.MergeRequestBranch | plugins/backstage-plugin-techdocs-addon-versioning/src/TechDocsVersioning/TechDocsVersioningComponent.tsx:404-405 | `{pre}MR-{n}-{b}`, with digits `n` and no merge-request id starting inside `pre`, is a merge-request version whose branch is `{pre}{b}` |
| EditLink.MergeRequestIdAt | plugins/backstage-plugin-techdocs-addon-versioning/src/TechDocsVersioning/TechDocsVersioningComponent.tsx:404-405 | `MR-{n}-` spelled out at a position, with digits `n`, is a match of length `|n| + 4` there |
| EditLink.ReplaceEditSegment | plugins/backstage-plugin-techdocs-addon-versioning/src/TechDocsVersioning/TechDocsVersioningComponent.tsx:407-410 | the first `/edit/<segment>/` is replaced and everything around it is kept |
| EditLink.MergeRequestEditUrl | plugins/backstage-plugin-techdocs-addon-versioning/src/TechDocsVersioning/TechDocsVersioningComponent.tsx:404-415 | for `MR-{n}-{b}` the first `/edit/<segment>/` of the URL becomes `/edit/{b}/` |
| EditLink.MainBranchEditUrl | plugins/backstage-plugin-techdocs-addon-versioning/src/TechDocsVersioning/TechDocsVersioningComponent.tsx:418-419 | for any other version the first `/edit/main/` becomes `/edit/{version}/` |
| EditLink.OtherEditUrlUnchanged | plugins/backstage-plugin-techdocs-addon-versioning/src/TechDocsVersioning/TechDocsVersioningComponent.tsx:403-426 | without a merge-request id and without `/edit/main/` the URL opens unchanged |
| EditLink.ReleaseTitleIsNotEdit | plugins/backstage-plugin-techdocs-addon-versioning/src/TechDocsVersioning/TechDocsVersioningComponent.tsx:395-396 | the disabled link's title does not contain `Edit this page` |
| EditLink.DisabledLinkIsInert | plugins/backstage-plugin-techdocs-addon-versioning/src/TechDocsVersioning/TechDocsVersioningComponent.tsx:381-401 | a second click on a disabled release link does nothing: no second warning, nothing opened |
| EditLink.MergeRequestClick | plugins/backstage-plugin-techdocs-addon-versioning/src/TechDocsVersioning/TechDocsVersioningComponent.tsx:381-426 | with `MR-{n}-{b}` active, a click on the edit button opens its URL with the first `/edit/<segment>/` pointed at `b` |
| EditLink.MergeRequestClickExample | plugins/backstage-plugin-techdocs-addon-versioning/src/TechDocsVersioning/TechDocsVersioningComponent.tsx:404-426 | with `MR-42-feature-x` active, the edit link `…/edit/main/guide.md` opens `…/edit/feature-x/guide.md` |
| Reconcile.Decide | plugins/backstage-plugin-techdocs-addon-versioning/src/TechDocsVersioning/TechDocsVersioningComponent.tsx:333-351 | persist iff the URL version is published and not `latest`; redirect iff it is `latest` and the remembered value is present, non-empty, not `latest` and published; what is persisted or redirected to is published and not `latest` |
| Reconcile.PersistedVersionIsRestored | plugins/backstage-plugin-techdocs-addon-versioning/src/TechDocsVersioning/TechDocsVersioningComponent.tsx:334-351 | a version once persisted is redirected to on the entity's next `latest` page |
| Reconcile.RedirectSettles | plugins/backstage-plugin-techdocs-addon-versioning/src/TechDocsVersioning/TechDocsVersioningComponent.tsx:340-351 | the page redirected to reads back the remembered version, as the code reads it (when the directory path first occurs at the end of `/versions/{v}{d}`) and with the corrected extractor; the next reconciliation then persists it instead of redirecting again |
| Reconcile.SessionIgnoredOffDefault | plugins/backstage-plugin-techdocs-addon-versioning/src/TechDocsVersioning/TechDocsVersioningComponent.tsx:334-337 | away from `latest` the remembered value plays no part; the decision acts iff the version is published |
| Session.StorageKeyInjective | plugins/backstage-plugin-techdocs-addon-versioning/src/TechDocsVersioning/TechDocsVersioningComponent.tsx:97-100 | distinct keys never share a prefixed storage item |
| Session.GetAfterSet | plugins/backstage-plugin-techdocs-addon-versioning/src/TechDocsVersioning/TechDocsVersioningComponent.tsx:97-110 | reading after a write gives the written value for that key and the old item for every other key |
| Session.GetSessionStorage | plugins/backstage-plugin-techdocs-addon-versioning/src/TechDocsVersioning/TechDocsVersioningComponent.tsx:108-110 | an item is found iff `techdocs-versioning-{key}` is in the store, and then it is that item |
| Session.InitWritesOnlyVersions | plugins/backstage-plugin-techdocs-addon-versioning/src/TechDocsVersioning/TechDocsVersioningComponent.tsx:330-351 | init writes only published versions into the store, and any redirect it starts goes to the page of the published, non-`latest` version it makes active |
| Session.VersioningView.constructor | plugins/backstage-plugin-techdocs-addon-versioning/src/TechDocsVersioning/TechDocsVersioningComponent.tsx:291-295 | the selector shows `latest` among `{latest}`, the last relevant path is `""`, and nothing is yet stored beyond the given items, redirected, opened or warned |
| Session.VersioningView.SetSessionStorage | plugins/backstage-plugin-techdocs-addon-versioning/src/TechDocsVersioning/TechDocsVersioningComponent.tsx:97-100 | the item under `techdocs-versioning-{key}` becomes the value; no other item changes |
| Session.VersioningView.ChangePage | plugins/backstage-plugin-techdocs-addon-versioning/src/TechDocsVersioning/TechDocsVersioningComponent.tsx:261-270 | stores the version under `version-{uid}` (`undefined` without a UID) and replaces the location with the redirect target |
| Session.VersioningView.HandleChange | plugins/backstage-plugin-techdocs-addon-versioning/src/TechDocsVersioning/TechDocsVersioningComponent.tsx:297-304 | the picked version becomes active and shown, then `changePage` runs |
| Session.VersioningView.Init | plugins/backstage-plugin-techdocs-addon-versioning/src/TechDocsVersioning/TechDocsVersioningComponent.tsx:316-352 | nothing changes when the manifest request throws; the versions are loaded and shown; without a UID nothing else changes; otherwise the UID is kept and `Decide`'s outcome is applied to the store, the version and the location |
| Session.VersioningView.RestoreOrPersist | plugins/backstage-plugin-techdocs-addon-versioning/src/TechDocsVersioning/TechDocsVersioningComponent.tsx:330-351 | applies `Decide`: a published URL version other than `latest` is stored for the entity; a restorable remembered selection becomes the version shown and navigated to; otherwise nothing changes |
| Session.VersioningView.Locate | plugins/backstage-plugin-techdocs-addon-versioning/src/TechDocsVersioning/TechDocsVersioningComponent.tsx:306-314 | root URL and directory path are rebuilt from the location, and the version is read as the code does it (`VersionFromUrlAsWritten`) |
| Session.VersioningView.InitIfRelevant | plugins/backstage-plugin-techdocs-addon-versioning/src/TechDocsVersioning/TechDocsVersioningComponent.tsx:354-360 | init runs iff the relevant path differs from the last one recorded, which is then updated; otherwise nothing init touches changes |
| Session.VersioningView.OnLocationChange | plugins/backstage-plugin-techdocs-addon-versioning/src/TechDocsVersioning/TechDocsVersioningComponent.tsx:306-360 | the navigation effect: rebuilt root and directory path, the version read as the code does it, then init's effect exactly when the relevant path changed |
| Session.VersioningView.HandleLinkClick | plugins/backstage-plugin-techdocs-addon-versioning/src/TechDocsVersioning/TechDocsVersioningComponent.tsx:366-426 | the click is cancelled iff `EditLinkAction` acts; a release disables the link and posts one warning; otherwise the rewritten URL is opened in a new tab |
| Scenarios.StartPageHref | plugins/backstage-plugin-techdocs-addon-versioning/src/TechDocsVersioning/TechDocsVersioningComponent.tsx:134-153 | the start page `/docs/{ns}/{kind}/{name}/` is the root URL followed by `/` |
| Scenarios.RootPage | plugins/backstage-plugin-techdocs-addon-versioning/src/TechDocsVersioning/TechDocsVersioningComponent.tsx:164-221 | the root followed by `/` has directory path `""` and version `latest`, as the code reads it and with the corrected extractor |
| Scenarios.DocsPathIsNotCatalog | plugins/backstage-plugin-techdocs-addon-versioning/src/TechDocsVersioning/TechDocsVersioningComponent.tsx:119-125 | a `/docs/…` pathname is not a catalog path |
| Scenarios.StandaloneStartPage | plugins/backstage-plugin-techdocs-addon-versioning/src/TechDocsVersioning/TechDocsVersioningComponent.tsx:306-314 | on an entity's start page the entity is located, the page is standalone, the directory path is `""` and the version, as the code reads it, `latest` |
| Scenarios.StartPageWithoutSelection | plugins/backstage-plugin-techdocs-addon-versioning/src/TechDocsVersioning/TechDocsVersioningComponent.tsx:316-352 | with manifest `["v1.0"]` and nothing remembered: versions `{latest, v1.0}`, version `latest`, nothing stored, no redirect |
| Scenarios.KeptSnapshot | plugins/backstage-plugin-techdocs-addon-versioning/src/TechDocsVersioning/TechDocsVersioningComponent.tsx:330-351 | init on a `latest` page with nothing remembered and `v1.0` published loads `{latest, v1.0}` and leaves the version, the store and the location as they were |
| Scenarios.RestoredSnapshot | plugins/backstage-plugin-techdocs-addon-versioning/src/TechDocsVersioning/TechDocsVersioningComponent.tsx:339-351 | init on a `latest` page with directory path `d`, `v1.0` remembered and published, restores `v1.0`, redirects to `{root}/versions/v1.0{d}` and leaves the store as it was |
| Scenarios.StartPageRestoresSelection | plugins/backstage-plugin-techdocs-addon-versioning/src/TechDocsVersioning/TechDocsVersioningComponent.tsx:339-351 | with `v1.0` remembered: redirect to `{root}/versions/v1.0` and `v1.0` active |
| Scenarios.GuidePage | plugins/backstage-plugin-techdocs-addon-versioning/src/TechDocsVersioning/TechDocsVersioningComponent.tsx:164-221 | `{root}/guide/` locates the entity, is standalone, has directory path `/guide` and, as the code reads it, version `latest` |
| Scenarios.GuidePageRestoresSelection | plugins/backstage-plugin-techdocs-addon-versioning/src/TechDocsVersioning/TechDocsVersioningComponent.tsx:339-351 | with `v1.0` remembered, `{root}/guide/` redirects to `{root}/versions/v1.0/guide` with `v1.0` active and the store as it was |
| Scenarios.MergeRequestPage | plugins/backstage-plugin-techdocs-addon-versioning/src/TechDocsVersioning/TechDocsVersioningComponent.tsx:164-221 | `{root}/versions/MR-42-feature-x/guide` has directory path `/guide` and version `MR-42-feature-x`, as the code reads it and with the corrected extractor |
| Scenarios.ReleaseEditClick | plugins/backstage-plugin-techdocs-addon-versioning/src/TechDocsVersioning/TechDocsVersioningComponent.tsx:381-401 | with release `v2.0` active the first edit click is cancelled with one warning; the second does nothing; no tab opens |

## Left out

- `packages/backend/src/plugins/techdocs-backend-module-versions.ts` is not part of this model. It is an S3 object-existence check behind a library client.
- `plugins/backstage-plugin-techdocs-addon-versioning/src/plugin.ts` is not part of this model. It only registers the extension.
- React rendering, hooks, `Select` and `MenuItem` are not modelled. Only the state the selector shows is recorded: `renderedVersion` and `renderedVersions`.
- `alertApi.post` is recorded as a count of warnings.
- The style changes of a disabled link (click blocking, colour, cursor) are not modelled. Only the new title is.
- `console` logging is not modelled.
- The `configApi` base URLs are not modelled. Their `??` fallbacks are dead code, since a template string is never nullish.
- The request URLs built in `getEntityMetadata` and `getVersionsMetadata` are not modelled.
- `fetch`, credentials and JSON parsing are inputs:
  - A manifest request ends `Ok(entries)`, `NotOk(status)` or `Rejected`.
  - Each metadata attempt either fails or yields a UID. A non-success status also counts as a failed attempt, because reading `.metadata.uid` of `[]` throws.
  - A manifest whose JSON is not a list of strings is not modelled.
- Metadata.GetEntityUid: a metadata answer without `metadata.uid`, which resolves to `undefined`, is not modelled. A successful attempt always carries a UID string.
- Retry delays: none exist in the source, and none are modelled.
- Registering and removing the click listener is not modelled. The composed path is a sequence of elements, and `instanceof HTMLAnchorElement` is the `AnchorElement` case.
- The commented-out same-entity navigation block in the click handler is not modelled.
- `new URL` normalisation is not modelled. Hrefs are taken as given strings, and `location.origin` is taken to be `protocol//hostname[:port]`.
- `$` substitution patterns in `replace` replacement strings are not modelled. A version or branch containing `$&`, `$1` and the like would be expanded by JavaScript; the model inserts such text literally.
- Concurrency and ordering are not modelled:
  - `init` is not awaited in the source. The model runs it to completion inside the navigation that starts it. Clicks or a second navigation arriving while it is pending, and several tabs writing the same storage, are not modelled.
- Paths.RedirectTarget: its contract states only that the target begins with the root and ends with the directory path. The exact shape is stated by `Paths.VersionedRelative` and used through the round-trip lemmas.
- Paths.VersionFromUrl: the corrected extractor removes the directory path, or the directory path and one final `/`, from the end only. On a `latest` page with more than one final `/`, such as `{root}/guide//`, it keeps the whole remainder and reads `guide`, where the code as written reads `latest`. The component uses the code as written, so this affects only the corrected round-trip lemmas, which never produce such a URL.
- Reconcile.RedirectSettles: for the code as written it is proved only when the directory path first occurs at the end of `/versions/{v}{d}`. A directory such as `/version` breaks it (see Findings). The corrected extractor needs no such condition.
- Paths.RedirectVersionRoundTripAsWritten: proved under the same first-occurrence condition, for the same reason.

## Findings

| source | as written | input that shows it | evidently intended | confidence | as-written member | corrected member |
|---|---|---|---|---|---|---|
| plugins/backstage-plugin-techdocs-addon-versioning/src/TechDocsVersioning/TechDocsVersioningComponent.tsx:210 | `path.replace(directoryPath, '')` removes the first occurrence of the directory path from the relative URL, wherever it is | `{root}/versions/v1.0/version`: the directory path is `/version`, whose first occurrence is inside `/versions`, which leaves `s/v1.0/version`, so the version read is `s` | remove the directory path from the end, where it follows the version segment, so that the version read is `v1.0` | not executed | Paths.AsWrittenMisreadsVersion | Paths.RedirectVersionRoundTrip |
