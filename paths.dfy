/**
 * Path Resolver and Version Extractor: the directory path of a page relative
 * to the entity's root URL (with any `/versions/{token}` part removed), the
 * version token a URL implies, and the URL the navigator redirects to.
 */
module Paths {
  import opened Wrappers
  import opened Text
  import opened Constants

  /** A segment that survives `getDirectoryPath`: non-empty, not `versions`, no separator. */
  predicate IsCleanSegment(s: string) {
    s != "" && s != VersionsDirectory && '/' !in s
  }

  /**
   * The shapes `getDirectoryPath` returns: `""` for the document root, `"/"`
   * when every segment was dropped, otherwise `/` followed by clean segments.
   */
  predicate IsDirectoryPath(d: string) {
    d == "" || d == "/" ||
    (|d| >= 2 && d[0] == '/' &&
     forall k :: 0 <= k < |Split(d[1..], '/')| ==> IsCleanSegment(Split(d[1..], '/')[k]))
  }

  /** The URL relative to the root: the first occurrence of the root removed. */
  function Relative(url: string, rootUrl: string): string {
    ReplaceFirst(url, rootUrl, "")
  }

  /**
   * The segments `getDirectoryPath` keeps, in order: empty segments are
   * dropped, and so is every `versions` segment together with the segment
   * that follows it.
   */
  function CleanParts(parts: seq<string>): (kept: seq<string>)
    decreases |parts|
    ensures forall k :: 0 <= k < |kept| ==> kept[k] != "" && kept[k] != VersionsDirectory
    ensures forall k :: 0 <= k < |kept| ==> kept[k] in parts
  {
    if |parts| == 0 then []
    else if parts[0] == "" then CleanParts(parts[1..])
    else if parts[0] == VersionsDirectory then (if |parts| == 1 then [] else CleanParts(parts[2..]))
    else [parts[0]] + CleanParts(parts[1..])
  }

  /** getDirectoryPath, as a specification. */
  function DirectoryPath(url: string, rootUrl: string): (d: string)
    ensures d == "" <==> Relative(url, rootUrl) == "" || Relative(url, rootUrl) == "/"
    ensures IsDirectoryPath(d)
  {
    var path := Relative(url, rootUrl);
    if path == "" || path == "/" then ""
    else
      var kept := CleanParts(Split(path, '/'));
      CleanPartsAreSegments(Split(path, '/'));
      JoinedSegmentsAreDirectoryPath(kept);
      "/" + Join(kept, '/')
  }

  /** The parts from index `i` on, or none once the index has run past the end. */
  function Drop(parts: seq<string>, i: nat): seq<string> {
    if i <= |parts| then parts[i..] else []
  }

  /**
   * getDirectoryPath: the index loop of the source, which skips empty
   * segments, skips a `versions` segment and the one after it, and pushes
   * every other segment.
   */
  method GetDirectoryPath(url: string, rootUrl: string) returns (d: string)
    ensures d == DirectoryPath(url, rootUrl)
  {
    var path := ReplaceFirst(url, rootUrl, "");
    if path == "" || path == "/" {
      return "";
    }
    var parts := Split(path, '/');
    var cleanParts: seq<string> := [];
    var index := 0;
    while index < |parts|
      invariant 0 <= index <= |parts| + 1
      invariant cleanParts + CleanParts(Drop(parts, index)) == CleanParts(parts)
      decreases |parts| + 1 - index
    {
      var element := parts[index];
      assert Drop(parts, index)[0] == element;
      if element == "" {
        assert Drop(parts, index)[1..] == Drop(parts, index + 1);
        index := index + 1;
      } else if element == VersionsDirectory {
        assert index + 1 < |parts| ==> Drop(parts, index)[2..] == Drop(parts, index + 2);
        index := index + 2;
      } else {
        assert Drop(parts, index)[1..] == Drop(parts, index + 1);
        cleanParts := cleanParts + [element];
        index := index + 1;
      }
    }
    assert Drop(parts, index) == [];
    assert cleanParts + [] == cleanParts;
    d := "/" + Join(cleanParts, '/');
  }

  /** The segments that survive the version filter: non-empty and not `versions`. */
  function Surviving(parts: seq<string>): (r: seq<string>)
    decreases |parts|
    ensures forall k :: 0 <= k < |r| ==> r[k] != "" && r[k] != VersionsDirectory && r[k] in parts
  {
    if |parts| == 0 then []
    else if parts[0] == "" || parts[0] == VersionsDirectory then Surviving(parts[1..])
    else [parts[0]] + Surviving(parts[1..])
  }

  /**
   * What is left of the URL once the root and the directory path are gone,
   * read as a version: `latest` for nothing or a lone `/`, otherwise the
   * first surviving segment, or `latest` when none survives.
   */
  function ExtractVersion(rest: string): (v: string)
    ensures v != "" && v != VersionsDirectory && '/' !in v
    ensures rest == "" || rest == "/" ==> v == DefaultVersion
  {
    if rest == "" || rest == "/" then DefaultVersion
    else
      var survivors := Surviving(Split(rest, '/'));
      if survivors == [] then DefaultVersion else survivors[0]
  }

  /**
   * getVersionFromUrl as written: the root is removed, then the FIRST
   * occurrence of the directory path, wherever it is. What is left is read
   * as a version token, and a page whose URL is the root, with or without a
   * final `/`, reads as `latest` whatever its directory path.
   */
  function VersionFromUrlAsWritten(href: string, rootUrl: string, directoryPath: string): (v: string)
    ensures v != "" && v != VersionsDirectory && '/' !in v
    ensures Relative(href, rootUrl) == "" || Relative(href, rootUrl) == "/" ==> v == DefaultVersion
  {
    var rest := ReplaceFirst(Relative(href, rootUrl), directoryPath, "");
    ReplaceFirstShort(Relative(href, rootUrl), directoryPath);
    ExtractVersion(rest)
  }

  /** `s` without `suffix` at its end, or `s` itself when it does not end with it. */
  function RemoveSuffix(s: string, suffix: string): (r: string)
    ensures EndsWith(s, suffix) ==> r + suffix == s
    ensures !EndsWith(s, suffix) ==> r == s
  {
    if EndsWith(s, suffix) then s[..|s| - |suffix|] else s
  }

  /**
   * The relative URL without the directory path at its end, where it follows
   * the version segment; a final `/` after the directory path goes with it.
   */
  function StripDirectory(s: string, directoryPath: string): (r: string)
    ensures EndsWith(s, directoryPath + "/") ==> r + (directoryPath + "/") == s
    ensures !EndsWith(s, directoryPath + "/") && EndsWith(s, directoryPath) ==> r + directoryPath == s
    ensures !EndsWith(s, directoryPath + "/") && !EndsWith(s, directoryPath) ==> r == s
  {
    if EndsWith(s, directoryPath + "/") then RemoveSuffix(s, directoryPath + "/") else RemoveSuffix(s, directoryPath)
  }

  /**
   * getVersionFromUrl with the directory path removed from the END of the
   * relative URL, which is where the version segment precedes it.
   */
  function VersionFromUrl(href: string, rootUrl: string, directoryPath: string): string {
    ExtractVersion(StripDirectory(Relative(href, rootUrl), directoryPath))
  }

  /** The location changePage replaces the current one with. */
  function RedirectTarget(rootUrl: string, directoryPath: string, version: string): (t: string)
    ensures StartsWith(t, rootUrl) && EndsWith(t, directoryPath)
  {
    if version == DefaultVersion then rootUrl + directoryPath
    else rootUrl + "/versions/" + version + directoryPath
  }

  // ---------------------------------------------------------------------------
  // Directory paths

  /** Every kept segment of a split string is a clean segment. */
  lemma CleanPartsAreSegments(parts: seq<string>)
    requires forall k :: 0 <= k < |parts| ==> '/' !in parts[k]
    ensures forall k :: 0 <= k < |CleanParts(parts)| ==> IsCleanSegment(CleanParts(parts)[k])
  {
    var kept := CleanParts(parts);
    forall k | 0 <= k < |kept| ensures IsCleanSegment(kept[k]) {
      var j :| 0 <= j < |parts| && parts[j] == kept[k];
    }
  }

  /** `/` followed by clean segments joined with `/` is a directory path. */
  lemma JoinedSegmentsAreDirectoryPath(kept: seq<string>)
    requires forall k :: 0 <= k < |kept| ==> IsCleanSegment(kept[k])
    ensures IsDirectoryPath("/" + Join(kept, '/'))
  {
    var d := "/" + Join(kept, '/');
    assert d[1..] == Join(kept, '/');
    if kept != [] {
      SplitJoin(kept, '/');
      assert d != "/" by { assert |Join(kept, '/')| > 0 by { JoinNonEmpty(kept); } }
    }
  }

  /** Joining at least one non-empty segment gives a non-empty string. */
  lemma JoinNonEmpty(kept: seq<string>)
    requires |kept| >= 1 && kept[0] != ""
    ensures |Join(kept, '/')| > 0
  {
  }

  /** Clean segments are all kept, in order. */
  lemma {:induction false} CleanPartsOfClean(parts: seq<string>)
    requires forall k :: 0 <= k < |parts| ==> IsCleanSegment(parts[k])
    ensures CleanParts(parts) == parts
    decreases |parts|
  {
    if |parts| > 0 {
      CleanPartsOfClean(parts[1..]);
      assert [parts[0]] + parts[1..] == parts;
    }
  }

  /** A directory path other than `""` and `"/"` is `/` followed by its clean segments. */
  lemma DirectoryPathSegments(d: string)
    requires IsDirectoryPath(d) && d != "" && d != "/"
    ensures Split(d, '/') == [""] + Split(d[1..], '/')
    ensures CleanParts(Split(d, '/')) == Split(d[1..], '/')
    ensures d == "/" + Join(Split(d[1..], '/'), '/')
  {
    assert d == "" + ['/'] + d[1..];
    SplitConcat("", '/', d[1..]);
    CleanPartsOfClean(Split(d[1..], '/'));
    JoinSplit(d[1..], '/');
  }

  /**
   * getDirectoryPath is idempotent: applied to the root followed by one of
   * its own results it returns that result, except that `"/"` becomes `""`.
   */
  lemma DirectoryPathIdempotent(rootUrl: string, d: string)
    requires IsDirectoryPath(d)
    ensures DirectoryPath(rootUrl + d, rootUrl) == (if d == "/" then "" else d)
  {
    ReplacePrefix(rootUrl, d);
    if d != "" && d != "/" {
      DirectoryPathSegments(d);
    }
  }

  /** A directory path other than `""` and `"/"` ends in a segment, not in a separator. */
  lemma DirectoryPathEndsInSegment(d: string)
    requires IsDirectoryPath(d) && d != "" && d != "/"
    ensures d[|d| - 1] != '/'
  {
    var tail := d[1..];
    SplitTrailingSeparator(tail, '/');
    var parts := Split(tail, '/');
    assert IsCleanSegment(parts[|parts| - 1]);
    assert d[|d| - 1] == tail[|tail| - 1];
  }

  /** A trailing empty segment is dropped like any other empty segment. */
  lemma {:induction false} CleanPartsTrailingEmpty(parts: seq<string>)
    ensures CleanParts(parts + [""]) == CleanParts(parts)
    decreases |parts|
  {
    var ext := parts + [""];
    if |parts| == 0 {
      assert ext[1..] == [];
    } else if parts[0] == VersionsDirectory && |parts| == 1 {
      assert ext[2..] == [];
    } else if parts[0] == VersionsDirectory {
      assert ext[2..] == parts[2..] + [""];
      CleanPartsTrailingEmpty(parts[2..]);
    } else {
      assert ext[1..] == parts[1..] + [""];
      CleanPartsTrailingEmpty(parts[1..]);
    }
  }

  /** `//` splits into three empty parts. */
  lemma SplitDoubleSlash()
    ensures Split("//", '/') == ["", "", ""]
  {
    assert "//"[1..] == "/";
    assert "/"[1..] == "";
  }

  /** A directory path followed by `/` keeps the directory path's segments. */
  lemma TrailingSlashSegments(d: string)
    requires IsDirectoryPath(d) && d != "" && d != "/"
    ensures CleanParts(Split(d + "/", '/')) == Split(d[1..], '/')
  {
    assert d + "/" == d + ['/'] + "";
    SplitConcat(d, '/', "");
    CleanPartsTrailingEmpty(Split(d, '/'));
    DirectoryPathSegments(d);
  }

  /** Below the root, a relative path other than `""` and `/` gives `/` and its kept segments. */
  lemma DirectoryPathOfRelative(rootUrl: string, rel: string)
    requires rel != "" && rel != "/"
    ensures DirectoryPath(rootUrl + rel, rootUrl) == "/" + Join(CleanParts(Split(rel, '/')), '/')
  {
    ReplacePrefix(rootUrl, rel);
  }

  /** A final `/` after a page's URL does not change its directory path. */
  lemma TrailingSlashDirectoryPath(rootUrl: string, d: string)
    requires IsDirectoryPath(d)
    ensures DirectoryPath(rootUrl + d + "/", rootUrl) == d
  {
    var rel := d + "/";
    assert rootUrl + d + "/" == rootUrl + rel;
    if d == "" {
      ReplacePrefix(rootUrl, rel);
    } else if d == "/" {
      SplitDoubleSlash();
      assert rel == "//";
      DirectoryPathOfRelative(rootUrl, rel);
    } else {
      assert |rel| >= 3;
      DirectoryPathOfRelative(rootUrl, rel);
      TrailingSlashSegments(d);
      DirectoryPathSegments(d);
    }
  }

  /** Stripping a directory path from itself, with or without a final `/`, leaves nothing. */
  lemma StripWholeDirectory(d: string)
    ensures StripDirectory(d, d) == "" && StripDirectory(d + "/", d) == ""
  {
    assert !EndsWith(d, d + "/");
    assert d[|d| - |d|..] == d;
    var rel := d + "/";
    assert rel[|rel| - |rel|..] == rel;
  }

  /**
   * On a `latest` page, `{root}{d}` or `{root}{d}/`, the extractor as written
   * and the corrected one agree: both read `latest`.
   */
  lemma ExtractorsAgreeOnLatestPages(rootUrl: string, d: string)
    requires IsDirectoryPath(d)
    ensures var page := rootUrl + d;
      VersionFromUrlAsWritten(page, rootUrl, DirectoryPath(page, rootUrl)) == DefaultVersion &&
      VersionFromUrl(page, rootUrl, DirectoryPath(page, rootUrl)) == DefaultVersion
    ensures var page := rootUrl + d + "/";
      VersionFromUrlAsWritten(page, rootUrl, DirectoryPath(page, rootUrl)) == DefaultVersion &&
      VersionFromUrl(page, rootUrl, DirectoryPath(page, rootUrl)) == DefaultVersion
  {
    LatestVersionRoundTrip(rootUrl, d);
    var page := rootUrl + d + "/";
    var rel := d + "/";
    TrailingSlashDirectoryPath(rootUrl, d);
    assert page == rootUrl + rel;
    ReplacePrefix(rootUrl, rel);
    ReplacePrefix(d, "/");
    StripWholeDirectory(d);
  }

  /** The literal the navigator writes is `/`, the versions directory and `/`. */
  lemma VersionsPrefix()
    ensures "/versions/" == ['/'] + VersionsDirectory + ['/']
    ensures '/' !in VersionsDirectory
  {
  }

  /** `/versions/` followed by anything splits into `""`, `versions` and the parts of what follows. */
  lemma SplitVersionsPrefix(rest: string)
    ensures Split("/versions/" + rest, '/') == ["", VersionsDirectory] + Split(rest, '/')
  {
    VersionsPrefix();
    var w := VersionsDirectory;
    assert "/versions/" + rest == "" + (['/'] + (w + (['/'] + rest)));
    SplitPieceThen("", '/', w + (['/'] + rest));
    SplitPieceThen(w, '/', rest);
  }

  /** `/versions/{v}` splits into `""`, `versions` and `v`. */
  lemma SplitVersionSegment(v: string)
    requires '/' !in v
    ensures Split("/versions/" + v, '/') == ["", VersionsDirectory, v]
  {
    SplitVersionsPrefix(v);
    SplitNoSeparator(v, '/');
  }

  /** `/versions/{v}` followed by a `/`-led path splits into `""`, `versions`, `v` and the path's parts. */
  lemma SplitVersionedPath(v: string, d: string)
    requires '/' !in v
    requires d != "" && d[0] == '/'
    ensures Split("/versions/" + v + d, '/') == ["", VersionsDirectory, v] + Split(d[1..], '/')
  {
    var tail := d[1..];
    assert v + d == v + (['/'] + tail);
    SplitPieceThen(v, '/', tail);
    assert "/versions/" + v + d == "/versions/" + (v + d);
    SplitVersionsPrefix(v + d);
  }

  /** A leading `""` and a `versions` segment with its token are all dropped. */
  lemma CleanPartsAfterVersion(v: string, tail: seq<string>)
    ensures CleanParts(["", VersionsDirectory, v] + tail) == CleanParts(tail)
  {
    var parts := ["", VersionsDirectory, v] + tail;
    assert parts[1..] == [VersionsDirectory, v] + tail;
    assert parts[1..][2..] == tail;
  }

  /** The segments of `/versions/{v}{d}` that getDirectoryPath keeps are those of `d`. */
  lemma VersionedCleanParts(d: string, v: string)
    requires IsDirectoryPath(d)
    requires '/' !in v
    ensures var kept := CleanParts(Split("/versions/" + v + d, '/'));
      "/" + Join(kept, '/') == (if d == "" then "/" else d)
  {
    if d == "" {
      assert "/versions/" + v + d == "/versions/" + v;
      SplitVersionSegment(v);
      CleanPartsAfterVersion(v, []);
      assert ["", VersionsDirectory, v] + [] == ["", VersionsDirectory, v];
    } else {
      SplitVersionedPath(v, d);
      var tail := Split(d[1..], '/');
      CleanPartsAfterVersion(v, tail);
      if d == "/" {
        assert tail == [""];
      } else {
        DirectoryPathSegments(d);
      }
    }
  }

  /** `/versions/{v}{d}` is neither empty nor `/`. */
  lemma VersionedRestNotRoot(d: string, v: string)
    ensures var rel := "/versions/" + v + d; rel != "" && rel != "/"
  {
    var rel := "/versions/" + v + d;
    assert |rel| >= 10 && rel[1] == 'v';
  }

  /** The directory path of `root/versions/{v}` followed by a directory path. */
  lemma VersionedDirectoryPath(rootUrl: string, d: string, v: string)
    requires IsDirectoryPath(d)
    requires '/' !in v
    ensures DirectoryPath(rootUrl + "/versions/" + v + d, rootUrl) == (if d == "" then "/" else d)
  {
    var rel := "/versions/" + v + d;
    var url := rootUrl + "/versions/" + v + d;
    assert url == rootUrl + rel;
    ReplacePrefix(rootUrl, rel);
    assert Relative(url, rootUrl) == rel;
    VersionedRestNotRoot(d, v);
    VersionedCleanParts(d, v);
  }

  /**
   * The directory path of the page changePage redirects to. For `latest` it
   * is the directory path itself (with `"/"` read back as `""`); for any
   * other token without a separator it is the directory path, with `""`
   * read back as `"/"`.
   */
  lemma RedirectDirectoryRoundTrip(rootUrl: string, d: string, v: string)
    requires IsDirectoryPath(d)
    requires '/' !in v
    ensures v == DefaultVersion ==> DirectoryPath(RedirectTarget(rootUrl, d, v), rootUrl) == (if d == "/" then "" else d)
    ensures v != DefaultVersion ==> DirectoryPath(RedirectTarget(rootUrl, d, v), rootUrl) == (if d == "" then "/" else d)
  {
    if v == DefaultVersion {
      DirectoryPathIdempotent(rootUrl, d);
    } else {
      VersionedDirectoryPath(rootUrl, d, v);
    }
  }

  // ---------------------------------------------------------------------------
  // Versions

  /** The first surviving segment is the version; earlier segments are empty or `versions`. */
  lemma {:induction false} SurvivingFirst(parts: seq<string>, k: nat)
    requires k < |parts| && parts[k] != "" && parts[k] != VersionsDirectory
    requires forall j :: 0 <= j < k ==> parts[j] == "" || parts[j] == VersionsDirectory
    ensures Surviving(parts) != [] && Surviving(parts)[0] == parts[k]
    decreases k
  {
    if k > 0 {
      SurvivingFirst(parts[1..], k - 1);
    }
  }

  /** No surviving segment at all leaves nothing. */
  lemma {:induction false} SurvivingNone(parts: seq<string>)
    requires forall j :: 0 <= j < |parts| ==> parts[j] == "" || parts[j] == VersionsDirectory
    ensures Surviving(parts) == []
    decreases |parts|
  {
    if |parts| > 0 {
      SurvivingNone(parts[1..]);
    }
  }

  /** The version is the first segment of the remainder that is neither empty nor `versions`. */
  lemma ExtractVersionFirstSegment(rest: string, k: nat)
    requires rest != "" && rest != "/"
    requires k < |Split(rest, '/')|
    requires Split(rest, '/')[k] != "" && Split(rest, '/')[k] != VersionsDirectory
    requires forall j :: 0 <= j < k ==> Split(rest, '/')[j] == "" || Split(rest, '/')[j] == VersionsDirectory
    ensures ExtractVersion(rest) == Split(rest, '/')[k]
  {
    SurvivingFirst(Split(rest, '/'), k);
  }

  /** When every segment of the remainder is empty or `versions`, the version is `latest`. */
  lemma ExtractVersionDefault(rest: string)
    requires forall j :: 0 <= j < |Split(rest, '/')| ==> Split(rest, '/')[j] == "" || Split(rest, '/')[j] == VersionsDirectory
    ensures ExtractVersion(rest) == DefaultVersion
  {
    SurvivingNone(Split(rest, '/'));
  }

  /** `/versions/{v}` reads back as `v`. */
  lemma ExtractVersionOfVersionedRest(v: string)
    requires IsCleanSegment(v)
    ensures ExtractVersion("/versions/" + v) == v
  {
    SplitVersionSegment(v);
    assert ("/versions/" + v)[1] == 'v';
    ExtractVersionFirstSegment("/versions/" + v, 2);
  }

  /** `versions/{v}`, as the extractor as written leaves it, also reads back as `v`. */
  lemma ExtractVersionOfVersionedRestNoSlash(v: string)
    requires IsCleanSegment(v)
    ensures ExtractVersion("versions/" + v) == v
  {
    VersionsPrefix();
    var w := VersionsDirectory;
    assert "versions/" + v == w + (['/'] + v);
    SplitPieceThen(w, '/', v);
    SplitNoSeparator(v, '/');
    assert ("versions/" + v)[0] == 'v';
    ExtractVersionFirstSegment("versions/" + v, 1);
  }

  /** A token the navigator can write and read back: not empty, no separator, not `versions`. */
  predicate IsVersionToken(v: string) {
    IsCleanSegment(v)
  }

  /** For `latest` the redirect target is the root and the directory path; both extractors read `latest`. */
  lemma LatestVersionRoundTrip(rootUrl: string, d: string)
    requires IsDirectoryPath(d)
    ensures var t := RedirectTarget(rootUrl, d, DefaultVersion);
      VersionFromUrl(t, rootUrl, DirectoryPath(t, rootUrl)) == DefaultVersion &&
      VersionFromUrlAsWritten(t, rootUrl, DirectoryPath(t, rootUrl)) == DefaultVersion
  {
    var t := RedirectTarget(rootUrl, d, DefaultVersion);
    DirectoryPathIdempotent(rootUrl, d);
    ReplacePrefix(rootUrl, d);
    assert Relative(t, rootUrl) == d;
    if d != "/" {
      StripWholeDirectory(d);
      ReplacePrefix(d, "");
      assert d + "" == d;
    } else {
      StripWholeDirectory("");
      assert "" + "/" == d;
    }
  }

  /** Stripping the directory path from the end of `/versions/{v}{d}` leaves `/versions/{v}`. */
  lemma StripVersionedDirectory(d: string, v: string)
    requires IsDirectoryPath(d)
    requires IsVersionToken(v)
    ensures StripDirectory("/versions/" + v + d, if d == "" then "/" else d) == "/versions/" + v
  {
    var head := "/versions/" + v;
    var rel := head + d;
    if d == "" || d == "/" {
      assert rel[|rel| - |d| - 1] == v[|v| - 1];
      assert !EndsWith(rel, "/" + "/");
      if d == "" {
        assert !EndsWith(rel, "/");
      } else {
        assert rel[|rel| - 1..] == "/";
        assert rel[..|rel| - 1] == head;
      }
    } else {
      DirectoryPathEndsInSegment(d);
      assert rel[|rel| - 1] == d[|d| - 1];
      assert !EndsWith(rel, d + "/");
      assert rel[|rel| - |d|..] == d;
      assert rel[..|rel| - |d|] == head;
    }
  }

  /** With the directory path stripped from the end, `root/versions/{v}{d}` reads back as `v`. */
  lemma VersionedRoundTrip(rootUrl: string, d: string, v: string)
    requires IsDirectoryPath(d)
    requires IsVersionToken(v) && v != DefaultVersion
    ensures var t := RedirectTarget(rootUrl, d, v);
      VersionFromUrl(t, rootUrl, DirectoryPath(t, rootUrl)) == v
  {
    var t := RedirectTarget(rootUrl, d, v);
    var rel := "/versions/" + v + d;
    assert t == rootUrl + rel;
    VersionedDirectoryPath(rootUrl, d, v);
    ReplacePrefix(rootUrl, rel);
    StripVersionedDirectory(d, v);
    ExtractVersionOfVersionedRest(v);
  }

  /**
   * Round trip of the navigator with the corrected extractor: re-deriving
   * the directory path and then the version from the redirect target gives
   * back the version, for every token and every directory path.
   */
  lemma RedirectVersionRoundTrip(rootUrl: string, d: string, v: string)
    requires IsDirectoryPath(d)
    requires IsVersionToken(v)
    ensures var t := RedirectTarget(rootUrl, d, v);
      VersionFromUrl(t, rootUrl, DirectoryPath(t, rootUrl)) == v
  {
    if v == DefaultVersion {
      LatestVersionRoundTrip(rootUrl, d);
    } else {
      VersionedRoundTrip(rootUrl, d, v);
    }
  }

  /** Below the root, the redirect target for a token other than `latest` is `/versions/{v}{d}`. */
  lemma VersionedRelative(rootUrl: string, d: string, v: string)
    requires v != DefaultVersion
    ensures Relative(RedirectTarget(rootUrl, d, v), rootUrl) == "/versions/" + v + d
  {
    var rel := "/versions/" + v + d;
    assert RedirectTarget(rootUrl, d, v) == rootUrl + rel;
    ReplacePrefix(rootUrl, rel);
  }

  /**
   * Round trip of the navigator with the extractor as written: it holds when
   * the directory path does not occur in `/versions/{v}{d}` ahead of its
   * place at the end (or is empty).
   */
  lemma RedirectVersionRoundTripAsWritten(rootUrl: string, d: string, v: string)
    requires IsDirectoryPath(d)
    requires IsVersionToken(v)
    requires v != DefaultVersion && d != "" ==>
      IndexOf("/versions/" + v + d, d) == Some(|"/versions/" + v + d| - |d|)
    ensures var t := RedirectTarget(rootUrl, d, v);
      VersionFromUrlAsWritten(t, rootUrl, DirectoryPath(t, rootUrl)) == v
  {
    if v == DefaultVersion {
      LatestVersionRoundTrip(rootUrl, d);
    } else {
      RedirectDirectoryRoundTrip(rootUrl, d, v);
      if d == "" {
        AsWrittenAtVersionRoot(rootUrl, v);
      } else {
        AsWrittenBelowVersionRoot(rootUrl, d, v);
      }
    }
  }

  /** At `root/versions/{v}` the directory path is `/`; removing its first occurrence leaves `versions/{v}`. */
  lemma AsWrittenAtVersionRoot(rootUrl: string, v: string)
    requires IsVersionToken(v) && v != DefaultVersion
    ensures VersionFromUrlAsWritten(RedirectTarget(rootUrl, "", v), rootUrl, "/") == v
  {
    VersionedRelative(rootUrl, "", v);
    var rel := "/versions/" + v + "";
    ExtractVersionOfVersionedRestNoSlash(v);
    assert rel == "/" + ("versions/" + v);
    ReplacePrefix("/", "versions/" + v);
  }

  /** Below the version root, removing a directory path whose first occurrence is at the end leaves `/versions/{v}`. */
  lemma AsWrittenBelowVersionRoot(rootUrl: string, d: string, v: string)
    requires IsVersionToken(v) && v != DefaultVersion
    requires IndexOf("/versions/" + v + d, d) == Some(|"/versions/" + v + d| - |d|)
    ensures VersionFromUrlAsWritten(RedirectTarget(rootUrl, d, v), rootUrl, d) == v
  {
    VersionedRelative(rootUrl, d, v);
    var rel := "/versions/" + v + d;
    ExtractVersionOfVersionedRest(v);
    ReplaceLastOnly(rel, d);
    assert rel[..|rel| - |d|] == "/versions/" + v;
  }

  /**
   * The directory path first occurs at the end of `/versions/{v}{d}` when it
   * is a prefix neither of that string nor of `/{v}{d}`: a `/`-led path can
   * only start at one of the two separators of `/versions/{v}`.
   */
  lemma DirectoryFirstAtEnd(v: string, d: string)
    requires IsVersionToken(v)
    requires d != "" && d[0] == '/'
    requires !StartsWith("/versions/" + v + d, d)
    requires !StartsWith("/" + v + d, d)
    ensures IndexOf("/versions/" + v + d, d) == Some(|"/versions/" + v + d| - |d|)
  {
    VersionsPrefix();
    var rel := "/versions/" + v + d;
    var h := |rel| - |d|;
    forall j | 0 <= j < h ensures !OccursAt(rel, d, j) {
      if j == 9 {
        assert rel[9..] == "/" + v + d;
        assert rel[9..9 + |d|] == rel[9..][..|d|];
      } else if 1 <= j < 9 {
        assert rel[j] == VersionsDirectory[j - 1];
      } else if j >= 10 {
        assert rel[j] == v[j - 10];
      }
    }
    assert rel[h..h + |d|] == d;
    assert OccursAt(rel, d, h);
  }

  /**
   * When the directory path also occurs at the very start of
   * `/versions/{v}{d}`, the extractor as written removes that occurrence
   * and reads its version from whatever follows it.
   */
  lemma AsWrittenRemovesEarlyOccurrence(rootUrl: string, d: string, v: string, rest: string)
    requires IsDirectoryPath(d) && d != ""
    requires IsVersionToken(v) && v != DefaultVersion
    requires "/versions/" + v + d == d + rest
    ensures var t := RedirectTarget(rootUrl, d, v);
      DirectoryPath(t, rootUrl) == d && VersionFromUrlAsWritten(t, rootUrl, d) == ExtractVersion(rest)
  {
    RedirectDirectoryRoundTrip(rootUrl, d, v);
    VersionedRelative(rootUrl, d, v);
    ReplacePrefix(d, rest);
  }

  /** `/version` is a directory path: one clean segment. */
  lemma VersionDirectoryIsDirectoryPath()
    ensures IsDirectoryPath("/version")
  {
    var d := "/version";
    assert d[1..] == "version";
    SplitNoSeparator("version", '/');
  }

  /**
   * The extractor as written loses the version of any page in a directory
   * called `version`: `/version` first occurs as the start of `/versions/…`,
   * so what remains is `s/{v}/version` and the version read is `s`. The
   * corrected extractor reads `v`.
   */
  lemma AsWrittenMisreadsVersion(rootUrl: string, v: string)
    requires IsVersionToken(v) && v != DefaultVersion
    ensures var t := RedirectTarget(rootUrl, "/version", v);
      DirectoryPath(t, rootUrl) == "/version" &&
      VersionFromUrlAsWritten(t, rootUrl, "/version") == "s" &&
      VersionFromUrl(t, rootUrl, "/version") == v
  {
    var d := "/version";
    var rest := "s" + (['/'] + (v + d));
    VersionDirectoryIsDirectoryPath();
    assert "/versions/" + v + d == d + rest;
    AsWrittenRemovesEarlyOccurrence(rootUrl, d, v, rest);
    SplitPieceThen("s", '/', v + d);
    ExtractVersionFirstSegment(rest, 0);
    RedirectVersionRoundTrip(rootUrl, d, v);
  }
}
