/**
 * Link Rewriter: what a click on the documentation's "edit this page" link
 * does for the version in view. Release versions disable the link;
 * merge-request versions point it at their branch; any other version
 * replaces the default branch `main` by the version itself.
 *
 * The two regular expressions of the source are written out by hand:
 * `^v(\d+(\.\d+){0,2})$` as IsRelease, and the unanchored `MR-\d+-` and
 * `(\/edit\/)[^\/]+\/` as MatchAt, which gives the one match each can have
 * at a position (`\d+` and `[^\/]+` are greedy and must be followed by
 * `-` or `/`, so backtracking to a shorter run cannot succeed).
 */
module EditLink {
  import opened Wrappers
  import opened Text
  import opened Constants

  predicate IsDigit(ch: char) {
    '0' <= ch <= '9'
  }

  /** One or more ASCII digits: `\d+`. */
  predicate IsDigits(s: string) {
    |s| >= 1 && forall i :: 0 <= i < |s| ==> IsDigit(s[i])
  }

  /** `^v(\d+(\.\d+){0,2})$`: a `v`, then one to three digit groups separated by dots. */
  predicate IsRelease(version: string): (b: bool)
    ensures b ==> |version| >= 2 && version[0] == 'v' && IsDigit(version[1])
  {
    if |version| >= 1 && version[0] == 'v' then
      var groups := Split(version[1..], '.');
      SplitFirstChar(version[1..], '.');
      |groups| <= 3 && forall k :: 0 <= k < |groups| ==> IsDigits(groups[k])
    else false
  }

  /** The number of consecutive digits of `s` from index `i` on (greedy `\d+`). */
  function DigitRun(s: string, i: nat): (n: nat)
    decreases |s| - i
    ensures n > 0 ==> i + n <= |s|
    ensures forall j :: i <= j < i + n ==> IsDigit(s[j])
    ensures i + n < |s| ==> !IsDigit(s[i + n])
  {
    if i < |s| && IsDigit(s[i]) then 1 + DigitRun(s, i + 1) else 0
  }

  /** The number of consecutive non-`/` characters of `s` from index `i` on (greedy `[^\/]+`). */
  function NonSlashRun(s: string, i: nat): (n: nat)
    decreases |s| - i
    ensures n > 0 ==> i + n <= |s|
    ensures forall j :: i <= j < i + n ==> s[j] != '/'
    ensures i + n < |s| ==> s[i + n] == '/'
  {
    if i < |s| && s[i] != '/' then 1 + NonSlashRun(s, i + 1) else 0
  }

  /** The two unanchored patterns of the rewriter. */
  datatype Pattern =
    | MergeRequestId     // MR-\d+-
    | EditBranchSegment  // \/edit\/[^\/]+\/

  /** The length of the match of `p` starting at index `i` of `s`, if there is one. */
  function MatchAt(p: Pattern, s: string, i: nat): (r: Option<nat>)
    ensures r.Some? ==> r.value >= 1 && i + r.value <= |s|
    ensures r.Some? && p.MergeRequestId? ==>
      r.value >= 5 && OccursAt(s, "MR-", i) && IsDigits(s[i + 3..i + r.value - 1]) && s[i + r.value - 1] == '-'
    ensures r.Some? && p.EditBranchSegment? ==>
      OccursAt(s, "/edit/", i) && r.value >= 8 && '/' !in s[i + 6..i + r.value - 1] && s[i + r.value - 1] == '/'
  {
    match p
    case MergeRequestId =>
      if OccursAt(s, "MR-", i) then
        var n := DigitRun(s, i + 3);
        if n >= 1 && i + 3 + n < |s| && s[i + 3 + n] == '-' then
          Some(3 + n + 1)
        else None
      else None
    case EditBranchSegment =>
      if OccursAt(s, "/edit/", i) then
        var n := NonSlashRun(s, i + 6);
        if n >= 1 && i + 6 + n < |s| then
          Some(6 + n + 1)
        else None
      else None
  }

  /** No match of `p` in `s` starts before index `k`. */
  predicate NoMatchBefore(p: Pattern, s: string, k: nat) {
    forall j :: 0 <= j < k ==> MatchAt(p, s, j).None?
  }

  /** The leftmost match of `p` at or after `from`: its start and its length. */
  function FirstMatchFrom(p: Pattern, s: string, from: nat): (r: Option<(nat, nat)>)
    decreases |s| + 1 - from
    ensures r.Some? ==> from <= r.value.0 && MatchAt(p, s, r.value.0) == Some(r.value.1)
    ensures r.Some? ==> forall j :: from <= j < r.value.0 ==> MatchAt(p, s, j).None?
    ensures r.None? ==> forall j :: from <= j ==> MatchAt(p, s, j).None?
  {
    if from > |s| then None
    else match MatchAt(p, s, from)
      case Some(n) => Some((from, n))
      case None => FirstMatchFrom(p, s, from + 1)
  }

  /** A match with none before it is the leftmost one. */
  lemma FirstMatchAt(p: Pattern, s: string, i: nat)
    requires NoMatchBefore(p, s, i) && MatchAt(p, s, i).Some?
    ensures FirstMatchFrom(p, s, 0) == Some((i, MatchAt(p, s, i).value))
  {
  }

  /** `s.replace(regex, rep)` for a regex without the global flag: the leftmost match is replaced. */
  function ReplaceFirstMatch(p: Pattern, s: string, rep: string): (r: string)
    ensures FirstMatchFrom(p, s, 0).None? ==> r == s
    ensures FirstMatchFrom(p, s, 0).Some? ==> |r| == |s| - FirstMatchFrom(p, s, 0).value.1 + |rep|
  {
    match FirstMatchFrom(p, s, 0)
    case None => s
    case Some((i, n)) => s[..i] + rep + s[i + n..]
  }

  /** The leftmost match is cut out and `rep` put in its place; the rest is kept. */
  lemma ReplaceFirstMatchParts(p: Pattern, s: string, rep: string)
    ensures FirstMatchFrom(p, s, 0).Some? ==>
      var (i, n) := FirstMatchFrom(p, s, 0).value; var r := ReplaceFirstMatch(p, s, rep);
      r[..i] == s[..i] && r[i..i + |rep|] == rep && r[i + |rep|..] == s[i + n..]
  {
  }

  /** `/MR-\d+-/.test(version)`. */
  predicate HasMergeRequestId(version: string) {
    FirstMatchFrom(MergeRequestId, version, 0).Some?
  }

  /** `version.replace(/MR-\d+-/, '')`: the branch a merge-request version was built from. */
  function Branch(version: string): (b: string)
    ensures !HasMergeRequestId(version) ==> b == version
    ensures HasMergeRequestId(version) ==> |b| <= |version| - 5
  {
    ReplaceFirstMatch(MergeRequestId, version, "")
  }

  /**
   * The edit URL opened for a non-release version: the merge request's branch
   * in place of the first `/edit/<segment>/`, else the version in place of
   * the first `/edit/main/`, else the URL as it is.
   */
  function RewriteEditUrl(url: string, version: string): (r: string)
    ensures HasMergeRequestId(version) && FirstMatchFrom(EditBranchSegment, url, 0).None? ==> r == url
    ensures HasMergeRequestId(version) && FirstMatchFrom(EditBranchSegment, url, 0).Some? ==>
      var i := FirstMatchFrom(EditBranchSegment, url, 0).value.0;
      OccursAt(r, "/edit/" + Branch(version) + "/", i) && r[..i] == url[..i]
    ensures !HasMergeRequestId(version) && !Contains(url, "/edit/main/") ==> r == url
    ensures !HasMergeRequestId(version) && Contains(url, "/edit/main/") ==>
      var i := IndexOf(url, "/edit/main/").value;
      OccursAt(r, "/edit/" + version + "/", i) && r[..i] == url[..i]
  {
    if HasMergeRequestId(version) then
      var target := "/edit/" + Branch(version) + "/";
      ReplaceFirstMatchParts(EditBranchSegment, url, target);
      ReplaceFirstMatch(EditBranchSegment, url, target)
    else if Contains(url, "/edit/main/") then
      var target := "/edit/" + version + "/";
      ReplaceFirstParts(url, "/edit/main/", target);
      ReplaceFirst(url, "/edit/main/", target)
    else url
  }

  /** A link element: its target, its classes and its title. */
  datatype Anchor = Anchor(href: string, classes: seq<string>, title: string)

  /** An element on the click's composed path. */
  datatype Element = AnchorElement(anchor: Anchor) | OtherElement

  const EditButtonClass: string := "md-content__button"
  const EditTitle: string := "Edit this page"
  /** "This version is a release and cannot be edited." (written in two pieces to keep proofs about it small). */
  const ReleaseTitle: string := "This version is a release" + " and cannot be edited."

  /** The first anchor on the composed path. */
  function FirstAnchor(path: seq<Element>): (r: Option<Anchor>)
    ensures r.Some? ==>
      exists k :: 0 <= k < |path| && path[k] == AnchorElement(r.value) && (forall j :: 0 <= j < k ==> path[j].OtherElement?)
    ensures r.None? ==> forall k :: 0 <= k < |path| ==> path[k].OtherElement?
  {
    if |path| == 0 then None
    else match path[0]
      case AnchorElement(a) => Some(a)
      case OtherElement => FirstAnchor(path[1..])
  }

  /** The documentation's "edit this page" button: a target, the button class, the edit title. */
  predicate IsEditButton(a: Anchor) {
    a.href != "" && EditButtonClass in a.classes && Contains(a.title, EditTitle)
  }

  /** What a click does: nothing, disable the link (and warn), or open a URL in a new tab. */
  datatype LinkAction = Ignore | Disable | Open(url: string)

  /** handleLinkClick's decision for the version in view and the click's composed path. */
  function EditLinkAction(version: string, path: seq<Element>): (act: LinkAction)
    ensures act != Ignore <==>
      version != DefaultVersion && FirstAnchor(path).Some? && IsEditButton(FirstAnchor(path).value)
    ensures act.Disable? <==> act != Ignore && IsRelease(version)
    ensures act.Open? ==> act.url == RewriteEditUrl(FirstAnchor(path).value.href, version)
  {
    if version == DefaultVersion then Ignore
    else match FirstAnchor(path)
      case None => Ignore
      case Some(a) =>
        if !IsEditButton(a) then Ignore
        else if IsRelease(version) then Disable
        else Open(RewriteEditUrl(a.href, version))
  }

  /** The link after it was disabled: its title now explains why. */
  function DisabledAnchor(a: Anchor): Anchor {
    a.(title := ReleaseTitle)
  }

  /** The composed path with its first anchor disabled. */
  function MarkDisabled(path: seq<Element>): (r: seq<Element>)
    decreases |path|
    ensures |r| == |path|
    ensures forall k :: 0 <= k < |path| && r[k] != path[k] ==>
      path[k].AnchorElement? && r[k] == AnchorElement(DisabledAnchor(path[k].anchor)) &&
      forall j :: 0 <= j < k ==> path[j].OtherElement?
  {
    if |path| == 0 then []
    else match path[0]
      case AnchorElement(a) => [AnchorElement(DisabledAnchor(a))] + path[1..]
      case OtherElement => [OtherElement] + MarkDisabled(path[1..])
  }

  // ---------------------------------------------------------------------------
  // Release versions

  /** Every release version is `v` followed by one to three dot-separated digit groups. */
  lemma ReleaseIsDottedNumber(version: string)
    requires IsRelease(version)
    ensures var groups := Split(version[1..], '.');
      1 <= |groups| <= 3 && version == "v" + Join(groups, '.') &&
      forall k :: 0 <= k < |groups| ==> IsDigits(groups[k])
  {
    JoinSplit(version[1..], '.');
    assert version == [version[0]] + version[1..];
  }

  /** Conversely, `v` followed by one to three dot-separated digit groups is a release version. */
  lemma DottedNumberIsRelease(groups: seq<string>)
    requires 1 <= |groups| <= 3
    requires forall k :: 0 <= k < |groups| ==> IsDigits(groups[k])
    ensures IsRelease("v" + Join(groups, '.'))
  {
    forall k | 0 <= k < |groups| ensures '.' !in groups[k] { }
    SplitJoin(groups, '.');
    var version := "v" + Join(groups, '.');
    assert version[1..] == Join(groups, '.');
  }

  /** Release examples: `v1`, `v1.2` and `v1.2.3`. */
  lemma ReleaseExamples()
    ensures IsRelease("v1") && IsRelease("v1.2") && IsRelease("v1.2.3")
  {
    DottedNumberIsRelease(["1"]);
    assert "v1" == "v" + Join(["1"], '.');
    DottedNumberIsRelease(["1", "2"]);
    assert "v1.2" == "v" + Join(["1", "2"], '.');
    DottedNumberIsRelease(["1", "2", "3"]);
    assert "v1.2.3" == "v" + Join(["1", "2", "3"], '.');
  }

  /** Four digit groups are one too many: `v1.2.3.4` is not a release. */
  lemma FourGroupsNotRelease()
    ensures !IsRelease("v1.2.3.4")
  {
    var four := "v1.2.3.4";
    var t3 := "3" + (['.'] + "4");
    var t2 := "2" + (['.'] + t3);
    assert four[1..] == "1" + (['.'] + t2);
    SplitNoSeparator("4", '.');
    SplitPieceThen("3", '.', "4");
    SplitPieceThen("2", '.', t3);
    SplitPieceThen("1", '.', t2);
  }

  /** A `v` not followed by digits, or no leading `v`, is not a release: `version1`, `MR-12-foo`. */
  lemma WordsNotRelease()
    ensures !IsRelease("version1") && !IsRelease("MR-12-foo")
  {
    var word := "version1";
    assert word[1..] == "ersion1";
    SplitNoSeparator("ersion1", '.');
    assert Split(word[1..], '.')[0] == "ersion1";
    assert !IsDigit("ersion1"[0]);
  }

  // ---------------------------------------------------------------------------
  // Merge-request versions

  /** A version `MR-{n}-{b}` is never a release: its second character is `R`, not a digit. */
  lemma MergeRequestIsNotRelease(n: string, b: string)
    ensures !IsRelease("MR-" + n + "-" + b)
  {
    var version := "MR-" + n + "-" + b;
    assert version[1] == 'R';
  }

  /** The digit run after `MR-` in `MR-{n}-{b}` is exactly `n`. */
  lemma {:induction false} DigitRunOf(s: string, i: nat, n: string)
    requires i + |n| < |s| && s[i..i + |n|] == n && !IsDigit(s[i + |n|])
    requires forall j :: 0 <= j < |n| ==> IsDigit(n[j])
    ensures DigitRun(s, i) == |n|
    decreases |n|
  {
    if |n| > 0 {
      assert s[i] == n[0];
      assert s[i + 1..i + 1 + |n[1..]|] == n[1..];
      DigitRunOf(s, i + 1, n[1..]);
    }
  }

  /**
   * A version `{pre}MR-{n}-{b}` (n digits, no merge-request id starting
   * inside `pre`) is a merge-request version built from branch `{pre}{b}`.
   */
  lemma MergeRequestBranch(pre: string, n: string, b: string)
    requires IsDigits(n)
    requires NoMatchBefore(MergeRequestId, pre + "MR-" + n + "-" + b, |pre|)
    ensures HasMergeRequestId(pre + "MR-" + n + "-" + b)
    ensures Branch(pre + "MR-" + n + "-" + b) == pre + b
  {
    var s := pre + "MR-" + n + "-" + b;
    var i := |pre|;
    MergeRequestIdFirstAt(pre, n, b);
    assert Branch(s) == s[..i] + "" + s[i + |n| + 4..];
    assert s[..i] == pre;
    assert s[i + |n| + 4..] == b;
  }

  /** In `{pre}MR-{n}-{b}` with no match inside `pre`, the leftmost match is `MR-{n}-`. */
  lemma MergeRequestIdFirstAt(pre: string, n: string, b: string)
    requires IsDigits(n)
    requires NoMatchBefore(MergeRequestId, pre + "MR-" + n + "-" + b, |pre|)
    ensures FirstMatchFrom(MergeRequestId, pre + "MR-" + n + "-" + b, 0) == Some((|pre|, |n| + 4))
  {
    var s := pre + "MR-" + n + "-" + b;
    var i := |pre|;
    assert s[i..i + 3] == "MR-" && s[i + 3..i + 3 + |n|] == n && s[i + 3 + |n|] == '-';
    MergeRequestIdAt(s, i, n);
    FirstMatchAt(MergeRequestId, s, i);
  }

  /** `MR-{n}-` spelled out at index `i` is a match of length `|n| + 4` there. */
  lemma MergeRequestIdAt(s: string, i: nat, n: string)
    requires IsDigits(n) && i + 3 + |n| < |s|
    requires s[i..i + 3] == "MR-" && s[i + 3..i + 3 + |n|] == n && s[i + 3 + |n|] == '-'
    ensures MatchAt(MergeRequestId, s, i) == Some(|n| + 4)
  {
    DigitRunOf(s, i + 3, n);
  }

  /** The run of non-`/` characters after `/edit/` is exactly the segment. */
  lemma {:induction false} NonSlashRunOf(s: string, i: nat, seg: string)
    requires i + |seg| < |s| && s[i..i + |seg|] == seg && s[i + |seg|] == '/'
    requires '/' !in seg
    ensures NonSlashRun(s, i) == |seg|
    decreases |seg|
  {
    if |seg| > 0 {
      assert s[i] == seg[0];
      assert s[i + 1..i + 1 + |seg[1..]|] == seg[1..];
      assert '/' !in seg[1..] by {
        forall j | 0 <= j < |seg[1..]| ensures seg[1..][j] != '/' { assert seg[1..][j] == seg[j + 1]; }
      }
      NonSlashRunOf(s, i + 1, seg[1..]);
    }
  }


  /** The first `/edit/<segment>/` is replaced, and only it. */
  lemma ReplaceEditSegment(pre: string, seg: string, post: string, rep: string)
    requires seg != "" && '/' !in seg
    requires NoMatchBefore(EditBranchSegment, pre + "/edit/" + seg + "/" + post, |pre|)
    ensures ReplaceFirstMatch(EditBranchSegment, pre + "/edit/" + seg + "/" + post, rep) == pre + rep + post
  {
    var url := pre + "/edit/" + seg + "/" + post;
    var i := |pre|;
    assert url[i..i + 6] == "/edit/";
    assert url[i + 6..i + 6 + |seg|] == seg;
    assert url[i + 6 + |seg|] == '/';
    NonSlashRunOf(url, i + 6, seg);
    assert MatchAt(EditBranchSegment, url, i) == Some(6 + |seg| + 1);
    assert url[..i] == pre;
    assert url[i + 6 + |seg| + 1..] == post;
  }

  /**
   * For a merge-request version `MR-{n}-{b}`, the first `/edit/<segment>/`
   * of the edit URL is pointed at branch `b`.
   */
  lemma MergeRequestEditUrl(pre: string, seg: string, post: string, n: string, b: string)
    requires seg != "" && '/' !in seg
    requires NoMatchBefore(EditBranchSegment, pre + "/edit/" + seg + "/" + post, |pre|)
    requires IsDigits(n)
    ensures RewriteEditUrl(pre + "/edit/" + seg + "/" + post, "MR-" + n + "-" + b) == pre + "/edit/" + b + "/" + post
  {
    var version := "MR-" + n + "-" + b;
    assert version == "" + "MR-" + n + "-" + b;
    MergeRequestBranch("", n, b);
    assert Branch(version) == b && HasMergeRequestId(version);
    ReplaceEditSegment(pre, seg, post, "/edit/" + b + "/");
  }

  /**
   * For any other non-release version, the first `/edit/main/` of the edit
   * URL is pointed at the version itself.
   */
  lemma MainBranchEditUrl(pre: string, post: string, version: string)
    requires !HasMergeRequestId(version)
    requires IndexOf(pre + "/edit/main/" + post, "/edit/main/") == Some(|pre|)
    ensures RewriteEditUrl(pre + "/edit/main/" + post, version) == pre + "/edit/" + version + "/" + post
  {
    var url := pre + "/edit/main/" + post;
    var target := "/edit/" + version + "/";
    assert Contains(url, "/edit/main/");
    assert RewriteEditUrl(url, version) == ReplaceFirst(url, "/edit/main/", target);
    assert ReplaceFirst(url, "/edit/main/", target) == url[..|pre|] + target + url[|pre| + 11..];
    assert url[..|pre|] == pre;
    assert url[|pre| + 11..] == post;
  }

  /** Without `/edit/main/` and without a merge-request id the URL is opened unchanged. */
  lemma OtherEditUrlUnchanged(url: string, version: string)
    requires !HasMergeRequestId(version)
    requires !Contains(url, "/edit/main/")
    ensures RewriteEditUrl(url, version) == url
  {
  }

  // ---------------------------------------------------------------------------
  // Clicks

  /** The edit title contains the edit marker. */
  lemma EditTitleIsEdit()
    ensures Contains(EditTitle, EditTitle)
  {
    assert OccursAt(EditTitle, EditTitle, 0) by { assert EditTitle[0..|EditTitle|] == EditTitle; }
  }

  /** The title of a disabled link no longer contains the edit marker. */
  lemma ReleaseTitleIsNotEdit()
    ensures !Contains(ReleaseTitle, EditTitle)
  {
    assert EditTitle[0] == 'E';
    MissingFirstChar(ReleaseTitle, EditTitle);
  }

  /** Disabling touches only the first anchor, which stays the first anchor. */
  lemma {:induction false} FirstAnchorOfMarkDisabled(path: seq<Element>)
    ensures FirstAnchor(MarkDisabled(path)) ==
      (match FirstAnchor(path) case None => None case Some(a) => Some(DisabledAnchor(a)))
    decreases |path|
  {
    if |path| > 0 && path[0].OtherElement? {
      FirstAnchorOfMarkDisabled(path[1..]);
      assert MarkDisabled(path)[1..] == MarkDisabled(path[1..]);
    }
  }

  /**
   * Clicking a disabled release link again does nothing: the disabled link
   * is no longer recognised as the edit button, so no second warning is
   * posted and nothing is opened.
   */
  lemma DisabledLinkIsInert(version: string, path: seq<Element>)
    requires EditLinkAction(version, path).Disable?
    ensures EditLinkAction(version, MarkDisabled(path)) == Ignore
  {
    FirstAnchorOfMarkDisabled(path);
    ReleaseTitleIsNotEdit();
  }

  /**
   * A click on the edit button while a merge-request version `MR-{n}-{b}` is
   * active opens the edit URL with its first `/edit/<segment>/` pointed at
   * branch `b`.
   */
  lemma MergeRequestClick(pre: string, seg: string, post: string, n: string, b: string)
    requires seg != "" && '/' !in seg
    requires NoMatchBefore(EditBranchSegment, pre + "/edit/" + seg + "/" + post, |pre|)
    requires IsDigits(n)
    ensures var button := Anchor(pre + "/edit/" + seg + "/" + post, [EditButtonClass], EditTitle);
      EditLinkAction("MR-" + n + "-" + b, [AnchorElement(button)]) == Open(pre + "/edit/" + b + "/" + post)
  {
    var url := pre + "/edit/" + seg + "/" + post;
    var version := "MR-" + n + "-" + b;
    var button := Anchor(url, [EditButtonClass], EditTitle);
    EditTitleIsEdit();
    assert IsEditButton(button);
    assert FirstAnchor([AnchorElement(button)]) == Some(button);
    MergeRequestIsNotRelease(n, b);
    assert version != DefaultVersion by { assert version[0] == 'M'; }
    MergeRequestEditUrl(pre, seg, post, n, b);
  }

  /**
   * The merge-request example: with version `MR-42-feature-x`, a click on
   * the edit button for `{pre}/edit/main/guide.md` opens
   * `{pre}/edit/feature-x/guide.md`.
   */
  lemma MergeRequestClickExample(pre: string)
    requires NoMatchBefore(EditBranchSegment, pre + "/edit/main/guide.md", |pre|)
    ensures var button := Anchor(pre + "/edit/main/guide.md", [EditButtonClass], EditTitle);
      EditLinkAction("MR-42-feature-x", [AnchorElement(button)]) == Open(pre + "/edit/feature-x/guide.md")
  {
    assert IsDigits("42");
    assert "MR-42-feature-x" == "MR-" + "42" + "-" + "feature-x";
    assert pre + "/edit/main/guide.md" == pre + "/edit/" + "main" + "/" + "guide.md";
    assert pre + "/edit/feature-x/guide.md" == pre + "/edit/" + "feature-x" + "/" + "guide.md";
    MergeRequestClick(pre, "main", "guide.md", "42", "feature-x");
  }
}
