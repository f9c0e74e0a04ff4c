/**
 * The JavaScript string operations the versioning component relies on, written
 * out over `seq<char>`: `startsWith`, `endsWith`, `includes`, `indexOf`,
 * `replace` with a string pattern (first occurrence only), `split` on one
 * character and `join`.
 */
module Text {
  import opened Wrappers

  predicate StartsWith(s: string, prefix: string) {
    |prefix| <= |s| && s[..|prefix|] == prefix
  }

  predicate EndsWith(s: string, suffix: string) {
    |suffix| <= |s| && s[|s| - |suffix|..] == suffix
  }

  /** `pat` occurs in `s` starting at index `i`. */
  predicate OccursAt(s: string, pat: string, i: nat) {
    i + |pat| <= |s| && s[i..i + |pat|] == pat
  }

  /** `s.indexOf(pat, from)`: the first index at or after `from` where `pat` occurs. */
  function IndexOfFrom(s: string, pat: string, from: nat): (r: Option<nat>)
    decreases |s| - from
    ensures r.Some? ==> from <= r.value && OccursAt(s, pat, r.value)
    ensures r.Some? ==> forall j :: from <= j < r.value ==> !OccursAt(s, pat, j)
    ensures r.None? ==> forall j :: from <= j ==> !OccursAt(s, pat, j)
  {
    if from + |pat| > |s| then None
    else if OccursAt(s, pat, from) then Some(from)
    else IndexOfFrom(s, pat, from + 1)
  }

  function IndexOf(s: string, pat: string): Option<nat> {
    IndexOfFrom(s, pat, 0)
  }

  /** `s.includes(pat)`. */
  predicate Contains(s: string, pat: string) {
    IndexOf(s, pat).Some?
  }

  /**
   * `s.replace(pat, rep)` with a string pattern: only the first occurrence is
   * replaced; an empty pattern matches at index 0.
   */
  function ReplaceFirst(s: string, pat: string, rep: string): (r: string)
    ensures IndexOf(s, pat).None? ==> r == s
    ensures IndexOf(s, pat).Some? ==> |r| == |s| - |pat| + |rep|
  {
    match IndexOf(s, pat)
    case None => s
    case Some(i) => s[..i] + rep + s[i + |pat|..]
  }

  /** `s.split(c)` for a one-character separator; `"".split(c)` is `[""]`. */
  function Split(s: string, c: char): (parts: seq<string>)
    decreases |s|
    ensures |parts| >= 1
    ensures forall k :: 0 <= k < |parts| ==> c !in parts[k]
  {
    if |s| == 0 then [""]
    else
      var rest := Split(s[1..], c);
      if s[0] == c then [""] + rest
      else [[s[0]] + rest[0]] + rest[1..]
  }

  /** `parts.join(c)`. */
  function Join(parts: seq<string>, c: char): string
    decreases |parts|
  {
    if |parts| == 0 then ""
    else if |parts| == 1 then parts[0]
    else parts[0] + [c] + Join(parts[1..], c)
  }

  /** Element `k` of `parts`, or `undefined` past its end (JavaScript's `parts[k]`). */
  function At(parts: seq<string>, k: nat): (r: Option<string>)
    ensures r.Some? <==> k < |parts|
    ensures r.Some? ==> r.value == parts[k]
  {
    if k < |parts| then Some(parts[k]) else None
  }

  /** How a template literal renders a possibly-undefined string. */
  function Render(o: Option<string>): string {
    match o
    case Some(s) => s
    case None => "undefined"
  }

  // ---------------------------------------------------------------------------
  // Lemmas about the string operations

  /**
   * What `replace` with a string pattern does: at the first occurrence of the
   * pattern, the pattern gives way to the replacement; what comes before and
   * after it is kept.
   */
  lemma ReplaceFirstParts(s: string, pat: string, rep: string)
    requires IndexOf(s, pat).Some?
    ensures var i, r := IndexOf(s, pat).value, ReplaceFirst(s, pat, rep);
      r[..i] == s[..i] && r[i..i + |rep|] == rep && r[i + |rep|..] == s[i + |pat|..]
  {
  }

  /** Replacing a prefix of `s` by nothing leaves the rest: the first occurrence is at 0. */
  lemma ReplacePrefix(prefix: string, rest: string)
    ensures ReplaceFirst(prefix + rest, prefix, "") == rest
  {
    var s := prefix + rest;
    assert s[0..|prefix|] == prefix;
    assert OccursAt(s, prefix, 0);
  }

  /** With `pat` first occurring as a suffix of `s`, replacing it strips that suffix. */
  lemma ReplaceLastOnly(s: string, pat: string)
    requires IndexOf(s, pat) == Some(|s| - |pat|)
    ensures ReplaceFirst(s, pat, "") == s[..|s| - |pat|]
  {
  }

  /** A separator-free string splits into itself. */
  lemma {:induction false} SplitNoSeparator(s: string, c: char)
    requires c !in s
    ensures Split(s, c) == [s]
    decreases |s|
  {
    if |s| > 0 {
      assert c !in s[1..] by {
        forall k | 0 <= k < |s[1..]| ensures s[1..][k] != c { assert s[1..][k] == s[k + 1]; }
      }
      SplitNoSeparator(s[1..], c);
      assert [s[0]] + s[1..] == s;
    }
  }

  /** The first part of a split begins with the string's first character, unless that is the separator. */
  lemma SplitFirstChar(s: string, c: char)
    ensures |s| == 0 ==> Split(s, c) == [""]
    ensures |s| > 0 && s[0] == c ==> Split(s, c)[0] == ""
    ensures |s| > 0 && s[0] != c ==> |Split(s, c)[0]| >= 1 && Split(s, c)[0][0] == s[0]
  {
  }

  /** A leading separator closes an empty first part. */
  lemma SplitSeparatorFirst(c: char, t: string)
    ensures Split([c] + t, c) == [""] + Split(t, c)
  {
    assert ([c] + t)[1..] == t;
  }

  /** A leading character other than the separator begins the first part. */
  lemma SplitOtherFirst(x: char, c: char, t: string)
    requires x != c
    ensures Split([x] + t, c) == [[x] + Split(t, c)[0]] + Split(t, c)[1..]
  {
    assert ([x] + t)[1..] == t;
  }

  /** Extending the first part of a concatenation of parts extends the first half's first part. */
  lemma ExtendFirstPart(x: char, ra: seq<string>, sb: seq<string>)
    requires |ra| >= 1
    ensures [[x] + (ra + sb)[0]] + (ra + sb)[1..] == ([[x] + ra[0]] + ra[1..]) + sb
  {
    assert (ra + sb)[0] == ra[0];
    assert (ra + sb)[1..] == ra[1..] + sb;
  }

  /** The inductive step of SplitConcat, for a first character other than the separator. */
  lemma SplitConcatOther(x: char, c: char, a: string, b: string)
    requires x != c
    requires Split(a + [c] + b, c) == Split(a, c) + Split(b, c)
    ensures Split([x] + a + [c] + b, c) == Split([x] + a, c) + Split(b, c)
  {
    var t := a + [c] + b;
    assert [x] + a + [c] + b == [x] + t;
    SplitOtherFirst(x, c, t);
    SplitOtherFirst(x, c, a);
    ExtendFirstPart(x, Split(a, c), Split(b, c));
  }

  /** A string ending with the separator splits into a last part that is empty. */
  lemma SplitTrailingSeparator(s: string, c: char)
    ensures |s| > 0 && s[|s| - 1] == c ==> Split(s, c) == Split(s[..|s| - 1], c) + [""]
  {
    if |s| > 0 && s[|s| - 1] == c {
      assert s == s[..|s| - 1] + [c] + "";
      SplitConcat(s[..|s| - 1], c, "");
    }
  }

  /** Removing the first occurrence of anything from a string of at most one character leaves nothing or the string. */
  lemma ReplaceFirstShort(s: string, pat: string)
    ensures |s| <= 1 ==> ReplaceFirst(s, pat, "") == "" || ReplaceFirst(s, pat, "") == s
  {
    if |s| <= 1 && IndexOf(s, pat).Some? && |pat| == 0 {
      assert OccursAt(s, pat, 0);
      assert IndexOf(s, pat).value == 0;
    }
  }

  /** Splitting at a separator splits the two halves independently. */
  lemma {:induction false} SplitConcat(a: string, c: char, b: string)
    ensures Split(a + [c] + b, c) == Split(a, c) + Split(b, c)
    decreases |a|
  {
    if |a| == 0 {
      assert a + [c] + b == [c] + b;
      SplitSeparatorFirst(c, b);
    } else {
      SplitConcat(a[1..], c, b);
      assert a == [a[0]] + a[1..];
      if a[0] == c {
        assert a + [c] + b == [c] + (a[1..] + [c] + b);
        SplitSeparatorFirst(c, a[1..] + [c] + b);
        SplitSeparatorFirst(c, a[1..]);
      } else {
        SplitConcatOther(a[0], c, a[1..], b);
      }
    }
  }

  /** A separator-free piece, a separator and a tail split into the piece and the tail's parts. */
  lemma SplitPieceThen(a: string, c: char, tail: string)
    requires c !in a
    ensures Split(a + ([c] + tail), c) == [a] + Split(tail, c)
  {
    assert a + ([c] + tail) == a + [c] + tail;
    SplitConcat(a, c, tail);
    SplitNoSeparator(a, c);
  }

  /** Joining separator-free pieces and splitting again gives the pieces back. */
  lemma {:induction false} SplitJoin(parts: seq<string>, c: char)
    requires |parts| >= 1
    requires forall k :: 0 <= k < |parts| ==> c !in parts[k]
    ensures Split(Join(parts, c), c) == parts
    decreases |parts|
  {
    if |parts| == 1 {
      SplitNoSeparator(parts[0], c);
    } else {
      SplitJoin(parts[1..], c);
      SplitNoSeparator(parts[0], c);
      SplitConcat(parts[0], c, Join(parts[1..], c));
      assert [parts[0]] + parts[1..] == parts;
    }
  }

  /** Splitting and joining again gives the string back. */
  lemma {:induction false} JoinSplit(s: string, c: char)
    ensures Join(Split(s, c), c) == s
    decreases |s|
  {
    if |s| > 0 {
      JoinSplit(s[1..], c);
      var rest := Split(s[1..], c);
      if s[0] == c {
        assert Split(s, c) == [""] + rest;
        assert ([""] + rest)[1..] == rest;
        assert Join(Split(s, c), c) == "" + [c] + Join(rest, c);
        assert [s[0]] + s[1..] == s;
      } else {
        var parts := [[s[0]] + rest[0]] + rest[1..];
        assert Split(s, c) == parts;
        if |rest| == 1 {
          assert Join(parts, c) == [s[0]] + rest[0];
          assert Join(rest, c) == rest[0];
        } else {
          assert parts[1..] == rest[1..];
          assert Join(parts, c) == [s[0]] + rest[0] + [c] + Join(rest[1..], c);
          assert Join(rest, c) == rest[0] + [c] + Join(rest[1..], c);
        }
        assert [s[0]] + s[1..] == s;
      }
    }
  }

  /** A string without the pattern's first character does not contain the pattern. */
  lemma MissingFirstChar(s: string, pat: string)
    requires |pat| > 0 && pat[0] !in s
    ensures !Contains(s, pat)
  {
  }
}
