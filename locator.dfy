/**
 * Entity Locator and root-URL construction: which entity a documentation URL
 * belongs to, whether the page is embedded in the catalog, the canonical root
 * URL of the entity's documentation, and the "relevant path" that gates the
 * reconciler.
 */
module Locator {
  import opened Wrappers
  import opened Text

  /** Namespace, kind and name; a field is `None` (`undefined`) when the path is too short. */
  datatype BasicEntity = BasicEntity(namespace: Option<string>, kind: Option<string>, name: Option<string>)

  /** The parts of `window.location` the component reads; `href` is taken as given. */
  datatype Location = Location(protocol: string, hostname: string, port: string, pathname: string, href: string)

  /** `protocol//hostname[:port]`, which is also what `location.origin` holds. */
  function Origin(loc: Location): string {
    loc.protocol + "//" + loc.hostname + (if loc.port != "" then ":" + loc.port else "")
  }

  /** A path segment as the URL shapes use it: no separator inside. */
  predicate IsSegment(s: string) {
    '/' !in s
  }

  /**
   * getBasicEntityFromUrl: drop the first occurrence of the origin, split on
   * `/` and read segments 2, 3 and 4.
   */
  function GetBasicEntityFromUrl(href: string, origin: string): (e: BasicEntity)
    ensures e.name.Some? ==> e.kind.Some?
    ensures e.kind.Some? ==> e.namespace.Some?
    ensures e.namespace.Some? ==> IsSegment(e.namespace.value)
    ensures e.kind.Some? ==> IsSegment(e.kind.value)
    ensures e.name.Some? ==> IsSegment(e.name.value)
  {
    var parts := Split(ReplaceFirst(href, origin, ""), '/');
    BasicEntity(At(parts, 2), At(parts, 3), At(parts, 4))
  }

  /** isCatalogPath: the three prefixes the source tests. */
  function IsCatalogPath(path: string): (r: bool)
    ensures r <==> StartsWith(path, "/catalog") || StartsWith(path, "catalog")
  {
    StartsWith(path, "/catalog/") || StartsWith(path, "/catalog") || StartsWith(path, "catalog")
  }

  /** `/{ns}/{kind}/{name}`, with `undefined` for a missing field. */
  function EntityPath(e: BasicEntity): string {
    "/" + Render(e.namespace) + "/" + Render(e.kind) + "/" + Render(e.name)
  }

  /**
   * createRootUrl: origin + `/catalog/{ns}/{kind}/{name}/docs` inside the
   * catalog, origin + `/docs/{ns}/{kind}/{name}` otherwise.
   */
  function CreateRootUrl(loc: Location, e: BasicEntity, isCatalog: bool): (r: string)
    ensures StartsWith(r, Origin(loc))
    ensures isCatalog ==> r == Origin(loc) + "/catalog" + EntityPath(e) + "/docs"
    ensures !isCatalog ==> r == Origin(loc) + "/docs" + EntityPath(e)
  {
    var url := Origin(loc);
    var url := url + (if isCatalog then "/catalog" else "/docs");
    var url := url + EntityPath(e);
    url + (if isCatalog then "/docs" else "")
  }

  /** The `/p1/p2/p3/p4` part of a pathname that decides whether the reconciler runs again. */
  function RelevantPath(pathname: string): (r: string)
    ensures var parts, q := Split(pathname, '/'), Split(r, '/');
      |q| >= 5 && q[0] == "" && q[1] == Render(At(parts, 1)) && q[2] == Render(At(parts, 2)) &&
      q[3] == Render(At(parts, 3)) && q[4] == Render(At(parts, 4))
  {
    var parts := Split(pathname, '/');
    var a, b, c, d := Render(At(parts, 1)), Render(At(parts, 2)), Render(At(parts, 3)), Render(At(parts, 4));
    RenderedPartIsSegment(parts, 1);
    RenderedPartIsSegment(parts, 2);
    RenderedPartIsSegment(parts, 3);
    RenderedPartIsSegment(parts, 4);
    SplitFourSegments(a, b, c, d, "");
    assert "/" + a + "/" + b + "/" + c + "/" + d + "" == "/" + a + "/" + b + "/" + c + "/" + d;
    "/" + a + "/" + b + "/" + c + "/" + d
  }

  /** A part of a split, or `undefined` for a missing one, holds no separator. */
  lemma RenderedPartIsSegment(parts: seq<string>, k: nat)
    requires forall j :: 0 <= j < |parts| ==> '/' !in parts[j]
    ensures IsSegment(Render(At(parts, k)))
  {
    var undefined := "undefined";
    assert forall j :: 0 <= j < |undefined| ==> undefined[j] != '/';
  }

  // ---------------------------------------------------------------------------

  /** A segment followed by nothing or by a `/`-led rest splits into that segment and the rest's parts. */
  lemma SplitLeadingSegment(a: string, rest: string)
    requires IsSegment(a)
    requires rest == "" || rest[0] == '/'
    ensures rest == "" ==> Split(a + rest, '/') == [a]
    ensures rest != "" ==> Split(a + rest, '/') == [a] + Split(rest[1..], '/')
  {
    if rest == "" {
      assert a + rest == a;
      SplitNoSeparator(a, '/');
    } else {
      assert a + rest == a + ['/'] + rest[1..];
      SplitConcat(a, '/', rest[1..]);
      SplitNoSeparator(a, '/');
    }
  }

  /** A segment and a separator in front of `tail` add exactly one part. */
  lemma SplitSegmentThen(a: string, tail: string)
    requires IsSegment(a)
    ensures Split(a + ("/" + tail), '/') == [a] + Split(tail, '/')
  {
    assert a + ("/" + tail) == a + ['/'] + tail;
    SplitConcat(a, '/', tail);
    SplitNoSeparator(a, '/');
  }

  /** `/a/b/c/d…` splits into `""`, `a`, `b`, `c`, `d` and then whatever follows. */
  lemma SplitFourSegments(a: string, b: string, c: string, d: string, rest: string)
    requires IsSegment(a) && IsSegment(b) && IsSegment(c) && IsSegment(d)
    requires rest == "" || rest[0] == '/'
    ensures var parts := Split("/" + a + "/" + b + "/" + c + "/" + d + rest, '/');
      |parts| >= 5 && parts[0] == "" && parts[1] == a && parts[2] == b && parts[3] == c && parts[4] == d
  {
    var t4 := d + rest;
    var t3 := c + ("/" + t4);
    var t2 := b + ("/" + t3);
    var t1 := a + ("/" + t2);
    assert "/" + a + "/" + b + "/" + c + "/" + d + rest == "" + ("/" + t1);
    SplitLeadingSegment(d, rest);
    var p4 := Split(t4, '/');
    assert |p4| >= 1 && p4[0] == d;
    SplitSegmentThen(c, t4);
    SplitSegmentThen(b, t3);
    SplitSegmentThen(a, t2);
    SplitSegmentThen("", t1);
    assert Split("" + ("/" + t1), '/') == [""] + ([a] + ([b] + ([c] + p4)));
  }

  /**
   * For a URL `origin/top/{ns}/{kind}/{name}[/...]` (top is `docs` or
   * `catalog`) the locator recovers exactly the entity.
   */
  lemma EntityFromWellFormedUrl(origin: string, top: string, ns: string, kind: string, name: string, rest: string)
    requires IsSegment(top) && IsSegment(ns) && IsSegment(kind) && IsSegment(name)
    requires rest == "" || rest[0] == '/'
    ensures GetBasicEntityFromUrl(origin + "/" + top + "/" + ns + "/" + kind + "/" + name + rest, origin)
         == BasicEntity(Some(ns), Some(kind), Some(name))
  {
    var relative := "/" + top + "/" + ns + "/" + kind + "/" + name + rest;
    assert origin + "/" + top + "/" + ns + "/" + kind + "/" + name + rest == origin + relative;
    ReplacePrefix(origin, relative);
    SplitFourSegments(top, ns, kind, name, rest);
  }

  /**
   * A path with fewer than four segments after the origin leaves the
   * missing fields undefined, without failing: `/{top}`, `/{top}/{ns}` and
   * `/{top}/{ns}/{kind}`.
   */
  lemma EntityFromShortUrl(origin: string, top: string, ns: string, kind: string)
    requires IsSegment(top) && IsSegment(ns) && IsSegment(kind)
    ensures GetBasicEntityFromUrl(origin + "/" + top, origin) == BasicEntity(None, None, None)
    ensures GetBasicEntityFromUrl(origin + "/" + top + "/" + ns, origin) == BasicEntity(Some(ns), None, None)
    ensures GetBasicEntityFromUrl(origin + "/" + top + "/" + ns + "/" + kind, origin) == BasicEntity(Some(ns), Some(kind), None)
  {
    EntityFromTopOnly(origin, top);
    EntityFromTopAndNamespace(origin, top, ns);
    EntityWithoutName(origin, top, ns, kind);
  }

  /** `/{top}`: nothing is located. */
  lemma EntityFromTopOnly(origin: string, top: string)
    requires IsSegment(top)
    ensures GetBasicEntityFromUrl(origin + "/" + top, origin) == BasicEntity(None, None, None)
  {
    SplitNoSeparator(top, '/');
    SplitSegmentThen("", top);
    assert "/" + top == "" + ("/" + top);
    assert origin + "/" + top == origin + ("/" + top);
    LocateAfterOrigin(origin, "/" + top, ["", top]);
  }

  /** `/{top}/{ns}`: only the namespace is located. */
  lemma EntityFromTopAndNamespace(origin: string, top: string, ns: string)
    requires IsSegment(top) && IsSegment(ns)
    ensures GetBasicEntityFromUrl(origin + "/" + top + "/" + ns, origin) == BasicEntity(Some(ns), None, None)
  {
    SplitNoSeparator(ns, '/');
    SplitSegmentThen(top, ns);
    SplitSegmentThen("", top + ("/" + ns));
    var q := "/" + top + "/" + ns;
    assert q == "" + ("/" + (top + ("/" + ns)));
    assert origin + "/" + top + "/" + ns == origin + q;
    LocateAfterOrigin(origin, q, ["", top, ns]);
  }

  /** `/{top}/{ns}/{kind}`: the name stays undefined. */
  lemma EntityWithoutName(origin: string, top: string, ns: string, kind: string)
    requires IsSegment(top) && IsSegment(ns) && IsSegment(kind)
    ensures GetBasicEntityFromUrl(origin + "/" + top + "/" + ns + "/" + kind, origin) == BasicEntity(Some(ns), Some(kind), None)
  {
    SplitNoSeparator(kind, '/');
    SplitSegmentThen(ns, kind);
    SplitSegmentThen(top, ns + ("/" + kind));
    SplitSegmentThen("", top + ("/" + (ns + ("/" + kind))));
    var q := "/" + top + "/" + ns + "/" + kind;
    assert q == "" + ("/" + (top + ("/" + (ns + ("/" + kind)))));
    assert origin + "/" + top + "/" + ns + "/" + kind == origin + q;
    LocateAfterOrigin(origin, q, ["", top, ns, kind]);
  }

  /** The locator reads the parts of whatever follows the origin. */
  lemma LocateAfterOrigin(origin: string, q: string, parts: seq<string>)
    requires Split(q, '/') == parts
    ensures GetBasicEntityFromUrl(origin + q, origin) == BasicEntity(At(parts, 2), At(parts, 3), At(parts, 4))
  {
    ReplacePrefix(origin, q);
  }


  /** A URL under the catalog root URL of an entity locates that entity. */
  lemma CatalogRootUrlLocatesEntity(loc: Location, ns: string, kind: string, name: string, sub: string)
    requires IsSegment(ns) && IsSegment(kind) && IsSegment(name)
    requires sub == "" || sub[0] == '/'
    ensures var e := BasicEntity(Some(ns), Some(kind), Some(name));
      GetBasicEntityFromUrl(CreateRootUrl(loc, e, true) + sub, Origin(loc)) == e
  {
    var e := BasicEntity(Some(ns), Some(kind), Some(name));
    var rest := "/docs" + sub;
    assert CreateRootUrl(loc, e, true) + sub
        == Origin(loc) + "/" + "catalog" + "/" + ns + "/" + kind + "/" + name + rest;
    EntityFromWellFormedUrl(Origin(loc), "catalog", ns, kind, name, rest);
  }

  /** A URL under the standalone root URL of an entity locates that entity. */
  lemma DocsRootUrlLocatesEntity(loc: Location, ns: string, kind: string, name: string, sub: string)
    requires IsSegment(ns) && IsSegment(kind) && IsSegment(name)
    requires sub == "" || sub[0] == '/'
    ensures var e := BasicEntity(Some(ns), Some(kind), Some(name));
      GetBasicEntityFromUrl(CreateRootUrl(loc, e, false) + sub, Origin(loc)) == e
  {
    var e := BasicEntity(Some(ns), Some(kind), Some(name));
    assert CreateRootUrl(loc, e, false) + sub
        == Origin(loc) + "/" + "docs" + "/" + ns + "/" + kind + "/" + name + sub;
    EntityFromWellFormedUrl(Origin(loc), "docs", ns, kind, name, sub);
  }

  /**
   * Every URL under the root URL built for an entity locates that entity
   * again, in both the standalone and the catalog shape.
   */
  lemma RootUrlLocatesEntity(loc: Location, ns: string, kind: string, name: string, isCatalog: bool, sub: string)
    requires IsSegment(ns) && IsSegment(kind) && IsSegment(name)
    requires sub == "" || sub[0] == '/'
    ensures var e := BasicEntity(Some(ns), Some(kind), Some(name));
      GetBasicEntityFromUrl(CreateRootUrl(loc, e, isCatalog) + sub, Origin(loc)) == e
  {
    if isCatalog {
      CatalogRootUrlLocatesEntity(loc, ns, kind, name, sub);
    } else {
      DocsRootUrlLocatesEntity(loc, ns, kind, name, sub);
    }
  }

  /**
   * The relevant path is the first four segments of the pathname, so moving
   * between pages of the same entity (changing only what follows) keeps it.
   */
  lemma RelevantPathIgnoresSubpath(a: string, b: string, c: string, d: string, rest: string)
    requires IsSegment(a) && IsSegment(b) && IsSegment(c) && IsSegment(d)
    requires rest == "" || rest[0] == '/'
    ensures RelevantPath("/" + a + "/" + b + "/" + c + "/" + d + rest) == "/" + a + "/" + b + "/" + c + "/" + d
  {
    SplitFourSegments(a, b, c, d, rest);
  }

  /** Taking the relevant path of a relevant path changes nothing. */
  lemma RelevantPathIdempotent(pathname: string)
    ensures RelevantPath(RelevantPath(pathname)) == RelevantPath(pathname)
  {
    var r := RelevantPath(pathname);
    var q := Split(r, '/');
    assert At(q, 1) == Some(q[1]) && At(q, 2) == Some(q[2]) && At(q, 3) == Some(q[3]) && At(q, 4) == Some(q[4]);
  }
}
