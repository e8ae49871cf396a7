/** Internal-link resolution: splitting off anchors, deriving the key that a
    link is looked up under in the permalink table, resolving it, and telling
    links with a protocol or the `@/` prefix from plain paths. */
module Links {
  import opened Wrappers
  import opened Text
  import opened PercentDecoding

  /** The table from content path (no `@/`, no anchor, decoded) to absolute
      permalink, built elsewhere and only read here. */
  type Permalinks = map<string, string>

  /** A successfully resolved internal link. */
  datatype ResolvedInternalLink = ResolvedInternalLink(
    permalink: string,        // the target as an absolute URL, with the anchor if any
    mdPath: string,           // the content path, without the leading `@/`
    anchor: Option<string>)   // the anchor, whose existence is checked later

  /** Resolution fails only when the key is missing; the error carries the link
      as the author wrote it. */
  datatype LinkError = LinkNotFound(link: string)

  /** The prefix that marks a link as internal to the site. */
  const ZolaPrefix: string := "@/"

  /** The prefixes that make a link external or explicitly internal, in the
      order they are tried. */
  const ProtocolPrefixes: seq<string> := ["http://", "https://", "mailto:", "ftp://", "file://", ZolaPrefix]

  /** Splits `link` at its first `#` (the fragment delimiter of section 3.5 of
      RFC 3986) into the text before it and the text after it. */
  function ExtractAnchor(link: string): (r: (string, Option<string>))
    ensures '#' !in link ==> r == (link, None)
    ensures '#' in link ==> r.1.Some? && '#' !in r.0 && r.0 + "#" + r.1.value == link
  {
    match FindFirst(link, '#')
    case None => (link, None)
    case Some(pos) =>
      assert link == link[..pos] + "#" + link[pos + 1..];
      (link[..pos], Some(link[pos + 1..]))
  }

  /** Appends `#` and the anchor to `link` when there is an anchor: the link
      stays a prefix of the result, and an anchor follows it after one `#`. */
  function CombineAnchor(link: string, anchor: Option<string>): (r: string)
    ensures StartsWith(r, link)
    ensures anchor.None? <==> |r| == |link|
    ensures anchor.Some? ==> r[|link|] == '#' && r[|link| + 1..] == anchor.value
  {
    match anchor
    case Some(a) => link + "#" + a
    case None => link
  }

  /** Splitting a combined link gives back the link and the anchor, whenever the
      link has no `#` of its own. */
  lemma ExtractAfterCombine(link: string, anchor: Option<string>)
    requires '#' !in link
    ensures ExtractAnchor(CombineAnchor(link, anchor)) == (link, anchor)
  {
    if anchor.Some? {
      FindFirstAfter(link, '#', anchor.value);
      var s := link + "#" + anchor.value;
      assert s[..|link|] == link;
      assert s[|link| + 1..] == anchor.value;
    }
  }

  /** Combining the two halves of a split gives back the link. */
  lemma CombineAfterExtract(link: string)
    ensures CombineAnchor(ExtractAnchor(link).0, ExtractAnchor(link).1) == link
  {
  }

  /** Rust's `strip_prefix("@/").unwrap_or(link)`. */
  function StripZolaPrefix(link: string): (r: string)
    ensures StartsWith(link, ZolaPrefix) ==> link == ZolaPrefix + r
    ensures !StartsWith(link, ZolaPrefix) ==> r == link
  {
    if StartsWith(link, ZolaPrefix) then link[|ZolaPrefix|..] else link
  }

  /** The permalink-table key of a link and its anchor: drop a leading `@/`,
      split off the anchor, percent-decode the rest. */
  function GetPermalinkKeyFromLink(link: string): (r: (string, Option<string>))
    ensures r.1 == ExtractAnchor(StripZolaPrefix(link)).1
    ensures r.1.None? <==> '#' !in StripZolaPrefix(link)
  {
    var (base, anchor) := ExtractAnchor(StripZolaPrefix(link));
    (PercentDecode(base), anchor)
  }

  /** The `@/` prefix is optional: a link without it has the same key and
      anchor as the same link with it. */
  lemma KeyIgnoresZolaPrefix(path: string)
    requires !StartsWith(path, ZolaPrefix)
    ensures GetPermalinkKeyFromLink(ZolaPrefix + path) == GetPermalinkKeyFromLink(path)
  {
    assert StripZolaPrefix(ZolaPrefix + path) == path;
  }

  /** The key does not depend on the anchor: adding, removing or changing the
      anchor of a link leaves its key alone, and the anchor comes back as given. */
  lemma KeyIndependentOfAnchor(path: string, anchor: Option<string>)
    requires '#' !in path
    ensures GetPermalinkKeyFromLink(CombineAnchor(path, anchor))
         == (GetPermalinkKeyFromLink(path).0, anchor)
  {
    if anchor.Some? {
      var link := CombineAnchor(path, anchor);
      var clean := StripZolaPrefix(path);
      if StartsWith(path, ZolaPrefix) {
        assert link[..2] == path[..2];
        assert StripZolaPrefix(link) == clean + "#" + anchor.value;
      } else {
        if |path| >= 2 {
          assert link[..2] == path[..2];
        } else {
          assert link[|path|] == '#';
        }
        assert StripZolaPrefix(link) == link;
      }
      assert '#' !in clean;
      ExtractAfterCombine(clean, anchor);
    }
  }

  /** A prefixed link without `#` has the decoding of its path as key and no anchor. */
  lemma UnanchoredLinkKey(path: string)
    requires '#' !in path
    ensures GetPermalinkKeyFromLink(ZolaPrefix + path) == (PercentDecode(path), None)
  {
    assert StripZolaPrefix(ZolaPrefix + path) == path;
  }

  /** A link without `#` or `%` has itself, less any `@/`, as its key and no anchor. */
  lemma PlainLinkKey(path: string)
    requires '#' !in path && '%' !in path && !StartsWith(path, ZolaPrefix)
    ensures GetPermalinkKeyFromLink(ZolaPrefix + path) == (path, None)
    ensures GetPermalinkKeyFromLink(path) == (path, None)
  {
    KeyIgnoresZolaPrefix(path);
  }

  /** `@/path#anchor`, for a plain path, has the path as key and the anchor as anchor. */
  lemma AnchoredLinkKey(path: string, anchor: string)
    requires '#' !in path && '%' !in path && !StartsWith(path, ZolaPrefix)
    ensures GetPermalinkKeyFromLink(ZolaPrefix + path + "#" + anchor) == (path, Some(anchor))
  {
    PlainLinkKey(path);
    assert ZolaPrefix + path + "#" + anchor == CombineAnchor(ZolaPrefix + path, Some(anchor));
    assert '#' !in ZolaPrefix + path;
    KeyIndependentOfAnchor(ZolaPrefix + path, Some(anchor));
  }

  /** Looks the link's key up in the table; on a hit, the permalink carries the
      link's anchor, on a miss the error carries the link unchanged. */
  function ResolveInternalLink(link: string, permalinks: Permalinks): (r: Result<ResolvedInternalLink, LinkError>)
    ensures r.Failure? <==> GetPermalinkKeyFromLink(link).0 !in permalinks
    ensures r.Failure? ==> r.error == LinkNotFound(link)
    ensures r.Success? ==>
      var (key, anchor) := GetPermalinkKeyFromLink(link);
      && r.value.mdPath == key
      && r.value.anchor == anchor
      && (anchor.None? ==> r.value.permalink == permalinks[key])
      && (anchor.Some? ==> r.value.permalink == permalinks[key] + "#" + anchor.value)
  {
    var (decoded, anchor) := GetPermalinkKeyFromLink(link);
    if decoded in permalinks then
      Success(ResolvedInternalLink(CombineAnchor(permalinks[decoded], anchor), decoded, anchor))
    else
      Failure(LinkNotFound(link))
  }

  /** Nothing resolves against an empty table. */
  lemma EmptyTableFails(link: string)
    ensures ResolveInternalLink(link, map[]) == Failure(LinkNotFound(link))
  {
  }

  /** The fragment of a resolved permalink is exactly the link's anchor, provided
      the table's permalink has no fragment of its own. */
  lemma ResolvedPermalinkAnchor(link: string, permalinks: Permalinks)
    requires ResolveInternalLink(link, permalinks).Success?
    requires '#' !in permalinks[GetPermalinkKeyFromLink(link).0]
    ensures var resolved := ResolveInternalLink(link, permalinks).value;
      ExtractAnchor(resolved.permalink) == (permalinks[resolved.mdPath], resolved.anchor)
  {
    var (key, anchor) := GetPermalinkKeyFromLink(link);
    ExtractAfterCombine(permalinks[key], anchor);
  }

  /** True when the link's key is in the table. */
  function IsLinkInternalPage(link: string, permalinks: Permalinks): (r: bool)
    ensures r <==> ResolveInternalLink(link, permalinks).Success?
  {
    var (key, _) := GetPermalinkKeyFromLink(link);
    key in permalinks
  }

  /** True when `link` starts with one of `prefixes`. */
  function StartsWithAny(prefixes: seq<string>, link: string): (r: bool)
    ensures r <==> exists i :: 0 <= i < |prefixes| && StartsWith(link, prefixes[i])
  {
    if |prefixes| == 0 then false
    else StartsWith(link, prefixes[0]) || StartsWithAny(prefixes[1..], link)
  }

  /** True when `link` starts with a protocol the site leaves alone or with `@/`;
      the comparison is case-sensitive. */
  function LinkHasProtocolOrZola(link: string): (r: bool)
    ensures r <==> exists i :: 0 <= i < |ProtocolPrefixes| && StartsWith(link, ProtocolPrefixes[i])
  {
    StartsWithAny(ProtocolPrefixes, link)
  }

  /** A link whose first character opens none of the prefixes (so not `h`, `m`,
      `f` or `@`) has neither a protocol nor the `@/` prefix. */
  lemma NoProtocolOrZola(link: string)
    requires |link| > 0 && link[0] !in {'h', 'm', 'f', '@'}
    ensures !LinkHasProtocolOrZola(link)
  {
    forall i | 0 <= i < |ProtocolPrefixes|
      ensures !StartsWith(link, ProtocolPrefixes[i])
    {
      assert ProtocolPrefixes[i][0] in {'h', 'm', 'f', '@'};
    }
  }
}
