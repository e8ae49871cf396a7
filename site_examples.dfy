/** The input/output pairs that the resolver's own tests pin down
    (components/utils/src/site.rs, lines 135-247), proved of the model.

    Each test is a lemma whose inputs are parameters fixed by its `requires`;
    the facts about particular strings that it needs are stated by small
    lemmas without parameters, and the general lemmas of the model do the rest. */
module SiteExamples {
  import opened Wrappers
  import opened Text
  import opened PercentDecoding
  import opened Links
  import opened Paths

  // Facts about the strings of the tests.

  /** The plain paths of the tests have no anchor, no escape and no `@/`. */
  lemma TestPathsArePlain()
    ensures '#' !in "some/path" && '%' !in "some/path" && !StartsWith("some/path", ZolaPrefix)
    ensures '#' !in "/some/path" && '%' !in "/some/path" && !StartsWith("/some/path", ZolaPrefix)
    ensures '#' !in "other/path" && '%' !in "other/path" && !StartsWith("other/path", ZolaPrefix)
    ensures '#' !in "pages/about.md" && '%' !in "pages/about.md" && !StartsWith("pages/about.md", ZolaPrefix)
    ensures '#' !in "about.md" && '%' !in "about.md" && !StartsWith("about.md", ZolaPrefix)
  {
    // None of them starts with `@`.
    assert "some/path"[0] != ZolaPrefix[0] && "/some/path"[0] != ZolaPrefix[0];
    assert "other/path"[0] != ZolaPrefix[0] && "pages/about.md"[0] != ZolaPrefix[0];
    assert "about.md"[0] != ZolaPrefix[0];
  }

  /** The permalinks with anchors that the tests expect. */
  lemma TestPermalinksWithAnchor()
    ensures "https://vincent.is/about" + "#" + "hello" == "https://vincent.is/about#hello"
    ensures "https://vincent.is/about%20space/" + "#" + "hello" == "https://vincent.is/about%20space/#hello"
  {
  }

  /** The escaped test path has no anchor and no escape before its `%20`. */
  lemma EscapedPathFacts()
    ensures '#' !in "pages/about" + ("%20" + "space.md") && '%' !in "pages/about"
    ensures "pages/about" + (" " + "space.md") == "pages/about space.md"
  {
  }

  /** `%20` decodes to a space and the rest, having no `%`, stays as it is. */
  lemma DecodeEscapedSpace(escape: string, rest: string)
    requires escape == "%20" && rest == "space.md"
    ensures PercentDecode(escape + rest) == " " + rest
  {
    var s := escape + rest;
    assert StartsWithAsciiEscape(s);
    assert s[3..] == rest;
    assert '%' !in rest;
  }

  // extract_anchor (lines 204-207).

  lemma ExtractAnchorSplits(path: string, anchor: string)
    requires path == "some/path" && anchor == "anchor"
    ensures ExtractAnchor(path + "#" + anchor) == ("some/path", Some("anchor"))
  {
    TestPathsArePlain();
    ExtractAfterCombine(path, Some(anchor));
  }

  lemma ExtractAnchorNone(path: string)
    requires path == "some/path"
    ensures ExtractAnchor(path) == ("some/path", None)
  {
    TestPathsArePlain();
    ExtractAfterCombine(path, None);
  }

  // get_permalink_key_from_link (lines 181-192).

  lemma KeyOfPrefixedLink(path: string)
    requires path == "some/path"
    ensures GetPermalinkKeyFromLink(ZolaPrefix + path) == ("some/path", None)
  {
    TestPathsArePlain();
    PlainLinkKey(path);
  }

  lemma KeyOfPrefixedAnchoredLink(path: string, anchor: string)
    requires path == "some/path" && anchor == "anchor"
    ensures GetPermalinkKeyFromLink(ZolaPrefix + path + "#" + anchor) == ("some/path", Some("anchor"))
  {
    TestPathsArePlain();
    AnchoredLinkKey(path, anchor);
  }

  lemma KeyOfPlainLink(path: string)
    requires path == "some/path"
    ensures GetPermalinkKeyFromLink(path) == ("some/path", None)
  {
    TestPathsArePlain();
    PlainLinkKey(path);
  }

  lemma KeyOfAbsoluteAnchoredLink(path: string, anchor: string)
    requires path == "/some/path" && anchor == "anchor"
    ensures GetPermalinkKeyFromLink(path + "#" + anchor) == ("/some/path", Some("anchor"))
  {
    TestPathsArePlain();
    PlainLinkKey(path);
    KeyIndependentOfAnchor(path, Some(anchor));
  }

  // resolve_internal_link (lines 135-178).

  /** What resolution gives once the key and the anchor of the link are known. */
  lemma ResolvesTo(link: string, key: string, anchor: Option<string>, permalinks: Permalinks)
    requires GetPermalinkKeyFromLink(link) == (key, anchor) && key in permalinks
    ensures ResolveInternalLink(link, permalinks)
         == Success(ResolvedInternalLink(CombineAnchor(permalinks[key], anchor), key, anchor))
  {
  }

  lemma ResolveValidLink(path: string, permalinks: Permalinks)
    requires path == "pages/about.md"
    requires permalinks == map["pages/about.md" := "https://vincent.is/about"]
    ensures ResolveInternalLink(ZolaPrefix + path, permalinks)
         == Success(ResolvedInternalLink("https://vincent.is/about", "pages/about.md", None))
  {
    TestPathsArePlain();
    PlainLinkKey(path);
    ResolvesTo(ZolaPrefix + path, path, None, permalinks);
  }

  lemma ResolveValidRootLink(path: string, permalinks: Permalinks)
    requires path == "about.md"
    requires permalinks == map["about.md" := "https://vincent.is/about"]
    ensures ResolveInternalLink(ZolaPrefix + path, permalinks)
         == Success(ResolvedInternalLink("https://vincent.is/about", "about.md", None))
  {
    TestPathsArePlain();
    PlainLinkKey(path);
    ResolvesTo(ZolaPrefix + path, path, None, permalinks);
  }

  lemma ResolveLinkWithAnchor(path: string, anchor: string, permalinks: Permalinks)
    requires path == "pages/about.md" && anchor == "hello"
    requires permalinks == map["pages/about.md" := "https://vincent.is/about"]
    ensures ResolveInternalLink(ZolaPrefix + path + "#" + anchor, permalinks)
         == Success(ResolvedInternalLink("https://vincent.is/about#hello", "pages/about.md", Some("hello")))
  {
    TestPathsArePlain();
    AnchoredLinkKey(path, anchor);
    ResolvesTo(ZolaPrefix + path + "#" + anchor, path, Some(anchor), permalinks);
    TestPermalinksWithAnchor();
  }

  /** A percent-escaped link finds the entry stored under the decoded path
      (`pages/about%20space.md`, given as the text before its escape, the
      escape and the rest). */
  lemma ResolveEscapedLink(head: string, escape: string, rest: string, anchor: string, permalinks: Permalinks)
    requires head == "pages/about" && escape == "%20" && rest == "space.md" && anchor == "hello"
    requires permalinks == map["pages/about space.md" := "https://vincent.is/about%20space/"]
    ensures ResolveInternalLink(ZolaPrefix + (head + (escape + rest)) + "#" + anchor, permalinks)
         == Success(ResolvedInternalLink("https://vincent.is/about%20space/#hello", "pages/about space.md", Some("hello")))
  {
    var path := head + (escape + rest);
    EscapedPathFacts();
    DecodePlainPrefix(head, escape + rest);
    DecodeEscapedSpace(escape, rest);
    UnanchoredLinkKey(path);
    KeyIndependentOfAnchor(ZolaPrefix + path, Some(anchor));
    ResolvesTo(ZolaPrefix + path + "#" + anchor, "pages/about space.md", Some(anchor), permalinks);
    TestPermalinksWithAnchor();
  }

  lemma MissingLinkFails(link: string)
    requires link == "@/pages/about.md#hello"
    ensures ResolveInternalLink(link, map[]).Failure?
  {
    EmptyTableFails(link);
  }

  // is_link_internal_page (lines 194-201).

  lemma KnownLinkIsInternal(path: string, permalinks: Permalinks)
    requires path == "some/path"
    requires permalinks == map["some/path" := "some/path"]
    ensures IsLinkInternalPage(ZolaPrefix + path, permalinks)
  {
    TestPathsArePlain();
    PlainLinkKey(path);
  }

  lemma UnknownLinkIsNotInternal(path: string, permalinks: Permalinks)
    requires path == "other/path"
    requires permalinks == map["some/path" := "some/path"]
    ensures !IsLinkInternalPage(ZolaPrefix + path, permalinks)
  {
    TestPathsArePlain();
    PlainLinkKey(path);
  }

  // canonicalize_relative_path (lines 209-247).

  /** A page path that is not a `.md` file is its own base directory. */
  lemma BaseDirOfBase()
    ensures BaseDir(Some("/base")) == "/base"
  {
  }

  /** A `.md` page's base directory is the directory holding it. */
  lemma MarkdownPageBase()
    ensures BaseDir(Some("/base/second/file.md")) == "/base/second"
  {
    assert "/base/second/file.md" == "/base/second" + "/" + "file.md";
    FindLastBefore("/base/second", '/', "file.md");
    assert EndsWith("/base/second/file.md", ".md");
  }

  lemma JoinThree(a: string, b: string, c: string, sep: char)
    ensures Join([a, b, c], sep) == a + [sep] + (b + [sep] + c)
  {
    assert [b, c][1..] == [c];
    assert Join([b, c], sep) == b + [sep] + c;
    assert [a, b, c][1..] == [b, c];
  }

  lemma JoinFour(a: string, b: string, c: string, d: string, sep: char)
    ensures Join([a, b, c, d], sep) == a + [sep] + (b + [sep] + (c + [sep] + d))
  {
    assert [c, d][1..] == [d];
    assert Join([c, d], sep) == c + [sep] + d;
    assert [b, c, d][1..] == [c, d];
    assert Join([b, c, d], sep) == b + [sep] + Join([c, d], sep);
    assert [a, b, c, d][1..] == [b, c, d];
  }

  lemma JoinFive(a: string, b: string, c: string, d: string, e: string, sep: char)
    ensures Join([a, b, c, d, e], sep) == a + [sep] + (b + [sep] + (c + [sep] + (d + [sep] + e)))
  {
    assert [d, e][1..] == [e];
    assert Join([d, e], sep) == d + [sep] + e;
    assert [c, d, e][1..] == [d, e];
    assert Join([c, d, e], sep) == c + [sep] + Join([d, e], sep);
    assert [b, c, d, e][1..] == [c, d, e];
    assert Join([b, c, d, e], sep) == b + [sep] + Join([c, d, e], sep);
    assert [a, b, c, d, e][1..] == [b, c, d, e];
  }

  /** A relative link on a page whose base directory has no trailing `/` is
      joined onto it with one `/`. */
  lemma JoinedOnBase(link: string, page: Option<string>, base: string)
    requires BaseDir(page) == base && base != "" && base[|base| - 1] != '/'
    requires !IsAbsolute(link)
    ensures CombinedPath(link, page) == base + "/" + link
  {
    JoinPathShape(base, link);
    assert TrimSeparator(base) == base;
  }

  /** Canonicalisation when the joined path is `/` followed by `pieces`, whose
      components walk from the root to `expected`. */
  lemma RootedCase(link: string, page: Option<string>, pieces: seq<string>, comps: seq<Component>, expected: string)
    requires !LinkHasProtocolOrZola(link)
    requires forall i :: 0 <= i < |pieces| ==> '/' !in pieces[i]
    requires CombinedPath(link, page) == "/" + Join(pieces, '/')
    requires SegmentComponents(pieces) == comps
    requires Render(ResolveFrom(PathBuf(true, []), comps)) == expected
    ensures Canonical(link, page) == expected
  {
    CanonicalOfRootedJoin(link, page, pieces);
  }

  lemma CanonicalizeRelative(link: string, page: Option<string>)
    requires link == "some/path" && page == Some("/base")
    ensures Canonical(link, page) == "/base/some/path"
  {
    NoProtocolOrZola(link);
    var p0, p1, p2 := "base", "some", "path";
    var pieces := [p0, p1, p2];
    var comps := [Normal("base"), Normal("some"), Normal("path")];
    BaseDirOfBase();
    JoinedOnBase(link, page, "/base");
    JoinThree(p0, p1, p2, '/');
    RelativeLink();
    RelativeSegments();
    RelativeWalk();
    RootedCase(link, page, pieces, comps, "/base/some/path");
  }

  lemma RelativeLink()
    ensures "/base" + "/" + "some/path" == "/" + ("base" + "/" + ("some" + "/" + "path"))
  {
  }

  lemma RelativeSegments()
    ensures forall i :: 0 <= i < 3 ==> '/' !in ["base", "some", "path"][i]
    ensures SegmentComponents(["base", "some", "path"]) == [Normal("base"), Normal("some"), Normal("path")]
  {
  }

  lemma RelativeWalk()
    ensures Render(ResolveFrom(PathBuf(true, []), [Normal("base"), Normal("some"), Normal("path")])) == "/base/some/path"
  {
  }

  lemma CanonicalizeCurrentDir(link: string, page: Option<string>)
    requires link == "./some/path" && page == Some("/base")
    ensures Canonical(link, page) == "/base/some/path"
  {
    NoProtocolOrZola(link);
    var p0, p1, p2, p3 := "base", ".", "some", "path";
    var pieces := [p0, p1, p2, p3];
    var comps := [Normal("base"), Normal("some"), Normal("path")];
    BaseDirOfBase();
    JoinedOnBase(link, page, "/base");
    JoinFour(p0, p1, p2, p3, '/');
    CurrentDirLink();
    CurrentDirSegments();
    RelativeWalk();
    RootedCase(link, page, pieces, comps, "/base/some/path");
  }

  lemma CurrentDirLink()
    ensures "/base" + "/" + "./some/path" == "/" + ("base" + "/" + ("." + "/" + ("some" + "/" + "path")))
  {
  }

  lemma CurrentDirSegments()
    ensures forall i :: 0 <= i < 4 ==> '/' !in ["base", ".", "some", "path"][i]
    ensures SegmentComponents(["base", ".", "some", "path"]) == [Normal("base"), Normal("some"), Normal("path")]
  {
  }

  lemma CanonicalizeParentDir(link: string, page: Option<string>)
    requires link == "../some/path" && page == Some("/base")
    ensures Canonical(link, page) == "/some/path"
  {
    NoProtocolOrZola(link);
    var p0, p1, p2, p3 := "base", "..", "some", "path";
    var pieces := [p0, p1, p2, p3];
    var comps := [Normal("base"), ParentDir, Normal("some"), Normal("path")];
    BaseDirOfBase();
    JoinedOnBase(link, page, "/base");
    JoinFour(p0, p1, p2, p3, '/');
    ParentDirLink();
    ParentDirSegments();
    ParentDirWalk();
    RootedCase(link, page, pieces, comps, "/some/path");
  }

  lemma ParentDirLink()
    ensures "/base" + "/" + "../some/path" == "/" + ("base" + "/" + (".." + "/" + ("some" + "/" + "path")))
  {
  }

  lemma ParentDirSegments()
    ensures forall i :: 0 <= i < 4 ==> '/' !in ["base", "..", "some", "path"][i]
    ensures SegmentComponents(["base", "..", "some", "path"]) == [Normal("base"), ParentDir, Normal("some"), Normal("path")]
  {
  }

  lemma ParentDirWalk()
    ensures Render(ResolveFrom(PathBuf(true, []), [Normal("base"), ParentDir, Normal("some"), Normal("path")])) == "/some/path"
  {
  }

  lemma CanonicalizeAbsolute(link: string, page: Option<string>)
    requires link == "/some/./path" && page == Some("/base")
    ensures Canonical(link, page) == "/some/path"
  {
    NoProtocolOrZola(link);
    var p0, p1, p2 := "some", ".", "path";
    var pieces := [p0, p1, p2];
    var comps := [Normal("some"), Normal("path")];
    JoinThree(p0, p1, p2, '/');
    AbsoluteLink();
    AbsoluteSegments();
    AbsoluteWalk();
    RootedCase(link, page, pieces, comps, "/some/path");
  }

  lemma AbsoluteLink()
    ensures "/some/./path" == "/" + ("some" + "/" + ("." + "/" + "path"))
  {
  }

  lemma AbsoluteSegments()
    ensures forall i :: 0 <= i < 3 ==> '/' !in ["some", ".", "path"][i]
    ensures SegmentComponents(["some", ".", "path"]) == [Normal("some"), Normal("path")]
  {
  }

  lemma AbsoluteWalk()
    ensures Render(ResolveFrom(PathBuf(true, []), [Normal("some"), Normal("path")])) == "/some/path"
  {
  }

  lemma CanonicalizePopPastRoot(link: string, page: Option<string>)
    requires link == "some/../../path" && page == Some("/base")
    ensures Canonical(link, page) == "/path"
  {
    NoProtocolOrZola(link);
    var p0, p1, p2, p3, p4 := "base", "some", "..", "..", "path";
    var pieces := [p0, p1, p2, p3, p4];
    var comps := [Normal("base"), Normal("some"), ParentDir, ParentDir, Normal("path")];
    BaseDirOfBase();
    JoinedOnBase(link, page, "/base");
    JoinFive(p0, p1, p2, p3, p4, '/');
    PopPastRootLink();
    PopPastRootSegments();
    PopPastRootWalk();
    RootedCase(link, page, pieces, comps, "/path");
  }

  lemma PopPastRootLink()
    ensures "/base" + "/" + "some/../../path" == "/" + ("base" + "/" + ("some" + "/" + (".." + "/" + (".." + "/" + "path"))))
  {
  }

  lemma PopPastRootSegments()
    ensures forall i :: 0 <= i < 5 ==> '/' !in ["base", "some", "..", "..", "path"][i]
    ensures SegmentComponents(["base", "some", "..", "..", "path"]) == [Normal("base"), Normal("some"), ParentDir, ParentDir, Normal("path")]
  {
  }

  lemma PopPastRootWalk()
    ensures Render(ResolveFrom(PathBuf(true, []), [Normal("base"), Normal("some"), ParentDir, ParentDir, Normal("path")])) == "/path"
  {
  }

  lemma CanonicalizeAbsoluteParent(link: string, page: Option<string>)
    requires link == "/some/.././path" && page == Some("/base")
    ensures Canonical(link, page) == "/path"
  {
    NoProtocolOrZola(link);
    var p0, p1, p2, p3 := "some", "..", ".", "path";
    var pieces := [p0, p1, p2, p3];
    var comps := [Normal("some"), ParentDir, Normal("path")];
    JoinFour(p0, p1, p2, p3, '/');
    AbsoluteParentLink();
    AbsoluteParentSegments();
    AbsoluteParentWalk();
    RootedCase(link, page, pieces, comps, "/path");
  }

  lemma AbsoluteParentLink()
    ensures "/some/.././path" == "/" + ("some" + "/" + (".." + "/" + ("." + "/" + "path")))
  {
  }

  lemma AbsoluteParentSegments()
    ensures forall i :: 0 <= i < 4 ==> '/' !in ["some", "..", ".", "path"][i]
    ensures SegmentComponents(["some", "..", ".", "path"]) == [Normal("some"), ParentDir, Normal("path")]
  {
  }

  lemma AbsoluteParentWalk()
    ensures Render(ResolveFrom(PathBuf(true, []), [Normal("some"), ParentDir, Normal("path")])) == "/path"
  {
  }

  lemma CanonicalizeTrailingSlash(link: string, page: Option<string>)
    requires link == "/some/.././path/" && page == Some("/base")
    ensures Canonical(link, page) == "/path"
  {
    NoProtocolOrZola(link);
    var p0, p1, p2, p3, p4 := "some", "..", ".", "path", "";
    var pieces := [p0, p1, p2, p3, p4];
    var comps := [Normal("some"), ParentDir, Normal("path")];
    JoinFive(p0, p1, p2, p3, p4, '/');
    TrailingSlashLink();
    TrailingSlashSegments();
    AbsoluteParentWalk();
    RootedCase(link, page, pieces, comps, "/path");
  }

  lemma TrailingSlashLink()
    ensures "/some/.././path/" == "/" + ("some" + "/" + (".." + "/" + ("." + "/" + ("path" + "/" + ""))))
  {
  }

  lemma TrailingSlashSegments()
    ensures forall i :: 0 <= i < 5 ==> '/' !in ["some", "..", ".", "path", ""][i]
    ensures SegmentComponents(["some", "..", ".", "path", ""]) == [Normal("some"), ParentDir, Normal("path")]
  {
  }

  lemma CanonicalizeKeepsAnchor(link: string, page: Option<string>)
    requires link == "/some/.././path#xyz" && page == Some("/base")
    ensures Canonical(link, page) == "/path#xyz"
  {
    NoProtocolOrZola(link);
    var p0, p1, p2, p3 := "some", "..", ".", "path#xyz";
    var pieces := [p0, p1, p2, p3];
    var comps := [Normal("some"), ParentDir, Normal("path#xyz")];
    JoinFour(p0, p1, p2, p3, '/');
    KeepsAnchorLink();
    KeepsAnchorSegments();
    KeepsAnchorWalk();
    RootedCase(link, page, pieces, comps, "/path#xyz");
  }

  lemma KeepsAnchorLink()
    ensures "/some/.././path#xyz" == "/" + ("some" + "/" + (".." + "/" + ("." + "/" + "path#xyz")))
  {
  }

  lemma KeepsAnchorSegments()
    ensures forall i :: 0 <= i < 4 ==> '/' !in ["some", "..", ".", "path#xyz"][i]
    ensures SegmentComponents(["some", "..", ".", "path#xyz"]) == [Normal("some"), ParentDir, Normal("path#xyz")]
  {
  }

  lemma KeepsAnchorWalk()
    ensures Render(ResolveFrom(PathBuf(true, []), [Normal("some"), ParentDir, Normal("path#xyz")])) == "/path#xyz"
  {
  }

  lemma CanonicalizeFromMarkdownPage(link: string, page: Option<string>)
    requires link == "../some/path" && page == Some("/base/second/file.md")
    ensures Canonical(link, page) == "/base/some/path"
  {
    NoProtocolOrZola(link);
    var p0, p1, p2, p3, p4 := "base", "second", "..", "some", "path";
    var pieces := [p0, p1, p2, p3, p4];
    var comps := [Normal("base"), Normal("second"), ParentDir, Normal("some"), Normal("path")];
    MarkdownPageBase();
    JoinedOnBase(link, page, "/base/second");
    JoinFive(p0, p1, p2, p3, p4, '/');
    MarkdownPageLink();
    MarkdownPageSegments();
    MarkdownPageWalk();
    RootedCase(link, page, pieces, comps, "/base/some/path");
  }

  lemma MarkdownPageLink()
    ensures "/base/second" + "/" + "../some/path" == "/" + ("base" + "/" + ("second" + "/" + (".." + "/" + ("some" + "/" + "path"))))
  {
  }

  lemma MarkdownPageSegments()
    ensures forall i :: 0 <= i < 5 ==> '/' !in ["base", "second", "..", "some", "path"][i]
    ensures SegmentComponents(["base", "second", "..", "some", "path"]) == [Normal("base"), Normal("second"), ParentDir, Normal("some"), Normal("path")]
  {
  }

  lemma MarkdownPageWalk()
    ensures Render(ResolveFrom(PathBuf(true, []), [Normal("base"), Normal("second"), ParentDir, Normal("some"), Normal("path")])) == "/base/some/path"
  {
  }
}
