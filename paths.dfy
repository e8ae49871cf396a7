/** Lexical canonicalisation of relative links against the path of the page
    that contains them: pick a base directory, join the link onto it, split the
    result into components and collapse `.` and `..` without touching any
    filesystem. Paths are `/`-separated. */
module Paths {
  import opened Wrappers
  import opened Text
  import opened Links

  /** Rust's `std::path::Component` for `/`-separated paths. */
  datatype Component = RootDir | CurDir | ParentDir | Normal(name: string)

  /** A name that `Path::components` can yield as a normal component. */
  predicate IsNormalName(name: string) {
    name != "" && name != "." && name != ".." && '/' !in name
  }

  /** Rust's `Path::is_absolute` on Unix: the path has a root. */
  predicate IsAbsolute(path: string): (r: bool)
    ensures r <==> StartsWith(path, "/")
  {
    |path| > 0 && path[0] == '/'
  }

  /** The component, if any, that one piece between separators yields:
      empty pieces and `.` yield none. */
  function SegmentComponent(segment: string): seq<Component> {
    if segment == "" || segment == "." then []
    else if segment == ".." then [ParentDir]
    else [Normal(segment)]
  }

  function SegmentComponents(segments: seq<string>): (r: seq<Component>)
    requires forall i :: 0 <= i < |segments| ==> '/' !in segments[i]
    ensures forall i :: 0 <= i < |r| ==> r[i] == ParentDir || (r[i].Normal? && IsNormalName(r[i].name))
  {
    if |segments| == 0 then []
    else SegmentComponent(segments[0]) + SegmentComponents(segments[1..])
  }

  /** The components of consecutive pieces are the components of each in turn. */
  lemma {:induction false} SegmentComponentsConcat(a: seq<string>, b: seq<string>)
    requires forall i :: 0 <= i < |a| ==> '/' !in a[i]
    requires forall i :: 0 <= i < |b| ==> '/' !in b[i]
    ensures SegmentComponents(a + b) == SegmentComponents(a) + SegmentComponents(b)
  {
    if |a| == 0 {
      assert a + b == b;
    } else {
      SegmentComponentsConcat(a[1..], b);
      assert (a + b)[1..] == a[1..] + b;
    }
  }

  /** Rust's `Path::components`: a root first when the path starts with `/`, a
      `CurDir` for a leading `.` of a relative path, then one component per
      piece that is neither empty nor `.`. */
  function Components(path: string): (r: seq<Component>)
    ensures IsAbsolute(path) <==> |r| > 0 && r[0] == RootDir
    ensures forall i :: 0 < i < |r| ==> r[i] == ParentDir || (r[i].Normal? && IsNormalName(r[i].name))
  {
    var segments := Split(path, '/');
    if IsAbsolute(path) then [RootDir] + SegmentComponents(segments[1..])
    else if segments[0] == "." then [CurDir] + SegmentComponents(segments[1..])
    else SegmentComponents(segments)
  }

  /** A lexically resolved path: whether it has a root, and its names in order.
      This is the value of the source's `PathBuf` being built. */
  datatype PathBuf = PathBuf(rooted: bool, names: seq<string>)

  /** One step of the fallback loop: a root replaces everything, `..` drops the
      last name if there is one, `.` does nothing, a name is appended. */
  function Step(p: PathBuf, c: Component): (r: PathBuf)
    ensures r.rooted <==> p.rooted || c == RootDir
    ensures c == RootDir ==> r.names == []
    ensures c == ParentDir ==> r.names <= p.names && |r.names| == if |p.names| == 0 then 0 else |p.names| - 1
    ensures c == CurDir ==> r == p
    ensures c.Normal? ==> r.names == p.names + [c.name]
  {
    match c
    case RootDir => PathBuf(true, [])
    case ParentDir => if |p.names| == 0 then p else PathBuf(p.rooted, p.names[..|p.names| - 1])
    case CurDir => p
    case Normal(n) => PathBuf(p.rooted, p.names + [n])
  }

  /** The path that the fallback loop builds from `components`, starting empty. */
  function Resolve(components: seq<Component>): (r: PathBuf)
    ensures |r.names| <= |components|
  {
    if |components| == 0 then PathBuf(false, [])
    else Step(Resolve(components[..|components| - 1]), components[|components| - 1])
  }

  /** The same walk read front to back: resolve `components` starting from `p`. */
  function ResolveFrom(p: PathBuf, components: seq<Component>): PathBuf
    decreases |components|
  {
    if |components| == 0 then p else ResolveFrom(Step(p, components[0]), components[1..])
  }

  /** Rust's `Path::to_str` of a resolved path. */
  function Render(p: PathBuf): (r: string)
    ensures p.rooted ==> IsAbsolute(r)
  {
    (if p.rooted then "/" else "") + Join(p.names, '/')
  }

  /** A path with no empty, `.` or `..` piece after its optional root; so no
      doubled or trailing separator either. */
  predicate IsNormalized(path: string) {
    var body := if IsAbsolute(path) then path[1..] else path;
    body == "" || forall i :: 0 <= i < |Split(body, '/')| ==> IsNormalName(Split(body, '/')[i])
  }

  predicate AllNormalNames(names: seq<string>) {
    forall i :: 0 <= i < |names| ==> IsNormalName(names[i])
  }

  /** The base directory for links on a page: the page path without its last
      `/` and what follows when it names a `.md` file, the page path itself
      otherwise, and nothing when there is no page. */
  function BaseDir(currentPagePath: Option<string>): (r: string)
    ensures currentPagePath.None? ==> r == ""
    ensures currentPagePath.Some? && EndsWith(currentPagePath.value, ".md") && '/' in currentPagePath.value ==>
      var p := currentPagePath.value;
      |r| < |p| && p[..|r|] == r && p[|r|] == '/' && '/' !in p[|r| + 1..]
    ensures currentPagePath.Some? && !(EndsWith(currentPagePath.value, ".md") && '/' in currentPagePath.value) ==>
      r == currentPagePath.value
  {
    match currentPagePath
    case None => ""
    case Some(p) =>
      if EndsWith(p, ".md") then
        match FindLast(p, '/')
        case Some(pos) => p[..pos]
        case None => p
      else p
  }

  /** Rust's `Path::join`: an absolute `path` replaces `base`; otherwise one
      separator goes between them unless `base` is empty or already ends in one. */
  function JoinPath(base: string, path: string): (r: string)
    ensures IsAbsolute(path) ==> r == path
    ensures !IsAbsolute(path) ==> StartsWith(r, base) && EndsWith(r, path) && |r| <= |base| + 1 + |path|
    ensures !IsAbsolute(path) ==> r == base + path || r == base + "/" + path
    ensures !IsAbsolute(path) ==> (r == base + "/" + path <==> base != "" && !EndsWith(base, "/"))
    ensures IsAbsolute(r) <==> IsAbsolute(path) || IsAbsolute(base)
  {
    if IsAbsolute(path) then path
    else if base == "" || base[|base| - 1] == '/' then base + path
    else base + "/" + path
  }

  /** The path to normalise: the link itself when absolute, else the link
      joined onto the page's base directory. */
  function CombinedPath(link: string, currentPagePath: Option<string>): (r: string)
    ensures IsAbsolute(link) ==> r == link
    ensures !IsAbsolute(link) ==> EndsWith(r, link) && (IsAbsolute(r) <==> IsAbsolute(BaseDir(currentPagePath)))
  {
    if IsAbsolute(link) then link else JoinPath(BaseDir(currentPagePath), link)
  }

  /** What canonicalisation yields for `link` on the page at `currentPagePath`. */
  function Canonical(link: string, currentPagePath: Option<string>): (r: string)
    ensures LinkHasProtocolOrZola(link) ==> r == link
    ensures !LinkHasProtocolOrZola(link) && IsAbsolute(CombinedPath(link, currentPagePath)) ==> IsAbsolute(r)
  {
    if LinkHasProtocolOrZola(link) then link
    else
      var components := Components(CombinedPath(link, currentPagePath));
      ResolveRooted(components);
      Render(Resolve(components))
  }

  /** Resolving `a + b` is resolving `b` on top of what `a` resolves to; so the
      two readings of the walk agree. */
  lemma {:induction false} ResolveConcat(a: seq<Component>, b: seq<Component>)
    ensures Resolve(a + b) == ResolveFrom(Resolve(a), b)
    decreases |b|
  {
    if |b| == 0 {
      assert a + b == a;
    } else {
      var a' := a + [b[0]];
      ResolveConcat(a', b[1..]);
      assert a + b == a' + b[1..];
      assert a'[..|a'| - 1] == a;
    }
  }

  /** The resolved path has a root exactly when some component was the root. */
  lemma {:induction false} ResolveRooted(components: seq<Component>)
    ensures Resolve(components).rooted <==> RootDir in components
  {
    if |components| > 0 {
      var init := components[..|components| - 1];
      ResolveRooted(init);
      assert components == init + [components[|components| - 1]];
    }
  }

  /** Every name of the resolved path is a name that some normal component carried. */
  lemma {:induction false} ResolveNamesFromComponents(components: seq<Component>)
    ensures forall j :: 0 <= j < |Resolve(components).names| ==>
      Normal(Resolve(components).names[j]) in components
  {
    if |components| > 0 {
      var init := components[..|components| - 1];
      ResolveNamesFromComponents(init);
      assert components == init + [components[|components| - 1]];
    }
  }

  /** Walking the pieces of normal names appends them, root and all else unchanged. */
  lemma {:induction false} ResolveFromNames(p: PathBuf, names: seq<string>)
    requires AllNormalNames(names)
    ensures ResolveFrom(p, SegmentComponents(names)) == PathBuf(p.rooted, p.names + names)
    decreases |names|
  {
    if |names| == 0 {
      assert p.names + names == p.names;
    } else {
      var rest := names[1..];
      ResolveFromNames(PathBuf(p.rooted, p.names + [names[0]]), rest);
      var c := SegmentComponents(names);
      assert c == [Normal(names[0])] + SegmentComponents(rest);
      assert c[1..] == SegmentComponents(rest);
      assert p.names + [names[0]] + rest == p.names + names;
    }
  }

  /** Resolving a root followed by the pieces of normal names gives those names back under the root. */
  lemma ResolveRootedNames(names: seq<string>)
    requires AllNormalNames(names)
    ensures Resolve([RootDir] + SegmentComponents(names)) == PathBuf(true, names)
  {
    ResolveConcat([RootDir], SegmentComponents(names));
    assert [RootDir][..0] == [];
    ResolveFromNames(PathBuf(true, []), names);
  }

  /** A rendered path of normal names is normalised, and it is absolute exactly
      when it has a root. */
  lemma RenderNormalized(p: PathBuf)
    requires AllNormalNames(p.names)
    ensures IsNormalized(Render(p))
    ensures IsAbsolute(Render(p)) <==> p.rooted
  {
    var body := Join(p.names, '/');
    var path := Render(p);
    if |p.names| > 0 {
      SplitJoin(p.names, '/');
      JoinHead(p.names, '/');
    }
    if p.rooted {
      assert path == "/" + body;
      assert path[1..] == body;
    } else {
      assert path == body;
    }
    assert IsAbsolute(path) <==> p.rooted;
    if |p.names| > 0 {
      assert forall i :: 0 <= i < |Split(body, '/')| ==> IsNormalName(Split(body, '/')[i]);
    }
  }

  /** The components of `/` followed by separator-free pieces are the root and
      the components of the pieces. */
  lemma ComponentsOfRooted(pieces: seq<string>)
    requires forall i :: 0 <= i < |pieces| ==> '/' !in pieces[i]
    ensures Components("/" + Join(pieces, '/')) == [RootDir] + SegmentComponents(pieces)
  {
    var body := Join(pieces, '/');
    var path := "/" + body;
    assert path == [] + ['/'] + body;
    FindFirstAfter([], '/', body);
    assert path[..0] == "" && path[1..] == body;
    assert Split(path, '/') == [""] + Split(body, '/');
    assert Split(path, '/')[1..] == Split(body, '/');
    if |pieces| > 0 {
      SplitJoin(pieces, '/');
    } else {
      assert Split(body, '/') == [""];
      assert SegmentComponents([""]) == SegmentComponent("") + SegmentComponents([]);
    }
  }

  /** The components of separator-free pieces joined with `/`, when the first
      piece is a name or `.`: a `CurDir` for a leading `.`, then the pieces'
      components. */
  lemma ComponentsOfRelative(pieces: seq<string>)
    requires |pieces| >= 1 && pieces[0] != ""
    requires forall i :: 0 <= i < |pieces| ==> '/' !in pieces[i]
    ensures Components(Join(pieces, '/'))
         == (if pieces[0] == "." then [CurDir] else []) + SegmentComponents(pieces)
  {
    var path := Join(pieces, '/');
    SplitJoin(pieces, '/');
    JoinHead(pieces, '/');
    assert !IsAbsolute(path);
    ComponentsPieces(path);
  }

  /** The empty path has no components. */
  lemma ComponentsOfEmpty()
    ensures Components("") == []
  {
    assert FindFirst("", '/').None?;
    assert Split("", '/') == [""];
    assert SegmentComponents([""]) == SegmentComponent("") + SegmentComponents([]);
  }

  /** Walking the components of relative normal names from nothing gives those names. */
  lemma ResolveRelativeNames(names: seq<string>)
    requires AllNormalNames(names)
    ensures Resolve(SegmentComponents(names)) == PathBuf(false, names)
  {
    ResolveConcat([], SegmentComponents(names));
    assert [] + SegmentComponents(names) == SegmentComponents(names);
    ResolveFromNames(PathBuf(false, []), names);
    assert [] + names == names;
  }

  /** Reading back a rendered path of normal names: its components walk to the
      same path, so `to_str` and `components` are inverse on normalised paths. */
  lemma ResolveRender(p: PathBuf)
    requires AllNormalNames(p.names)
    ensures Resolve(Components(Render(p))) == p
  {
    var names := p.names;
    var body := Join(names, '/');
    if p.rooted {
      assert Render(p) == "/" + body;
      ComponentsOfRooted(names);
      ResolveRootedNames(names);
    } else if |names| == 0 {
      assert Render(p) == "";
      ComponentsOfEmpty();
    } else {
      assert Render(p) == body;
      assert names[0] != "" && names[0] != ".";
      ComponentsOfRelative(names);
      assert Components(body) == SegmentComponents(names);
      ResolveRelativeNames(names);
    }
  }

  /** The lexical fallback loop: walks the components, pushing the root and
      names, popping for `..` (nothing happens when there is nothing to pop),
      skipping `.`. */
  method Normalize(components: seq<Component>) returns (resolved: PathBuf)
    ensures resolved == Resolve(components)
    ensures resolved.rooted <==> RootDir in components
    ensures forall j :: 0 <= j < |resolved.names| ==> Normal(resolved.names[j]) in components
  {
    var rooted := false;
    var names: seq<string> := [];
    for i := 0 to |components|
      invariant PathBuf(rooted, names) == Resolve(components[..i])
    {
      assert components[..i + 1][..i] == components[..i];
      match components[i]
      case RootDir =>
        rooted, names := true, [];
      case ParentDir =>
        if |names| > 0 {
          names := names[..|names| - 1];
        }
      case CurDir =>
      case Normal(name) =>
        names := names + [name];
    }
    assert components[..|components|] == components;
    resolved := PathBuf(rooted, names);
    ResolveRooted(components);
    ResolveNamesFromComponents(components);
  }

  /** Canonicalises `link` for the page at `currentPagePath`: links with a
      protocol or `@/` come back unchanged; anything else comes back as a
      normalised path, absolute exactly when the joined path was. */
  method CanonicalizeRelativePath(link: string, currentPagePath: Option<string>) returns (r: string)
    ensures r == Canonical(link, currentPagePath)
    ensures LinkHasProtocolOrZola(link) ==> r == link
    ensures !LinkHasProtocolOrZola(link) ==> IsNormalized(r)
    ensures !LinkHasProtocolOrZola(link) ==> (IsAbsolute(r) <==> IsAbsolute(CombinedPath(link, currentPagePath)))
  {
    if LinkHasProtocolOrZola(link) {
      return link;
    }
    var combined := CombinedPath(link, currentPagePath);
    var components := Components(combined);
    var resolved := Normalize(components);
    forall j | 0 <= j < |resolved.names|
      ensures IsNormalName(resolved.names[j])
    {
      var k :| 0 <= k < |components| && components[k] == Normal(resolved.names[j]);
    }
    RenderNormalized(resolved);
    if IsAbsolute(combined) {
      assert components[0] == RootDir;
    } else {
      assert forall k :: 0 <= k < |components| ==> components[k] != RootDir;
    }
    r := Render(resolved);
  }

  /** When the joined path is `/` followed by `pieces` separated by `/`, the
      result is what walking those pieces from the root gives. */
  lemma CanonicalOfRootedJoin(link: string, currentPagePath: Option<string>, pieces: seq<string>)
    requires !LinkHasProtocolOrZola(link)
    requires forall i :: 0 <= i < |pieces| ==> '/' !in pieces[i]
    requires CombinedPath(link, currentPagePath) == "/" + Join(pieces, '/')
    ensures Canonical(link, currentPagePath)
         == Render(ResolveFrom(PathBuf(true, []), SegmentComponents(pieces)))
  {
    ComponentsOfRooted(pieces);
    ResolveConcat([RootDir], SegmentComponents(pieces));
    assert [RootDir][..0] == [];
  }

  /** When the joined path is relative, made of separator-free pieces, the
      result is what walking those pieces from an empty path gives. */
  lemma CanonicalOfRelativeJoin(link: string, currentPagePath: Option<string>, pieces: seq<string>)
    requires !LinkHasProtocolOrZola(link)
    requires |pieces| >= 1 && pieces[0] != ""
    requires forall i :: 0 <= i < |pieces| ==> '/' !in pieces[i]
    requires CombinedPath(link, currentPagePath) == Join(pieces, '/')
    ensures Canonical(link, currentPagePath)
         == Render(ResolveFrom(PathBuf(false, []), SegmentComponents(pieces)))
  {
    ComponentsOfRelative(pieces);
    var lead: seq<Component> := if pieces[0] == "." then [CurDir] else [];
    ResolveConcat(lead, SegmentComponents(pieces));
    if pieces[0] == "." {
      assert [CurDir][..0] == [];
    }
  }

  /** The source tests `is_absolute` before joining, but `Path::join` already
      returns an absolute link unchanged: the joined path is the link joined
      onto the base directory, whatever the link. */
  lemma CombinedPathIsJoin(link: string, currentPagePath: Option<string>)
    ensures CombinedPath(link, currentPagePath) == JoinPath(BaseDir(currentPagePath), link)
  {
  }

  /** An absolute link ignores the page it is on. */
  lemma AbsoluteLinkIgnoresPage(link: string, page1: Option<string>, page2: Option<string>)
    requires IsAbsolute(link)
    ensures Canonical(link, page1) == Canonical(link, page2)
  {
  }

  /** Canonicalising an absolute result again, from any page, changes nothing. */
  lemma CanonicalIdempotent(link: string, page: Option<string>, otherPage: Option<string>)
    requires IsAbsolute(Canonical(link, page))
    requires !LinkHasProtocolOrZola(link)
    ensures Canonical(Canonical(link, page), otherPage) == Canonical(link, page)
  {
    var components := Components(CombinedPath(link, page));
    var p := Resolve(components);
    var r := Render(p);
    ResolveNamesFromComponents(components);
    forall j | 0 <= j < |p.names|
      ensures IsNormalName(p.names[j])
    {
      var k :| 0 <= k < |components| && components[k] == Normal(p.names[j]);
    }
    RenderNormalized(p);
    NoProtocolOrZola(r);
    ComponentsOfRooted(p.names);
    ResolveRootedNames(p.names);
  }

  /** The names that the walk of a path's components yields are all normal. */
  lemma ResolvedNamesNormal(path: string)
    ensures AllNormalNames(Resolve(Components(path)).names)
  {
    var components := Components(path);
    var p := Resolve(components);
    ResolveNamesFromComponents(components);
    forall j | 0 <= j < |p.names|
      ensures IsNormalName(p.names[j])
    {
      var k :| 0 <= k < |components| && components[k] == Normal(p.names[j]);
    }
  }

  /** Canonicalising any result again without a page changes nothing, relative
      results included. */
  lemma CanonicalStableWithoutPage(link: string, page: Option<string>)
    requires !LinkHasProtocolOrZola(link)
    ensures Canonical(Canonical(link, page), None) == Canonical(link, page)
  {
    var p := Resolve(Components(CombinedPath(link, page)));
    var r := Render(p);
    assert Canonical(link, page) == r;
    if !LinkHasProtocolOrZola(r) {
      assert BaseDir(None) == "";
      assert CombinedPath(r, None) == r;
      ResolvedNamesNormal(CombinedPath(link, page));
      ResolveRender(p);
    }
  }

  /** The components of a path after its optional root: those of its pieces. */
  function PieceComponents(path: string): seq<Component> {
    SegmentComponents(Split(path, '/'))
  }

  /** The components of any path: its root or a `CurDir` for a leading `.`,
      then the components of its pieces. */
  lemma ComponentsPieces(path: string)
    ensures Components(path)
         == (if IsAbsolute(path) then [RootDir] else if Split(path, '/')[0] == "." then [CurDir] else [])
            + PieceComponents(path)
  {
    var segments := Split(path, '/');
    var rest := SegmentComponents(segments[1..]);
    assert SegmentComponents(segments) == SegmentComponent(segments[0]) + rest;
    if IsAbsolute(path) {
      RootedFirstPiece(path);
    }
  }

  /** The first piece of an absolute path is the empty text before its root. */
  lemma RootedFirstPiece(path: string)
    requires IsAbsolute(path)
    ensures Split(path, '/')[0] == ""
  {
    assert FindFirst(path, '/') == Some(0);
    SplitFirst(path, '/', 0);
  }

  /** Walking a path's components is walking its root, if any, and then the
      components of its pieces: a leading `.` walks to nothing. */
  lemma ResolveComponents(path: string)
    ensures Resolve(Components(path))
         == Resolve((if IsAbsolute(path) then [RootDir] else []) + PieceComponents(path))
  {
    ComponentsPieces(path);
    if !IsAbsolute(path) && Split(path, '/')[0] == "." {
      var rest := PieceComponents(path);
      ResolveConcat([CurDir], rest);
      ResolveConcat([], rest);
      assert [CurDir][..0] == [];
      assert [] + rest == rest;
    }
  }

  /** Walking a relative path's components from anywhere is walking the
      components of its pieces: a leading `.` changes nothing. */
  lemma ResolveFromComponents(p: PathBuf, path: string)
    requires !IsAbsolute(path)
    ensures ResolveFrom(p, Components(path)) == ResolveFrom(p, PieceComponents(path))
  {
    ComponentsPieces(path);
    if Split(path, '/')[0] == "." {
      var rest := PieceComponents(path);
      assert ([CurDir] + rest)[1..] == rest;
      assert ResolveFrom(p, [CurDir] + rest) == ResolveFrom(Step(p, CurDir), rest);
    }
  }

  /** A trailing `/` adds no components: the pieces of `trimmed + "/"` walk as
      those of `trimmed`. */
  lemma TrailingSeparatorComponents(trimmed: string)
    ensures PieceComponents(trimmed + "/") == PieceComponents(trimmed)
  {
    SplitAround(trimmed, '/', "");
    assert trimmed + ['/'] + "" == trimmed + "/";
    assert FindFirst("", '/').None?;
    SegmentComponentsConcat(Split(trimmed, '/'), [""]);
    assert SegmentComponents([""]) == SegmentComponent("") + SegmentComponents([]);
    assert PieceComponents(trimmed) + [] == PieceComponents(trimmed);
  }

  /** The base without one trailing `/`, if it has one. */
  function TrimSeparator(base: string): string {
    if |base| > 0 && base[|base| - 1] == '/' then base[..|base| - 1] else base
  }

  /** Joining a relative path onto a non-empty base puts exactly one `/`
      between the trimmed base and the path. */
  lemma JoinPathShape(base: string, path: string)
    requires base != "" && !IsAbsolute(path)
    ensures JoinPath(base, path) == TrimSeparator(base) + ['/'] + path
  {
    if base[|base| - 1] == '/' {
      assert base == base[..|base| - 1] + "/";
    }
  }

  /** Trimming a trailing `/` leaves the components of the pieces unchanged. */
  lemma TrimSeparatorPieces(base: string)
    ensures PieceComponents(TrimSeparator(base)) == PieceComponents(base)
  {
    if |base| > 0 && base[|base| - 1] == '/' {
      var trimmed := base[..|base| - 1];
      assert base == trimmed + "/";
      TrailingSeparatorComponents(trimmed);
    }
  }

  /** Joining onto a non-empty base keeps the base's root and concatenates
      the components of the pieces. */
  lemma JoinPathPieces(base: string, path: string)
    requires base != "" && !IsAbsolute(path)
    ensures IsAbsolute(JoinPath(base, path)) == IsAbsolute(base)
    ensures PieceComponents(JoinPath(base, path)) == PieceComponents(base) + PieceComponents(path)
  {
    var trimmed := TrimSeparator(base);
    JoinPathShape(base, path);
    TrimSeparatorPieces(base);
    SplitAround(trimmed, '/', path);
    SegmentComponentsConcat(Split(trimmed, '/'), Split(path, '/'));
  }

  /** What `Path::join` means for canonicalisation: walking the joined path is
      walking the relative path on from where the base's walk ends. */
  lemma JoinPathResolves(base: string, path: string)
    ensures Resolve(Components(JoinPath(base, path)))
         == ResolveFrom(Resolve(Components(base)), Components(path))
  {
    if IsAbsolute(path) {
      AbsolutePathResolves(Resolve(Components(base)), path);
    } else {
      RelativeJoinResolves(base, path);
    }
  }

  /** An absolute path walks the same from anywhere: its root resets the walk. */
  lemma AbsolutePathResolves(p: PathBuf, path: string)
    requires IsAbsolute(path)
    ensures Resolve(Components(path)) == ResolveFrom(p, Components(path))
  {
    var rest := Components(path)[1..];
    assert Components(path) == [RootDir] + rest;
    ResolveConcat([RootDir], rest);
    assert [RootDir][..0] == [];
    assert ([RootDir] + rest)[1..] == rest;
  }

  /** The join law for a relative path. */
  lemma RelativeJoinResolves(base: string, path: string)
    requires !IsAbsolute(path)
    ensures Resolve(Components(JoinPath(base, path)))
         == ResolveFrom(Resolve(Components(base)), Components(path))
  {
    ResolveFromComponents(Resolve(Components(base)), path);
    if base == "" {
      assert JoinPath(base, path) == path;
      ComponentsOfEmpty();
      ResolveConcat([], Components(path));
      assert [] + Components(path) == Components(path);
    } else {
      var joined := JoinPath(base, path);
      JoinPathPieces(base, path);
      var root: seq<Component> := if IsAbsolute(base) then [RootDir] else [];
      var front, back := PieceComponents(base), PieceComponents(path);
      ResolveComponents(joined);
      ResolveComponents(base);
      ConcatAssoc(root, front, back);
      ResolveConcat(root + front, back);
    }
  }

  /** A link without a protocol is canonicalised by walking its components on
      from where the walk of the page's base directory ends; an absolute link's
      root resets that walk. */
  lemma CanonicalOfLink(link: string, currentPagePath: Option<string>)
    requires !LinkHasProtocolOrZola(link)
    ensures Canonical(link, currentPagePath)
         == Render(ResolveFrom(Resolve(Components(BaseDir(currentPagePath))), Components(link)))
  {
    CombinedPathIsJoin(link, currentPagePath);
    JoinPathResolves(BaseDir(currentPagePath), link);
  }
}
