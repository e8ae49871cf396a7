# Internal-link resolution of the zola site generator, in Dafny

This project models how zola handles the links that authors write in Markdown. That logic lives in `components/utils/src/site.rs`, and the project proves properties of the model. It covers four parts:

- **Anchors.** `extract_anchor` splits a link at its first `#`, which is the fragment delimiter of section 3.5 of RFC 3986. `combine_anchor` glues a link and an optional anchor back together.
- **Permalink keys and resolution.**
  - `get_permalink_key_from_link` turns a link into the key of the permalink table. It drops a leading `@/`, splits off the anchor and percent-decodes the rest (section 2.1 of RFC 3986).
  - `resolve_internal_link` looks that key up in the table. It returns the permalink with the anchor re-attached, the content path and the anchor. If the key is missing, it returns an error that carries the link as written.
  - `is_link_internal_page` tests whether the key is in the table.
- **Classification.** `link_has_protocol_or_zola` is a case-sensitive test for six prefixes: `http://`, `https://`, `mailto:`, `ftp://`, `file://` and `@/`.
- **Lexical canonicalisation.** `canonicalize_relative_path` leaves a link with a protocol or `@/` alone. Any other link is handled in four steps:
  - It picks a base directory from the page path.
  - It joins the link onto that base, unless the link is absolute.
  - It walks the path components. The root and names are pushed, `..` pops (doing nothing on an empty path) and `.` is skipped.
  - It renders the result.

The project has six modules, one per file:

| File | Module | Contents |
|---|---|---|
| `wrappers.dfy` | `Wrappers` | `Option` and `Result` |
| `text.dfy` | `Text` | The string operations the source borrows from Rust: `starts_with`, `ends_with`, `find` and `rfind`. Also splitting at `/` and joining with `/`, which the source never calls on strings: they stand in for `Path::components` and for rendering a `PathBuf` with `to_str` |
| `percent.dfy` | `PercentDecoding` | The percent decoder, and an encoder used only to state the decoder's round trip |
| `links.dfy` | `Links` | Anchors, keys, resolution and the prefix test |
| `paths.dfy` | `Paths` | Path components, the base directory, joining, the normalising loop (`Normalize`, a method with a loop invariant) and `CanonicalizeRelativePath` |
| `site_examples.dfy` | `SiteExamples` | Each assertion of the source's unit tests, proved of the model |

The table of permalinks is a `map<string, string>`. The `PathBuf` that the source's loop builds in place is a value `PathBuf(rooted, names)`. The method `Normalize` holds that value in local variables and updates them inside its loop. The method is proved equal to `Resolve`, a fold of one `Step` per component, and the properties of canonicalisation are proved about that fold.

Some behaviour is modelled as the source writes it, even where it may be surprising:

- A page path that ends in `.md` but has no `/` is its own base directory. So on page `file.md`, the link `x` becomes `file.md/x`.
- A page directly under the root, such as `/file.md`, has the empty base. So a relative link on it stays relative.
- A link ending in `#` has the anchor `Some("")`. Its permalink therefore ends in a bare `#`.

## Model

| member | source | states |
|---|---|---|
| Text.StartsWith | components/utils/src/site.rs:75 | `str::starts_with`: true exactly when the prefix fits and every character of it matches the start of the string |
| Text.EndsWith | components/utils/src/site.rs:90 | `str::ends_with`: true exactly when the suffix fits and every character of it matches the end of the string |
| Text.FindFirst | components/utils/src/site.rs:58 | `str::find`: no position exactly when the character is absent; otherwise the position holds the character and nothing before it does |
| Text.FindLast | components/utils/src/site.rs:93 | `str::rfind`: no position exactly when the character is absent; otherwise the position holds the character and nothing after it does |
| Text.FindFirstAfter | components/utils/src/site.rs:58 | the first `#` of `a + "#" + b` is at `|a|` when `a` has none |
| Text.FindLastBefore | components/utils/src/site.rs:93 | the last `/` of `a + "/" + b` is at `|a|` when `b` has none |
| Text.Split | components/utils/src/site.rs:108 | splitting a path at `/` yields at least one piece and no piece holds a `/` |
| Text.JoinSplit | components/utils/src/site.rs:108 | joining the pieces of a split with the separator gives back the string |
| Text.SplitJoin | components/utils/src/site.rs:108 | splitting a join of separator-free pieces gives back the pieces |
| Text.SplitAround | components/utils/src/site.rs:104-108 | splitting two strings glued by one separator gives the pieces of the first followed by the pieces of the second |
| Text.SplitFirst | components/utils/src/site.rs:108 | the pieces of a string are the text before its first separator, then the pieces of the rest |
| Text.SplitAfterPlain | components/utils/src/site.rs:108 | a string made of a separator-free piece, a separator and a rest splits into that piece and the pieces of the rest |
| Text.JoinHead | components/utils/src/site.rs:122-124 | a join starts with the first character of its first piece |
| PercentDecoding.HexDigit | components/utils/src/site.rs:46 | the hex digit for a value below 16 is a hex digit that reads back as that value |
| PercentDecoding.Escape | components/utils/src/site.rs:46 | the escape of an ASCII character is three characters long and is a decodable `%XX` escape |
| PercentDecoding.PercentDecode | components/utils/src/site.rs:46 | decoding never lengthens a string and leaves a string without `%` unchanged |
| PercentDecoding.DecodePlainPrefix | components/utils/src/site.rs:46 | a `%`-free prefix passes through decoding unchanged, ahead of the decoding of the rest |
| PercentDecoding.DecodeEscape | components/utils/src/site.rs:46 | an escape of an ASCII character decodes back to that character, and the rest is decoded on its own |
| PercentDecoding.DecodeOther | components/utils/src/site.rs:46 | a character other than `%` decodes to itself, and the rest is decoded on its own |
| PercentDecoding.DecodeEncode | components/utils/src/site.rs:46 | decoding undoes percent-encoding of any set of ASCII characters that includes `%` |
| Links.ExtractAnchor | components/utils/src/site.rs:57-64 | without `#` the link comes back with no anchor; otherwise the base has no `#`, there is an anchor, and base + `#` + anchor is the link |
| Links.CombineAnchor | components/utils/src/site.rs:65-70 | the link is a prefix of the result; the result is longer exactly when there is an anchor, and then `#` and the anchor follow the link; `ExtractAfterCombine` and `CombineAfterExtract` prove it inverse to `ExtractAnchor` |
| Links.ExtractAfterCombine | components/utils/src/site.rs:57-70 | splitting what `combine_anchor` built gives back the link and the anchor, for a link without `#` |
| Links.CombineAfterExtract | components/utils/src/site.rs:57-70 | recombining the two halves of a split gives back the link |
| Links.StripZolaPrefix | components/utils/src/site.rs:39 | the `@/` prefix is removed exactly when present and the link is otherwise unchanged |
| Links.GetPermalinkKeyFromLink | components/utils/src/site.rs:37-48 | the anchor is that of the link without `@/`, and there is none exactly when that link has no `#` |
| Links.KeyIgnoresZolaPrefix | components/utils/src/site.rs:37-48 | `@/x` and `x` have the same key and the same anchor when `x` does not itself start with `@/`, since only one `@/` is removed |
| Links.KeyIndependentOfAnchor | components/utils/src/site.rs:37-48 | adding or changing an anchor leaves the key unchanged, and the anchor comes back as given, so the key never holds the anchor |
| Links.UnanchoredLinkKey | components/utils/src/site.rs:37-48 | `@/` + path without `#` has the decoded path as key and no anchor |
| Links.PlainLinkKey | components/utils/src/site.rs:37-48 | a path without `#` or `%` and not starting with `@/` is its own key, with or without `@/` in front |
| Links.AnchoredLinkKey | components/utils/src/site.rs:37-48 | `@/path#anchor` has key `path` and anchor `anchor` for a plain path |
| Links.ResolveInternalLink | components/utils/src/site.rs:21-34 | fails exactly when the key is missing, with an error carrying the original link; on success the content path is the key, the anchor is the link's anchor, and the permalink is the table entry, followed by `#` and the anchor when there is one |
| Links.EmptyTableFails | components/utils/src/site.rs:25-27 | every link fails against an empty table, with its own text in the error |
| Links.ResolvedPermalinkAnchor | components/utils/src/site.rs:29-33 | splitting a resolved permalink at `#` gives back the table entry and exactly the link's anchor, when the entry has no `#` |
| Links.IsLinkInternalPage | components/utils/src/site.rs:51-54 | true exactly when resolution of the same link against the same table succeeds |
| Links.StartsWithAny | components/utils/src/site.rs:73-75 | true exactly when some prefix in the list starts the link |
| Links.LinkHasProtocolOrZola | components/utils/src/site.rs:72-76 | true exactly when one of the six fixed prefixes starts the link |
| Links.NoProtocolOrZola | components/utils/src/site.rs:72-76 | a link whose first character is not `h`, `m`, `f` or `@` has none of the prefixes |
| Paths.SegmentComponents | components/utils/src/site.rs:108 | the components of separator-free pieces are each `..` or a proper name (never empty, never `.`) |
| Paths.SegmentComponentsConcat | components/utils/src/site.rs:108 | the components of consecutive pieces are those of each in turn |
| Paths.Components | components/utils/src/site.rs:105-108 | a path is absolute exactly when its first component is the root; every later component is `..` or a proper name |
| Paths.IsAbsolute | components/utils/src/site.rs:105 | `Path::is_absolute` on Unix: true exactly when the path starts with `/` |
| Paths.ComponentsOfEmpty | components/utils/src/site.rs:108 | the empty path has no components |
| Paths.ComponentsOfRelative | components/utils/src/site.rs:108 | the components of a relative path made of separator-free pieces are the pieces' components, after a `CurDir` when the first piece is `.` |
| Paths.Step | components/utils/src/site.rs:109-118 | one arm of the `match`: the root empties the path and roots it; `..` drops the last name, or does nothing when there is none; `.` changes nothing; a name is appended; only the root component changes whether the path is rooted |
| Paths.Resolve | components/utils/src/site.rs:107-120 | the loop read as a fold of `Step` over the components; it never yields more names than there are components |
| Paths.Render | components/utils/src/site.rs:122-124 | `to_str` of the built path: a rooted path renders as an absolute one; `ResolveRender` proves that reading it back gives the same path |
| Paths.ResolveRelativeNames | components/utils/src/site.rs:107-120 | walking the components of relative normal names yields exactly those names, with no root |
| Paths.ResolveRender | components/utils/src/site.rs:107-124 | for a path of normal names, walking the components of its rendering gives the path back |
| Paths.ResolvedNamesNormal | components/utils/src/site.rs:107-120 | every name that the walk of any path's components yields is a normal name |
| Paths.JoinPath | components/utils/src/site.rs:104-105 | `Path::join`: an absolute path replaces the base. Otherwise the result is the base followed by the path, with a `/` inserted between them exactly when the base is non-empty and does not already end in `/`. The result is absolute exactly when the base or the path is |
| Paths.CombinedPath | components/utils/src/site.rs:104-105 | an absolute link is the joined path itself; otherwise the joined path ends with the link and is absolute exactly when the base directory is |
| Paths.CombinedPathIsJoin | components/utils/src/site.rs:104-105 | the `is_absolute` test before joining changes nothing: the joined path is always the base directory joined with the link |
| Paths.Canonical | components/utils/src/site.rs:79-127 | the value `CanonicalizeRelativePath` returns: a link with a protocol or `@/` is returned as it is, and any other link whose joined path is absolute gives an absolute result |
| Paths.BaseDir | components/utils/src/site.rs:87-103 | no page gives the empty base; a `.md` page containing `/` gives the text before its last `/`; any other page path is its own base |
| Paths.ComponentsOfRooted | components/utils/src/site.rs:105-108 | the components of `/` followed by separator-free pieces are the root followed by the pieces' components |
| Paths.ResolveConcat | components/utils/src/site.rs:107-120 | walking `a + b` is walking `b` from where `a` ends, so the loop's order and a front-to-back reading agree |
| Paths.ResolveRooted | components/utils/src/site.rs:110 | the result has a root exactly when some component was the root |
| Paths.ResolveNamesFromComponents | components/utils/src/site.rs:116 | every name of the result came from a normal component |
| Paths.ResolveFromNames | components/utils/src/site.rs:116 | walking proper names appends them and changes nothing else |
| Paths.ResolveRootedNames | components/utils/src/site.rs:107-120 | walking the root and then proper names gives exactly those names under the root |
| Paths.RenderNormalized | components/utils/src/site.rs:122-124 | a rendered path of proper names has no empty, `.` or `..` piece and no trailing `/`, and is absolute exactly when rooted |
| Paths.Normalize | components/utils/src/site.rs:107-120 | the loop's result is the fold of the components; it is rooted exactly when a root component occurs; every name comes from a normal component |
| Paths.CanonicalizeRelativePath | components/utils/src/site.rs:79-127 | a link with a protocol or `@/` comes back unchanged for any page; any other result is normalised and absolute exactly when the joined path was |
| Paths.CanonicalOfRootedJoin | components/utils/src/site.rs:104-121 | when the joined path is `/` followed by pieces, the result is the walk of those pieces from the root |
| Paths.CanonicalOfRelativeJoin | components/utils/src/site.rs:104-121 | when the joined path is relative and made of separator-free pieces, the result is the walk of those pieces from an empty path |
| Paths.ComponentsPieces | components/utils/src/site.rs:108 | the components of any path are its root, or a `CurDir` for a leading `.`, followed by the components of its pieces |
| Paths.RootedFirstPiece | components/utils/src/site.rs:108 | the first piece of an absolute path is empty |
| Paths.ResolveComponents | components/utils/src/site.rs:107-120 | walking a path's components is walking its root, if any, and then the components of its pieces |
| Paths.ResolveFromComponents | components/utils/src/site.rs:107-120 | from any starting path, a leading `.` of a relative path changes nothing in the walk |
| Paths.TrailingSeparatorComponents | components/utils/src/site.rs:104-108 | a trailing `/` adds no components |
| Paths.JoinPathShape | components/utils/src/site.rs:104-105 | joining a relative path onto a non-empty base puts exactly one `/` between the base, without its trailing `/`, and the path |
| Paths.TrimSeparatorPieces | components/utils/src/site.rs:104-108 | removing a trailing `/` leaves the components of the pieces unchanged |
| Paths.JoinPathPieces | components/utils/src/site.rs:104-108 | joining a relative path onto a non-empty base keeps whether the base is absolute and concatenates the components of the two pieces |
| Paths.JoinPathResolves | components/utils/src/site.rs:104-120 | walking the components of any path joined onto a base is walking the path's components on from where the walk of the base ends; an absolute path's root resets the walk |
| Paths.AbsolutePathResolves | components/utils/src/site.rs:104-120 | an absolute path walks to the same result from any starting point, because its root resets the walk |
| Paths.RelativeJoinResolves | components/utils/src/site.rs:104-120 | walking a relative path joined onto a base is walking the path's components on from where the walk of the base ends |
| Paths.CanonicalOfLink | components/utils/src/site.rs:79-127 | a link without a protocol or `@/` is canonicalised by walking its components on from where the walk of the page's base directory ends |
| Paths.AbsoluteLinkIgnoresPage | components/utils/src/site.rs:104-105 | an absolute link gives the same result on every page |
| Paths.CanonicalIdempotent | components/utils/src/site.rs:79-127 | an absolute result canonicalises to itself from any page |
| Paths.CanonicalStableWithoutPage | components/utils/src/site.rs:79-127 | canonicalising any result again without a page gives the same result, relative results included |
| SiteExamples.ExtractAnchorSplits | components/utils/src/site.rs:205 | `some/path#anchor` splits into `some/path` and `anchor` |
| SiteExamples.ExtractAnchorNone | components/utils/src/site.rs:206 | `some/path` has no anchor |
| SiteExamples.KeyOfPrefixedLink | components/utils/src/site.rs:182 | `@/some/path` has key `some/path` and no anchor |
| SiteExamples.KeyOfPrefixedAnchoredLink | components/utils/src/site.rs:183-186 | `@/some/path#anchor` has key `some/path` and anchor `anchor` |
| SiteExamples.KeyOfPlainLink | components/utils/src/site.rs:187 | `some/path` has key `some/path` and no anchor |
| SiteExamples.KeyOfAbsoluteAnchoredLink | components/utils/src/site.rs:188-191 | `/some/path#anchor` keeps its leading `/` in the key |
| SiteExamples.ResolvesTo | components/utils/src/site.rs:25-33 | a link whose key is in the table resolves to the entry with the anchor combined onto it |
| SiteExamples.ResolveValidLink | components/utils/src/site.rs:136-141 | `@/pages/about.md` resolves to its permalink |
| SiteExamples.ResolveValidRootLink | components/utils/src/site.rs:144-149 | `@/about.md` resolves to its permalink |
| SiteExamples.ResolveLinkWithAnchor | components/utils/src/site.rs:152-159 | `@/pages/about.md#hello` resolves to the permalink plus `#hello`, with content path `pages/about.md` and anchor `hello` |
| SiteExamples.ResolveEscapedLink | components/utils/src/site.rs:162-172 | `@/pages/about%20space.md#hello` finds the entry stored under `pages/about space.md` and keeps the escape in the permalink |
| SiteExamples.DecodeEscapedSpace | components/utils/src/site.rs:46 | `%20` decodes to a space and the text after it stays as it is |
| SiteExamples.MissingLinkFails | components/utils/src/site.rs:175-178 | resolution against an empty table fails |
| SiteExamples.KnownLinkIsInternal | components/utils/src/site.rs:199 | `@/some/path` is internal when `some/path` is in the table |
| SiteExamples.UnknownLinkIsNotInternal | components/utils/src/site.rs:200 | `@/other/path` is not |
| SiteExamples.JoinedOnBase | components/utils/src/site.rs:104-105 | a relative link on a page whose base directory has no trailing `/` is joined onto that base with one `/` |
| SiteExamples.RootedCase | components/utils/src/site.rs:104-121 | the result for a joined path `/` + pieces is the rendered walk of those pieces |
| SiteExamples.CanonicalizeRelative | components/utils/src/site.rs:211-214 | `some/path` on `/base` gives `/base/some/path` |
| SiteExamples.CanonicalizeCurrentDir | components/utils/src/site.rs:215-218 | `./some/path` on `/base` gives `/base/some/path` |
| SiteExamples.CanonicalizeParentDir | components/utils/src/site.rs:219-222 | `../some/path` on `/base` gives `/some/path` |
| SiteExamples.CanonicalizeAbsolute | components/utils/src/site.rs:223-226 | `/some/./path` ignores the base and gives `/some/path` |
| SiteExamples.CanonicalizePopPastRoot | components/utils/src/site.rs:227-230 | `some/../../path` on `/base` gives `/path`: popping at the root does nothing |
| SiteExamples.CanonicalizeAbsoluteParent | components/utils/src/site.rs:231-234 | `/some/.././path` gives `/path` |
| SiteExamples.CanonicalizeTrailingSlash | components/utils/src/site.rs:235-238 | `/some/.././path/` gives `/path`, without a trailing slash |
| SiteExamples.CanonicalizeKeepsAnchor | components/utils/src/site.rs:239-242 | `/some/.././path#xyz` gives `/path#xyz`: the anchor is ordinary name text |
| SiteExamples.CanonicalizeFromMarkdownPage | components/utils/src/site.rs:243-246 | `../some/path` on page `/base/second/file.md` gives `/base/some/path` |
| SiteExamples.MarkdownPageBase | components/utils/src/site.rs:90-94 | the base directory of `/base/second/file.md` is `/base/second` |
| SiteExamples.BaseDirOfBase | components/utils/src/site.rs:98-99 | a page path that is not a `.md` file, such as `/base`, is its own base directory |

## Left out

- `combined_path.canonicalize()` (site.rs:106) asks the filesystem to resolve symlinks and check that the path exists. The model always takes the lexical fallback.
- PercentDecode: decodes only `%XX` escapes whose value is below 0x80. Escapes of 0x80 and above are kept as written, so UTF-8 decoding and the U+FFFD replacement of `decode_utf8_lossy` are not modelled. A `%` that does not start a valid escape passes through, as in the source.
- The error message text built by `anyhow!` is not modelled. The error is a datatype variant carrying the original link.
- `Component::Prefix` (Windows drive prefixes) is not modelled, because the model's paths are `/`-separated.
- The `to_str()` failure fallback (site.rs:122-126) is not modelled. The path comes from a `&str`, so rendering is total.
- The hashing and iteration order of `HashMap` are not modelled. A Dafny `map` has the same lookup and membership behaviour.
- Paths.Components: its own contract gives only the shape of the result: a root first exactly when the path is absolute, and every later component `..` or a normal name. Which components come out, and in what order, is given by `ComponentsOfRooted`, `ComponentsOfRelative` and `ComponentsOfEmpty`. It follows Rust's `Path::components` on Unix for `/`-separated text. A leading `.` of a relative path gives `CurDir`. Other `.` pieces and empty pieces give nothing. Platform-specific separators are not modelled.
