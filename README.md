# remark-strip-md-links, modelled in Dafny

The Field Notes documentation site is built with Astro and Starlight. The
repository ships one remark plugin of its own, `remarkStripMdLinks`. The
plugin walks the Markdown syntax tree (mdast) it is given and visits each
node of type `link`. When a link's `url` is a
string and the target counts as relative, it deletes the `.md` extension,
so that `./gleam/intro.md` points at the rendered page `./gleam/intro`.

Two rules decide what happens:

- **Relativity heuristic.** A target is relative when it starts with `./`,
  starts with `../`, or contains no `://`.
- **The rewrite.** On a relative target, the plugin calls
  `url.replace(/\.md(?=$|#)/, "")`. This deletes the first `.md` that is
  followed by the end of the string or by a `#` fragment. The pattern has
  no `g` flag, so at most one `.md` is deleted.

The project has three modules:

- `Options` (`options.dfy`): the optional value used for a node's `url`.
  `Some(s)` is a string. `None` stands for any other JavaScript value,
  `undefined` included.
- `UrlRewrite` (`url_rewrite.dfy`): the string logic.
  - `StartsWith` and `Includes` model `startsWith` and `includes`.
  - `IsRelative` is the guard.
  - The regular expression becomes an explicit leftmost search. `MatchesAt`
    is the pattern at one index, `FindFrom`/`FindMatch` scan for it, and
    `StripMd` deletes the match.
  - `RewriteUrl` is the guarded rewrite.
  - Lemmas about these follow.
- `StripMdLinks` (`strip_md_links.dfy`): the tree pass.
  - `Node<Extra>` holds the node's `type` (`kind`), its `url`, every other
    field (`extra`, never read) and its children.
  - `VisitNode` is the visitor callback.
  - `Transform` applies it to the root and to every descendant.

The pass is total. `Transform` and `RewriteUrl` have no precondition. The
one helper that has a precondition is `DeleteAt`, which needs three
characters at the index it deletes. `StripMd` calls it only with the index
`FindMatch` returns, and `FindMatch`'s contract guarantees those three
characters.

The rewrite is not idempotent:

- `x.md.md` becomes `x.md`, which becomes `x`.
- `a.md#b.md` becomes `a#b.md`, which becomes `a#b`.

The model proves exactly which targets a second run leaves unchanged
(`StripStable`). It also proves the pass is idempotent on a tree exactly
when every link target in it is absolute or stable.

## Model

| member | source | states |
|---|---|---|
| `UrlRewrite.StartsWith` | remark-strip-md-links.mjs:11-12 | `startsWith` is true exactly when the prefix is no longer than the string and matches its first characters one by one |
| `UrlRewrite.IncludesFrom` | remark-strip-md-links.mjs:13 | the scan from index k returns true exactly when `needle` occurs at some index at or after k |
| `UrlRewrite.Includes` | remark-strip-md-links.mjs:13 | `includes` is true exactly when `needle` occurs somewhere in the string |
| `UrlRewrite.IsRelative` | remark-strip-md-links.mjs:10-14 | a target is relative exactly when it starts with `./` or `../`, or when `://` occurs nowhere in it |
| `UrlRewrite.FindFrom` | remark-strip-md-links.mjs:15 | the scan from k returns the first index at or after k where `.md` is followed by the end or by `#`, or None when no such index exists |
| `UrlRewrite.FindMatch` | remark-strip-md-links.mjs:15 | the result is the leftmost match, and it is None exactly when the pattern matches nowhere |
| `UrlRewrite.StripMd` | remark-strip-md-links.mjs:15 | with no match the string is returned unchanged; otherwise the result is the input with exactly the three characters of the leftmost match deleted, so its length is the input's or the input's minus 3 |
| `UrlRewrite.DeleteAt` | remark-strip-md-links.mjs:15 | deleting three characters keeps everything before them in place and shifts everything after them left by three |
| `UrlRewrite.RewriteUrl` | remark-strip-md-links.mjs:10-15 | an absolute target is returned unchanged; a relative one loses exactly its leftmost match; the target changes exactly when it is relative and the pattern matches somewhere in it (the lemmas below, `AbsoluteUrlUnchanged`, `DotPrefixStrips` and `NoMatchUnchanged`, state the cases by prefix) |
| `UrlRewrite.AbsoluteUrlUnchanged` | remark-strip-md-links.mjs:10-15 | a target that contains `://` and starts with neither `./` nor `../` is not relative and is returned unchanged, even when it ends in `.md` |
| `UrlRewrite.DotPrefixStrips` | remark-strip-md-links.mjs:11-15 | a target starting with `./` or `../` is rewritten even if it contains `://`: its leftmost match is deleted |
| `UrlRewrite.NoMatchUnchanged` | remark-strip-md-links.mjs:15 | a target with no `.md` followed by the end or by `#` is returned unchanged |
| `UrlRewrite.LeftmostAfterHashFreePrefix` | remark-strip-md-links.mjs:15 | when the text before a `.md` has no `#`, and the `.md` ends the string or is followed by `#`, that `.md` is the leftmost match |
| `UrlRewrite.StripTrailingMd` | remark-strip-md-links.mjs:15 | a path without `#` that ends in `.md` loses exactly that `.md` |
| `UrlRewrite.StripMdBeforeFragment` | remark-strip-md-links.mjs:8-15 | `path.md#fragment` becomes `path#fragment` when the path has no `#`; the whole fragment is kept, even if it contains `.md` |
| `UrlRewrite.RelativePageLosesMd` | remark-strip-md-links.mjs:10-15 | a relative target `path.md` with no `#` in its path is rewritten to `path` |
| `UrlRewrite.RelativeAnchorKeepsFragment` | remark-strip-md-links.mjs:8-15 | a relative target `path.md#fragment` with no `#` in its path is rewritten to `path#fragment` |
| `UrlRewrite.ExampleDotSlashTarget` | remark-strip-md-links.mjs:10-15 | `./gleam/intro.md` becomes `./gleam/intro` |
| `UrlRewrite.ExampleAnchorTarget` | remark-strip-md-links.mjs:8-15 | `../uncategorized/notes.md#setup` becomes `../uncategorized/notes#setup` |
| `UrlRewrite.ExampleBareTarget` | remark-strip-md-links.mjs:10-15 | `guide.md`, which has no prefix and no scheme, becomes `guide` |
| `UrlRewrite.ExampleAbsoluteTarget` | remark-strip-md-links.mjs:10-14 | `https://example.com/page.md` is unchanged |
| `UrlRewrite.ExampleInnerMdTargets` | remark-strip-md-links.mjs:15 | `a.mdx` and `a.md/b` are unchanged |
| `UrlRewrite.ExampleNoMdTarget` | remark-strip-md-links.mjs:15 | `image.png` is unchanged |
| `UrlRewrite.MatchAfterStrip` | remark-strip-md-links.mjs:15 | after the leftmost match is deleted, the pattern matches at j exactly when (a) j is just before the join and the text before the deleted match ends in `.md`, or (b) the original matched three places further right |
| `UrlRewrite.StripMdIdempotentIff` | remark-strip-md-links.mjs:15 | stripping twice gives the same string as stripping once exactly when the input is stable: the text before its leftmost match does not end in `.md`, and no later match exists |
| `UrlRewrite.StripMdKeepsRelative` | remark-strip-md-links.mjs:10-15 | the stripped form of a relative target is still relative: the `./` or `../` prefix is kept and no `://` is created |
| `UrlRewrite.RewriteUrlIdempotentIff` | remark-strip-md-links.mjs:10-15 | rewriting twice equals rewriting once exactly when the target is absolute or stable |
| `UrlRewrite.DoubledExtensionNotIdempotent` | remark-strip-md-links.mjs:15 | `x.md.md` becomes `x.md`, and a second run turns that into `x` |
| `UrlRewrite.MdFragmentNotIdempotent` | remark-strip-md-links.mjs:15 | `a.md#b.md` becomes `a#b.md`, and a second run turns that into `a#b` |
| `StripMdLinks.VisitNode` | remark-strip-md-links.mjs:6-15 | the callback keeps a node's kind, other fields and children; it returns a non-link node, or a link whose `url` is not a string, unchanged; it gives a link with a string `url` the rewritten `url` |
| `StripMdLinks.Transform` | remark-strip-md-links.mjs:4-17 | the root keeps its kind, other fields and number of children; a link root with a string `url` gets the rewritten `url`, and any other root keeps its `url` (`TransformAt` extends this to every depth) |
| `StripMdLinks.TransformAt` | remark-strip-md-links.mjs:5-16 | the pass reaches every node at every depth. Both trees have the same paths. Each node keeps its kind, other fields and number of children. Each link with a string `url` gets the rewritten `url`, and every other `url` is kept |
| `StripMdLinks.TransformIdempotentIff` | remark-strip-md-links.mjs:4-17 | running the pass twice gives the same tree as running it once exactly when every link with a string `url` in the tree has an absolute or stable target |

## Left out

- `astro.config.mjs` is not part of this model. It is declarative site configuration (title, social link, sidebar, pagination) read by the Astro and Starlight framework, and it holds no logic.
- The tree visitor `unist-util-visit` is not part of this model. A recursive function over the node datatype replaces it. Its skip and exit return codes are not modelled, because the plugin's callback returns nothing.
- In-place mutation is not modelled. The source assigns `node.url` on the parser's own objects, while `Transform` returns a new tree. The source's trees come from a parser and share no nodes. If one node object were reachable twice, the source would rewrite it on each visit; with `x.md.md` that gives a different result, and the value model cannot express this.
- The JavaScript regular-expression engine is replaced by an explicit leftmost search for this single pattern.
- JavaScript strings are sequences of UTF-16 code units, and Dafny strings are sequences of Unicode scalar values. Indices can differ on text with surrogate pairs. Matching does not, because every character the plugin looks for is ASCII. A JavaScript string can also hold an unpaired surrogate, which a Dafny `char` cannot represent, so such targets are outside the model.
- The non-string `url` values (`undefined`, numbers, objects) are collapsed into one `None` value. The guard treats all of them alike.
- Node kinds other than `link` are not listed one by one, and a node's other fields are abstracted into the type parameter `Extra`, because the pass reads neither.
- Registering the plugin in the remark and Astro pipeline, Markdown parsing and HTML rendering are I/O and framework glue, and are not modelled.
