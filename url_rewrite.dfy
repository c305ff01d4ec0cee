/** The URL decision and rewrite of the `remark-strip-md-links` plugin:
    a link target is "relative" when it starts with `./` or `../` or has
    no `://` in it, and a relative target loses the first `.md` that sits
    at the end of the string or just before a `#` fragment (the regular
    expression `/\.md(?=$|#)/`, replaced once, without the `g` flag). */
module UrlRewrite {
  import opened Options

  // ---------------------------------------------------------------------
  // String primitives: `startsWith` and `includes`
  // ---------------------------------------------------------------------

  /** `s.startsWith(prefix)`: the first `|prefix|` characters of `s` are,
      one by one, those of `prefix`. */
  predicate StartsWith(s: string, prefix: string): (r: bool)
    ensures r <==> |prefix| <= |s| && forall i :: 0 <= i < |prefix| ==> s[i] == prefix[i]
  {
    |prefix| <= |s| && s[..|prefix|] == prefix
  }

  /** `needle` sits in `s` at index `i`. */
  ghost predicate OccursAt(s: string, needle: string, i: int) {
    0 <= i && i + |needle| <= |s| && s[i..i + |needle|] == needle
  }

  /** A left-to-right scan for `needle` starting at index `k`. Unlike
      `s.includes(needle, k)` it does not clamp `k` to the length of `s`;
      the rewrite only ever scans from index 0. */
  function IncludesFrom(s: string, needle: string, k: nat): (r: bool)
    ensures r <==> exists i :: k <= i && OccursAt(s, needle, i)
    decreases |s| - k
  {
    if k + |needle| > |s| then false
    else if s[k..k + |needle|] == needle then assert OccursAt(s, needle, k); true
    else IncludesFrom(s, needle, k + 1)
  }

  /** `s.includes(needle)` */
  function Includes(s: string, needle: string): (r: bool)
    ensures r <==> exists i :: OccursAt(s, needle, i)
  {
    IncludesFrom(s, needle, 0)
  }

  /** An occurrence of `://`, character by character. */
  lemma SchemeAt(s: string, i: int)
    ensures OccursAt(s, "://", i) <==>
            0 <= i && i + 3 <= |s| && s[i] == ':' && s[i + 1] == '/' && s[i + 2] == '/'
  {
  }

  // ---------------------------------------------------------------------
  // The relativity heuristic
  // ---------------------------------------------------------------------

  /** The condition guarding the rewrite. Note that a `mailto:` target,
      having no `://`, counts as relative. */
  function IsRelative(url: string): (r: bool)
    ensures r <==> StartsWith(url, "./") || StartsWith(url, "../")
                   || forall i :: !OccursAt(url, "://", i)
  {
    StartsWith(url, "./") || StartsWith(url, "../") || !Includes(url, "://")
  }

  // ---------------------------------------------------------------------
  // The pattern `\.md(?=$|#)` and its leftmost match
  // ---------------------------------------------------------------------

  /** The pattern matches at index `i`: the three characters `.md` start
      there and are followed by the end of the string or by `#`. */
  predicate MatchesAt(url: string, i: int) {
    0 <= i && i + 3 <= |url| && url[i] == '.' && url[i + 1] == 'm' && url[i + 2] == 'd'
    && (i + 3 == |url| || url[i + 3] == '#')
  }

  /** `i` is the match a non-global `replace` uses: the leftmost one. */
  ghost predicate Leftmost(url: string, i: int) {
    MatchesAt(url, i) && forall j :: 0 <= j < i ==> !MatchesAt(url, j)
  }

  /** The regular-expression engine's scan, from index `k` rightwards. */
  function FindFrom(url: string, k: nat): (r: Option<nat>)
    ensures r.Some? ==> k <= r.value && MatchesAt(url, r.value)
    ensures r.Some? ==> forall j :: k <= j < r.value ==> !MatchesAt(url, j)
    ensures r.None? ==> forall j :: k <= j ==> !MatchesAt(url, j)
    decreases |url| - k
  {
    if k + 3 > |url| then None
    else if MatchesAt(url, k) then Some(k)
    else FindFrom(url, k + 1)
  }

  /** The index of the match, if any. */
  function FindMatch(url: string): (r: Option<nat>)
    ensures r.Some? ==> Leftmost(url, r.value)
    ensures r.None? <==> forall j :: !MatchesAt(url, j)
  {
    FindFrom(url, 0)
  }

  /** `url` without the three characters starting at index `i`: what is
      before them keeps its place, what is after them moves left by three. */
  function DeleteAt(url: string, i: nat): (r: string)
    requires i + 3 <= |url|
    ensures |r| == |url| - 3
    ensures forall k :: 0 <= k < i ==> r[k] == url[k]
    ensures forall k :: i <= k < |r| ==> r[k] == url[k + 3]
  {
    url[..i] + url[i + 3..]
  }

  /** `url.replace(/\.md(?=$|#)/, "")`: without a match the string is
      returned as it is; otherwise exactly the three characters of the
      leftmost match are deleted and everything around them is kept. */
  function StripMd(url: string): (r: string)
    ensures (forall j :: !MatchesAt(url, j)) ==> r == url
    ensures forall i :: Leftmost(url, i) ==> r == DeleteAt(url, i)
    ensures |r| == |url| || |r| == |url| - 3
  {
    match FindMatch(url)
    case None => url
    case Some(i) => DeleteAt(url, i)
  }

  /** The rewrite the visitor applies to a link node's string `url`: an
      absolute target is kept, a relative one loses its leftmost match, and
      the target changes exactly when it is relative and the pattern matches
      somewhere in it. */
  function RewriteUrl(url: string): (r: string)
    ensures !IsRelative(url) ==> r == url
    ensures IsRelative(url) ==> forall i :: Leftmost(url, i) ==> r == DeleteAt(url, i)
    ensures r != url <==> IsRelative(url) && exists i :: MatchesAt(url, i)
  {
    if IsRelative(url) then StripMd(url) else url
  }

  // ---------------------------------------------------------------------
  // Properties of the rewrite
  // ---------------------------------------------------------------------

  /** An absolute URL (one with `://` that starts with neither `./` nor
      `../`) is never changed, whatever it ends in. */
  lemma AbsoluteUrlUnchanged(url: string, i: int)
    requires OccursAt(url, "://", i)
    requires !StartsWith(url, "./") && !StartsWith(url, "../")
    ensures !IsRelative(url) && RewriteUrl(url) == url
  {
  }

  /** A `./` or `../` prefix wins over a `://` anywhere in the string. */
  lemma DotPrefixStrips(url: string, i: int)
    requires StartsWith(url, "./") || StartsWith(url, "../")
    requires Leftmost(url, i)
    ensures RewriteUrl(url) == DeleteAt(url, i)
  {
  }

  /** A relative URL with no match anywhere is returned unchanged. */
  lemma NoMatchUnchanged(url: string)
    requires forall j :: !MatchesAt(url, j)
    ensures RewriteUrl(url) == url
  {
  }

  /** In `p + tail`, where `p` has no `#` and `tail` starts with `.md`,
      the leftmost match is the one that starts `tail`, provided it is
      one (that is, `tail` is `.md` or goes on with `#`). */
  lemma LeftmostAfterHashFreePrefix(p: string, tail: string)
    requires '#' !in p
    requires |tail| >= 3 && tail[0] == '.' && tail[1] == 'm' && tail[2] == 'd'
    requires |tail| == 3 || tail[3] == '#'
    ensures Leftmost(p + tail, |p|)
    ensures DeleteAt(p + tail, |p|) == p + tail[3..]
  {
  }

  /** A path without a fragment loses its trailing `.md`. */
  lemma StripTrailingMd(p: string)
    requires '#' !in p
    ensures StripMd(p + ".md") == p
  {
    LeftmostAfterHashFreePrefix(p, ".md");
    assert ".md"[3..] == [];
    assert p + [] == p;
  }

  /** `path.md#fragment` becomes `path#fragment`: the `.md` closing the
      path goes and the whole fragment, `.md` in it or not, is kept. */
  lemma StripMdBeforeFragment(p: string, f: string)
    requires '#' !in p
    ensures StripMd(p + ".md#" + f) == p + "#" + f
  {
    var tail := ".md#" + f;
    assert p + ".md#" + f == p + tail;
    LeftmostAfterHashFreePrefix(p, tail);
    assert tail[3..] == "#" + f;
  }

  /** No `:` means no `://`. */
  lemma NoColonNoScheme(s: string)
    requires ':' !in s
    ensures forall i :: !OccursAt(s, "://", i)
  {
    forall i ensures !OccursAt(s, "://", i) {
      SchemeAt(s, i);
    }
  }

  /** A relative page target loses its `.md`. */
  lemma RelativePageLosesMd(p: string)
    requires '#' !in p && IsRelative(p + ".md")
    ensures RewriteUrl(p + ".md") == p
  {
    StripTrailingMd(p);
  }

  /** A relative page target with an anchor loses the `.md` of its path and
      keeps its whole fragment. */
  lemma RelativeAnchorKeepsFragment(p: string, f: string)
    requires '#' !in p && IsRelative(p + ".md#" + f)
    ensures RewriteUrl(p + ".md#" + f) == p + "#" + f
  {
    StripMdBeforeFragment(p, f);
  }

  /** A `./` example target loses its `.md`. */
  lemma ExampleDotSlashTarget()
    ensures RewriteUrl("./gleam/intro.md") == "./gleam/intro"
  {
    var p := "./gleam/intro";
    assert '#' !in p;
    assert p + ".md" == "./gleam/intro.md";
    assert StartsWith(p + ".md", "./");
    RelativePageLosesMd(p);
  }

  /** A `../` example target with an anchor keeps the anchor. */
  lemma ExampleAnchorTarget()
    ensures RewriteUrl("../uncategorized/notes.md#setup") == "../uncategorized/notes#setup"
  {
    var p := "../uncategorized/notes";
    assert '#' !in p;
    assert p + ".md#" + "setup" == "../uncategorized/notes.md#setup";
    assert StartsWith(p + ".md#" + "setup", "../");
    assert p + "#" + "setup" == "../uncategorized/notes#setup";
    RelativeAnchorKeepsFragment(p, "setup");
  }

  /** A bare file name, with neither prefix nor scheme, is relative. */
  lemma ExampleBareTarget()
    ensures RewriteUrl("guide.md") == "guide"
  {
    assert ':' !in "guide.md";
    NoColonNoScheme("guide.md");
    assert "guide" + ".md" == "guide.md";
    RelativePageLosesMd("guide");
  }

  /** An absolute example target ending in `.md` is kept. */
  lemma ExampleAbsoluteTarget()
    ensures RewriteUrl("https://example.com/page.md") == "https://example.com/page.md"
  {
    var page := "https://example.com/page.md";
    assert page[0] == 'h';
    assert page[5] == ':' && page[6] == '/' && page[7] == '/';
    SchemeAt(page, 5);
    AbsoluteUrlUnchanged(page, 5);
  }

  /** Example targets where `.md` is followed by neither the end nor `#`. */
  lemma ExampleInnerMdTargets()
    ensures RewriteUrl("a.mdx") == "a.mdx"
    ensures RewriteUrl("a.md/b") == "a.md/b"
  {
  }

  /** An example target without `.md` at all. */
  lemma ExampleNoMdTarget()
    ensures RewriteUrl("image.png") == "image.png"
  {
  }

  // ---------------------------------------------------------------------
  // Idempotence: it does not hold in general
  // ---------------------------------------------------------------------

  /** `s` ends in `.md`. */
  predicate EndsWithMd(s: string) {
    |s| >= 3 && s[|s| - 3] == '.' && s[|s| - 2] == 'm' && s[|s| - 1] == 'd'
  }

  /** A second application strips nothing: the text before the leftmost
      match does not itself end in `.md`, and no later match exists. */
  ghost predicate StripStable(url: string) {
    forall i :: Leftmost(url, i) ==>
      !EndsWithMd(url[..i]) && forall j :: i < j ==> !MatchesAt(url, j)
  }

  /** Where the pattern matches once the leftmost match at `i` is gone:
      just before the join when the text before it ends in `.md`, and
      wherever it matched after the deleted characters. */
  lemma MatchAfterStrip(url: string, i: int, j: int)
    requires Leftmost(url, i)
    ensures MatchesAt(DeleteAt(url, i), j) <==>
            (j == i - 3 && EndsWithMd(url[..i])) || (i <= j && MatchesAt(url, j + 3))
  {
    var r := DeleteAt(url, i);
    if 0 <= j && j + 3 < i {
      assert !MatchesAt(url, j);
    } else if 0 <= j && j + 3 == i {
      assert url[..i][i - 3] == url[j] && url[..i][i - 2] == url[j + 1] && url[..i][i - 1] == url[j + 2];
    }
  }

  /** A string is left as it is by `StripMd` exactly when it has no match. */
  lemma StripMdFixedIff(s: string)
    ensures StripMd(s) == s <==> forall j :: !MatchesAt(s, j)
  {
  }

  /** A stable `url` has no match left once its leftmost one is deleted. */
  lemma StableLeavesNoMatch(url: string, i: int)
    requires Leftmost(url, i) && StripStable(url)
    ensures forall j :: !MatchesAt(DeleteAt(url, i), j)
  {
    assert !EndsWithMd(url[..i]) && forall j :: i < j ==> !MatchesAt(url, j);
    forall j ensures !MatchesAt(DeleteAt(url, i), j) {
      MatchAfterStrip(url, i, j);
    }
  }

  /** What makes a `url` unstable, read at its leftmost match. */
  lemma UnstableAt(url: string, i: int)
    requires Leftmost(url, i) && !StripStable(url)
    ensures EndsWithMd(url[..i]) || exists j :: i + 3 <= j && MatchesAt(url, j)
  {
  }

  /** An unstable `url` still has a match once its leftmost one is deleted. */
  lemma UnstableLeavesMatch(url: string, i: int)
    requires Leftmost(url, i)
    requires EndsWithMd(url[..i]) || exists j :: i + 3 <= j && MatchesAt(url, j)
    ensures exists j :: MatchesAt(DeleteAt(url, i), j)
  {
    if EndsWithMd(url[..i]) {
      MatchAfterStrip(url, i, i - 3);
      assert MatchesAt(DeleteAt(url, i), i - 3);
    } else {
      var j :| i + 3 <= j && MatchesAt(url, j);
      MatchAfterStrip(url, i, j - 3);
      assert MatchesAt(DeleteAt(url, i), j - 3);
    }
  }

  /** Stripping twice equals stripping once exactly when the input is
      stable in the sense above. */
  lemma StripMdIdempotentIff(url: string)
    ensures StripMd(StripMd(url)) == StripMd(url) <==> StripStable(url)
  {
    StripMdFixedIff(StripMd(url));
    match FindMatch(url)
    case None =>
    case Some(i) =>
      if StripStable(url) {
        StableLeavesNoMatch(url, i);
      } else {
        UnstableAt(url, i);
        UnstableLeavesMatch(url, i);
      }
  }

  /** Deleting the leftmost match keeps a `./` prefix: the match cannot
      start at index 0 or 1. */
  lemma StripKeepsDotSlash(url: string, i: int)
    requires Leftmost(url, i) && StartsWith(url, "./")
    ensures StartsWith(DeleteAt(url, i), "./")
  {
  }

  /** Deleting the leftmost match keeps a `../` prefix: the match cannot
      start at index 0, 1 or 2. */
  lemma StripKeepsDotDotSlash(url: string, i: int)
    requires Leftmost(url, i) && StartsWith(url, "../")
    ensures StartsWith(DeleteAt(url, i), "../")
  {
  }

  /** Deleting the leftmost match creates no `://`: the character after
      the deleted `.md` is `#` or nothing. */
  lemma StripAddsNoScheme(url: string, i: int, j: int)
    requires Leftmost(url, i) && OccursAt(DeleteAt(url, i), "://", j)
    ensures exists k :: OccursAt(url, "://", k)
  {
    var r := DeleteAt(url, i);
    SchemeAt(r, j);
    if i < |r| {
      assert r[i] == '#';
    }
    if j + 3 <= i {
      SchemeAt(url, j);
    } else {
      SchemeAt(url, j + 3);
    }
  }

  /** Stripping never turns a relative target into an absolute one. */
  lemma StripMdKeepsRelative(url: string)
    requires IsRelative(url)
    ensures IsRelative(StripMd(url))
  {
    match FindMatch(url)
    case None =>
    case Some(i) =>
      if StartsWith(url, "./") {
        StripKeepsDotSlash(url, i);
      } else if StartsWith(url, "../") {
        StripKeepsDotDotSlash(url, i);
      } else {
        var r := DeleteAt(url, i);
        forall j | OccursAt(r, "://", j) ensures false {
          StripAddsNoScheme(url, i, j);
        }
      }
  }

  /** Rewriting twice equals rewriting once exactly for absolute targets
      and for stable relative ones. */
  lemma RewriteUrlIdempotentIff(url: string)
    ensures RewriteUrl(RewriteUrl(url)) == RewriteUrl(url) <==> !IsRelative(url) || StripStable(url)
  {
    if IsRelative(url) {
      StripMdKeepsRelative(url);
      StripMdIdempotentIff(url);
    }
  }

  /** A doubled extension loses one `.md` per pass. */
  lemma DoubledExtensionNotIdempotent()
    ensures RewriteUrl("x.md.md") == "x.md" && RewriteUrl("x.md") == "x"
  {
    assert ':' !in "x.md.md" && ':' !in "x.md";
    NoColonNoScheme("x.md.md");
    NoColonNoScheme("x.md");
    assert "x.md" + ".md" == "x.md.md";
    assert "x" + ".md" == "x.md";
    RelativePageLosesMd("x.md");
    RelativePageLosesMd("x");
  }

  /** A fragment that itself ends in `.md` loses it on the second pass. */
  lemma MdFragmentNotIdempotent()
    ensures RewriteUrl("a.md#b.md") == "a#b.md" && RewriteUrl("a#b.md") == "a#b"
  {
    FirstPassOnFragment();
    SecondPassOnFragment();
  }

  /** The first pass over `a.md#b.md` strips the `.md` of the path only. */
  lemma FirstPassOnFragment()
    ensures RewriteUrl("a.md#b.md") == "a#b.md"
  {
    var s := "a.md#b.md";
    assert ':' !in s;
    NoColonNoScheme(s);
    assert "a" + ".md#" + "b.md" == s;
    assert "a" + "#" + "b.md" == "a#b.md";
    RelativeAnchorKeepsFragment("a", "b.md");
  }

  /** The second pass over `a#b.md` strips the `.md` of the fragment. */
  lemma SecondPassOnFragment()
    ensures RewriteUrl("a#b.md") == "a#b"
  {
    var s := "a#b.md";
    assert ':' !in s;
    NoColonNoScheme(s);
    assert MatchesAt(s, 3);
    assert Leftmost(s, 3);
    assert DeleteAt(s, 3) == "a#b";
  }
}
