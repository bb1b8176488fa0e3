/**
 * The per-file link engine, `MDFile`: it reads one Markdown file, blanks its
 * fenced code blocks, runs the relative, absolute and internal scans through
 * one cache of literals, collects the file's headings, and later judges
 * every link it found and reports the links and the invalid ones.
 */
module MarkdownFiles {
  import opened TextUtil
  import opened Positions
  import opened Paths
  import opened CodeFences
  import opened Scanners
  import opened Claims
  import opened Fragments
  import opened Validation

  /** Each link was built from the claim at the same place, positioned in `content`. */
  predicate Realizes(links: seq<Link>, claims: seq<Claim>, content: string)
  {
    |links| == |claims| && forall k :: 0 <= k < |links| ==> BuiltFrom(links[k], claims[k], content)
  }

  /** `new Link(c.text, c.offset, content)` made this link. */
  predicate BuiltFrom(l: Link, c: Claim, content: string)
  {
    l.link == c.text && l.position == PositionOf(content, c.offset)
  }

  lemma RealizesSnoc(links: seq<Link>, claims: seq<Claim>, l: Link, c: Claim, content: string)
    requires Realizes(links, claims, content) && BuiltFrom(l, c, content)
    ensures Realizes(links + [l], claims + [c], content)
  {
    assert forall k :: 0 <= k < |links| ==> (links + [l])[k] == links[k] && (claims + [c])[k] == claims[k];
  }

  /** No two of these links hold the same literal. */
  predicate UniqueLiterals(links: seq<Link>)
  {
    forall k, l :: 0 <= k < l < |links| ==> links[k].link != links[l].link
  }

  /** No literal is held by a link of both sequences. */
  predicate ApartLiterals(xs: seq<Link>, ys: seq<Link>)
  {
    forall k, l :: 0 <= k < |xs| && 0 <= l < |ys| ==> xs[k].link != ys[l].link
  }

  /** Links apart in their literals are different objects. */
  lemma ApartNotIn(xs: seq<Link>, ys: seq<Link>)
    requires ApartLiterals(xs, ys)
    ensures forall l :: l in xs ==> l !in ys
  {
    forall l | l in xs ensures l !in ys {
      var k :| 0 <= k < |xs| && xs[k] == l;
      assert forall j :: 0 <= j < |ys| ==> ys[j].link != l.link;
    }
  }

  /**
   * The relative, absolute and internal scans, sharing one cache in this
   * order, never make two links with one literal.
   */
  lemma ScannedLiteralsUnique(r: seq<Claim>, a: seq<Claim>, i: seq<Claim>, rl: seq<Link>, al: seq<Link>, il: seq<Link>, content: string)
    requires Realizes(rl, Claimed({}, r), content)
    requires Realizes(al, Claimed(Texts(r), a), content)
    requires Realizes(il, Claimed(Texts(r) + Texts(a), i), content)
    ensures UniqueLiterals(rl) && UniqueLiterals(al) && UniqueLiterals(il)
    ensures ApartLiterals(rl, al) && ApartLiterals(rl, il) && ApartLiterals(al, il)
  {
    var cr, ca, ci := Claimed({}, r), Claimed(Texts(r), a), Claimed(Texts(r) + Texts(a), i);
    ClaimedFresh({}, r);
    ClaimedFresh(Texts(r), a);
    ClaimedFresh(Texts(r) + Texts(a), i);
    assert forall k :: 0 <= k < |rl| ==> rl[k].link == cr[k].text && cr[k].text in Texts(r);
    assert forall k :: 0 <= k < |al| ==> al[k].link == ca[k].text && ca[k].text in Texts(a) && ca[k].text !in Texts(r);
    assert forall k :: 0 <= k < |il| ==> il[k].link == ci[k].text && ci[k].text !in Texts(r) + Texts(a);
  }

  /**
   * `readFileSync`, `stripCodeBlocks`, then the hits of the relative,
   * absolute and internal patterns over the stripped text, computed once.
   */
  method ReadAndScan(fs: FileSystem, path: string, patterns: Patterns, allowOtherExtensions: bool)
    returns (text: string, stripped: string, r: seq<Claim>, a: seq<Claim>, i: seq<Claim>)
    requires Lookup(fs, path).Some? && Lookup(fs, path).value.File?
    requires forall text :: SoundOn(patterns, text)
    ensures Lookup(fs, path) == Some(File(text)) && stripped == StripCodeBlocks(text)
    ensures r == RelativeScan(patterns, allowOtherExtensions, stripped)
    ensures a == AbsoluteScan(patterns, stripped) && i == InternalScan(stripped)
    ensures Buildable(stripped, r) && Buildable(stripped, a) && Buildable(stripped, i)
  {
    text := Lookup(fs, path).value.content;
    stripped := StripCodeBlocks(text);
    ScansBuildable(patterns, allowOtherExtensions, stripped);
    r, a, i := RelativeScan(patterns, allowOtherExtensions, stripped), AbsoluteScan(patterns, stripped), InternalScan(stripped);
  }

  /** Links with distinct literals are distinct objects. */
  lemma OtherObjects(links: seq<Link>, j: nat)
    requires UniqueLiterals(links) && j < |links|
    ensures forall k :: 0 <= k < |links| && k != j ==> links[k] != links[j]
  {
  }

  /** A link holds this verdict. */
  predicate Judged(l: Link, v: Verdict)
    reads l
  {
    l.isValid == Some(v.isValid) && l.statusCode == Some(v.statusCode)
  }

  /** `[...links].filter((link) => !link.isValid)`: undefined counts as not valid. */
  function Invalid(links: seq<Link>): (r: seq<Link>)
    reads set l | l in links
    ensures forall k :: 0 <= k < |r| ==> r[k] in links && r[k].isValid != Some(true)
    ensures forall k :: 0 <= k < |links| && links[k].isValid != Some(true) ==> links[k] in r
    ensures |r| <= |links|
  {
    if links == [] then []
    else
      var rest := Invalid(links[1..]);
      assert forall k :: 1 <= k < |links| ==> links[k] == links[1..][k - 1];
      if links[0].isValid != Some(true) then [links[0]] + rest else rest
  }

  /**
   * The loop body every scan shares: a claim whose literal is cached is
   * skipped, any other caches its literal and becomes a new `Link`.
   */
  method ClaimAll(cache: set<string>, cs: seq<Claim>, content: string) returns (links: seq<Link>, newCache: set<string>)
    requires Buildable(content, cs)
    ensures Realizes(links, Claimed(cache, cs), content)
    ensures newCache == cache + Texts(cs)
  {
    links, newCache := [], cache;
    ghost var kept: seq<Claim> := [];
    var i := 0;
    while i < |cs|
      invariant 0 <= i <= |cs|
      invariant newCache == cache + Texts(cs[..i])
      invariant kept == Claimed(cache, cs[..i])
      invariant Realizes(links, kept, content)
    {
      var c := cs[i];
      assert cs[..i + 1] == cs[..i] + [c];
      ClaimedSnoc(cache, cs[..i], c);
      if c.text !in newCache {
        var l := new Link(c.text, c.offset, content);
        RealizesSnoc(links, kept, l, c, content);
        links := links + [l];
        kept := kept + [c];
      }
      newCache := newCache + {c.text};
      i := i + 1;
    }
    assert cs[..i] == cs;
  }

  class MDFile {
    const directory: string
    const relativePath: string
    const path: string
    const ignorePatterns: seq<string -> bool>
    const ignoreStatusCodes: seq<int>
    const optionalMdExtension: bool
    const allowOtherExtensions: bool
    const noEmptyFiles: bool
    const patterns: Patterns
    const slug: string -> string
    const originalContent: string
    const content: string
    /** The hits of the relative, absolute and internal patterns over `content`, in scan order. */
    const relativeScan: seq<Claim>
    const absoluteScan: seq<Claim>
    const internalScan: seq<Claim>
    var cache: set<string>
    var relativeLinks: seq<Link>
    var absoluteLinks: seq<Link>
    var internalLinks: seq<Link>
    var titles: set<string>
    var normalizedTitles: set<string>
    var invalidLinksMemo: Option<seq<Link>>
    var linksMemo: Option<seq<Link>>

    function Options(): RelativeOptions
    {
      RelativeOptions(optionalMdExtension, allowOtherExtensions, noEmptyFiles)
    }

    /**
     * What the constructor's scans establish and validation keeps: the links
     * and the cache the relative, absolute and internal scans leave over
     * `content`, and its headings.
     */
    ghost predicate Valid()
      reads this`cache, this`relativeLinks, this`absoluteLinks, this`internalLinks, this`titles, this`normalizedTitles
    {
      var r, a, i := relativeScan, absoluteScan, internalScan;
      && Realizes(relativeLinks, Claimed({}, r), content)
      && Realizes(absoluteLinks, Claimed(Texts(r), a), content)
      && Realizes(internalLinks, Claimed(Texts(r) + Texts(a), i), content)
      && cache == Texts(r) + Texts(a) + Texts(i)
      && titles == TitleSet(content)
      && normalizedTitles == NormalizedTitles(content, slug)
    }

    /**
     * Reads the file at `directory` joined with `relativePath`, strips its
     * code blocks, then runs the relative, absolute and internal scans and
     * collects the headings.
     */
    constructor (fs: FileSystem, directory: string, relativePath: string, ignorePatterns: seq<string -> bool>,
                 ignoreStatusCodes: seq<int>, optionalMdExtension: bool, allowOtherExtensions: bool, noEmptyFiles: bool,
                 patterns: Patterns, slug: string -> string)
      requires Lookup(fs, Join(directory, relativePath)).Some? && Lookup(fs, Join(directory, relativePath)).value.File?
      requires forall text :: SoundOn(patterns, text)
      ensures Valid() && Separate()
      ensures path == Join(directory, relativePath) && Lookup(fs, path) == Some(File(originalContent))
      ensures content == StripCodeBlocks(originalContent)
      ensures relativeScan == RelativeScan(patterns, allowOtherExtensions, content)
      ensures absoluteScan == AbsoluteScan(patterns, content) && internalScan == InternalScan(content)
      ensures this.directory == directory && this.relativePath == relativePath
      ensures this.ignorePatterns == ignorePatterns && this.ignoreStatusCodes == ignoreStatusCodes
      ensures this.optionalMdExtension == optionalMdExtension && this.allowOtherExtensions == allowOtherExtensions
      ensures this.noEmptyFiles == noEmptyFiles && this.patterns == patterns && this.slug == slug
      ensures invalidLinksMemo == None && linksMemo == None
    {
      this.directory := directory;
      this.relativePath := relativePath;
      var joined := Join(directory, relativePath);
      path := joined;
      this.ignorePatterns := ignorePatterns;
      this.ignoreStatusCodes := ignoreStatusCodes;
      this.optionalMdExtension := optionalMdExtension;
      this.allowOtherExtensions := allowOtherExtensions;
      this.noEmptyFiles := noEmptyFiles;
      this.patterns := patterns;
      this.slug := slug;
      var text, stripped, r, a, i := ReadAndScan(fs, joined, patterns, allowOtherExtensions);
      originalContent := text;
      content := stripped;
      relativeScan, absoluteScan, internalScan := r, a, i;
      cache := {};
      relativeLinks, absoluteLinks, internalLinks := [], [], [];
      titles, normalizedTitles := {}, {};
      new;
      ScanContent();
    }

    /** The constructor's scans, in their order, over the stripped text. */
    method ScanContent()
      requires cache == {} && relativeLinks == [] && absoluteLinks == [] && internalLinks == []
      requires titles == {} && normalizedTitles == {}
      requires Buildable(content, relativeScan) && Buildable(content, absoluteScan) && Buildable(content, internalScan)
      modifies this`cache, this`relativeLinks, this`absoluteLinks, this`internalLinks, this`titles, this`normalizedTitles
      modifies this`invalidLinksMemo, this`linksMemo
      ensures Valid() && Separate()
      ensures invalidLinksMemo == None && linksMemo == None
    {
      invalidLinksMemo, linksMemo := None, None;
      ghost var r, a, i := relativeScan, absoluteScan, internalScan;
      GetRelativeLinks();
      assert cache == Texts(r);
      GetAbsoluteLinks();
      assert cache == Texts(r) + Texts(a);
      GetInternalLinks();
      assert cache == Texts(r) + Texts(a) + Texts(i);
      GetTitles();
      assert titles == TitleSet(content) && normalizedTitles == NormalizedTitles(content, slug);
      ScannedLiteralsUnique(relativeScan, absoluteScan, internalScan, relativeLinks, absoluteLinks, internalLinks, content);
    }

    method GetRelativeLinks()
      requires cache == {} && relativeLinks == []
      requires Buildable(content, relativeScan)
      modifies this`cache, this`relativeLinks
      ensures Realizes(relativeLinks, Claimed({}, relativeScan), content)
      ensures cache == Texts(relativeScan)
    {
      var added, newCache := ClaimAll(cache, relativeScan, content);
      relativeLinks, cache := added, newCache;
    }

    method GetAbsoluteLinks()
      requires absoluteLinks == []
      requires Buildable(content, absoluteScan)
      modifies this`cache, this`absoluteLinks
      ensures Realizes(absoluteLinks, Claimed(old(cache), absoluteScan), content)
      ensures cache == old(cache) + Texts(absoluteScan)
    {
      var added, newCache := ClaimAll(cache, absoluteScan, content);
      absoluteLinks, cache := added, newCache;
    }

    method GetInternalLinks()
      requires internalLinks == []
      requires Buildable(content, internalScan)
      modifies this`cache, this`internalLinks
      ensures Realizes(internalLinks, Claimed(old(cache), internalScan), content)
      ensures cache == old(cache) + Texts(internalScan)
    {
      var added, newCache := ClaimAll(cache, internalScan, content);
      internalLinks, cache := added, newCache;
    }

    method GetTitles()
      modifies this`titles, this`normalizedTitles
      ensures titles == old(titles) + TitleSet(content)
      ensures normalizedTitles == old(normalizedTitles) + NormalizedTitles(content, slug)
    {
      var found, slugs := ScanTitles(content, slug);
      titles, normalizedTitles := titles + found, normalizedTitles + slugs;
    }

    /** No literal is held by two links, within one scan or across the three. */
    ghost predicate Separate()
      reads this`relativeLinks, this`absoluteLinks, this`internalLinks
    {
      && UniqueLiterals(relativeLinks) && UniqueLiterals(absoluteLinks) && UniqueLiterals(internalLinks)
      && ApartLiterals(relativeLinks, absoluteLinks) && ApartLiterals(relativeLinks, internalLinks)
      && ApartLiterals(absoluteLinks, internalLinks)
    }

    /** The decision for one relative literal of this file. */
    function RelativeOutcomeOf(fs: FileSystem, text: string): Outcome<Verdict>
    {
      RelativeOutcome(fs, ignorePatterns, directory, path, Options(), slug, text)
    }

    /** `validateAbsoluteLinks`: each link takes the verdict of its own URL. */
    method ValidateAbsoluteLinks(oracle: string -> LinkStatus)
      requires UniqueLiterals(absoluteLinks)
      modifies set l | l in absoluteLinks
      ensures forall k :: 0 <= k < |absoluteLinks| ==>
        Judged(absoluteLinks[k], AbsoluteVerdict(ignorePatterns, oracle, absoluteLinks[k].link))
    {
      var links := absoluteLinks;
      var i := 0;
      while i < |links|
        invariant 0 <= i <= |links|
        invariant forall k :: 0 <= k < i ==> Judged(links[k], AbsoluteVerdict(ignorePatterns, oracle, links[k].link))
      {
        var link := links[i];
        OtherObjects(links, i);
        if IgnoreLink(ignorePatterns, link.link) {
          link.SetIsValid(true);
          link.SetStatusCode(200);
        } else {
          var status := oracle(link.link);
          link.SetIsValid(status.isOk);
          link.SetStatusCode(status.statusCode);
        }
        i := i + 1;
      }
    }

    /**
     * `validateRelativeLink`: resolve the target, apply the extension policy,
     * check existence, read the target, then the empty-file policy or the
     * fragment against the target's headings.
     */
    method ValidateRelativeLink(link: Link, fs: FileSystem) returns (outcome: Outcome<Verdict>)
      modifies link
      ensures outcome == RelativeOutcomeOf(fs, link.link)
      ensures outcome.Settled? ==> Judged(link, outcome.value)
      ensures outcome == ReadsDirectory ==> unchanged(link)
    {
      if IgnoreLink(ignorePatterns, link.link) {
        outcome := Settled(Ok);
      } else {
        var fullPath := FullPath(directory, path, link.link);
        var originalFilePath, hash := PathPart(fullPath), HashPart(fullPath);
        var filePath := ResolveTarget(fs, originalFilePath, optionalMdExtension);
        var isMd := Extname(filePath) == ".md";
        var entry := Lookup(fs, filePath);
        if !allowOtherExtensions && !isMd {
          outcome := Settled(NotFound);
        } else if entry.None? {
          outcome := Settled(NotFound);
        } else if allowOtherExtensions && !isMd {
          outcome := Settled(Ok);
        } else if entry.value.Directory? {
          return ReadsDirectory;
        } else {
          var fileContent := entry.value.content;
          if hash == "" {
            outcome := Settled(Verdict(!(noEmptyFiles && fileContent == ""), if fileContent == "" then 204 else 200));
          } else {
            var _, anchors := ScanTitles(fileContent, slug);
            outcome := if hash in anchors then Settled(Ok) else Settled(NotFound);
          }
        }
      }
      link.SetIsValid(outcome.value.isValid);
      link.SetStatusCode(outcome.value.statusCode);
    }

    /**
     * `validateRelativeLinks`: the links in order until one throws. Returns
     * how many were judged; when that is not all of them, the next one read
     * a directory and it and every later link are untouched.
     */
    method ValidateRelativeLinks(fs: FileSystem) returns (judged: nat)
      requires UniqueLiterals(relativeLinks)
      modifies set l | l in relativeLinks
      ensures judged <= |relativeLinks|
      ensures forall k :: 0 <= k < judged ==>
        RelativeOutcomeOf(fs, relativeLinks[k].link).Settled? &&
        Judged(relativeLinks[k], RelativeOutcomeOf(fs, relativeLinks[k].link).value)
      ensures judged < |relativeLinks| ==> RelativeOutcomeOf(fs, relativeLinks[judged].link) == ReadsDirectory
      ensures forall k :: judged <= k < |relativeLinks| ==>
        relativeLinks[k].isValid == old(relativeLinks[k].isValid) && relativeLinks[k].statusCode == old(relativeLinks[k].statusCode)
    {
      var links := relativeLinks;
      judged := 0;
      while judged < |links|
        invariant judged <= |links|
        invariant forall k :: 0 <= k < judged ==>
          RelativeOutcomeOf(fs, links[k].link).Settled? &&
          Judged(links[k], RelativeOutcomeOf(fs, links[k].link).value)
        invariant forall k :: judged <= k < |links| ==>
          links[k].isValid == old(links[k].isValid) && links[k].statusCode == old(links[k].statusCode)
      {
        var link := links[judged];
        OtherObjects(links, judged);
        var outcome := ValidateRelativeLink(link, fs);
        if outcome == ReadsDirectory {
          return;
        }
        judged := judged + 1;
      }
    }

    /** `validateInternalLink`: the fragment without its `#` must be one of this file's anchors. */
    method ValidateInternalLinks()
      requires UniqueLiterals(internalLinks)
      modifies set l | l in internalLinks
      ensures forall k :: 0 <= k < |internalLinks| ==>
        Judged(internalLinks[k], InternalVerdict(ignorePatterns, normalizedTitles, internalLinks[k].link))
    {
      var links := internalLinks;
      var i := 0;
      while i < |links|
        invariant 0 <= i <= |links|
        invariant forall k :: 0 <= k < i ==> Judged(links[k], InternalVerdict(ignorePatterns, normalizedTitles, links[k].link))
      {
        var link := links[i];
        OtherObjects(links, i);
        if IgnoreLink(ignorePatterns, link.link) || DropFirst(link.link) in normalizedTitles {
          link.SetIsValid(true);
          link.SetStatusCode(200);
        } else {
          link.SetIsValid(false);
          link.SetStatusCode(404);
        }
        i := i + 1;
      }
    }

    /**
     * `validateLinks`: absolute links first, then relative, then internal.
     * When a relative link throws, the internal links are never judged.
     */
    method ValidateLinks(fs: FileSystem, oracle: string -> LinkStatus) returns (judged: nat)
      requires Separate()
      modifies set l | l in relativeLinks + absoluteLinks + internalLinks
      ensures forall k :: 0 <= k < |absoluteLinks| ==>
        Judged(absoluteLinks[k], AbsoluteVerdict(ignorePatterns, oracle, absoluteLinks[k].link))
      ensures judged <= |relativeLinks|
      ensures forall k :: 0 <= k < judged ==>
        RelativeOutcomeOf(fs, relativeLinks[k].link).Settled? &&
        Judged(relativeLinks[k], RelativeOutcomeOf(fs, relativeLinks[k].link).value)
      ensures judged < |relativeLinks| ==> RelativeOutcomeOf(fs, relativeLinks[judged].link) == ReadsDirectory
      ensures judged == |relativeLinks| ==> forall k :: 0 <= k < |internalLinks| ==>
        Judged(internalLinks[k], InternalVerdict(ignorePatterns, normalizedTitles, internalLinks[k].link))
      ensures judged < |relativeLinks| ==> forall l :: l in internalLinks ==> unchanged(l)
      ensures forall k :: judged <= k < |relativeLinks| ==>
        relativeLinks[k].isValid == old(relativeLinks[k].isValid) && relativeLinks[k].statusCode == old(relativeLinks[k].statusCode)
    {
      ApartNotIn(absoluteLinks, relativeLinks);
      ApartNotIn(absoluteLinks, internalLinks);
      ApartNotIn(relativeLinks, internalLinks);
      ValidateAbsoluteLinks(oracle);
      judged := ValidateRelativeLinks(fs);
      if judged == |relativeLinks| {
        ValidateInternalLinks();
      }
    }

    /**
     * The `invalidLinks` getter: on first access, the links of the three sets
     * that are not valid, absolute then relative then internal; afterwards
     * the same sequence again.
     */
    method InvalidLinks() returns (r: seq<Link>)
      modifies this`invalidLinksMemo
      ensures old(invalidLinksMemo).Some? ==> r == old(invalidLinksMemo).value
      ensures old(invalidLinksMemo).None? ==> r == Invalid(absoluteLinks) + Invalid(relativeLinks) + Invalid(internalLinks)
      ensures invalidLinksMemo == Some(r)
    {
      if invalidLinksMemo.Some? {
        return invalidLinksMemo.value;
      }
      r := Invalid(absoluteLinks) + Invalid(relativeLinks) + Invalid(internalLinks);
      invalidLinksMemo := Some(r);
    }

    /** The `links` getter: on first access the union of the three sets, afterwards the same sequence again. */
    method Links() returns (r: seq<Link>)
      modifies this`linksMemo
      ensures old(linksMemo).Some? ==> r == old(linksMemo).value
      ensures old(linksMemo).None? ==> r == absoluteLinks + relativeLinks + internalLinks
      ensures linksMemo == Some(r)
    {
      if linksMemo.Some? {
        return linksMemo.value;
      }
      r := absoluteLinks + relativeLinks + internalLinks;
      linksMemo := Some(r);
    }
  }

  /**
   * `new MDFile(...)` with the file read by `readFileSync`: a missing path or
   * a directory makes the constructor throw.
   */
  method Open(fs: FileSystem, directory: string, relativePath: string, ignorePatterns: seq<string -> bool>,
              ignoreStatusCodes: seq<int>, optionalMdExtension: bool, allowOtherExtensions: bool, noEmptyFiles: bool,
              patterns: Patterns, slug: string -> string) returns (r: Result<MDFile, string>)
    requires forall text :: SoundOn(patterns, text)
    ensures Lookup(fs, Join(directory, relativePath)) == None ==> r == Failure("ENOENT")
    ensures Lookup(fs, Join(directory, relativePath)) == Some(Directory) ==> r == Failure("EISDIR")
    ensures r.Success? ==> fresh(r.value) && r.value.Valid() && r.value.Separate() && r.value.path == Join(directory, relativePath)
    ensures r.Success? <==> Lookup(fs, Join(directory, relativePath)).Some? && Lookup(fs, Join(directory, relativePath)).value.File?
  {
    var entry := Lookup(fs, Join(directory, relativePath));
    if entry.None? {
      return Failure("ENOENT");
    }
    if entry.value.Directory? {
      return Failure("EISDIR");
    }
    var f := new MDFile(fs, directory, relativePath, ignorePatterns, ignoreStatusCodes,
                        optionalMdExtension, allowOtherExtensions, noEmptyFiles, patterns, slug);
    return Success(f);
  }
}
