/**
 * The older per-file engine of `src/lib/mdfile.ts`. It scans the file text
 * as read (code blocks are not blanked), has no image option, no standalone
 * URL pattern and no empty-file policy, and its validation only sets each
 * link's validity flag; the status code stays undefined.
 */
module LegacyMarkdownFiles {
  import opened TextUtil
  import opened Paths
  import opened Scanners
  import opened Claims
  import opened Fragments
  import opened Validation
  import opened MarkdownFiles

  /**
   * `readFileSync`, then the hits of the two hand-written link patterns and
   * of the internal pattern over the text, computed once.
   */
  method ReadAndScanLegacy(fs: FileSystem, path: string, patterns: LegacyPatterns)
    returns (text: string, r: seq<Claim>, a: seq<Claim>, i: seq<Claim>)
    requires Lookup(fs, path).Some? && Lookup(fs, path).value.File?
    requires forall text :: LegacySoundOn(patterns, text)
    ensures Lookup(fs, path) == Some(File(text))
    ensures r == RelativeClaims(patterns.relative(text)) && a == AbsoluteClaims(patterns.absolute(text))
    ensures i == InternalScan(text)
    ensures Buildable(text, r) && Buildable(text, a) && Buildable(text, i)
  {
    text := Lookup(fs, path).value.content;
    LegacyScansBuildable(patterns, text);
    InternalScanBuildable(text);
    r, a, i := RelativeClaims(patterns.relative(text)), AbsoluteClaims(patterns.absolute(text)), InternalScan(text);
  }

  class LegacyMDFile {
    const directory: string
    const relativePath: string
    const path: string
    const ignorePatterns: seq<string -> bool>
    const optionalMdExtension: bool
    const patterns: LegacyPatterns
    const slug: string -> string
    const content: string
    /** The hits of the relative, absolute and internal patterns over `content`, in scan order. */
    const relativeScan: seq<Claim>
    const absoluteScan: seq<Claim>
    const internalScan: seq<Claim>
    var cache: set<string>
    var relativeLinks: seq<Link>
    var absoluteLinks: seq<Link>
    var internalLinks: seq<Link>
    var titles: set<string>
    var normalizedTitles: set<string>
    var invalidLinksMemo: Option<seq<Link>>
    var linksMemo: Option<seq<Link>>

    /** The links and the cache the three scans leave over `content`, and its headings. */
    ghost predicate Valid()
      reads this`cache, this`relativeLinks, this`absoluteLinks, this`internalLinks, this`titles, this`normalizedTitles
    {
      var r, a, i := relativeScan, absoluteScan, internalScan;
      && Realizes(relativeLinks, Claimed({}, r), content)
      && Realizes(absoluteLinks, Claimed(Texts(r), a), content)
      && Realizes(internalLinks, Claimed(Texts(r) + Texts(a), i), content)
      && cache == Texts(r) + Texts(a) + Texts(i)
      && titles == TitleSet(content)
      && normalizedTitles == NormalizedTitles(content, slug)
    }

    /** No literal is held by two links, within one scan or across the three. */
    ghost predicate Separate()
      reads this`relativeLinks, this`absoluteLinks, this`internalLinks
    {
      && UniqueLiterals(relativeLinks) && UniqueLiterals(absoluteLinks) && UniqueLiterals(internalLinks)
      && ApartLiterals(relativeLinks, absoluteLinks) && ApartLiterals(relativeLinks, internalLinks)
      && ApartLiterals(absoluteLinks, internalLinks)
    }

    /**
     * Reads the file at `directory` joined with `relativePath`, then runs the
     * relative, absolute and internal scans on its text and collects the
     * headings.
     */
    constructor (fs: FileSystem, directory: string, relativePath: string, ignorePatterns: seq<string -> bool>,
                 optionalMdExtension: bool, patterns: LegacyPatterns, slug: string -> string)
      requires Lookup(fs, Join(directory, relativePath)).Some? && Lookup(fs, Join(directory, relativePath)).value.File?
      requires forall text :: LegacySoundOn(patterns, text)
      ensures Valid() && Separate()
      ensures path == Join(directory, relativePath) && Lookup(fs, path) == Some(File(content))
      ensures relativeScan == RelativeClaims(patterns.relative(content))
      ensures absoluteScan == AbsoluteClaims(patterns.absolute(content)) && internalScan == InternalScan(content)
      ensures this.directory == directory && this.relativePath == relativePath
      ensures this.ignorePatterns == ignorePatterns && this.optionalMdExtension == optionalMdExtension
      ensures this.patterns == patterns && this.slug == slug
      ensures invalidLinksMemo == None && linksMemo == None
    {
      this.directory := directory;
      this.relativePath := relativePath;
      var joined := Join(directory, relativePath);
      path := joined;
      this.ignorePatterns := ignorePatterns;
      this.optionalMdExtension := optionalMdExtension;
      this.patterns := patterns;
      this.slug := slug;
      var text, r, a, i := ReadAndScanLegacy(fs, joined, patterns);
      content := text;
      relativeScan, absoluteScan, internalScan := r, a, i;
      cache := {};
      relativeLinks, absoluteLinks, internalLinks := [], [], [];
      titles, normalizedTitles := {}, {};
      new;
      ScanContent();
    }

    /** The constructor's scans, in their order; the memoised getters start empty. */
    method ScanContent()
      requires cache == {} && relativeLinks == [] && absoluteLinks == [] && internalLinks == []
      requires titles == {} && normalizedTitles == {}
      requires Buildable(content, relativeScan) && Buildable(content, absoluteScan) && Buildable(content, internalScan)
      modifies this`cache, this`relativeLinks, this`absoluteLinks, this`internalLinks, this`titles, this`normalizedTitles
      modifies this`invalidLinksMemo, this`linksMemo
      ensures Valid() && Separate()
      ensures invalidLinksMemo == None && linksMemo == None
    {
      invalidLinksMemo, linksMemo := None, None;
      ghost var r, a, i := relativeScan, absoluteScan, internalScan;
      GetRelativeLinks();
      assert cache == Texts(r);
      GetAbsoluteLinks();
      assert cache == Texts(r) + Texts(a);
      GetInternalLinks();
      assert cache == Texts(r) + Texts(a) + Texts(i);
      GetTitles();
      assert titles == TitleSet(content) && normalizedTitles == NormalizedTitles(content, slug);
      ScannedLiteralsUnique(relativeScan, absoluteScan, internalScan, relativeLinks, absoluteLinks, internalLinks, content);
    }

    method GetRelativeLinks()
      requires cache == {} && relativeLinks == []
      requires Buildable(content, relativeScan)
      modifies this`cache, this`relativeLinks
      ensures Realizes(relativeLinks, Claimed({}, relativeScan), content)
      ensures cache == Texts(relativeScan)
    {
      var added, newCache := ClaimAll(cache, relativeScan, content);
      relativeLinks, cache := added, newCache;
    }

    method GetAbsoluteLinks()
      requires absoluteLinks == []
      requires Buildable(content, absoluteScan)
      modifies this`cache, this`absoluteLinks
      ensures Realizes(absoluteLinks, Claimed(old(cache), absoluteScan), content)
      ensures cache == old(cache) + Texts(absoluteScan)
    {
      var added, newCache := ClaimAll(cache, absoluteScan, content);
      absoluteLinks, cache := added, newCache;
    }

    method GetInternalLinks()
      requires internalLinks == []
      requires Buildable(content, internalScan)
      modifies this`cache, this`internalLinks
      ensures Realizes(internalLinks, Claimed(old(cache), internalScan), content)
      ensures cache == old(cache) + Texts(internalScan)
    {
      var added, newCache := ClaimAll(cache, internalScan, content);
      internalLinks, cache := added, newCache;
    }

    method GetTitles()
      modifies this`titles, this`normalizedTitles
      ensures titles == old(titles) + TitleSet(content)
      ensures normalizedTitles == old(normalizedTitles) + NormalizedTitles(content, slug)
    {
      var found, slugs := ScanTitles(content, slug);
      titles, normalizedTitles := titles + found, normalizedTitles + slugs;
    }

    /** The decision for one relative literal of this file. */
    function RelativeOutcomeOf(fs: FileSystem, text: string): Outcome<bool>
    {
      LegacyRelativeOutcome(fs, ignorePatterns, directory, path, optionalMdExtension, slug, text)
    }

    /** `validateAbsoluteLinks`: an ignored URL is valid, any other takes the oracle's answer. */
    method ValidateAbsoluteLinks(oracle: string -> bool)
      requires UniqueLiterals(absoluteLinks)
      modifies set l | l in absoluteLinks
      ensures forall k :: 0 <= k < |absoluteLinks| ==>
        absoluteLinks[k].isValid == Some(LegacyAbsoluteValid(ignorePatterns, oracle, absoluteLinks[k].link))
      ensures forall k :: 0 <= k < |absoluteLinks| ==> absoluteLinks[k].statusCode == old(absoluteLinks[k].statusCode)
    {
      var links := absoluteLinks;
      var i := 0;
      while i < |links|
        invariant 0 <= i <= |links|
        invariant forall k :: 0 <= k < i ==> links[k].isValid == Some(LegacyAbsoluteValid(ignorePatterns, oracle, links[k].link))
        invariant forall k :: 0 <= k < |links| ==> links[k].statusCode == old(links[k].statusCode)
      {
        var link := links[i];
        OtherObjects(links, i);
        if IgnoreLink(ignorePatterns, link.link) {
          link.SetIsValid(true);
        } else {
          var reachable := oracle(link.link);
          link.SetIsValid(reachable);
        }
        i := i + 1;
      }
    }

    /**
     * `validateRelativeLink`: resolve the target, require a `.md` name and an
     * existing entry, then accept it without a fragment or read it and look
     * the fragment up among its anchors.
     */
    method ValidateRelativeLink(link: Link, fs: FileSystem) returns (outcome: Outcome<bool>)
      modifies link`isValid
      ensures outcome == RelativeOutcomeOf(fs, link.link)
      ensures outcome.Settled? ==> link.isValid == Some(outcome.value)
      ensures outcome == ReadsDirectory ==> link.isValid == old(link.isValid)
    {
      if IgnoreLink(ignorePatterns, link.link) {
        outcome := Settled(true);
      } else {
        var fullPath := FullPath(directory, path, link.link);
        var originalFilePath, hash := PathPart(fullPath), HashPart(fullPath);
        var filePath := ResolveTarget(fs, originalFilePath, optionalMdExtension);
        var entry := Lookup(fs, filePath);
        if Extname(filePath) != ".md" {
          outcome := Settled(false);
        } else if entry.None? {
          outcome := Settled(false);
        } else if hash == "" {
          outcome := Settled(true);
        } else if entry.value.Directory? {
          return ReadsDirectory;
        } else {
          var _, anchors := ScanTitles(entry.value.content, slug);
          outcome := Settled(hash in anchors);
        }
      }
      link.SetIsValid(outcome.value);
    }

    /**
     * `validateRelativeLinks`: the links in order until one throws. Returns
     * how many were judged; when that is not all of them, the next one read
     * a directory and it and every later link keep their flag.
     */
    method ValidateRelativeLinks(fs: FileSystem) returns (judged: nat)
      requires UniqueLiterals(relativeLinks)
      modifies set l | l in relativeLinks
      ensures judged <= |relativeLinks|
      ensures forall k :: 0 <= k < judged ==>
        RelativeOutcomeOf(fs, relativeLinks[k].link).Settled? &&
        relativeLinks[k].isValid == Some(RelativeOutcomeOf(fs, relativeLinks[k].link).value)
      ensures judged < |relativeLinks| ==> RelativeOutcomeOf(fs, relativeLinks[judged].link) == ReadsDirectory
      ensures forall k :: judged <= k < |relativeLinks| ==> relativeLinks[k].isValid == old(relativeLinks[k].isValid)
      ensures forall k :: 0 <= k < |relativeLinks| ==> relativeLinks[k].statusCode == old(relativeLinks[k].statusCode)
    {
      var links := relativeLinks;
      judged := 0;
      while judged < |links|
        invariant judged <= |links|
        invariant forall k :: 0 <= k < judged ==>
          RelativeOutcomeOf(fs, links[k].link).Settled? &&
          links[k].isValid == Some(RelativeOutcomeOf(fs, links[k].link).value)
        invariant forall k :: judged <= k < |links| ==> links[k].isValid == old(links[k].isValid)
        invariant forall k :: 0 <= k < |links| ==> links[k].statusCode == old(links[k].statusCode)
      {
        var link := links[judged];
        OtherObjects(links, judged);
        var outcome := ValidateRelativeLink(link, fs);
        if outcome == ReadsDirectory {
          return;
        }
        judged := judged + 1;
      }
    }

    /** `validateInternalLinks`: valid when ignored or when the fragment without `#` is an anchor here. */
    method ValidateInternalLinks()
      requires UniqueLiterals(internalLinks)
      modifies set l | l in internalLinks
      ensures forall k :: 0 <= k < |internalLinks| ==>
        internalLinks[k].isValid == Some(LegacyInternalValid(ignorePatterns, normalizedTitles, internalLinks[k].link))
      ensures forall k :: 0 <= k < |internalLinks| ==> internalLinks[k].statusCode == old(internalLinks[k].statusCode)
    {
      var links := internalLinks;
      var i := 0;
      while i < |links|
        invariant 0 <= i <= |links|
        invariant forall k :: 0 <= k < i ==>
          links[k].isValid == Some(LegacyInternalValid(ignorePatterns, normalizedTitles, links[k].link))
        invariant forall k :: 0 <= k < |links| ==> links[k].statusCode == old(links[k].statusCode)
      {
        var link := links[i];
        OtherObjects(links, i);
        if IgnoreLink(ignorePatterns, link.link) {
          link.SetIsValid(true);
        } else if DropFirst(link.link) in normalizedTitles {
          link.SetIsValid(true);
        } else {
          link.SetIsValid(false);
        }
        i := i + 1;
      }
    }

    /**
     * `validateLinks`: absolute links first, then relative, then internal.
     * When a relative link throws, the internal links are never judged.
     */
    method ValidateLinks(fs: FileSystem, oracle: string -> bool) returns (judged: nat)
      requires Separate()
      modifies set l | l in relativeLinks + absoluteLinks + internalLinks
      ensures forall k :: 0 <= k < |absoluteLinks| ==>
        absoluteLinks[k].isValid == Some(LegacyAbsoluteValid(ignorePatterns, oracle, absoluteLinks[k].link))
      ensures judged <= |relativeLinks|
      ensures forall k :: 0 <= k < judged ==>
        RelativeOutcomeOf(fs, relativeLinks[k].link).Settled? &&
        relativeLinks[k].isValid == Some(RelativeOutcomeOf(fs, relativeLinks[k].link).value)
      ensures judged < |relativeLinks| ==> RelativeOutcomeOf(fs, relativeLinks[judged].link) == ReadsDirectory
      ensures judged == |relativeLinks| ==> forall k :: 0 <= k < |internalLinks| ==>
        internalLinks[k].isValid == Some(LegacyInternalValid(ignorePatterns, normalizedTitles, internalLinks[k].link))
      ensures judged < |relativeLinks| ==> forall l :: l in internalLinks ==> unchanged(l)
      ensures forall k :: judged <= k < |relativeLinks| ==>
        relativeLinks[k].isValid == old(relativeLinks[k].isValid) && relativeLinks[k].statusCode == old(relativeLinks[k].statusCode)
      ensures forall l :: l in relativeLinks + absoluteLinks + internalLinks ==> l.statusCode == old(l.statusCode)
    {
      ApartNotIn(absoluteLinks, relativeLinks);
      ApartNotIn(absoluteLinks, internalLinks);
      ApartNotIn(relativeLinks, internalLinks);
      ValidateAbsoluteLinks(oracle);
      judged := ValidateRelativeLinks(fs);
      if judged == |relativeLinks| {
        ValidateInternalLinks();
      }
    }

    /**
     * The `invalidLinks` getter: on first access, the links of the three sets
     * whose flag is not `true`, absolute then relative then internal;
     * afterwards the same sequence again.
     */
    method InvalidLinks() returns (r: seq<Link>)
      modifies this`invalidLinksMemo
      ensures old(invalidLinksMemo).Some? ==> r == old(invalidLinksMemo).value
      ensures old(invalidLinksMemo).None? ==> r == Invalid(absoluteLinks) + Invalid(relativeLinks) + Invalid(internalLinks)
      ensures invalidLinksMemo == Some(r)
    {
      if invalidLinksMemo.Some? {
        return invalidLinksMemo.value;
      }
      r := Invalid(absoluteLinks) + Invalid(relativeLinks) + Invalid(internalLinks);
      invalidLinksMemo := Some(r);
    }

    /** The `links` getter: on first access the union of the three sets, afterwards the same sequence again. */
    method Links() returns (r: seq<Link>)
      modifies this`linksMemo
      ensures old(linksMemo).Some? ==> r == old(linksMemo).value
      ensures old(linksMemo).None? ==> r == absoluteLinks + relativeLinks + internalLinks
      ensures linksMemo == Some(r)
    {
      if linksMemo.Some? {
        return linksMemo.value;
      }
      r := absoluteLinks + relativeLinks + internalLinks;
      linksMemo := Some(r);
    }
  }

  /**
   * `new MDFile(...)` of the older file with the file read by
   * `readFileSync`: a missing path or a directory makes the constructor throw.
   */
  method OpenLegacy(fs: FileSystem, directory: string, relativePath: string, ignorePatterns: seq<string -> bool>,
                    optionalMdExtension: bool, patterns: LegacyPatterns, slug: string -> string)
    returns (r: Result<LegacyMDFile, string>)
    requires forall text :: LegacySoundOn(patterns, text)
    ensures Lookup(fs, Join(directory, relativePath)) == None ==> r == Failure("ENOENT")
    ensures Lookup(fs, Join(directory, relativePath)) == Some(Directory) ==> r == Failure("EISDIR")
    ensures r.Success? ==> fresh(r.value) && r.value.Valid() && r.value.Separate() && r.value.path == Join(directory, relativePath)
    ensures r.Success? <==> Lookup(fs, Join(directory, relativePath)).Some? && Lookup(fs, Join(directory, relativePath)).value.File?
  {
    var entry := Lookup(fs, Join(directory, relativePath));
    if entry.None? {
      return Failure("ENOENT");
    }
    if entry.value.Directory? {
      return Failure("EISDIR");
    }
    var f := new LegacyMDFile(fs, directory, relativePath, ignorePatterns, optionalMdExtension, patterns, slug);
    return Success(f);
  }
}
