/**
 * How one link is judged. Each kind of link has its own decision, and an
 * ignore pattern that matches the link's text settles all of them before
 * anything else is looked at. The network answers through an oracle and
 * the file system is a map; `slug` is the anchor-naming function applied to
 * heading texts.
 */
module Validation {
  import opened TextUtil
  import opened Paths
  import opened Scanners

  /** `ignorePatterns.some((pattern) => pattern.test(url))`. */
  function IgnoreLink(patterns: seq<string -> bool>, url: string): (r: bool)
    ensures r <==> exists k :: 0 <= k < |patterns| && patterns[k](url)
  {
    if patterns == [] then false
    else
      var rest := IgnoreLink(patterns[1..], url);
      assert rest <==> exists k :: 1 <= k < |patterns| && patterns[k](url) by {
        if rest {
          var k :| 0 <= k < |patterns[1..]| && patterns[1..][k](url);
          assert patterns[k + 1] == patterns[1..][k];
        }
        forall k | 1 <= k < |patterns| && patterns[k](url) ensures rest {
          assert patterns[1..][k - 1] == patterns[k];
        }
      }
      patterns[0](url) || rest
  }

  /** What validation leaves in a link: `isValid` and `statusCode`. */
  datatype Verdict = Verdict(isValid: bool, statusCode: int)

  const Ok: Verdict := Verdict(true, 200)
  const NotFound: Verdict := Verdict(false, 404)

  /** What the HTTP client resolves for a URL. */
  datatype LinkStatus = LinkStatus(isOk: bool, statusCode: int)

  /**
   * A link's validation either settles on a value or throws because it reads
   * a directory as a file (`EISDIR`), which ends the whole relative pass.
   */
  datatype Outcome<+V> = Settled(value: V) | ReadsDirectory

  // ---------------------------------------------------------------- absolute links

  /** An ignored URL is valid with 200; any other takes the oracle's answer. */
  function AbsoluteVerdict(ignorePatterns: seq<string -> bool>, oracle: string -> LinkStatus, url: string): Verdict
  {
    if IgnoreLink(ignorePatterns, url) then Ok
    else Verdict(oracle(url).isOk, oracle(url).statusCode)
  }

  /** The older file: an ignored URL is valid, any other is what the oracle says. */
  function LegacyAbsoluteValid(ignorePatterns: seq<string -> bool>, oracle: string -> bool, url: string): bool
  {
    IgnoreLink(ignorePatterns, url) || oracle(url)
  }

  // ---------------------------------------------------------------- relative links

  /** The three flags that shape relative validation. */
  datatype RelativeOptions = RelativeOptions(optionalMdExtension: bool, allowOtherExtensions: bool, noEmptyFiles: bool)

  /** A text starting with `/` is taken from the project directory, any other from the file's directory. */
  function FullPath(directory: string, filePath: string, link: string): string
  {
    if link != "" && link[0] == '/' then Join(directory, link) else Join(Dirname(filePath), link)
  }

  predicate IsDirectory(fs: FileSystem, p: string)
  {
    Lookup(fs, p) == Some(Directory)
  }

  /**
   * The file a link's path is checked against: with the optional extension,
   * a directory stands for its `index.md` and a path without extension gets
   * `.md`; otherwise the path itself.
   */
  function ResolveTarget(fs: FileSystem, original: string, optionalMdExtension: bool): string
  {
    if IsDirectory(fs, original) then (if optionalMdExtension then Join(original, "index.md") else original)
    else if optionalMdExtension && Extname(original) == "" then original + ".md"
    else original
  }

  /** The anchors of a file: the slugs of its heading texts. */
  function Anchors(text: string, slug: string -> string): set<string>
  {
    NormalizedTitles(text, slug)
  }

  /**
   * The decision once the target is resolved: the extension policy, then
   * existence, then other extensions, then (after reading the target) the
   * empty-file policy when there is no fragment, or the fragment against the
   * target's anchors.
   */
  function TargetOutcome(fs: FileSystem, target: string, hash: string, opts: RelativeOptions, slug: string -> string): Outcome<Verdict>
  {
    var isMd := Extname(target) == ".md";
    if !opts.allowOtherExtensions && !isMd then Settled(NotFound)
    else
      match Lookup(fs, target)
      case None => Settled(NotFound)
      case Some(entry) =>
        if opts.allowOtherExtensions && !isMd then Settled(Ok)
        else
          match entry
          case Directory => ReadsDirectory
          case File(text) =>
            if hash == "" then Settled(Verdict(!(opts.noEmptyFiles && text == ""), if text == "" then 204 else 200))
            else if hash in Anchors(text, slug) then Settled(Ok)
            else Settled(NotFound)
  }

  /** `validateRelativeLink` of the current file. */
  function RelativeOutcome(fs: FileSystem, ignorePatterns: seq<string -> bool>, directory: string, filePath: string,
                           opts: RelativeOptions, slug: string -> string, link: string): Outcome<Verdict>
  {
    if IgnoreLink(ignorePatterns, link) then Settled(Ok)
    else
      var full := FullPath(directory, filePath, link);
      TargetOutcome(fs, ResolveTarget(fs, PathPart(full), opts.optionalMdExtension), HashPart(full), opts, slug)
  }

  /**
   * The older decision: not `.md` or missing is invalid, no fragment is
   * valid without reading the file, and a fragment must be an anchor.
   */
  function LegacyTargetOutcome(fs: FileSystem, target: string, hash: string, slug: string -> string): Outcome<bool>
  {
    if Extname(target) != ".md" then Settled(false)
    else
      match Lookup(fs, target)
      case None => Settled(false)
      case Some(entry) =>
        if hash == "" then Settled(true)
        else
          match entry
          case Directory => ReadsDirectory
          case File(text) => Settled(hash in Anchors(text, slug))
  }

  /** `validateRelativeLink` of the older file. */
  function LegacyRelativeOutcome(fs: FileSystem, ignorePatterns: seq<string -> bool>, directory: string, filePath: string,
                                 optionalMdExtension: bool, slug: string -> string, link: string): Outcome<bool>
  {
    if IgnoreLink(ignorePatterns, link) then Settled(true)
    else
      var full := FullPath(directory, filePath, link);
      LegacyTargetOutcome(fs, ResolveTarget(fs, PathPart(full), optionalMdExtension), HashPart(full), slug)
  }

  /**
   * Every verdict the relative decision reaches: valid links carry 200 or
   * 204, invalid ones 404, except an empty target refused by the empty-file
   * policy, which keeps 204; and 204 means exactly that the target is an
   * empty Markdown file named without a fragment.
   */
  lemma {:induction false} RelativeVerdictShape(fs: FileSystem, target: string, hash: string, opts: RelativeOptions, slug: string -> string)
    requires TargetOutcome(fs, target, hash, opts, slug).Settled?
    ensures var v := TargetOutcome(fs, target, hash, opts, slug).value;
      && (v.isValid ==> v.statusCode == 200 || v.statusCode == 204)
      && (!v.isValid ==> v.statusCode == 404 || (v.statusCode == 204 && opts.noEmptyFiles))
      && (v.statusCode == 204 <==> Extname(target) == ".md" && Lookup(fs, target) == Some(File("")) && hash == "")
  {
    if Lookup(fs, target) == Some(File("")) {
      assert Lookup(fs, target).value.File?;
    }
  }

  /**
   * When the current decision calls a link valid: another extension that
   * exists, or an existing Markdown file that is non-empty or allowed to be
   * empty when there is no fragment, and has the fragment among its anchors
   * when there is one.
   */
  lemma RelativeValidity(fs: FileSystem, target: string, hash: string, opts: RelativeOptions, slug: string -> string)
    ensures var o := TargetOutcome(fs, target, hash, opts, slug);
      o.Settled? && o.value.isValid <==>
        || (opts.allowOtherExtensions && Extname(target) != ".md" && Lookup(fs, target).Some?)
        || (&& Extname(target) == ".md" && Lookup(fs, target).Some? && Lookup(fs, target).value.File?
            && (hash == "" ==> !(opts.noEmptyFiles && Lookup(fs, target).value.content == ""))
            && (hash != "" ==> hash in Anchors(Lookup(fs, target).value.content, slug)))
  {
  }

  /**
   * When the older decision calls a link valid, and when invalid: the name
   * must end in `.md` and exist, and a fragment, when there is one, must be
   * an anchor of the file; an empty file passes without a fragment.
   */
  lemma LegacyRelativeValidity(fs: FileSystem, target: string, hash: string, slug: string -> string)
    ensures LegacyTargetOutcome(fs, target, hash, slug) == Settled(true) <==>
      && Extname(target) == ".md" && Lookup(fs, target).Some?
      && (hash != "" ==> Lookup(fs, target).value.File? && hash in Anchors(Lookup(fs, target).value.content, slug))
    ensures LegacyTargetOutcome(fs, target, hash, slug) == Settled(false) <==>
      || Extname(target) != ".md" || Lookup(fs, target).None?
      || (hash != "" && Lookup(fs, target).value.File? && hash !in Anchors(Lookup(fs, target).value.content, slug))
  {
  }

  /** A link only settles as `(false, 204)` when empty files are refused. */
  lemma EmptyTargetPolicy(fs: FileSystem, target: string, opts: RelativeOptions, slug: string -> string)
    requires Extname(target) == ".md" && Lookup(fs, target) == Some(File(""))
    ensures TargetOutcome(fs, target, "", opts, slug) == Settled(Verdict(!opts.noEmptyFiles, 204))
  {
  }

  /**
   * Only reading the resolved target can throw, and only when that target
   * is a directory whose name the Markdown path has to have.
   */
  lemma ReadsDirectoryOnlyOnMdDirectory(fs: FileSystem, target: string, hash: string, opts: RelativeOptions, slug: string -> string)
    ensures TargetOutcome(fs, target, hash, opts, slug) == ReadsDirectory <==>
      Extname(target) == ".md" && IsDirectory(fs, target)
    ensures LegacyTargetOutcome(fs, target, hash, slug) == ReadsDirectory <==>
      Extname(target) == ".md" && IsDirectory(fs, target) && hash != ""
  {
  }

  /**
   * With other extensions refused and empty files accepted, the current
   * decision agrees with the older one wherever it settles; where the older
   * one throws, so does the current one, which reads the target even
   * without a fragment.
   */
  lemma {:induction false} CurrentAgreesWithLegacy(fs: FileSystem, ignorePatterns: seq<string -> bool>, directory: string,
                                                   filePath: string, optionalMdExtension: bool, slug: string -> string, link: string)
    ensures var opts := RelativeOptions(optionalMdExtension, false, false);
      var current := RelativeOutcome(fs, ignorePatterns, directory, filePath, opts, slug, link);
      var legacy := LegacyRelativeOutcome(fs, ignorePatterns, directory, filePath, optionalMdExtension, slug, link);
      && (current.Settled? ==> legacy == Settled(current.value.isValid))
      && (legacy == ReadsDirectory ==> current == ReadsDirectory)
  {
    var opts := RelativeOptions(optionalMdExtension, false, false);
    if !IgnoreLink(ignorePatterns, link) {
      var full := FullPath(directory, filePath, link);
      var target := ResolveTarget(fs, PathPart(full), optionalMdExtension);
      TargetsAgree(fs, target, HashPart(full), opts, slug);
    }
  }

  lemma TargetsAgree(fs: FileSystem, target: string, hash: string, opts: RelativeOptions, slug: string -> string)
    requires !opts.allowOtherExtensions && !opts.noEmptyFiles
    ensures var current := TargetOutcome(fs, target, hash, opts, slug);
      var legacy := LegacyTargetOutcome(fs, target, hash, slug);
      && (current.Settled? ==> legacy == Settled(current.value.isValid))
      && (legacy == ReadsDirectory ==> current == ReadsDirectory)
  {
  }

  /**
   * With the optional extension, a path that names neither a directory nor
   * anything with an extension, and does not end in `/`, is checked as that
   * path plus `.md`, which passes the extension policy.
   */
  lemma {:induction false} OptionalExtensionAppendsMd(fs: FileSystem, original: string)
    requires !IsDirectory(fs, original) && Extname(original) == ""
    requires original != "" && original[|original| - 1] != '/'
    ensures ResolveTarget(fs, original, true) == original + ".md"
    ensures Extname(ResolveTarget(fs, original, true)) == ".md"
  {
    AppendedMdExtension(original);
  }

  /**
   * With the optional extension, a directory is checked as its `index.md`,
   * which passes the extension policy; without it, as the directory itself.
   */
  lemma DirectoryResolvesToIndex(fs: FileSystem, original: string)
    requires IsDirectory(fs, original)
    ensures ResolveTarget(fs, original, true) == Join(original, "index.md")
    ensures Extname(ResolveTarget(fs, original, true)) == ".md"
    ensures ResolveTarget(fs, original, false) == original
  {
    IndexHasMdExtension(original);
  }

  // ---------------------------------------------------------------- internal links

  /** `s.substring(1)` (and `s.substr(1)`): all but the first character. */
  function DropFirst(s: string): (r: string)
    ensures s != "" ==> [s[0]] + r == s
    ensures s == "" ==> r == ""
  {
    if s == "" then "" else s[1..]
  }

  /** An internal link is valid with 200 when ignored or when it names an anchor of its own file, else 404. */
  function InternalVerdict(ignorePatterns: seq<string -> bool>, normalizedTitles: set<string>, link: string): Verdict
  {
    if IgnoreLink(ignorePatterns, link) then Ok
    else if DropFirst(link) in normalizedTitles then Ok
    else NotFound
  }

  function LegacyInternalValid(ignorePatterns: seq<string -> bool>, normalizedTitles: set<string>, link: string): bool
  {
    IgnoreLink(ignorePatterns, link) || DropFirst(link) in normalizedTitles
  }

  /**
   * A fragment `#name` that no pattern ignores is valid exactly when `name`
   * is the slug of one of the file's headings, and the older file agrees.
   */
  lemma InternalFragmentCheck(ignorePatterns: seq<string -> bool>, text: string, slug: string -> string, name: string)
    requires forall k :: 0 <= k < |ignorePatterns| ==> !ignorePatterns[k]("#" + name)
    ensures var v := InternalVerdict(ignorePatterns, Anchors(text, slug), "#" + name);
      && (v.isValid <==> exists t :: t in Titles(text) && slug(t) == name)
      && v.statusCode == (if v.isValid then 200 else 404)
      && LegacyInternalValid(ignorePatterns, Anchors(text, slug), "#" + name) == v.isValid
  {
    assert DropFirst("#" + name) == name;
  }

  // ---------------------------------------------------------------- ignore patterns

  /** An ignored link is valid with 200 whatever its kind, the file system and the network. */
  lemma IgnoredIsValid(ignorePatterns: seq<string -> bool>, k: nat, link: string,
                       fs: FileSystem, directory: string, filePath: string, opts: RelativeOptions,
                       slug: string -> string, oracle: string -> LinkStatus, legacyOracle: string -> bool,
                       titles: set<string>)
    requires k < |ignorePatterns| && ignorePatterns[k](link)
    ensures RelativeOutcome(fs, ignorePatterns, directory, filePath, opts, slug, link) == Settled(Ok)
    ensures AbsoluteVerdict(ignorePatterns, oracle, link) == Ok
    ensures InternalVerdict(ignorePatterns, titles, link) == Ok
    ensures LegacyRelativeOutcome(fs, ignorePatterns, directory, filePath, opts.optionalMdExtension, slug, link) == Settled(true)
    ensures LegacyAbsoluteValid(ignorePatterns, legacyOracle, link) && LegacyInternalValid(ignorePatterns, titles, link)
  {
  }
}
