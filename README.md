# markdown-link-validator: the per-file link engine in Dafny

This project models `MDFile`, the per-file link engine of
markdown-link-validator, together with the `Link` and `Label` value classes it
builds. Properties of the model are proved with the Dafny verifier.

An `MDFile` does three things:

- **Reads and scans.** It reads one Markdown file and blanks its fenced code
  blocks, keeping their newlines. It then runs four scans in a fixed order:
  relative links, absolute links (bracketed URLs, then standalone URLs),
  internal `#fragment` links, and headings. The three link scans share one
  cache of literals, so the first scan to see a literal is the only one that
  builds a `Link` for it. Each `Link` stores a (line, column) position. It is
  computed from the hit's index plus the length of the text that introduces
  the literal.
- **Validates.** Absolute links take the answer of an HTTP oracle. Relative
  links are resolved against a file system and checked against the slugs of
  the target file's headings. Internal links are checked against the slugs of
  the file's own headings. A matching ignore pattern settles any link as
  valid before anything else is consulted.
- **Reports.** The `links` and `invalidLinks` getters compute their result on
  first access and return it unchanged afterwards.

Two versions of the engine are modelled:

- `MarkdownFiles` is the newer one (`dist/src/lib/mdfile.js`). It strips code
  blocks, has standalone URLs, status codes, `allowOtherExtensions` and
  `noEmptyFiles`.
- `LegacyMarkdownFiles` is the older one (`src/lib/mdfile.ts`). It scans the
  raw text and sets only `isValid`.

`Validation.CurrentAgreesWithLegacy` proves that the two decisions agree
whenever the newer one refuses other extensions and accepts empty files.

The model is organised as follows:

- **Outside pieces become parameters.**
  - The file system is a `map` from path to `Directory` or `File(text)`. Node's
    `path.join`, `dirname` and `extname` are string functions (`Paths`).
  - `uslug` is a `slug: string -> string` parameter.
  - The HTTP client is an oracle parameter.
  - The patterns that use look-behind or look-ahead (relative, relative with
    images, standalone URL) are functions from a text to the sequence of their
    hits. The bracketed URL pattern has no look-around, but it embeds the long
    URL pattern, so it is taken the same way. `Claims.SoundOn` states what each regular
    expression guarantees about a hit.
- **Hand-written scanners.** The internal pattern `]\s*\(\s*(#\S*?)\)`, the
  heading pattern `^#{1,6}\s+(.*)$` and the code-fence pattern are written out
  as scanners that follow JavaScript's backtracking (`Scanners`, `CodeFences`).
- **Mutable state.** `MDFile`, `LegacyMDFile`, `Link` and `Label` are classes.
  Their `seq` fields stand for the source's `Set`s, in insertion order. The
  validators are loops that set each link's `isValid` and `statusCode`.
  - Each method is proved against a specification function: `RelativeOutcome`,
    `AbsoluteVerdict`, `InternalVerdict`, `Claimed`, `Invalid`.
  - Those functions carry lemmas of their own.
  - The constructor establishes `Valid()`: the links are exactly the claims the
    shared cache lets through, positioned in the stripped content. It also
    establishes `Separate()`: no literal is held by two links. The validators'
    `UniqueLiterals` preconditions follow from `Separate()`.
- **Thrown errors.** A relative link that reads a directory as a file throws
  EISDIR and aborts the rest of validation. This is the `ReadsDirectory`
  outcome: the validators report how many links were judged before it, and
  the internal links are left untouched.

## Model

| member | source | states |
|---|---|---|
| `TextUtil.NewlineCountIsMultiplicity` | src/lib/link.ts:28-33 | the newline count is the multiplicity of `'\n'` in the string |
| `TextUtil.NewlineFree` | src/lib/link.ts:28-33 | a count of zero holds exactly when no character is a newline |
| `TextUtil.Newlines` | dist/src/lib/mdfile.js:100 | `'\n'.repeat(n)` has length `n` and only newlines |
| `TextUtil.NewlinesCount` | dist/src/lib/mdfile.js:100 | `'\n'.repeat(n)` holds exactly `n` newlines |
| `TextUtil.Split` | src/lib/link.ts:29 | `split` always yields at least one piece |
| `TextUtil.SplitJoinRoundTrip` | dist/src/lib/link.js:21 | joining the pieces of `split(sep)` with `sep` gives the string back, and no piece holds `sep` |
| `TextUtil.SplitLinesShape` | dist/src/lib/label.js:20-24 | `split('\n')` gives one piece more than there are newlines; the last piece is the newline-free suffix that follows the last newline, or the whole string |
| `Positions.Prefix` | src/lib/link.ts:28 | `substring(0, index)` clamps the index into the content and yields a prefix of that length |
| `Positions.PositionOf` | src/lib/link.ts:27-35 | line and column are both at least 1 |
| `Positions.PositionCharacterised` | src/lib/label.ts:27-35 | line = 1 + the newlines before the offset; column = 1 + the length of the newline-free text after the last of them |
| `Positions.PositionOnFirstLine` | dist/src/lib/link.js:19-26 | with no newline before the offset, the position is line 1, column `index + 1` |
| `Positions.PositionDependsOnPrefixOnly` | dist/src/lib/label.js:19-26 | contents that agree up to the offset give the same position |
| `Fragments.ConstructorError` | src/lib/link.ts:10-20 | the constructor throws exactly when the text is empty, the index is not a number, or the content is empty; the first failing check, in that order, picks the message |
| `Fragments.Link.constructor` | src/lib/link.ts:22-24 | the link keeps its text unchanged; the position is computed once from the content and offset; `isValid` and `statusCode` start undefined |
| `Fragments.Link.SetIsValid` | src/lib/link.ts:53-55 | the setter stores the value and leaves `statusCode` and the position alone |
| `Fragments.Link.SetStatusCode` | dist/src/lib/link.js:42-44 | the setter stores the value and leaves `isValid` and the position alone |
| `Fragments.NewLink` | dist/src/lib/link.js:6-18 | `new Link` fails with the first failing check's message, and otherwise builds a fresh link holding the text and its position |
| `Fragments.Label.constructor` | src/lib/label.ts:22-24 | the label keeps its text unchanged; the position is computed once; the flags start undefined |
| `Fragments.Label.SetIsValid` | dist/src/lib/label.js:39-41 | the setter stores the value and leaves `statusCode` alone |
| `Fragments.Label.SetStatusCode` | src/lib/label.ts:57-59 | the setter stores the value and leaves `isValid` alone |
| `Fragments.NewLabel` | src/lib/label.ts:9-25 | `new Label` fails with `"label" can't be empty or null`, then the index message, then the content message, and otherwise builds a fresh label |
| `Paths.Normalize` | dist/src/lib/mdfile.js:194 | `path.normalize` never yields the empty string; `NormalizeKeepsLastSegment` shows it keeps a final ordinary segment |
| `Paths.Join` | dist/src/lib/mdfile.js:194 | `path.join` never yields the empty string; `JoinIndexEndsWithIndex` shows that joining `index.md` ends in `index.md` |
| `Paths.Dirname` | dist/src/lib/mdfile.js:194 | `path.dirname` never yields the empty string |
| `Paths.Extname` | dist/src/lib/mdfile.js:208 | `path.extname` is empty or starts with `.` and holds no `/`; `AppendedMdExtension` and `IndexHasMdExtension` are its partners |
| `Paths.PathPart` | dist/src/lib/mdfile.js:195 | `split('#')[0]`; stated by `HashSplitShape` |
| `Paths.HashPart` | dist/src/lib/mdfile.js:195 | `split('#')[1]`, empty when absent; stated by `HashSplitShape` |
| `Paths.JoinIndexEndsWithIndex` | dist/src/lib/mdfile.js:201 | `path.join(dir, 'index.md')` ends with `index.md`, whatever `dir` is |
| `Paths.IndexHasMdExtension` | dist/src/lib/mdfile.js:201 | `path.join(dir, 'index.md')` has the extension `.md` |
| `Paths.Lookup` | dist/src/lib/mdfile.js:196 | a stored path without a trailing slash finds its own entry; a file is found only under its own key |
| `Paths.AppendedMdExtension` | dist/src/lib/mdfile.js:205 | appending `.md` to a path not ending in `/` gives a path whose `extname` is `.md` |
| `Paths.HashSplitShape` | dist/src/lib/mdfile.js:195 | `split('#')[0]` is the text before the first `#`; `[1]` is the text between the first and the second `#`, and empty when there is no `#`; it ends at the end of the path or at the second `#` |
| `CodeFences.FindFence` | dist/src/lib/mdfile.js:14 | the first three backticks at or after a position, with none before it |
| `CodeFences.FirstBlock` | dist/src/lib/mdfile.js:14 | the first match of the lazy fence pattern opens and closes with three backticks; it opens at the leftmost fence and closes at the nearest fence after the opening one, with no fence in between; when there is none, no fence has a later fence after it |
| `CodeFences.StripCodeBlocks` | dist/src/lib/mdfile.js:98-101 | `replaceAll` of the fence pattern never makes the text longer; its partners are the newline, split and fence-free lemmas below |
| `CodeFences.StripPreservesNewlines` | dist/src/lib/mdfile.js:98-101 | stripping code blocks keeps the newline count of the whole text |
| `CodeFences.StripSplitsAtBlockEnd` | dist/src/lib/mdfile.js:98-101 | at the end of any replaced block, stripping the whole text is stripping the part before it followed by stripping the part after it, and the part before keeps its newline count, so every line after a block keeps its number |
| `CodeFences.StripFenceFreeTail` | dist/src/lib/mdfile.js:98-101 | past the start of the last fence the text is copied unchanged, after the stripped part before it, which keeps its newline count; so every line after the last fence keeps its number |
| `CodeFences.StripWithoutFences` | dist/src/lib/mdfile.js:99 | content without three backticks in a row is left exactly as it was |
| `Scanners.SkipSpaces` | dist/src/lib/mdfile.js:44 | `\s*` stops at the first non-whitespace character |
| `Scanners.FragmentEnd` | dist/src/lib/mdfile.js:44 | the lazy `\S*?` can stop only at the first `)` or whitespace |
| `Scanners.InternalAt` | dist/src/lib/mdfile.js:44 | a hit of the internal pattern starts at `]`, captures a fragment that starts with `#`, and ends inside the text |
| `Scanners.InternalAtShape` | dist/src/lib/mdfile.js:44 | a hit is `]`, optional whitespace, `(`, optional whitespace, `#`, the fragment, then `)` |
| `Scanners.InternalFragmentShape` | dist/src/lib/mdfile.js:44 | the captured fragment is written just before the closing `)`, starts with `#`, and holds neither whitespace nor `)` |
| `Scanners.NextInternal` | dist/src/lib/mdfile.js:150 | `exec` from a position finds the leftmost hit, and reports none only when there is none |
| `Scanners.InternalMatches` | dist/src/lib/mdfile.js:148-158 | the global loop's hits, each a real hit of the pattern, in order |
| `Scanners.InternalMatchesChain` | dist/src/lib/mdfile.js:148-158 | the first hit is what `exec` finds from the start; each next hit is what `exec` finds from the end of the previous one; `exec` finds nothing after the last; hits do not overlap and are in increasing order |
| `Scanners.InternalNoHitBetween` | dist/src/lib/mdfile.js:150 | no position between the end of one hit and the start of the next holds a hit, so the loop skips nothing |
| `Scanners.InternalNoHitOutside` | dist/src/lib/mdfile.js:150 | no position before the first hit or after the end of the last one holds a hit, and there is none at all when the loop finds none |
| `Scanners.InternalLinkRecognised` | dist/src/lib/mdfile.js:38-44 | `](#fragment)` with a fragment free of whitespace and `)` is found at its `]` and yields exactly that fragment |
| `Scanners.HashRunEnd` | dist/src/lib/mdfile.js:74 | `#+` stops at the first non-`#` character |
| `Scanners.LineEnd` | dist/src/lib/mdfile.js:74 | `.*` stops at the first line terminator, where `$` holds |
| `Scanners.TitleAt` | dist/src/lib/mdfile.js:74 | a heading hit sits at a line start; its title is the rest of one line, free of line terminators |
| `Scanners.NextTitle` | dist/src/lib/mdfile.js:161 | `exec` from a position finds the leftmost heading, and reports none only when there is none |
| `Scanners.Titles` | dist/src/lib/mdfile.js:159-165 | the heading texts the global loop captures, in order; `ScanTitles` and `HeadingRecognised` are its partners |
| `Scanners.NormalizedTitles` | dist/src/lib/mdfile.js:159-165 | the slugs of those texts, the anchors a fragment may name; `ScanTitles` and `InternalFragmentCheck` use it |
| `Scanners.ScanTitles` | dist/src/lib/mdfile.js:159-165 | the loop collects exactly the heading texts and exactly their slugs |
| `Scanners.HeadingRecognised` | dist/src/lib/mdfile.js:74 | an ATX heading of 1 to 6 `#` and a space at a line start is found there, with exactly its title |
| `Claims.RelativeClaim` | dist/src/lib/mdfile.js:106-120 | the literal `val[3]`, or else `val[1]`, at `index + 2` or `index` plus the introducer's length; `RelativeClaimLocated` shows the literal is written there |
| `Claims.AbsoluteClaim` | dist/src/lib/mdfile.js:126-137 | the URL at `index` plus the introducer's length; `AbsoluteClaimLocated` shows it is written there |
| `Claims.StandaloneClaim` | dist/src/lib/mdfile.js:140-145 | the matched URL without its trailing dot, at the hit's index; `StandaloneClaimLocated` shows it is written there |
| `Claims.InternalClaim` | dist/src/lib/mdfile.js:151-156 | the fragment at `index + 2`; `InternalClaimLocated` and `InternalClaimExact` say where it is written |
| `Claims.Claimed` | dist/src/lib/mdfile.js:107-119 | the claims a loop keeps through the cache: the first claim of each literal not cached before; `ClaimedFresh`, `ClaimedTexts`, `ClaimedFirst` and `ClaimedAppend` state this |
| `Claims.TrimDot` | dist/src/lib/mdfile.js:140 | `replace(/\.$/, '')` removes one trailing `.` and nothing else |
| `Claims.RelativeClaimLocated` | dist/src/lib/mdfile.js:110-120 | shifting a relative hit by 2 for `](`, or by the definition introducer's length, lands on its non-empty literal |
| `Claims.AbsoluteClaimLocated` | dist/src/lib/mdfile.js:135-137 | shifting a bracketed hit by the introducer's length lands on its URL |
| `Claims.StandaloneClaimLocated` | dist/src/lib/mdfile.js:139-145 | a standalone URL, trailing dot removed, is non-empty and written at the hit's own index |
| `Claims.InternalClaimLocated` | dist/src/lib/mdfile.js:156 | an internal hit's fragment is non-empty and written at or after `index + 2` |
| `Claims.InternalClaimExact` | dist/src/lib/mdfile.js:156 | the recorded offset `index + 2` holds the fragment exactly when `](#` is written without whitespace |
| `Claims.ScansBuildable` | dist/src/lib/mdfile.js:120 | every claim of every scan is a non-empty literal at an offset inside a non-empty text, so `new Link` never throws during a scan |
| `Claims.AbsoluteScanBuildable` | dist/src/lib/mdfile.js:137 | the bracketed and then standalone claims can all be built |
| `Claims.InternalScanBuildable` | dist/src/lib/mdfile.js:156 | the internal claims can all be built |
| `Claims.LegacyScansBuildable` | src/lib/mdfile.ts:107 | the older file's relative and absolute claims can all be built |
| `Claims.ClaimedFresh` | dist/src/lib/mdfile.js:107-119 | a scan keeps only claims it saw, never a literal already cached, and no literal twice |
| `Claims.ClaimedTexts` | dist/src/lib/mdfile.js:119 | a scan keeps exactly the literals it sees that were not cached before it |
| `Claims.ClaimedFirst` | dist/src/lib/mdfile.js:152-156 | the first hit of an uncached literal is the one kept |
| `Claims.ClaimedAppend` | dist/src/lib/mdfile.js:123-147 | two loops in a row through one cache keep what one loop over both would |
| `Claims.ScanOrderDistinct` | dist/src/lib/mdfile.js:81-95 | relative, absolute and internal scans through one cache that starts empty never keep a literal twice |
| `Validation.IgnoreLink` | dist/src/lib/mdfile.js:166-170 | a link is ignored exactly when some ignore pattern matches its text |
| `Validation.AbsoluteVerdict` | dist/src/lib/mdfile.js:171-187 | `(true, 200)` for an ignored URL and the oracle's `(isOk, statusCode)` otherwise; `IgnoredIsValid` and `ValidateAbsoluteLinks` are its partners |
| `Validation.LegacyAbsoluteValid` | src/lib/mdfile.ts:163-182 | an ignored URL is valid, any other as the oracle says; `IgnoredIsValid` is its partner |
| `Validation.FullPath` | dist/src/lib/mdfile.js:194 | a link starting with `/` is joined to the project directory, any other to the file's directory; `CurrentAgreesWithLegacy` shares it between both files |
| `Validation.ResolveTarget` | dist/src/lib/mdfile.js:196-206 | a directory stands for its `index.md` and a path without extension gets `.md`, both only with the optional extension; `OptionalExtensionAppendsMd` and `DirectoryResolvesToIndex` state this |
| `Validation.DirectoryResolvesToIndex` | dist/src/lib/mdfile.js:199-201 | a directory resolves to `path.join(dir, 'index.md')`, whose extension is `.md`, with the optional extension, and to itself without it |
| `Validation.TargetOutcome` | dist/src/lib/mdfile.js:207-242 | the decision table once the target is resolved; `RelativeValidity`, `RelativeVerdictShape`, `EmptyTargetPolicy` and `ReadsDirectoryOnlyOnMdDirectory` state it |
| `Validation.RelativeOutcome` | dist/src/lib/mdfile.js:188-243 | `validateRelativeLink`: ignored, else resolve the path and decide; `IgnoredIsValid` and `CurrentAgreesWithLegacy` are its partners |
| `Validation.LegacyTargetOutcome` | src/lib/mdfile.ts:207-242 | the older decision table; `LegacyRelativeValidity` states it |
| `Validation.LegacyRelativeOutcome` | src/lib/mdfile.ts:184-243 | the older `validateRelativeLink`; `CurrentAgreesWithLegacy` relates it to the newer one |
| `Validation.InternalVerdict` | dist/src/lib/mdfile.js:249-262 | `(true, 200)` when ignored or the fragment without `#` is an anchor, `(false, 404)` otherwise; `InternalFragmentCheck` states it |
| `Validation.LegacyInternalValid` | src/lib/mdfile.ts:251-265 | valid when ignored or `substr(1)` is an anchor; `InternalFragmentCheck` shows it agrees with the newer verdict |
| `Validation.IgnoredIsValid` | dist/src/lib/mdfile.js:171-193 | an ignored link is valid with 200 as a relative, absolute or internal link, and valid as a relative, absolute or internal link of the older file, whatever the file system and the network say |
| `Validation.RelativeValidity` | dist/src/lib/mdfile.js:207-242 | a resolved target is valid exactly when it is another extension that exists and is allowed, or an existing Markdown file that passes the empty-file policy without a fragment, or has the fragment among its anchors |
| `Validation.RelativeVerdictShape` | dist/src/lib/mdfile.js:207-243 | valid links carry 200 or 204 and invalid ones 404, except an empty target refused with 204; status 204 means exactly an empty Markdown target with no fragment |
| `Validation.EmptyTargetPolicy` | dist/src/lib/mdfile.js:231-234 | an empty Markdown target with no fragment settles as `(!noEmptyFiles, 204)` |
| `Validation.ReadsDirectoryOnlyOnMdDirectory` | dist/src/lib/mdfile.js:230 | reading throws exactly when the resolved target is a directory with a `.md` name; in the older file only when there is also a fragment |
| `Validation.OptionalExtensionAppendsMd` | dist/src/lib/mdfile.js:198-206 | with the optional extension, a path that is not a directory and has no extension is checked as that path plus `.md`, which has the `.md` extension |
| `Validation.LegacyRelativeValidity` | src/lib/mdfile.ts:207-242 | in the older file a target is valid exactly when it has a `.md` name, exists, and has the fragment among its anchors if there is one (empty files pass), and invalid exactly otherwise |
| `Validation.CurrentAgreesWithLegacy` | src/lib/mdfile.ts:184-243 | with other extensions refused and empty files accepted, both decisions give the same validity wherever the newer one settles, and the newer one throws wherever the older one does |
| `Validation.DropFirst` | dist/src/lib/mdfile.js:255 | `substring(1)` drops exactly the first character |
| `Validation.InternalFragmentCheck` | dist/src/lib/mdfile.js:249-262 | an unignored `#name` is valid with 200 exactly when `name` is the slug of one of the file's headings, and 404 otherwise; the older file agrees |
| `MarkdownFiles.ScannedLiteralsUnique` | dist/src/lib/mdfile.js:103-158 | the links the three scans build hold pairwise distinct literals, within each set and across sets |
| `MarkdownFiles.ReadAndScan` | dist/src/lib/mdfile.js:91-92 | the text read is the file's content, and the scans run over its stripped form; every claim can be built |
| `MarkdownFiles.Invalid` | dist/src/lib/mdfile.js:294-305 | the filter keeps exactly the links whose `isValid` is not `true`, undefined included |
| `MarkdownFiles.ClaimAll` | dist/src/lib/mdfile.js:150-157 | the loop builds a link exactly for each claim the cache lets through, in order, and caches every literal it sees |
| `MarkdownFiles.MDFile.constructor` | dist/src/lib/mdfile.js:76-97 | the file read is stored, the content is its stripped form, the three scans and the headings fill the sets through one cache, no literal appears twice, and the memos start empty |
| `MarkdownFiles.MDFile.ScanContent` | dist/src/lib/mdfile.js:93-96 | the scans, in their order, leave exactly the links, cache and headings of `Valid()`, with no literal twice |
| `MarkdownFiles.MDFile.GetRelativeLinks` | dist/src/lib/mdfile.js:103-122 | the relative links are the claims an empty cache lets through; the cache then holds every relative literal |
| `MarkdownFiles.MDFile.GetAbsoluteLinks` | dist/src/lib/mdfile.js:123-147 | the absolute links are the bracketed then standalone claims the cache lets through; the cache gains their literals |
| `MarkdownFiles.MDFile.GetInternalLinks` | dist/src/lib/mdfile.js:148-158 | the internal links are the claims the cache lets through; the cache gains their literals |
| `MarkdownFiles.MDFile.GetTitles` | dist/src/lib/mdfile.js:159-165 | the heading texts and their slugs are added to the two title sets |
| `MarkdownFiles.MDFile.ValidateAbsoluteLinks` | dist/src/lib/mdfile.js:171-187 | every absolute link holds `(true, 200)` when ignored and the oracle's `(isOk, statusCode)` otherwise |
| `MarkdownFiles.MDFile.ValidateRelativeLink` | dist/src/lib/mdfile.js:188-243 | the link holds the verdict of the relative decision table, or is left untouched when reading its target throws |
| `MarkdownFiles.MDFile.ValidateRelativeLinks` | dist/src/lib/mdfile.js:244-248 | links are judged in order until one throws; that one and all later ones keep their flags |
| `MarkdownFiles.MDFile.ValidateInternalLinks` | dist/src/lib/mdfile.js:249-267 | every internal link holds `(true, 200)` when ignored or when its fragment without `#` is an anchor of this file, and `(false, 404)` otherwise |
| `MarkdownFiles.MDFile.ValidateLinks` | dist/src/lib/mdfile.js:268-272 | absolute, then relative, then internal validation; when a relative link throws, that link and every later relative link keep `isValid` and `statusCode`, and no internal link is touched |
| `MarkdownFiles.MDFile.InvalidLinks` | dist/src/lib/mdfile.js:291-309 | the first access gives the not-valid absolute, relative and internal links, in that order, and stores them; later accesses give the stored result |
| `MarkdownFiles.MDFile.Links` | dist/src/lib/mdfile.js:310-316 | the first access gives the union of the three sets and stores it; later accesses give the stored result |
| `MarkdownFiles.Open` | dist/src/lib/mdfile.js:91 | construction fails with ENOENT for a missing path and with EISDIR for a directory, and otherwise yields a scanned file |
| `LegacyMarkdownFiles.ReadAndScanLegacy` | src/lib/mdfile.ts:77-81 | the scans run over the text as read, without stripping; every claim can be built |
| `LegacyMarkdownFiles.LegacyMDFile.constructor` | src/lib/mdfile.ts:64-83 | the content is the raw file text, the three scans share one cache, no literal appears twice, and the memos start empty |
| `LegacyMarkdownFiles.LegacyMDFile.ScanContent` | src/lib/mdfile.ts:79-82 | the scans, in order, leave exactly the links, cache and headings of `Valid()` |
| `LegacyMarkdownFiles.LegacyMDFile.GetRelativeLinks` | src/lib/mdfile.ts:85-109 | relative links with shift 2 or the introducer's length, through an empty cache |
| `LegacyMarkdownFiles.LegacyMDFile.GetAbsoluteLinks` | src/lib/mdfile.ts:111-131 | bracketed URLs only, shifted by the introducer's length, through the cache |
| `LegacyMarkdownFiles.LegacyMDFile.GetInternalLinks` | src/lib/mdfile.ts:133-146 | internal links at `index + 2`, through the cache |
| `LegacyMarkdownFiles.LegacyMDFile.GetTitles` | src/lib/mdfile.ts:148-155 | heading texts and slugs of the raw text |
| `LegacyMarkdownFiles.LegacyMDFile.ValidateAbsoluteLinks` | src/lib/mdfile.ts:163-182 | `isValid` is `true` when ignored and exactly the oracle's boolean otherwise; `statusCode` is not touched |
| `LegacyMarkdownFiles.LegacyMDFile.ValidateRelativeLink` | src/lib/mdfile.ts:184-243 | `isValid` follows the older decision table; only the flag changes, and not even that when reading throws |
| `LegacyMarkdownFiles.LegacyMDFile.ValidateRelativeLinks` | src/lib/mdfile.ts:245-249 | links are judged in order until one throws; later flags and all status codes are kept |
| `LegacyMarkdownFiles.LegacyMDFile.ValidateInternalLinks` | src/lib/mdfile.ts:251-271 | `isValid` is `true` exactly when ignored or `substr(1)` is an anchor; status codes are kept |
| `LegacyMarkdownFiles.LegacyMDFile.ValidateLinks` | src/lib/mdfile.ts:273-277 | absolute, relative, then internal; a throw leaves the unjudged relative links' flags and the internal links untouched; no status code of any link changes |
| `LegacyMarkdownFiles.LegacyMDFile.InvalidLinks` | src/lib/mdfile.ts:303-325 | the not-valid links of the three sets on first access, the same result afterwards |
| `LegacyMarkdownFiles.LegacyMDFile.Links` | src/lib/mdfile.ts:327-335 | the union of the three sets on first access, the same result afterwards |
| `LegacyMarkdownFiles.OpenLegacy` | src/lib/mdfile.ts:77 | construction fails with ENOENT or EISDIR as the file system says, and otherwise yields a scanned file |

## Left out

- The HTTP client (`request.get`) is left out, with its retries, redirects, TLS settings, delays and promise cache. It is the `oracle` parameter, so `ignoreStatusCodes` is stored but never read by the model.
- `async` validation and `Promise.all` are modelled as a sequential loop. Each request writes only its own link, so the order of completion does not change the result.
- `uslug` is the `slug` parameter. Its Unicode transliteration is not reproduced.
- Node's `fs` is a map from paths to entries. Permission errors and other I/O failures are left out; the only errors modelled are a missing file (ENOENT) and reading a directory (EISDIR).
- Windows path separators are left out: `path` is the POSIX variant.
- The look-around patterns (relative, relative with images, standalone URL) and the bracketed URL pattern, which has no look-around but embeds the URL pattern, are hit functions. `SoundOn` states only what a reported hit looks like, not that every link in the text is reported. The older file's plain relative and absolute patterns are taken the same way.
- The regular expressions' `lastIndex` cursor is not modelled; every global loop restarts from 0. The same applies to `test` on ignore patterns that carry the `g` flag.
- JavaScript strings are UTF-16 code units, while the model counts characters. Offsets and columns differ after a character outside the Basic Multilingual Plane.
- An index that is a number but not an integer (a fraction, `NaN`, `Infinity`) is not modelled. `None` stands for any non-number, and `null` or `undefined` text or content counts as empty.
- `Set`s are sequences in insertion order. No two links share a literal, so no link is ever added twice.
- Label extraction and `invalidLinkLabels` are not modelled: no code that produces them is part of this model. `Label` is only the value class.
- The CLI, file discovery, reporting, option parsing, logging and the process entry point are left out.
- MarkdownFiles.MDFile.constructor: states that the links are built from the claims, but not that they are fresh objects. The constructor's throw on a missing path or a directory is stated by `MarkdownFiles.Open` instead.
- LegacyMarkdownFiles.LegacyMDFile.constructor: the same as for the newer constructor; the throw is stated by `LegacyMarkdownFiles.OpenLegacy`.
- Fragments.Link.constructor: requires what the source checks by throwing. The throwing paths are stated by `Fragments.NewLink` and `Fragments.ConstructorError`.
- Fragments.Label.constructor: the same; see `Fragments.NewLabel`.
- `Scanners.InternalLinkRecognised` and `Scanners.HeadingRecognised` show that well-formed links and headings are found at their place. They do not state that the global loop reaches them; overlapping earlier hits can consume them.
