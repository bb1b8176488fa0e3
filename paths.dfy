/**
 * The file system and the parts of Node's POSIX `path` module that relative
 * link resolution uses: `join` (with its normalisation), `dirname` and
 * `extname`, written out as string functions. The file system is a map from a
 * path to what is stored there.
 */
module Paths {
  import opened TextUtil

  /** What a path names: a directory, or a file with its UTF-8 text. */
  datatype Entry = Directory | File(content: string)

  type FileSystem = map<string, Entry>

  /**
   * Folds `.` and `..` segments and drops empty ones; a `..` that cannot be
   * folded is kept only when the path may climb above its start.
   */
  function NormalizeSegments(segments: seq<string>, allowAboveRoot: bool, done: seq<string>): seq<string>
    decreases |segments|
  {
    if segments == [] then done
    else
      var s := segments[0];
      if s == "" || s == "." then NormalizeSegments(segments[1..], allowAboveRoot, done)
      else if s == ".." then
        if |done| > 0 && done[|done| - 1] != ".." then
          NormalizeSegments(segments[1..], allowAboveRoot, done[..|done| - 1])
        else if allowAboveRoot then NormalizeSegments(segments[1..], allowAboveRoot, done + [".."])
        else NormalizeSegments(segments[1..], allowAboveRoot, done)
      else NormalizeSegments(segments[1..], allowAboveRoot, done + [s])
  }

  /** `path.normalize`: keeps a leading `/` and a trailing `/`, and gives `.` for nothing. */
  function Normalize(p: string): (r: string)
    ensures r != ""
  {
    if p == "" then "."
    else
      var absolute := p[0] == '/';
      var trailing := p[|p| - 1] == '/';
      var body := JoinWith(NormalizeSegments(Split(p, '/'), !absolute, []), '/');
      if body == "" then (if absolute then "/" else if trailing then "./" else ".")
      else (if absolute then "/" else "") + body + (if trailing then "/" else "")
  }

  /** `path.join(a, b)`: the non-empty arguments joined by `/`, then normalised. */
  function Join(a: string, b: string): (r: string)
    ensures r != ""
  {
    var joined := if a == "" then b else if b == "" then a else a + "/" + b;
    if joined == "" then "." else Normalize(joined)
  }

  /** Scanning leftwards from `i`, the index of the slash that ends the directory part, or -1. */
  function DirnameEnd(p: string, i: int, matchedSlash: bool): (end: int)
    requires 0 <= i < |p|
    ensures end == -1 || 1 <= end <= i
    decreases i
  {
    if i < 1 then -1
    else if p[i] == '/' then (if !matchedSlash then i else DirnameEnd(p, i - 1, true))
    else DirnameEnd(p, i - 1, false)
  }

  /** `path.dirname`: everything before the last segment, ignoring trailing slashes. */
  function Dirname(p: string): (r: string)
    ensures r != ""
  {
    if p == "" then "."
    else
      var hasRoot := p[0] == '/';
      var end := DirnameEnd(p, |p| - 1, true);
      if end == -1 then (if hasRoot then "/" else ".")
      else if hasRoot && end == 1 then "//"
      else p[..end]
  }

  function TrimTrailingSlashes(p: string): (r: string)
    ensures |r| <= |p| && r == p[..|r|]
    ensures r == "" || r[|r| - 1] != '/'
  {
    if p != "" && p[|p| - 1] == '/' then TrimTrailingSlashes(p[..|p| - 1]) else p
  }

  /**
   * What `existsSync` and `statSync` see at `p`. The map's keys carry no
   * trailing slash; with one, a path names only a directory (the root `/`
   * is the key `/`).
   */
  function Lookup(fs: FileSystem, p: string): (r: Option<Entry>)
    ensures p in fs && (p == "" || p[|p| - 1] != '/') ==> r == Some(fs[p])
    ensures r.Some? && r.value.File? ==> p in fs && r.value == fs[p]
  {
    var key := TrimTrailingSlashes(p);
    if key == p then (if p in fs then Some(fs[p]) else None)
    else
      var dir := if key == "" then "/" else key;
      if dir in fs && fs[dir].Directory? then Some(Directory) else None
  }

  /** The text after the last `c` in `s` (all of `s` when there is none). */
  function AfterLast(s: string, c: char): (r: string)
    ensures |r| <= |s| && c !in r
  {
    if s == "" then ""
    else if s[|s| - 1] == c then ""
    else AfterLast(s[..|s| - 1], c) + [s[|s| - 1]]
  }

  /** The index of the last `c` in `s`, or -1. */
  function LastIndexOf(s: string, c: char): (k: int)
    ensures -1 <= k < |s|
    ensures k >= 0 ==> s[k] == c
  {
    if s == "" then -1
    else if s[|s| - 1] == c then |s| - 1
    else LastIndexOf(s[..|s| - 1], c)
  }

  /** The last segment of a path, trailing slashes ignored. */
  function Basename(p: string): string
  {
    AfterLast(TrimTrailingSlashes(p), '/')
  }

  /**
   * `path.extname`: from the last `.` of the last segment to its end; empty
   * when that segment has no `.`, starts with its only leading `.`, or is `..`.
   */
  function Extname(p: string): (r: string)
    ensures r == "" || (r[0] == '.' && '/' !in r)
  {
    var base := Basename(p);
    var dot := LastIndexOf(base, '.');
    if dot <= 0 || base == ".." then "" else base[dot..]
  }

  /**
   * Appending `.md` to a path whose last character is not `/` gives it the
   * extension `.md`, which is what the optional-extension mode relies on.
   */
  lemma {:induction false} AppendedMdExtension(p: string)
    requires p != "" && p[|p| - 1] != '/'
    ensures Extname(p + ".md") == ".md"
  {
    var q := p + ".md";
    assert q[..|q| - 1] == p + ".m";
    assert (p + ".m")[..|p| + 1] == p + ".";
    assert (p + ".")[..|p|] == p;
    assert TrimTrailingSlashes(q) == q;
    var b := AfterLast(p, '/');
    assert b != "";
    assert AfterLast(p + ".", '/') == b + ".";
    assert AfterLast(p + ".m", '/') == b + "." + "m";
    assert AfterLast(q, '/') == b + ".m" + "d";
    var base := b + ".md";
    assert base[..|base| - 1] == b + ".m";
    assert (b + ".m")[..|b| + 1] == b + ".";
    assert LastIndexOf(b + ".", '.') == |b|;
    assert LastIndexOf(b + ".m", '.') == |b|;
    assert LastIndexOf(base, '.') == |b|;
    assert base[|b|..] == ".md";
  }

  /** `fullPath.split('#')[0]`: the path before the first `#`. */
  function PathPart(fullPath: string): string
  {
    Split(fullPath, '#')[0]
  }

  /**
   * `fullPath.split('#')[1]`: the text between the first and the second `#`;
   * empty (falsy, as `undefined` is) when there is no `#`.
   */
  function HashPart(fullPath: string): string
  {
    var pieces := Split(fullPath, '#');
    if |pieces| > 1 then pieces[1] else ""
  }

  /** The path part is `fullPath` up to its first `#`, and the hash is what follows it up to the next one. */
  lemma {:induction false} HashSplitShape(fullPath: string)
    ensures '#' !in PathPart(fullPath) && '#' !in HashPart(fullPath)
    ensures '#' !in fullPath ==> PathPart(fullPath) == fullPath && HashPart(fullPath) == ""
    ensures '#' in fullPath ==>
      var n := |PathPart(fullPath)|;
      && n < |fullPath| && fullPath[..n] == PathPart(fullPath) && fullPath[n] == '#'
      && n + 1 + |HashPart(fullPath)| <= |fullPath|
      && fullPath[n + 1..n + 1 + |HashPart(fullPath)|] == HashPart(fullPath)
      && (n + 1 + |HashPart(fullPath)| == |fullPath| || fullPath[n + 1 + |HashPart(fullPath)|] == '#')
  {
    var pieces := Split(fullPath, '#');
    SplitJoinRoundTrip(fullPath, '#');
    if |pieces| == 1 {
      assert JoinWith(pieces, '#') == pieces[0];
    } else {
      assert fullPath == pieces[0] + ['#'] + JoinWith(pieces[1..], '#');
      assert fullPath[..|pieces[0]|] == pieces[0];
      if |pieces| == 2 {
        assert JoinWith(pieces[1..], '#') == pieces[1];
        assert |fullPath| == |pieces[0]| + 1 + |pieces[1]|;
      } else {
        assert JoinWith(pieces[1..], '#') == pieces[1] + ['#'] + JoinWith(pieces[2..], '#');
        assert fullPath == pieces[0] + ['#'] + pieces[1] + ['#'] + JoinWith(pieces[2..], '#');
        assert fullPath[|pieces[0]| + 1 + |pieces[1]|] == '#';
      }
      assert fullPath[|pieces[0]| + 1..][..|pieces[1]|] == pieces[1];
    }
  }

  /** An ordinary last segment survives normalisation as the last segment. */
  lemma {:induction false} NormalizeSegmentsSnoc(segments: seq<string>, allowAboveRoot: bool, done: seq<string>, last: string)
    requires last != "" && last != "." && last != ".."
    ensures NormalizeSegments(segments + [last], allowAboveRoot, done)
      == NormalizeSegments(segments, allowAboveRoot, done) + [last]
    decreases |segments|
  {
    var all := segments + [last];
    if segments == [] {
      assert all == [last] && all[1..] == [];
    } else {
      assert all[0] == segments[0] && all[1..] == segments[1..] + [last];
      var s := segments[0];
      if s == "" || s == "." {
        NormalizeSegmentsSnoc(segments[1..], allowAboveRoot, done, last);
      } else if s == ".." {
        if |done| > 0 && done[|done| - 1] != ".." {
          NormalizeSegmentsSnoc(segments[1..], allowAboveRoot, done[..|done| - 1], last);
        } else if allowAboveRoot {
          NormalizeSegmentsSnoc(segments[1..], allowAboveRoot, done + [".."], last);
        } else {
          NormalizeSegmentsSnoc(segments[1..], allowAboveRoot, done, last);
        }
      } else {
        NormalizeSegmentsSnoc(segments[1..], allowAboveRoot, done + [s], last);
      }
    }
  }

  /** A text ending in `name` still ends in it after something is put in front. */
  lemma EndsWithAfterPrefix(pre: string, body: string, name: string)
    requires |body| >= |name| && body[|body| - |name|..] == name
    ensures |pre + body| >= |name| && (pre + body)[|pre + body| - |name|..] == name
  {
    assert (pre + body)[|pre + body| - |name|..] == body[|body| - |name|..];
  }

  /**
   * Normalising a path whose last segment is an ordinary name keeps that
   * name at its end.
   */
  /** Without a trailing slash and with a non-empty body, `Normalize` is the prefix and the body. */
  lemma NormalizeUnfolds(p: string, body: string)
    requires p != "" && p[|p| - 1] != '/'
    requires body == JoinWith(NormalizeSegments(Split(p, '/'), p[0] != '/', []), '/')
    requires body != ""
    ensures Normalize(p) == (if p[0] == '/' then "/" else "") + body
  {
    var prefix := if p[0] == '/' then "/" else "";
    assert Normalize(p) == prefix + body + "";
    assert prefix + body + "" == prefix + body;
  }

  lemma NormalizeKeepsLastSegment(p: string, segments: seq<string>, name: string)
    requires p != "" && p[|p| - 1] != '/'
    requires name != "" && name != "." && name != ".."
    requires Split(p, '/') == segments + [name]
    ensures |Normalize(p)| >= |name| && Normalize(p)[|Normalize(p)| - |name|..] == name
  {
    var absolute := p[0] == '/';
    NormalizeSegmentsSnoc(segments, !absolute, [], name);
    var kept := NormalizeSegments(segments, !absolute, []);
    JoinWithSnoc(kept, name, '/');
    var body := JoinWith(kept + [name], '/');
    if kept != [] {
      EndsWithAfterPrefix(JoinWith(kept, '/') + ['/'], name, name);
    }
    assert |body| >= |name| && body[|body| - |name|..] == name;
    NormalizeUnfolds(p, body);
    EndsWithAfterPrefix(if absolute then "/" else "", body, name);
  }

  /** `index.md` is one segment, with no slash in it. */
  lemma IndexSegment()
    ensures Split("index.md", '/') == ["index.md"]
  {
    assert '/' !in "index.md";
    SplitWithoutSeparator("index.md", '/');
  }

  /** Below a non-empty directory, `index.md` becomes the last segment. */
  lemma JoinedIndexSegments(dir: string)
    requires dir != ""
    ensures var joined := dir + "/" + "index.md";
      && joined[|joined| - 1] != '/'
      && Split(joined, '/') == Split(dir, '/') + ["index.md"]
  {
    IndexSegment();
    SplitAtSeparator(dir, "index.md", '/');
    assert dir + "/" + "index.md" == dir + ['/'] + "index.md";
  }

  /** `path.join(dir, "index.md")` ends with `index.md`, whatever `dir` is. */
  lemma JoinIndexEndsWithIndex(dir: string)
    ensures var j := Join(dir, "index.md");
      |j| >= 8 && j[|j| - 8..] == "index.md"
  {
    if dir == "" {
      IndexSegment();
      assert Split("index.md", '/') == [] + ["index.md"];
      NormalizeKeepsLastSegment("index.md", [], "index.md");
    } else {
      JoinedIndexSegments(dir);
      NormalizeKeepsLastSegment(dir + "/" + "index.md", Split(dir, '/'), "index.md");
    }
  }

  /** The `index.md` a directory stands for has the extension `.md`. */
  lemma IndexHasMdExtension(dir: string)
    ensures Extname(Join(dir, "index.md")) == ".md"
  {
    var j := Join(dir, "index.md");
    JoinIndexEndsWithIndex(dir);
    var p := j[..|j| - 3];
    assert j == p + ".md";
    assert p[|p| - 1] == 'x';
    AppendedMdExtension(p);
  }
}
