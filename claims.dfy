/**
 * What the link scans extract from a file's text before any `Link` exists:
 * the hits of the link patterns, the literal and offset each hit claims
 * (the offset is the hit's index plus the length of its introducer), and the
 * shared cache through which the first scan to see a literal keeps it.
 *
 * The relative, absolute and standalone-URL patterns use look-behind and
 * look-ahead; they are taken as given functions from a text to the sequence
 * of their hits, and `SoundOn` states what each of those regular expressions
 * guarantees about a hit.
 */
module Claims {
  import opened TextUtil
  import opened Scanners

  /** A literal a scan turns into a link, and the offset its position is computed from. */
  datatype Claim = Claim(text: string, offset: int)

  /**
   * A hit of a relative pattern: `](path)` found with its `]` at `index`, or a
   * reference definition `]:` plus whitespace (the `introducer`) and a path.
   */
  datatype RelativeHit =
    | Inline(index: nat, path: string)
    | Definition(index: nat, introducer: string, path: string)

  /** A hit of the bracketed URL pattern: `](` or `]:` plus whitespace, then the URL. */
  datatype AbsoluteHit = AbsoluteHit(index: nat, introducer: string, url: string)

  /** A hit of the standalone URL pattern: the whole matched URL. */
  datatype StandaloneHit = StandaloneHit(index: nat, matched: string)

  /** The hit functions of the four look-around patterns of the current `MDFile`. */
  datatype Patterns = Patterns(
    relative: string -> seq<RelativeHit>,
    relativeWithImages: string -> seq<RelativeHit>,
    absolute: string -> seq<AbsoluteHit>,
    standalone: string -> seq<StandaloneHit>)

  /** The hit functions of the two plain patterns of the older `MDFile`. */
  datatype LegacyPatterns = LegacyPatterns(
    relative: string -> seq<RelativeHit>,
    absolute: string -> seq<AbsoluteHit>)

  /** `t` is written in `s` starting at `i`. */
  predicate Occurs(s: string, i: int, t: string)
  {
    0 <= i && i + |t| <= |s| && s[i..i + |t|] == t
  }

  predicate RelativeStart(c: char)
  {
    c == '.' || c == '/'
  }

  /** `]:\s*`, the introducer of a reference definition. */
  predicate DefinitionIntroducer(t: string)
  {
    |t| >= 2 && t[0] == ']' && t[1] == ':' && forall j :: 2 <= j < |t| ==> IsSpace(t[j])
  }

  /** A URL as the URL pattern matches it: it starts with `http`. */
  predicate UrlShaped(u: string)
  {
    |u| > 4 && u[..4] == "http"
  }

  /** What the relative patterns guarantee about a hit in `s`. */
  predicate RelativeHitIn(s: string, h: RelativeHit)
  {
    match h
    case Inline(i, path) =>
      path != "" && RelativeStart(path[0]) && ')' !in path && Occurs(s, i, "](" + path + ")")
    case Definition(i, intro, path) =>
      && DefinitionIntroducer(intro) && path != "" && RelativeStart(path[0])
      && (forall j :: 0 <= j < |path| ==> !IsSpace(path[j]))
      && Occurs(s, i, intro + path)
  }

  /** What the bracketed URL pattern guarantees about a hit in `s`. */
  predicate AbsoluteHitIn(s: string, h: AbsoluteHit)
  {
    (h.introducer == "](" || DefinitionIntroducer(h.introducer))
    && UrlShaped(h.url) && Occurs(s, h.index, h.introducer + h.url)
  }

  /** What the standalone URL pattern guarantees about a hit in `s`. */
  predicate StandaloneHitIn(s: string, h: StandaloneHit)
  {
    UrlShaped(h.matched) && Occurs(s, h.index, h.matched)
  }

  /** Every hit the patterns report on `s` is one the regular expressions can produce. */
  predicate SoundOn(p: Patterns, s: string)
  {
    && (forall h :: h in p.relative(s) ==> RelativeHitIn(s, h))
    && (forall h :: h in p.relativeWithImages(s) ==> RelativeHitIn(s, h))
    && (forall h :: h in p.absolute(s) ==> AbsoluteHitIn(s, h))
    && (forall h :: h in p.standalone(s) ==> StandaloneHitIn(s, h))
  }

  predicate LegacySoundOn(p: LegacyPatterns, s: string)
  {
    && (forall h :: h in p.relative(s) ==> RelativeHitIn(s, h))
    && (forall h :: h in p.absolute(s) ==> AbsoluteHitIn(s, h))
  }

  // ---------------------------------------------------------------- claims of one hit

  /** `val[3] || val[1]` at `val.index + shift`: 2 for `](`, the introducer's length for a definition. */
  function RelativeClaim(h: RelativeHit): Claim
  {
    match h
    case Inline(i, path) => Claim(path, i + 2)
    case Definition(i, intro, path) => Claim(path, i + |intro|)
  }

  /** `val[2]` at `val.index + val[1].length`. */
  function AbsoluteClaim(h: AbsoluteHit): Claim
  {
    Claim(h.url, h.index + |h.introducer|)
  }

  /** `replace(/\.$/, '')`: one trailing `.` removed. */
  function TrimDot(m: string): (r: string)
    ensures m != "" && m[|m| - 1] == '.' ==> r + "." == m
    ensures m == "" || m[|m| - 1] != '.' ==> r == m
  {
    if m != "" && m[|m| - 1] == '.' then m[..|m| - 1] else m
  }

  /** The matched URL, trailing `.` removed, at the hit's own index. */
  function StandaloneClaim(h: StandaloneHit): Claim
  {
    Claim(TrimDot(h.matched), h.index)
  }

  /** The captured fragment at `val.index + 2`. */
  function InternalClaim(m: InternalMatch): Claim
  {
    Claim(m.fragment, m.index + 2)
  }

  /** A piece of a written text is written where that piece starts. */
  lemma OccursWithin(s: string, i: int, t: string, a: nat, b: nat)
    requires Occurs(s, i, t) && a <= b <= |t|
    ensures Occurs(s, i + a, t[a..b])
  {
    forall j | 0 <= j < b - a
      ensures s[i + a..i + b][j] == t[a..b][j]
    {
      assert s[i..i + |t|][a + j] == t[a + j];
    }
  }

  /** The offset of each kind of claim lands on its literal in the text. */
  lemma RelativeClaimLocated(s: string, h: RelativeHit)
    requires RelativeHitIn(s, h)
    ensures RelativeClaim(h).text != "" && Occurs(s, RelativeClaim(h).offset, RelativeClaim(h).text)
  {
    match h
    case Inline(i, path) =>
      var w := "](" + path + ")";
      OccursWithin(s, i, w, 2, 2 + |path|);
      assert w[2..2 + |path|] == path;
    case Definition(i, intro, path) =>
      var w := intro + path;
      OccursWithin(s, i, w, |intro|, |w|);
      assert w[|intro|..|w|] == path;
  }

  lemma AbsoluteClaimLocated(s: string, h: AbsoluteHit)
    requires AbsoluteHitIn(s, h)
    ensures AbsoluteClaim(h).text != "" && Occurs(s, AbsoluteClaim(h).offset, AbsoluteClaim(h).text)
  {
    var w := h.introducer + h.url;
    OccursWithin(s, h.index, w, |h.introducer|, |w|);
    assert w[|h.introducer|..|w|] == h.url;
  }

  lemma StandaloneClaimLocated(s: string, h: StandaloneHit)
    requires StandaloneHitIn(s, h)
    ensures StandaloneClaim(h).text != "" && Occurs(s, StandaloneClaim(h).offset, StandaloneClaim(h).text)
  {
    var t := StandaloneClaim(h).text;
    OccursWithin(s, h.index, h.matched, 0, |t|);
    assert h.matched[0..|t|] == t;
  }

  /**
   * An internal hit's offset is two past its `]`; the fragment itself starts
   * there exactly when `](#` is written without whitespace, and otherwise
   * further right.
   */
  lemma InternalClaimLocated(s: string, m: InternalMatch)
    requires m.index <= |s| && InternalAt(s, m.index) == Some(m)
    ensures InternalClaim(m).text != ""
    ensures var at := m.end - 1 - |m.fragment|;
      m.index + 2 <= at && Occurs(s, at, m.fragment)
  {
    var q1, q2, r := InternalAtShape(s, m.index);
    InternalFragmentAt(s, m, q2, r);
  }

  lemma InternalFragmentAt(s: string, m: InternalMatch, q2: nat, r: nat)
    requires m.index + 1 < q2 < r < |s| && m == InternalMatch(m.index, s[q2..r], r + 1)
    ensures InternalClaim(m).text != ""
    ensures var at := m.end - 1 - |m.fragment|;
      m.index + 2 <= at && Occurs(s, at, m.fragment)
  {
    OccursSlice(s, q2, r);
  }

  /** The recorded offset holds the fragment exactly when `](#` is written without whitespace. */
  lemma InternalClaimExact(s: string, m: InternalMatch)
    requires m.index <= |s| && InternalAt(s, m.index) == Some(m)
    ensures Occurs(s, InternalClaim(m).offset, m.fragment) <==> s[m.index + 1] == '(' && s[m.index + 2] == '#'
  {
    var q1, q2, r := InternalAtShape(s, m.index);
    InternalFragmentAtShift(s, m, q1, q2, r);
  }

  /** A slice of a text is written where it was cut. */
  lemma OccursSlice(s: string, i: nat, j: nat)
    requires i <= j <= |s|
    ensures Occurs(s, i, s[i..j])
  {
    assert i + |s[i..j]| == j;
  }

  /** The fragment starts two past the `]` exactly when no whitespace comes before `(` or `#`. */
  lemma InternalFragmentAtShift(s: string, m: InternalMatch, q1: nat, q2: nat, r: nat)
    requires m.index + 1 <= q1 < q2 < r < |s|
    requires q1 == SkipSpaces(s, m.index + 1) && q2 == SkipSpaces(s, q1 + 1)
    requires s[q1] == '(' && s[q2] == '#' && m.fragment == s[q2..r]
    ensures Occurs(s, InternalClaim(m).offset, m.fragment) <==> s[m.index + 1] == '(' && s[m.index + 2] == '#'
  {
    var p, fragment := m.index, m.fragment;
    assert InternalClaim(m).offset == p + 2;
    if Occurs(s, p + 2, fragment) {
      assert s[p + 2..p + 2 + |fragment|][0] == s[p + 2];
      assert fragment[0] == '#';
      assert q1 <= p + 2;
      assert q1 == p + 1;
    }
    if s[p + 1] == '(' && s[p + 2] == '#' {
      SkipSpacesAt(s, p + 1, p + 1);
      SkipSpacesAt(s, p + 2, p + 2);
      assert q2 == p + 2;
    }
  }

  // ---------------------------------------------------------------- claims of a scan

  function RelativeClaims(hs: seq<RelativeHit>): (cs: seq<Claim>)
    ensures |cs| == |hs| && forall k :: 0 <= k < |hs| ==> cs[k] == RelativeClaim(hs[k])
  {
    seq(|hs|, k requires 0 <= k < |hs| => RelativeClaim(hs[k]))
  }

  function AbsoluteClaims(hs: seq<AbsoluteHit>): (cs: seq<Claim>)
    ensures |cs| == |hs| && forall k :: 0 <= k < |hs| ==> cs[k] == AbsoluteClaim(hs[k])
  {
    seq(|hs|, k requires 0 <= k < |hs| => AbsoluteClaim(hs[k]))
  }

  function StandaloneClaims(hs: seq<StandaloneHit>): (cs: seq<Claim>)
    ensures |cs| == |hs| && forall k :: 0 <= k < |hs| ==> cs[k] == StandaloneClaim(hs[k])
  {
    seq(|hs|, k requires 0 <= k < |hs| => StandaloneClaim(hs[k]))
  }

  function InternalClaims(ms: seq<InternalMatch>): (cs: seq<Claim>)
    ensures |cs| == |ms| && forall k :: 0 <= k < |ms| ==> cs[k] == InternalClaim(ms[k])
  {
    seq(|ms|, k requires 0 <= k < |ms| => InternalClaim(ms[k]))
  }

  /** The relative scan: with other extensions allowed, the pattern that also takes image links. */
  function RelativeScan(p: Patterns, allowOtherExtensions: bool, s: string): seq<Claim>
  {
    RelativeClaims(if allowOtherExtensions then p.relativeWithImages(s) else p.relative(s))
  }

  /** The absolute scan: the bracketed URLs, then the standalone ones, through the same cache. */
  function AbsoluteScan(p: Patterns, s: string): seq<Claim>
  {
    AbsoluteClaims(p.absolute(s)) + StandaloneClaims(p.standalone(s))
  }

  /** The internal scan, driven by the hand-written internal pattern. */
  function InternalScan(s: string): seq<Claim>
  {
    InternalClaims(InternalMatches(s, 0))
  }

  /**
   * Claims `new Link(text, offset, s)` accepts: a non-empty literal, in a
   * non-empty text, at an offset inside it.
   */
  predicate Buildable(s: string, cs: seq<Claim>)
  {
    forall k :: 0 <= k < |cs| ==> cs[k].text != "" && s != "" && 0 <= cs[k].offset <= |s|
  }

  /** Every claim of every scan, on a text the patterns are sound for, can be built. */
  lemma ScansBuildable(p: Patterns, allowOtherExtensions: bool, s: string)
    requires SoundOn(p, s)
    ensures Buildable(s, RelativeScan(p, allowOtherExtensions, s))
    ensures Buildable(s, AbsoluteScan(p, s))
    ensures Buildable(s, InternalScan(s))
  {
    var rh := if allowOtherExtensions then p.relativeWithImages(s) else p.relative(s);
    var rc := RelativeClaims(rh);
    forall k | 0 <= k < |rc|
      ensures rc[k].text != "" && s != "" && 0 <= rc[k].offset <= |s|
    {
      assert rh[k] in rh;
      RelativeClaimLocated(s, rh[k]);
    }
    assert RelativeScan(p, allowOtherExtensions, s) == rc;
    AbsoluteScanBuildable(s, p.absolute(s), p.standalone(s));
    InternalScanBuildable(s);
  }

  lemma AbsoluteScanBuildable(s: string, ah: seq<AbsoluteHit>, sh: seq<StandaloneHit>)
    requires forall h :: h in ah ==> AbsoluteHitIn(s, h)
    requires forall h :: h in sh ==> StandaloneHitIn(s, h)
    ensures Buildable(s, AbsoluteClaims(ah) + StandaloneClaims(sh))
  {
    var a, b := AbsoluteClaims(ah), StandaloneClaims(sh);
    forall k | 0 <= k < |a| {
      AbsoluteClaimLocated(s, ah[k]);
    }
    forall k | 0 <= k < |b| {
      StandaloneClaimLocated(s, sh[k]);
    }
    assert forall k :: 0 <= k < |a| ==> (a + b)[k] == a[k];
    assert forall k :: |a| <= k < |a + b| ==> (a + b)[k] == b[k - |a|];
  }

  lemma InternalScanBuildable(s: string)
    ensures Buildable(s, InternalScan(s))
  {
    var ms := InternalMatches(s, 0);
    var cs := InternalScan(s);
    forall k | 0 <= k < |cs|
      ensures cs[k].text != "" && s != "" && 0 <= cs[k].offset <= |s|
    {
      var m := ms[k];
      assert InternalAt(s, m.index) == Some(m);
      assert cs[k] == Claim(m.fragment, m.index + 2);
    }
  }

  lemma LegacyScansBuildable(p: LegacyPatterns, s: string)
    requires LegacySoundOn(p, s)
    ensures Buildable(s, RelativeClaims(p.relative(s)))
    ensures Buildable(s, AbsoluteClaims(p.absolute(s)))
  {
    var rh, ah := p.relative(s), p.absolute(s);
    forall k | 0 <= k < |rh| {
      RelativeClaimLocated(s, rh[k]);
    }
    forall k | 0 <= k < |ah| {
      AbsoluteClaimLocated(s, ah[k]);
    }
  }

  // ---------------------------------------------------------------- the shared cache

  function Texts(cs: seq<Claim>): set<string>
  {
    set c | c in cs :: c.text
  }

  /**
   * The claims a scan turns into links when the cache already holds `cache`:
   * each claim whose literal is not yet cached, which then caches it.
   */
  function Claimed(cache: set<string>, cs: seq<Claim>): seq<Claim>
    decreases |cs|
  {
    if cs == [] then []
    else if cs[0].text in cache then Claimed(cache, cs[1..])
    else [cs[0]] + Claimed(cache + {cs[0].text}, cs[1..])
  }

  /** A scan keeps only claims it saw, none of them cached before, no literal twice. */
  lemma {:induction false} ClaimedFresh(cache: set<string>, cs: seq<Claim>)
    ensures forall k :: 0 <= k < |Claimed(cache, cs)| ==> Claimed(cache, cs)[k] in cs && Claimed(cache, cs)[k].text !in cache
    ensures forall k, l :: 0 <= k < l < |Claimed(cache, cs)| ==> Claimed(cache, cs)[k].text != Claimed(cache, cs)[l].text
    decreases |cs|
  {
    if cs != [] {
      var c, rest := cs[0], cs[1..];
      assert cs == [c] + rest;
      if c.text in cache {
        ClaimedFresh(cache, rest);
      } else {
        var r := Claimed(cache + {c.text}, rest);
        ClaimedFresh(cache + {c.text}, rest);
        assert Claimed(cache, cs) == [c] + r;
        assert forall k :: 0 <= k < |r| ==> r[k] in cs && r[k].text != c.text;
      }
    }
  }

  lemma TextsAppend(a: seq<Claim>, b: seq<Claim>)
    ensures Texts(a + b) == Texts(a) + Texts(b)
  {
    forall t | t in Texts(a + b) ensures t in Texts(a) + Texts(b) {
      var c :| c in a + b && c.text == t;
      assert c in a || c in b;
    }
    forall t | t in Texts(a) + Texts(b) ensures t in Texts(a + b) {
      if t in Texts(a) {
        var c :| c in a && c.text == t;
        assert c in a + b;
      } else {
        var c :| c in b && c.text == t;
        assert c in a + b;
      }
    }
  }

  /** A scan claims exactly the literals it sees that were not cached before it. */
  lemma {:induction false} ClaimedTexts(cache: set<string>, cs: seq<Claim>)
    ensures Texts(Claimed(cache, cs)) == Texts(cs) - cache
    decreases |cs|
  {
    if cs != [] {
      var c, rest := cs[0], cs[1..];
      assert cs == [c] + rest;
      TextsAppend([c], rest);
      assert Texts([c]) == {c.text};
      if c.text in cache {
        ClaimedTexts(cache, rest);
      } else {
        var r := Claimed(cache + {c.text}, rest);
        ClaimedTexts(cache + {c.text}, rest);
        TextsAppend([c], r);
        assert Texts(r) == Texts(rest) - cache - {c.text};
      }
    }
  }

  /**
   * The first claim of an uncached literal is the one kept: a later claim of
   * the same literal, with another offset, is skipped.
   */
  lemma {:induction false} ClaimedFirst(cache: set<string>, cs: seq<Claim>, i: nat)
    requires i < |cs| && cs[i].text !in cache
    requires forall j :: 0 <= j < i ==> cs[j].text != cs[i].text
    ensures cs[i] in Claimed(cache, cs)
    decreases i
  {
    if i > 0 {
      var c := cs[0];
      var rest := cs[1..];
      assert rest[i - 1] == cs[i];
      if c.text in cache {
        ClaimedFirst(cache, rest, i - 1);
      } else {
        ClaimedFirst(cache + {c.text}, rest, i - 1);
      }
    }
  }

  /** Two scans in a row through one cache claim what one scan of both would. */
  lemma {:induction false} ClaimedAppend(cache: set<string>, a: seq<Claim>, b: seq<Claim>)
    ensures Claimed(cache, a + b) == Claimed(cache, a) + Claimed(cache + Texts(a), b)
    decreases |a|
  {
    if a == [] {
      assert a + b == b;
      assert Claimed(cache, a) == [];
      assert Texts(a) == {};
      assert cache + Texts(a) == cache;
    } else {
      var c, rest := a[0], a[1..];
      assert (a + b)[0] == c && (a + b)[1..] == rest + b;
      TextsCons(c, rest, a);
      if c.text in cache {
        ClaimedAppend(cache, rest, b);
        assert cache + Texts(a) == cache + Texts(rest);
      } else {
        ClaimedAppend(cache + {c.text}, rest, b);
        assert cache + Texts(a) == cache + {c.text} + Texts(rest);
      }
    }
  }

  lemma TextsCons(c: Claim, rest: seq<Claim>, a: seq<Claim>)
    requires a != [] && a[0] == c && a[1..] == rest
    ensures Texts(a) == {c.text} + Texts(rest)
  {
    assert a == [c] + rest;
    TextsAppend([c], rest);
    assert Texts([c]) == {c.text};
  }

  /** One step of a scan: the next claim is kept exactly when its literal is not cached. */
  lemma ClaimedStep(cache: set<string>, c: Claim, rest: seq<Claim>)
    ensures Claimed(cache, [c] + rest) ==
      if c.text in cache then Claimed(cache, rest) else [c] + Claimed(cache + {c.text}, rest)
  {
    assert ([c] + rest)[0] == c && ([c] + rest)[1..] == rest;
  }

  /** A scan seen one claim further: the claim is kept exactly when its literal was not yet cached. */
  lemma ClaimedSnoc(cache: set<string>, a: seq<Claim>, c: Claim)
    ensures Claimed(cache, a + [c]) == Claimed(cache, a) + (if c.text in cache + Texts(a) then [] else [c])
    ensures Texts(a + [c]) == Texts(a) + {c.text}
  {
    ClaimedAppend(cache, a, [c]);
    assert [c][1..] == [];
    TextsAppend(a, [c]);
    assert Texts([c]) == {c.text};
  }

  /** The texts of some claims, in order. */
  function TextsOf(cs: seq<Claim>): (ts: seq<string>)
    ensures |ts| == |cs| && forall k :: 0 <= k < |cs| ==> ts[k] == cs[k].text
  {
    seq(|cs|, k requires 0 <= k < |cs| => cs[k].text)
  }

  predicate Distinct(ts: seq<string>)
  {
    forall k, l :: 0 <= k < l < |ts| ==> ts[k] != ts[l]
  }

  /**
   * Scans run one after another through a cache that starts empty: no literal
   * is kept twice, within one scan or across them.
   */
  lemma ScanOrderDistinct(r: seq<Claim>, a: seq<Claim>, i: seq<Claim>)
    ensures Distinct(TextsOf(Claimed({}, r) + Claimed(Texts(r), a) + Claimed(Texts(r) + Texts(a), i)))
  {
    ClaimedFresh({}, r + a + i);
    ClaimedAppend({}, r, a);
    ClaimedAppend({}, r + a, i);
    TextsAppend(r, a);
    assert {} + Texts(r) == Texts(r);
    assert {} + Texts(r + a) == Texts(r) + Texts(a);
    var all := Claimed({}, r + a + i);
    assert all == Claimed({}, r) + Claimed(Texts(r), a) + Claimed(Texts(r) + Texts(a), i);
  }
}
