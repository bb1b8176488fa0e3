/**
 * The two patterns the model scans by hand, each with the way JavaScript's
 * backtracking engine resolves it:
 *   internal links  `]\s*\(\s*(#\S*?)\)`   (global)
 *   headings        `^#{1,6}\s+(.*)$`      (global, multiline)
 * A global `exec` loop restarts each search where the previous match ended.
 */
module Scanners {
  import opened TextUtil

  /** The end of the run of whitespace that starts at `i`. */
  function SkipSpaces(s: string, i: nat): (k: nat)
    requires i <= |s|
    ensures i <= k <= |s|
    ensures forall j :: i <= j < k ==> IsSpace(s[j])
    ensures k == |s| || !IsSpace(s[k])
    decreases |s| - i
  {
    if i < |s| && IsSpace(s[i]) then SkipSpaces(s, i + 1) else i
  }

  lemma SkipSpacesAt(s: string, i: nat, k: nat)
    requires i <= k <= |s|
    requires forall j :: i <= j < k ==> IsSpace(s[j])
    requires k == |s| || !IsSpace(s[k])
    ensures SkipSpaces(s, i) == k
    decreases k - i
  {
    if i < k {
      SkipSpacesAt(s, i + 1, k);
    }
  }

  // ---------------------------------------------------------------- internal

  /** A hit of the internal pattern: where `]` stands, the captured fragment, where the match ends. */
  datatype InternalMatch = InternalMatch(index: nat, fragment: string, end: nat)

  /** The first `)` or whitespace at or after `i`: where the lazy `\S*?` must stop. */
  function FragmentEnd(s: string, i: nat): (k: nat)
    requires i <= |s|
    ensures i <= k <= |s|
    ensures forall j :: i <= j < k ==> s[j] != ')' && !IsSpace(s[j])
    ensures k == |s| || s[k] == ')' || IsSpace(s[k])
    decreases |s| - i
  {
    if i < |s| && s[i] != ')' && !IsSpace(s[i]) then FragmentEnd(s, i + 1) else i
  }

  /**
   * The internal pattern tried at `p`: `]`, optional whitespace, `(`, optional
   * whitespace, then `#` and the shortest run of non-whitespace up to a `)`.
   */
  function InternalAt(s: string, p: nat): (r: Option<InternalMatch>)
    requires p <= |s|
    ensures r.Some? ==> r.value.index == p && |r.value.fragment| >= 1 && p + 3 + |r.value.fragment| <= r.value.end <= |s|
    ensures r.Some? ==> s[p] == ']' && r.value.fragment[0] == '#'
  {
    if p == |s| || s[p] != ']' then None
    else
      var q1 := SkipSpaces(s, p + 1);
      if q1 == |s| || s[q1] != '(' then None
      else
        var q2 := SkipSpaces(s, q1 + 1);
        if q2 == |s| || s[q2] != '#' then None
        else
          var r := FragmentEnd(s, q2 + 1);
          if r == |s| || s[r] != ')' then None
          else Some(InternalMatch(p, s[q2..r], r + 1))
  }

  /**
   * What a hit of the internal pattern looks like in the text: `]` at `p`,
   * `(` at `q1` and `#` at `q2` after optional whitespace, the fragment from
   * `q2` up to the `)` at `r`.
   */
  lemma InternalAtShape(s: string, p: nat) returns (q1: nat, q2: nat, r: nat)
    requires p <= |s| && InternalAt(s, p).Some?
    ensures p + 1 <= q1 < q2 < r < |s|
    ensures q1 == SkipSpaces(s, p + 1) && q2 == SkipSpaces(s, q1 + 1) && r == FragmentEnd(s, q2 + 1)
    ensures s[p] == ']' && s[q1] == '(' && s[q2] == '#' && s[r] == ')'
    ensures InternalAt(s, p) == Some(InternalMatch(p, s[q2..r], r + 1))
  {
    q1 := SkipSpaces(s, p + 1);
    q2 := SkipSpaces(s, q1 + 1);
    r := FragmentEnd(s, q2 + 1);
  }

  /** The fragment of a hit of the internal pattern: `#`, then neither whitespace nor `)`. */
  lemma InternalFragmentShape(s: string, p: nat)
    requires p <= |s| && InternalAt(s, p).Some?
    ensures var m := InternalAt(s, p).value;
      && s[m.end - 1 - |m.fragment|..m.end - 1] == m.fragment
      && m.fragment[0] == '#'
      && forall j :: 0 <= j < |m.fragment| ==> m.fragment[j] != ')' && !IsSpace(m.fragment[j])
  {
    var q1, q2, r := InternalAtShape(s, p);
    var fragment := s[q2..r];
    assert forall j :: 0 <= j < |fragment| ==> fragment[j] == s[q2 + j];
  }

  /** `exec` from `from`: the leftmost position where the internal pattern matches. */
  function NextInternal(s: string, from: nat): (r: Option<InternalMatch>)
    requires from <= |s|
    ensures r.Some? ==> from <= r.value.index <= |s| && InternalAt(s, r.value.index) == r
    ensures r.Some? ==> forall p :: from <= p < r.value.index ==> InternalAt(s, p).None?
    ensures r.None? ==> forall p :: from <= p <= |s| ==> InternalAt(s, p).None?
    decreases |s| - from
  {
    if InternalAt(s, from).Some? then InternalAt(s, from)
    else if from == |s| then None
    else NextInternal(s, from + 1)
  }

  /** Every hit of the global internal pattern from `from` on, in order. */
  function InternalMatches(s: string, from: nat): (ms: seq<InternalMatch>)
    requires from <= |s|
    ensures forall k :: 0 <= k < |ms| ==> from <= ms[k].index <= ms[k].end <= |s|
    ensures forall k :: 0 <= k < |ms| ==> InternalAt(s, ms[k].index) == Some(ms[k])
    decreases |s| - from
  {
    match NextInternal(s, from)
    case None => []
    case Some(m) => [m] + InternalMatches(s, m.end)
  }

  /**
   * The hits form the chain of `exec` calls: the first is the leftmost hit
   * from `from`, each next one the leftmost hit from where the previous one
   * ended, and after the last no hit remains; so they come in text order
   * without overlapping.
   */
  lemma {:induction false} InternalMatchesChain(s: string, from: nat)
    requires from <= |s|
    ensures var ms := InternalMatches(s, from);
      NextInternal(s, from) == if ms == [] then None else Some(ms[0])
    ensures var ms := InternalMatches(s, from);
      forall k :: 0 <= k < |ms| - 1 ==> NextInternal(s, ms[k].end) == Some(ms[k + 1])
    ensures var ms := InternalMatches(s, from);
      ms != [] ==> NextInternal(s, ms[|ms| - 1].end).None?
    ensures var ms := InternalMatches(s, from);
      forall k :: 0 <= k < |ms| - 1 ==> ms[k].end <= ms[k + 1].index
    decreases |s| - from
  {
    match NextInternal(s, from)
    case None =>
    case Some(m) =>
      var rest := InternalMatches(s, m.end);
      var ms := InternalMatches(s, from);
      assert ms == [m] + rest;
      InternalMatchesChain(s, m.end);
  }

  /** The pattern matches nowhere between two consecutive hits. */
  lemma InternalNoHitBetween(s: string, from: nat, k: nat, p: nat)
    requires from <= |s|
    requires var ms := InternalMatches(s, from);
      k + 1 < |ms| && ms[k].end <= p < ms[k + 1].index
    ensures p <= |s| && InternalAt(s, p).None?
  {
    InternalMatchesChain(s, from);
  }

  /** The pattern matches nowhere before the first hit or after the last. */
  lemma InternalNoHitOutside(s: string, from: nat, p: nat)
    requires from <= p <= |s|
    requires var ms := InternalMatches(s, from);
      ms == [] || p < ms[0].index || ms[|ms| - 1].end <= p
    ensures InternalAt(s, p).None?
  {
    InternalMatchesChain(s, from);
  }

  /**
   * A link written `](#fragment)`, with a fragment free of whitespace and of
   * `)`, is found where its `]` stands and yields exactly that fragment.
   */
  lemma InternalLinkRecognised(pre: string, fragment: string, post: string)
    requires |fragment| >= 1 && fragment[0] == '#'
    requires forall j :: 0 <= j < |fragment| ==> fragment[j] != ')' && !IsSpace(fragment[j])
    ensures var s := pre + "](" + fragment + ")" + post;
      InternalAt(s, |pre|) == Some(InternalMatch(|pre|, fragment, |pre| + 3 + |fragment|))
  {
    var s := pre + "](" + fragment + ")" + post;
    var p := |pre|;
    assert s[p] == ']' && s[p + 1] == '(' && s[p + 2] == '#';
    assert !IsSpace(s[p + 1]) && !IsSpace(s[p + 2]);
    assert SkipSpaces(s, p + 1) == p + 1;
    assert SkipSpaces(s, p + 2) == p + 2;
    var e := p + 2 + |fragment|;
    assert s[e] == ')';
    assert forall j :: p + 3 <= j < e ==> s[j] == fragment[j - p - 2];
    assert FragmentEnd(s, p + 3) == e;
    assert s[p + 2..e] == fragment;
  }

  // ---------------------------------------------------------------- headings

  /** A hit of the heading pattern: where the line starts, the captured text, where the match ends. */
  datatype TitleMatch = TitleMatch(index: nat, text: string, end: nat)

  /** `^` in multiline mode. */
  predicate LineStart(s: string, p: nat)
    requires p <= |s|
  {
    p == 0 || IsLineTerminator(s[p - 1])
  }

  /** The end of the run of `#` that starts at `i`. */
  function HashRunEnd(s: string, i: nat): (k: nat)
    requires i <= |s|
    ensures i <= k <= |s|
    ensures forall j :: i <= j < k ==> s[j] == '#'
    ensures k == |s| || s[k] != '#'
    decreases |s| - i
  {
    if i < |s| && s[i] == '#' then HashRunEnd(s, i + 1) else i
  }

  lemma HashRunEndAt(s: string, i: nat, k: nat)
    requires i <= k <= |s|
    requires forall j :: i <= j < k ==> s[j] == '#'
    requires k == |s| || s[k] != '#'
    ensures HashRunEnd(s, i) == k
    decreases k - i
  {
    if i < k {
      HashRunEndAt(s, i + 1, k);
    }
  }

  /** The first line terminator at or after `i` (or the end): where `.*` stops and `$` holds. */
  function LineEnd(s: string, i: nat): (k: nat)
    requires i <= |s|
    ensures i <= k <= |s|
    ensures forall j :: i <= j < k ==> !IsLineTerminator(s[j])
    ensures k == |s| || IsLineTerminator(s[k])
    decreases |s| - i
  {
    if i < |s| && !IsLineTerminator(s[i]) then LineEnd(s, i + 1) else i
  }

  lemma LineEndAt(s: string, i: nat, k: nat)
    requires i <= k <= |s|
    requires forall j :: i <= j < k ==> !IsLineTerminator(s[j])
    requires k == |s| || IsLineTerminator(s[k])
    ensures LineEnd(s, i) == k
    decreases k - i
  {
    if i < k {
      LineEndAt(s, i + 1, k);
    }
  }

  /**
   * The heading pattern tried at `p`: at a line start, one to six `#` (a
   * seventh `#` leaves no whitespace to backtrack to), then the greedy `\s+`,
   * which may run over line ends, then the rest of that line as the title.
   */
  function TitleAt(s: string, p: nat): (r: Option<TitleMatch>)
    requires p <= |s|
    ensures r.Some? ==>
      && r.value.index == p && p + 2 <= r.value.end <= |s| && LineStart(s, p)
      && |r.value.text| <= r.value.end - p - 2
      && s[r.value.end - |r.value.text|..r.value.end] == r.value.text
      && (forall j :: 0 <= j < |r.value.text| ==> !IsLineTerminator(r.value.text[j]))
      && (r.value.end == |s| || IsLineTerminator(s[r.value.end]))
  {
    if !LineStart(s, p) then None
    else
      var h := HashRunEnd(s, p);
      if h == p || h - p > 6 || h == |s| || !IsSpace(s[h]) then None
      else
        var q := SkipSpaces(s, h);
        var e := LineEnd(s, q);
        Some(TitleMatch(p, s[q..e], e))
  }

  /** `exec` from `from`: the leftmost position where the heading pattern matches. */
  function NextTitle(s: string, from: nat): (r: Option<TitleMatch>)
    requires from <= |s|
    ensures r.Some? ==> from <= r.value.index <= |s| && TitleAt(s, r.value.index) == r
    ensures r.Some? ==> forall p :: from <= p < r.value.index ==> TitleAt(s, p).None?
    ensures r.None? ==> forall p :: from <= p <= |s| ==> TitleAt(s, p).None?
    decreases |s| - from
  {
    if TitleAt(s, from).Some? then TitleAt(s, from)
    else if from == |s| then None
    else NextTitle(s, from + 1)
  }

  /** The captured heading texts of every hit from `from` on, in order. */
  function TitlesFrom(s: string, from: nat): seq<string>
    requires from <= |s|
    decreases |s| - from
  {
    match NextTitle(s, from)
    case None => []
    case Some(m) => [m.text] + TitlesFrom(s, m.end)
  }

  function Titles(s: string): seq<string>
  {
    TitlesFrom(s, 0)
  }

  /** The heading texts, as a set. */
  function TitleSet(s: string): set<string>
  {
    Elements(Titles(s))
  }

  /** The slugs of the heading texts: the anchors a fragment may name. */
  function NormalizedTitles(s: string, slug: string -> string): set<string>
  {
    Slugs(Titles(s), slug)
  }

  function Elements(ts: seq<string>): set<string>
  {
    set t | t in ts
  }

  function Slugs(ts: seq<string>, slug: string -> string): set<string>
  {
    set t | t in ts :: slug(t)
  }

  lemma ElementsCons(t: string, ts: seq<string>, slug: string -> string)
    ensures Elements([t] + ts) == {t} + Elements(ts)
    ensures Slugs([t] + ts, slug) == {slug(t)} + Slugs(ts, slug)
  {
  }

  /**
   * `getTitles`' loop: every hit adds its text to the titles and the slug of
   * its text to the normalized titles.
   */
  method ScanTitles(s: string, slug: string -> string) returns (titles: set<string>, normalized: set<string>)
    ensures titles == TitleSet(s)
    ensures normalized == NormalizedTitles(s, slug)
  {
    titles, normalized := {}, {};
    var cursor := 0;  // where the next search starts (the pattern's `lastIndex`)
    var val := NextTitle(s, 0);
    while val.Some?
      invariant cursor <= |s| && val == NextTitle(s, cursor)
      invariant titles + Elements(TitlesFrom(s, cursor)) == TitleSet(s)
      invariant normalized + Slugs(TitlesFrom(s, cursor), slug) == NormalizedTitles(s, slug)
      decreases |s| - cursor
    {
      var m := val.value;
      assert TitlesFrom(s, cursor) == [m.text] + TitlesFrom(s, m.end);
      ElementsCons(m.text, TitlesFrom(s, m.end), slug);
      titles := titles + {m.text};
      normalized := normalized + {slug(m.text)};
      cursor := m.end;
      val := NextTitle(s, cursor);
    }
    assert TitlesFrom(s, cursor) == [];
  }

  function Hashes(n: nat): (r: string)
    ensures |r| == n && forall j :: 0 <= j < n ==> r[j] == '#'
  {
    if n == 0 then "" else "#" + Hashes(n - 1)
  }

  /**
   * An ATX heading, one to six `#`, a space and a title that neither starts
   * with whitespace nor spans a line end, written at a line start, is found
   * there with exactly that title.
   */
  lemma {:induction false} HeadingRecognised(pre: string, level: nat, title: string, post: string)
    requires pre == "" || IsLineTerminator(pre[|pre| - 1])
    requires 1 <= level <= 6
    requires title == "" || !IsSpace(title[0])
    requires forall j :: 0 <= j < |title| ==> !IsLineTerminator(title[j])
    requires post == "" || IsLineTerminator(post[0])
    requires title != "" || post == ""
    ensures var s := pre + Hashes(level) + " " + title + post;
      TitleAt(s, |pre|) == Some(TitleMatch(|pre|, title, |pre| + level + 1 + |title|))
  {
    var s := pre + Hashes(level) + " " + title + post;
    HeadingParts(pre, level, title, post, s);
    HeadingAt(s, |pre|, level, title);
  }

  /**
   * A heading line at `p`, described position by position: `level` hashes,
   * a space, then `title` up to the line's end.
   */
  predicate HeadingLineAt(s: string, p: nat, level: nat, title: string)
  {
    && 1 <= level <= 6 && p + level + 1 + |title| <= |s| && LineStart(s, p)
    && (forall j :: p <= j < p + level ==> s[j] == '#')
    && s[p + level] == ' '
    && s[p + level + 1..p + level + 1 + |title|] == title
    && (forall j :: 0 <= j < |title| ==> !IsLineTerminator(title[j]))
    && (p + level + 1 == |s| || !IsSpace(s[p + level + 1]))
    && (p + level + 1 + |title| == |s| || IsLineTerminator(s[p + level + 1 + |title|]))
  }

  /** The heading pattern at `p` on a heading line. */
  lemma HeadingAt(s: string, p: nat, level: nat, title: string)
    requires HeadingLineAt(s, p, level, title)
    ensures TitleAt(s, p) == Some(TitleMatch(p, title, p + level + 1 + |title|))
  {
    var h := p + level;
    assert forall j :: h + 1 <= j < h + 1 + |title| ==> s[j] == title[j - h - 1];
    HeadingScanPoints(s, p, level, title);
    TitleAtUnfolded(s, p, h, h + 1, h + 1 + |title|);
  }

  /** The points where each part of the heading pattern stops on a heading line. */
  lemma HeadingScanPoints(s: string, p: nat, level: nat, title: string)
    requires p + level + 1 + |title| <= |s|
    requires forall j :: p <= j < p + level ==> s[j] == '#'
    requires s[p + level] == ' '
    requires forall j :: p + level + 1 <= j < p + level + 1 + |title| ==> s[j] == title[j - p - level - 1]
    requires forall j :: 0 <= j < |title| ==> !IsLineTerminator(title[j])
    requires p + level + 1 == |s| || !IsSpace(s[p + level + 1])
    requires p + level + 1 + |title| == |s| || IsLineTerminator(s[p + level + 1 + |title|])
    ensures HashRunEnd(s, p) == p + level
    ensures SkipSpaces(s, p + level) == p + level + 1
    ensures LineEnd(s, p + level + 1) == p + level + 1 + |title|
  {
    var h := p + level;
    var q := h + 1;
    HashRunEndAt(s, p, h);
    SkipSpacesAt(s, h, q);
    LineEndAt(s, q, q + |title|);
  }

  /** Where the pieces of a heading line sit in the whole text. */
  lemma HeadingParts(pre: string, level: nat, title: string, post: string, s: string)
    requires s == pre + Hashes(level) + " " + title + post
    requires pre == "" || IsLineTerminator(pre[|pre| - 1])
    requires 1 <= level <= 6
    requires title == "" || !IsSpace(title[0])
    requires forall j :: 0 <= j < |title| ==> !IsLineTerminator(title[j])
    requires post == "" || IsLineTerminator(post[0])
    requires title != "" || post == ""
    ensures HeadingLineAt(s, |pre|, level, title)
  {
    var q := |pre| + level + 1;
    if pre != "" {
      assert s[|pre| - 1] == pre[|pre| - 1];
    }
    assert forall j :: |pre| <= j < |pre| + level ==> s[j] == Hashes(level)[j - |pre|];
    assert s[q..] == title + post;
    if title != "" {
      assert s[q] == title[0];
    }
    if post != "" {
      assert s[q + |title|] == post[0];
    }
  }

  lemma TitleAtUnfolded(s: string, p: nat, h: nat, q: nat, e: nat)
    requires p <= |s| && LineStart(s, p)
    requires HashRunEnd(s, p) == h && p + 1 <= h <= p + 6 && h < |s| && IsSpace(s[h])
    requires SkipSpaces(s, h) == q && LineEnd(s, q) == e
    ensures TitleAt(s, p) == Some(TitleMatch(p, s[q..e], e))
  {
  }
}
