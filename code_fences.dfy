/**
 * Fenced code suppression: every match of the lazy pattern
 * "three backticks, anything, three backticks" (dot matching newlines) is
 * replaced, left to right, by as many newlines as the match contained.
 */
module CodeFences {
  import opened TextUtil

  /** Three backticks start at `i`. */
  predicate FenceAt(s: string, i: nat)
  {
    i + 3 <= |s| && s[i] == '`' && s[i + 1] == '`' && s[i + 2] == '`'
  }

  /** The first position at or after `from` where three backticks start. */
  function FindFence(s: string, from: nat): (r: Option<nat>)
    ensures r.Some? ==> from <= r.value && r.value + 3 <= |s| && FenceAt(s, r.value)
    ensures r.Some? ==> forall j :: from <= j < r.value ==> !FenceAt(s, j)
    ensures r.None? ==> forall j :: from <= j ==> !FenceAt(s, j)
    decreases |s| - from
  {
    if from + 3 > |s| then None
    else if FenceAt(s, from) then Some(from)
    else FindFence(s, from + 1)
  }

  /**
   * `content.replaceAll(/`{3}.*?`{3}/gs, m => '\n'.repeat(m.split('\n').length - 1))`.
   * The leftmost opening fence that has a closing fence at least three
   * characters further on starts the match, and the nearest such closing fence
   * ends it. When the first opening fence has no closing fence, no later one
   * has either, so the rest is left alone.
   */
  function StripCodeBlocks(s: string): (r: string)
    ensures |r| <= |s|
    decreases |s|
  {
    match FirstBlock(s)
    case None => s
    case Some(b) => s[..b.start] + Newlines(NewlineCount(s[b.start..b.end])) + StripCodeBlocks(s[b.end..])
  }

  /** Where a fenced block starts and where its closing fence ends. */
  datatype Block = Block(start: nat, end: nat)

  /**
   * The first match of the fence pattern: the first opening fence and the
   * nearest closing fence after it.
   */
  function FirstBlock(s: string): (r: Option<Block>)
    ensures r.Some? ==> r.value.start + 6 <= r.value.end <= |s|
    ensures r.Some? ==> FenceAt(s, r.value.start) && FenceAt(s, r.value.end - 3)
    ensures r.Some? ==> forall j: nat :: j < r.value.start ==> !FenceAt(s, j)
    ensures r.Some? ==> forall j: nat :: r.value.start + 3 <= j < r.value.end - 3 ==> !FenceAt(s, j)
    ensures r.None? ==> forall i, j :: i + 3 <= j && FenceAt(s, i) ==> !FenceAt(s, j)
  {
    match FindFence(s, 0)
    case None => None
    case Some(i) =>
      match FindFence(s, i + 3)
      case None => None
      case Some(j) => Some(Block(i, j + 3))
  }

  /** Stripping keeps the number of newlines, so every line keeps its number. */
  lemma {:induction false} StripPreservesNewlines(s: string)
    ensures NewlineCount(StripCodeBlocks(s)) == NewlineCount(s)
    decreases |s|
  {
    match FirstBlock(s)
    case None =>
    case Some(b) =>
      var head, block, rest := s[..b.start], s[b.start..b.end], s[b.end..];
      var k := NewlineCount(block);
      assert StripCodeBlocks(s) == head + Newlines(k) + StripCodeBlocks(rest);
      StripPreservesNewlines(rest);
      NewlinesCount(k);
      NewlineCountAppend(head + Newlines(k), StripCodeBlocks(rest));
      NewlineCountAppend(head, Newlines(k));
      assert s == head + block + rest;
      NewlineCountAppend(head + block, rest);
      NewlineCountAppend(head, block);
  }

  /** Content without a fence is left exactly as it was. */
  lemma StripWithoutFences(s: string)
    requires forall j :: !FenceAt(s, j)
    ensures StripCodeBlocks(s) == s
  {
  }

  /**
   * A search that finds a fence at `v` finds the same fence in any text that
   * agrees with `s` up to the end of that fence.
   */
  lemma FindFenceOnAgreeingText(s: string, t: string, from: nat, v: nat)
    requires FindFence(s, from) == Some(v)
    requires v + 3 <= |t| && t[..v + 3] == s[..v + 3]
    ensures FindFence(t, from) == Some(v)
  {
    assert forall j: nat :: j <= v ==> FenceAt(t, j) == FenceAt(s, j) by {
      forall j: nat | j <= v
        ensures FenceAt(t, j) == FenceAt(s, j)
      {
        if j + 3 <= v + 3 {
          assert t[j] == t[..v + 3][j] && s[j] == s[..v + 3][j];
          assert t[j + 1] == t[..v + 3][j + 1] && s[j + 1] == s[..v + 3][j + 1];
          assert t[j + 2] == t[..v + 3][j + 2] && s[j + 2] == s[..v + 3][j + 2];
        }
      }
    }
    assert FenceAt(t, v);
  }

  /** A prefix that ends at or after the first match has the same first match. */
  lemma FirstBlockOfPrefix(s: string, e: nat)
    requires FirstBlock(s).Some? && FirstBlock(s).value.end <= e <= |s|
    ensures FirstBlock(s[..e]) == FirstBlock(s)
  {
    var b := FirstBlock(s).value;
    var t := s[..e];
    assert t[..b.end] == s[..b.end];
    var i := b.start;
    assert t[..i + 3] == t[..b.end][..i + 3] && s[..i + 3] == s[..b.end][..i + 3];
    FindFenceOnAgreeingText(s, t, 0, i);
    FindFenceOnAgreeingText(s, t, i + 3, b.end - 3);
  }

  /** Stripping removes the first match first. */
  lemma StripUnfolds(s: string)
    requires FirstBlock(s).Some?
    ensures var b := FirstBlock(s).value;
      StripCodeBlocks(s)
      == s[..b.start] + Newlines(NewlineCount(s[b.start..b.end])) + StripCodeBlocks(s[b.end..])
  {
  }

  /** Cutting the text where no fence overlaps the cut keeps every fence and adds none. */
  lemma FencesOfPrefix(s: string, i: nat)
    requires i <= |s|
    requires forall j: nat :: i < j + 3 ==> !FenceAt(s, j)
    ensures forall j: nat :: FenceAt(s[..i], j) == FenceAt(s, j)
  {
    forall j: nat
      ensures FenceAt(s[..i], j) == FenceAt(s, j)
    {
      if j + 3 <= i {
        assert s[..i][j] == s[j] && s[..i][j + 1] == s[j + 1] && s[..i][j + 2] == s[j + 2];
      }
    }
  }

  /** Dropping a head of the text keeps the tail free of fences. */
  lemma FencesOfSuffix(s: string, d: nat, i: nat)
    requires d <= i <= |s|
    requires forall j: nat :: i < j + 3 ==> !FenceAt(s, j)
    ensures forall j: nat :: i - d < j + 3 ==> !FenceAt(s[d..], j)
  {
    forall j: nat | i - d < j + 3
      ensures !FenceAt(s[d..], j)
    {
      if j + 3 <= |s| - d {
        assert s[d..][j] == s[d + j] && s[d..][j + 1] == s[d + j + 1] && s[d..][j + 2] == s[d + j + 2];
        assert !FenceAt(s, d + j);
      }
    }
  }

  /** Stripping a prefix that holds the first match removes that match first. */
  lemma StripPrefixUnfolds(s: string, e: nat)
    requires FirstBlock(s).Some? && FirstBlock(s).value.end <= e <= |s|
    ensures var b := FirstBlock(s).value;
      StripCodeBlocks(s[..e])
      == s[..b.start] + Newlines(NewlineCount(s[b.start..b.end])) + StripCodeBlocks(s[b.end..e])
  {
    var b := FirstBlock(s).value;
    FirstBlockOfPrefix(s, e);
    assert s[..e][b.end..] == s[b.end..e];
    assert s[..e][..b.start] == s[..b.start] && s[..e][b.start..b.end] == s[b.start..b.end];
  }

  /**
   * `e` ends one of the blocks the global replacement removes: the first
   * one, or one of those it removes from the text after the first.
   */
  predicate BlockEnd(s: string, e: nat)
    decreases |s|
  {
    match FirstBlock(s)
    case None => false
    case Some(b) => e == b.end || (b.end < e && BlockEnd(s[b.end..], e - b.end))
  }

  /** Regrouping a three-part text whose last part is itself split in two. */
  lemma Regroup(x: string, head: string, gap: string, y: string, p: string, q: string)
    requires x == head + gap + y && y == p + q
    ensures x == (head + gap + p) + q
  {
  }



  /** Cutting `s` at `d` and the rest at `e - d`. */
  lemma SuffixSlices(s: string, d: nat, e: nat)
    requires d <= e <= |s|
    ensures s[d..][..e - d] == s[d..e] && s[d..][e - d..] == s[e..]
  {
  }




  /** Stripping the text up to the end of the first match leaves its head and the newlines. */
  lemma StripUpToFirstBlockEnd(s: string)
    requires FirstBlock(s).Some?
    ensures var b := FirstBlock(s).value;
      StripCodeBlocks(s[..b.end]) == s[..b.start] + Newlines(NewlineCount(s[b.start..b.end]))
  {
    var b := FirstBlock(s).value;
    StripPrefixUnfolds(s, b.end);
    assert s[b.end..b.end] == [];
    StripWithoutFences([]);
  }

  /** The replacement splits at the end of its first match. */
  lemma StripSplitsAtFirstBlockEnd(s: string)
    requires FirstBlock(s).Some?
    ensures var e := FirstBlock(s).value.end;
      StripCodeBlocks(s) == StripCodeBlocks(s[..e]) + StripCodeBlocks(s[e..])
  {
    StripUnfolds(s);
    StripUpToFirstBlockEnd(s);
  }

  /**
   * The replacement splits at the end of every removed block: the text up
   * to it is stripped on its own and keeps its number of newlines, so the
   * text after it starts on the line it started on.
   */
  lemma {:induction false} StripSplitsAtBlockEnd(s: string, e: nat)
    requires BlockEnd(s, e)
    ensures e <= |s|
    ensures StripCodeBlocks(s) == StripCodeBlocks(s[..e]) + StripCodeBlocks(s[e..])
    ensures NewlineCount(StripCodeBlocks(s[..e])) == NewlineCount(s[..e])
    decreases |s|
  {
    var b := FirstBlock(s).value;
    if e == b.end {
      StripSplitsAtFirstBlockEnd(s);
    } else {
      var rest := s[b.end..];
      var gap := Newlines(NewlineCount(s[b.start..b.end]));
      StripSplitsAtBlockEnd(rest, e - b.end);
      StripUnfolds(s);
      StripPrefixUnfolds(s, e);
      SuffixSlices(s, b.end, e);
      Regroup(StripCodeBlocks(s), s[..b.start], gap, StripCodeBlocks(rest),
        StripCodeBlocks(s[b.end..e]), StripCodeBlocks(s[e..]));
    }
    StripPreservesNewlines(s[..e]);
  }

  /**
   * Past the last fence, the text comes through the replacement verbatim,
   * after a stripped head with as many newlines as the original head: every
   * line there keeps its number.
   */
  lemma {:induction false} StripFenceFreeTail(s: string, i: nat)
    requires i <= |s|
    requires forall j: nat :: i < j + 3 ==> !FenceAt(s, j)
    ensures StripCodeBlocks(s) == StripCodeBlocks(s[..i]) + s[i..]
    ensures NewlineCount(StripCodeBlocks(s[..i])) == NewlineCount(s[..i])
    decreases |s|
  {
    StripPreservesNewlines(s[..i]);
    match FirstBlock(s)
    case None =>
      FencesOfPrefix(s, i);
    case Some(b) =>
      assert b.end <= i;
      var rest := s[b.end..];
      FencesOfSuffix(s, b.end, i);
      StripFenceFreeTail(rest, i - b.end);
      StripPrefixUnfolds(s, i);
      StripUnfolds(s);
      var gap := Newlines(NewlineCount(s[b.start..b.end]));
      assert rest[..i - b.end] == s[b.end..i] && rest[i - b.end..] == s[i..];
      Regroup(StripCodeBlocks(s), s[..b.start], gap, StripCodeBlocks(rest),
        StripCodeBlocks(s[b.end..i]), s[i..]);
  }
}
