/**
 * Character classes and string helpers shared by the model, stated the way
 * the JavaScript runtime the tool runs on defines them.
 */
module TextUtil {

  datatype Option<+T> = None | Some(value: T)

  datatype Result<+R, +E> = Success(value: R) | Failure(error: E)

  /** The JavaScript `\s` class. */
  predicate IsSpace(c: char)
  {
    c == ' ' || c == '\t' || c == '\n' || c == '\r' || c == '\U{B}' || c == '\U{C}'
    || c == '\U{A0}' || c == '\U{1680}' || ('\U{2000}' <= c <= '\U{200A}')
    || c == '\U{2028}' || c == '\U{2029}' || c == '\U{202F}' || c == '\U{205F}'
    || c == '\U{3000}' || c == '\U{FEFF}'
  }

  /** The JavaScript line terminators: what `.` refuses and where `^`/`$` stop in multiline mode. */
  predicate IsLineTerminator(c: char)
  {
    c == '\n' || c == '\r' || c == '\U{2028}' || c == '\U{2029}'
  }

  /** The number of `'\n'` characters in `s`. */
  function NewlineCount(s: string): (n: nat)
    ensures n <= |s|
  {
    if s == [] then 0
    else (if s[0] == '\n' then 1 else 0) + NewlineCount(s[1..])
  }

  /** The newline count is the multiplicity of `'\n'` in the string. */
  lemma {:induction false} NewlineCountIsMultiplicity(s: string)
    ensures NewlineCount(s) == multiset(s)['\n']
  {
    if s != [] {
      assert s == [s[0]] + s[1..];
      NewlineCountIsMultiplicity(s[1..]);
    }
  }

  lemma {:induction false} NewlineCountAppend(a: string, b: string)
    ensures NewlineCount(a + b) == NewlineCount(a) + NewlineCount(b)
  {
    if a == [] {
      assert a + b == b;
    } else {
      assert (a + b)[1..] == a[1..] + b;
      NewlineCountAppend(a[1..], b);
    }
  }

  /** A string has no newline exactly when its newline count is zero. */
  lemma {:induction false} NewlineFree(s: string)
    ensures NewlineCount(s) == 0 <==> forall j :: 0 <= j < |s| ==> s[j] != '\n'
  {
    if s != [] {
      NewlineFree(s[1..]);
      assert forall j :: 1 <= j < |s| ==> s[j] == s[1..][j - 1];
    }
  }

  /** `n` newline characters, as `'\n'.repeat(n)` builds them. */
  function Newlines(n: nat): (r: string)
    ensures |r| == n
    ensures forall i :: 0 <= i < |r| ==> r[i] == '\n'
  {
    if n == 0 then "" else "\n" + Newlines(n - 1)
  }

  lemma {:induction false} NewlinesCount(n: nat)
    ensures NewlineCount(Newlines(n)) == n
  {
    if n > 0 {
      NewlinesCount(n - 1);
      assert Newlines(n)[1..] == Newlines(n - 1);
    }
  }

  /** `String.prototype.split(sep)` for a one-character separator: the pieces between separators, at least one. */
  function Split(s: string, sep: char): (r: seq<string>)
    ensures |r| >= 1
  {
    if s == [] then [""]
    else
      var rest := Split(s[1..], sep);
      if s[0] == sep then [""] + rest
      else [[s[0]] + rest[0]] + rest[1..]
  }

  /** `pieces.join(sep)`. */
  function JoinWith(pieces: seq<string>, sep: char): string
  {
    if pieces == [] then ""
    else if |pieces| == 1 then pieces[0]
    else pieces[0] + [sep] + JoinWith(pieces[1..], sep)
  }

  /** Splitting and joining again give back the string, and no piece holds the separator. */
  lemma {:induction false} SplitJoinRoundTrip(s: string, sep: char)
    ensures JoinWith(Split(s, sep), sep) == s
    ensures forall k :: 0 <= k < |Split(s, sep)| ==> sep !in Split(s, sep)[k]
  {
    if s != [] {
      SplitJoinRoundTrip(s[1..], sep);
      var rest := Split(s[1..], sep);
      if s[0] == sep {
        assert Split(s, sep)[1..] == rest;
      } else {
        var r := Split(s, sep);
        assert r[0] == [s[0]] + rest[0];
        if |rest| == 1 {
          assert JoinWith(r, sep) == [s[0]] + rest[0];
        } else {
          assert r[1..] == rest[1..];
          assert JoinWith(rest, sep) == rest[0] + [sep] + JoinWith(rest[1..], sep);
        }
        forall k | 0 <= k < |r| ensures sep !in r[k] {
          if k > 0 {
            assert r[k] == rest[k];
          }
        }
      }
    }
  }

  /** A string without the separator splits into itself. */
  lemma {:induction false} SplitWithoutSeparator(s: string, sep: char)
    requires sep !in s
    ensures Split(s, sep) == [s]
  {
    if s != [] {
      SplitWithoutSeparator(s[1..], sep);
      assert [s[0]] + s[1..] == s;
    }
  }

  /** How splitting treats the first character. */
  lemma SplitCons(c: char, rest: string, sep: char)
    ensures Split([c] + rest, sep)
      == if c == sep then [""] + Split(rest, sep) else [[c] + Split(rest, sep)[0]] + Split(rest, sep)[1..]
  {
    assert ([c] + rest)[0] == c && ([c] + rest)[1..] == rest;
  }

  /** Regrouping split pieces when a character joins the first one. */
  lemma ConsPieces(c: char, ra: seq<string>, rb: seq<string>)
    requires |ra| >= 1
    ensures [[c] + (ra + rb)[0]] + (ra + rb)[1..] == ([[c] + ra[0]] + ra[1..]) + rb
  {
    assert (ra + rb)[0] == ra[0] && (ra + rb)[1..] == ra[1..] + rb;
  }

  /** Splitting at a separator between two texts splits each of them. */
  lemma {:induction false} SplitAtSeparator(a: string, b: string, sep: char)
    ensures Split(a + [sep] + b, sep) == Split(a, sep) + Split(b, sep)
  {
    if a == [] {
      assert a + [sep] + b == [sep] + b;
      SplitCons(sep, b, sep);
    } else {
      var c, tail := a[0], a[1..];
      var middle := tail + [sep] + b;
      assert a == [c] + tail && a + [sep] + b == [c] + middle;
      SplitAtSeparator(tail, b, sep);
      SplitCons(c, middle, sep);
      SplitCons(c, tail, sep);
      if c == sep {
        assert [""] + (Split(tail, sep) + Split(b, sep)) == ([""] + Split(tail, sep)) + Split(b, sep);
      } else {
        ConsPieces(c, Split(tail, sep), Split(b, sep));
      }
    }
  }

  /** Joining one more piece puts a separator before it, unless it is the only one. */
  lemma {:induction false} JoinWithSnoc(pieces: seq<string>, last: string, sep: char)
    ensures JoinWith(pieces + [last], sep) == if pieces == [] then last else JoinWith(pieces, sep) + [sep] + last
  {
    if |pieces| > 1 {
      JoinWithSnoc(pieces[1..], last, sep);
      assert (pieces + [last])[1..] == pieces[1..] + [last];
    } else if |pieces| == 1 {
      assert pieces + [last] == [pieces[0], last];
      assert [pieces[0], last][1..] == [last];
    }
  }

  /**
   * `split('\n')` yields one piece more than there are newlines, and its last
   * piece is the text after the last newline: a suffix of `s` free of newlines
   * that is either all of `s` or preceded by a newline.
   */
  lemma {:induction false} SplitLinesShape(s: string)
    ensures |Split(s, '\n')| == 1 + NewlineCount(s)
    ensures var last := Split(s, '\n')[|Split(s, '\n')| - 1];
      && |last| <= |s|
      && s[|s| - |last|..] == last
      && (forall j :: |s| - |last| <= j < |s| ==> s[j] != '\n')
      && (|last| == |s| || s[|s| - |last| - 1] == '\n')
  {
    if s != [] {
      SplitLinesShape(s[1..]);
      var rest := Split(s[1..], '\n');
      var last' := rest[|rest| - 1];
      if s[0] != '\n' && |rest| == 1 {
        NewlineFree(s[1..]);
        assert |last'| == |s| - 1;
        assert Split(s, '\n') == [[s[0]] + last'];
      } else {
        assert Split(s, '\n')[|Split(s, '\n')| - 1] == last';
        assert s[|s| - |last'|..] == s[1..][|s| - 1 - |last'|..];
        if |last'| < |s| - 1 {
          assert s[|s| - |last'| - 1] == s[1..][|s| - 1 - |last'| - 1];
        } else if s[0] != '\n' {
          NewlineFree(s[1..]);
        }
      }
    }
  }
}
