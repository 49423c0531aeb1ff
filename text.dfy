/**
 * The JavaScript string operations the tooling relies on, over Dafny strings:
 * `startsWith`, `endsWith`, `split` on one character, `trim`, `indexOf` and
 * `replace` with a plain-string pattern (which replaces the first occurrence only).
 */
module Text {
  import opened Wrappers

  /** `s.startsWith(p)` */
  predicate StartsWith(s: string, p: string)
  {
    |p| <= |s| && s[..|p|] == p
  }

  /** `s.endsWith(p)` */
  predicate EndsWith(s: string, p: string)
  {
    |p| <= |s| && s[|s| - |p|..] == p
  }

  /** The pieces glued back together with one separator between neighbours. */
  function Join(pieces: seq<string>, sep: char): string
    requires |pieces| > 0
  {
    if |pieces| == 1 then pieces[0] else pieces[0] + [sep] + Join(pieces[1..], sep)
  }

  /**
   * `s.split(sep)` for a one-character separator: the maximal separator-free
   * pieces, so the empty string gives one empty piece and every separator
   * starts a new piece.
   */
  function Split(s: string, sep: char): (pieces: seq<string>)
    ensures |pieces| > 0
    ensures forall i :: 0 <= i < |pieces| ==> sep !in pieces[i]
    ensures Join(pieces, sep) == s
  {
    if s == [] then [""]
    else
      var rest := Split(s[1..], sep);
      if s[0] == sep then
        [""] + rest
      else
        var pieces := [[s[0]] + rest[0]] + rest[1..];
        assert pieces[1..] == rest[1..];
        assert s == [s[0]] + s[1..];
        pieces
  }

  /** A string without the separator is split into itself alone. */
  lemma {:induction false} SplitNoSeparator(x: string, sep: char)
    requires sep !in x
    ensures Split(x, sep) == [x]
  {
    if x != [] {
      SplitNoSeparator(x[1..], sep);
      assert [x[0]] + x[1..] == x;
    }
  }

  /** A separator-free prefix followed by the separator becomes the first piece. */
  lemma {:induction false} SplitPrefix(x: string, sep: char, y: string)
    requires sep !in x
    ensures Split(x + [sep] + y, sep) == [x] + Split(y, sep)
  {
    var s := x + [sep] + y;
    if x == [] {
      assert s[1..] == y;
    } else {
      assert s[1..] == x[1..] + [sep] + y;
      SplitPrefix(x[1..], sep, y);
      assert [x[0]] + x[1..] == x;
    }
  }

  /** Splitting undoes joining, whenever no piece holds the separator. */
  lemma {:induction false} SplitJoin(pieces: seq<string>, sep: char)
    requires |pieces| > 0
    requires forall i :: 0 <= i < |pieces| ==> sep !in pieces[i]
    ensures Split(Join(pieces, sep), sep) == pieces
  {
    if |pieces| == 1 {
      SplitNoSeparator(pieces[0], sep);
    } else {
      SplitJoin(pieces[1..], sep);
      SplitPrefix(pieces[0], sep, Join(pieces[1..], sep));
      assert [pieces[0]] + pieces[1..] == pieces;
    }
  }

  /** Joining two non-empty piece lists puts one separator between their joins. */
  lemma {:induction false} JoinAppend(a: seq<string>, b: seq<string>, sep: char)
    requires |a| > 0 && |b| > 0
    ensures Join(a + b, sep) == Join(a, sep) + [sep] + Join(b, sep)
  {
    if |a| == 1 {
      assert (a + b)[1..] == b;
    } else {
      assert (a + b)[1..] == a[1..] + b;
      JoinAppend(a[1..], b, sep);
    }
  }

  /** Splitting around one separator splits each side on its own. */
  lemma {:induction false} SplitAround(x: string, sep: char, y: string)
    ensures Split(x + [sep] + y, sep) == Split(x, sep) + Split(y, sep)
  {
    var px, py := Split(x, sep), Split(y, sep);
    assert Join(px + py, sep) == x + [sep] + y by {
      JoinAppend(px, py, sep);
    }
    assert forall i :: 0 <= i < |px + py| ==> sep !in (px + py)[i] by {
      forall i | 0 <= i < |px + py| ensures sep !in (px + py)[i] {
        if i >= |px| {
          assert (px + py)[i] == py[i - |px|];
        }
      }
    }
    SplitJoin(px + py, sep);
  }

  /**
   * The characters `String.prototype.trim` removes: the ECMAScript WhiteSpace
   * and LineTerminator code points.
   */
  predicate IsWhiteSpace(c: char)
  {
    c in WhiteSpace
  }

  const WhiteSpace: set<char> :=
    {'\t', '\n', '\U{000B}', '\U{000C}', '\r', ' ', '\U{00A0}', '\U{1680}',
     '\U{2000}', '\U{2001}', '\U{2002}', '\U{2003}', '\U{2004}', '\U{2005}',
     '\U{2006}', '\U{2007}', '\U{2008}', '\U{2009}', '\U{200A}',
     '\U{2028}', '\U{2029}', '\U{202F}', '\U{205F}', '\U{3000}', '\U{FEFF}'}

  /** The index of the first character at or after `from` that is not white space, or `|s|`. */
  function SkipWhiteSpace(s: string, from: nat): (k: nat)
    requires from <= |s|
    decreases |s| - from
    ensures from <= k <= |s|
    ensures forall i :: from <= i < k ==> IsWhiteSpace(s[i])
    ensures k == |s| || !IsWhiteSpace(s[k])
  {
    if from < |s| && IsWhiteSpace(s[from]) then SkipWhiteSpace(s, from + 1) else from
  }

  /** The end of `s[lo..to]` once its trailing white space is dropped. */
  function BackOverWhiteSpace(s: string, lo: nat, to: nat): (k: nat)
    requires lo <= to <= |s|
    ensures lo <= k <= to
    ensures forall i :: k <= i < to ==> IsWhiteSpace(s[i])
    ensures k == lo || !IsWhiteSpace(s[k - 1])
  {
    if lo < to && IsWhiteSpace(s[to - 1]) then BackOverWhiteSpace(s, lo, to - 1) else to
  }

  /**
   * `s.trim()`: the middle of `s` between its leading and trailing white space,
   * which are all that it removes. It is empty exactly when `s` is all white space, it neither starts nor ends
   * with white space, and a string that already does neither is returned as is.
   */
  function Trim(s: string): (r: string)
    ensures r == [] || (!IsWhiteSpace(r[0]) && !IsWhiteSpace(r[|r| - 1]))
    ensures r == [] <==> forall i :: 0 <= i < |s| ==> IsWhiteSpace(s[i])
    ensures forall c :: c in r ==> c in s
    ensures (s == [] || (!IsWhiteSpace(s[0]) && !IsWhiteSpace(s[|s| - 1]))) ==> r == s
    ensures exists a, b :: 0 <= a <= b <= |s| && r == s[a..b]
                           && (forall i :: 0 <= i < a ==> IsWhiteSpace(s[i]))
                           && (forall i :: b <= i < |s| ==> IsWhiteSpace(s[i]))
  {
    var a := SkipWhiteSpace(s, 0);
    var b := BackOverWhiteSpace(s, a, |s|);
    assert forall i :: b <= i < |s| ==> IsWhiteSpace(s[i]);
    assert forall c :: c in s[a..b] ==> c in s by {
      forall c | c in s[a..b] ensures c in s {
        var i :| 0 <= i < b - a && s[a..b][i] == c;
        assert s[a + i] == c;
      }
    }
    s[a..b]
  }

  /** `p` occurs in `s` starting at index `i`. */
  predicate OccursAt(s: string, p: string, i: int)
  {
    0 <= i && i + |p| <= |s| && s[i..i + |p|] == p
  }

  /** `s.indexOf(p, from)`: the first occurrence of `p` at or after `from`. */
  function IndexFrom(s: string, p: string, from: nat): (r: Option<nat>)
    decreases |s| - from
    ensures r.Some? ==> from <= r.value && OccursAt(s, p, r.value)
    ensures r.Some? ==> forall j :: from <= j < r.value ==> !OccursAt(s, p, j)
    ensures r.None? ==> forall j :: from <= j ==> !OccursAt(s, p, j)
  {
    if from + |p| > |s| then None
    else if s[from..from + |p|] == p then Some(from)
    else IndexFrom(s, p, from + 1)
  }

  /** `s.indexOf(p)`, with `None` for JavaScript's -1. */
  function IndexOf(s: string, p: string): Option<nat>
  {
    IndexFrom(s, p, 0)
  }

  /** `s.replace(p, rep)` for a plain-string pattern and a replacement without `$` patterns. */
  function ReplaceFirst(s: string, p: string, rep: string): string
  {
    match IndexOf(s, p)
    case None => s
    case Some(i) => s[..i] + rep + s[i + |p|..]
  }

  /** `IndexOf` finds an occurrence exactly when it is the first one. */
  lemma IndexOfIsFirst(s: string, p: string, x: nat)
    requires OccursAt(s, p, x)
    requires forall j :: 0 <= j < x ==> !OccursAt(s, p, j)
    ensures IndexOf(s, p) == Some(x)
  {
  }

  /** `IndexOf` finds nothing exactly when there is no occurrence. */
  lemma IndexOfAbsent(s: string, p: string)
    requires forall j :: 0 <= j ==> !OccursAt(s, p, j)
    ensures IndexOf(s, p) == None
  {
  }

  /**
   * Replacing a pattern by some text followed by the same pattern inserts the
   * text just before the first occurrence, and leaves a string without the
   * pattern alone.
   */
  lemma ReplaceFirstInserts(s: string, p: string, t: string)
    ensures IndexOf(s, p).None? ==> ReplaceFirst(s, p, t + p) == s
    ensures IndexOf(s, p).Some? ==>
      var i := IndexOf(s, p).value;
      ReplaceFirst(s, p, t + p) == s[..i] + t + s[i..]
  {
    if IndexOf(s, p).Some? {
      var i := IndexOf(s, p).value;
      assert s[i..] == p + s[i + |p|..];
    }
  }

  /** An occurrence of `p` at `i` fixes the characters of `s` from `i` on. */
  lemma OccursAtChar(s: string, p: string, i: int, k: int)
    ensures OccursAt(s, p, i) && 0 <= k < |p| ==> s[i + k] == p[k]
  {
    if OccursAt(s, p, i) && 0 <= k < |p| {
      assert s[i + k] == s[i..i + |p|][k];
    }
  }
}

