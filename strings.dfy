/** Text operations the services rely on: the literal substring match that
    stands for a `$regex` keyword, the code-unit order MongoDB sorts strings
    by, `String.prototype.split` on one separator character, and ASCII
    upper-casing. */
module Strings {

  /** `p` is a prefix of `s`. */
  predicate StartsWith(s: string, p: string) {
    |p| <= |s| && s[..|p|] == p
  }

  /** `kw` occurs in `s` as a contiguous substring. */
  predicate Contains(s: string, kw: string)
    decreases |s|
  {
    StartsWith(s, kw) || (|s| > 0 && Contains(s[1..], kw))
  }

  /** The empty keyword matches every string, as the empty pattern does. */
  lemma EmptyKeywordMatches(s: string)
    ensures Contains(s, "")
  {
    assert s[..0] == "";
  }

  /** Strict lexicographic order by character code. */
  predicate StrLess(a: string, b: string)
    decreases |a|
  {
    if |a| == 0 then |b| > 0
    else if |b| == 0 then false
    else if a[0] != b[0] then a[0] < b[0]
    else StrLess(a[1..], b[1..])
  }

  lemma {:induction false} StrLessIrreflexive(a: string)
    ensures !StrLess(a, a)
    decreases |a|
  {
    if |a| > 0 {
      StrLessIrreflexive(a[1..]);
    }
  }

  lemma {:induction false} StrLessAsymmetric(a: string, b: string)
    requires StrLess(a, b)
    ensures !StrLess(b, a)
    decreases |a|
  {
    if |a| > 0 && a[0] == b[0] {
      StrLessAsymmetric(a[1..], b[1..]);
    }
  }

  /** Any two different strings are ordered one way or the other. */
  lemma {:induction false} StrLessTotal(a: string, b: string)
    ensures a == b || StrLess(a, b) || StrLess(b, a)
    decreases |a|
  {
    if |a| > 0 && |b| > 0 && a[0] == b[0] {
      StrLessTotal(a[1..], b[1..]);
      if a[1..] == b[1..] {
        assert a == [a[0]] + a[1..] && b == [b[0]] + b[1..];
      }
    }
  }

  lemma {:induction false} StrLessTransitive(a: string, b: string, c: string)
    requires StrLess(a, b) && StrLess(b, c)
    ensures StrLess(a, c)
    decreases |a|
  {
    if |a| > 0 && a[0] == b[0] && b[0] == c[0] {
      StrLessTransitive(a[1..], b[1..], c[1..]);
    }
  }

  /** `s.split(sep)`: the pieces between separators, always at least one
      piece, and more than one exactly when the separator occurs. */
  function Split(s: string, sep: char): (parts: seq<string>)
    ensures |parts| >= 1
    ensures |parts| == 1 <==> sep !in s
    ensures sep !in s ==> parts == [s]
    decreases |s|
  {
    if |s| == 0 then [""]
    else
      var rest := Split(s[1..], sep);
      assert s == [s[0]] + s[1..];
      if s[0] == sep then [""] + rest
      else [[s[0]] + rest[0]] + rest[1..]
  }

  /** `parts.join(sep)`. */
  function Join(parts: seq<string>, sep: char): string
    requires |parts| >= 1
    decreases |parts|
  {
    if |parts| == 1 then parts[0] else parts[0] + [sep] + Join(parts[1..], sep)
  }

  /** Splitting loses nothing: joining the pieces back gives the input. */
  lemma {:induction false} JoinSplit(s: string, sep: char)
    ensures Join(Split(s, sep), sep) == s
    decreases |s|
  {
    if |s| > 0 {
      var c, t := s[0], s[1..];
      var rest := Split(t, sep);
      var parts := Split(s, sep);
      JoinSplit(t, sep);
      assert s == [c] + t;
      if c == sep {
        assert parts == [""] + rest && parts[1..] == rest;
        assert Join(parts, sep) == "" + [sep] + Join(rest, sep);
      } else if |rest| > 1 {
        assert parts == [[c] + rest[0]] + rest[1..] && parts[1..] == rest[1..];
        assert Join(rest, sep) == rest[0] + [sep] + Join(rest[1..], sep);
        assert Join(parts, sep) == ([c] + rest[0]) + [sep] + Join(rest[1..], sep);
      } else {
        assert parts == [[c] + rest[0]];
      }
    }
  }

  /** No piece of a split contains the separator. */
  lemma {:induction false} SplitPiecesFree(s: string, sep: char, i: nat)
    requires i < |Split(s, sep)|
    ensures sep !in Split(s, sep)[i]
    decreases |s|
  {
    if |s| > 0 {
      var rest := Split(s[1..], sep);
      if s[0] == sep {
        if i > 0 { SplitPiecesFree(s[1..], sep, i - 1); }
      } else if i == 0 {
        SplitPiecesFree(s[1..], sep, 0);
      } else {
        SplitPiecesFree(s[1..], sep, i);
      }
    }
  }

  /** The first piece of `a + sep + b` is `a` when `a` holds no separator:
      the text before the first separator. */
  lemma {:induction false} SplitFirst(a: string, sep: char, b: string)
    requires sep !in a
    ensures Split(a + [sep] + b, sep)[0] == a
    decreases |a|
  {
    var s := a + [sep] + b;
    if |a| > 0 {
      assert s[1..] == a[1..] + [sep] + b;
      SplitFirst(a[1..], sep, b);
      assert a == [a[0]] + a[1..];
    } else {
      assert s[0] == sep;
    }
  }

  /** The last piece of a split is the text after the last separator: it
      holds no separator and, when the separator occurs, a separator stands
      just before it. */
  lemma SplitLast(s: string, sep: char)
    ensures var parts := Split(s, sep);
      var last := parts[|parts| - 1];
      && sep !in last
      && |last| <= |s|
      && s[|s| - |last|..] == last
      && (sep in s ==> |last| < |s| && s[|s| - |last| - 1] == sep)
  {
    var parts := Split(s, sep);
    SplitPiecesFree(s, sep, |parts| - 1);
    SplitLastPlace(s, sep);
  }

  /** Where the last piece of a split sits in the input. */
  lemma {:induction false} SplitLastPlace(s: string, sep: char)
    ensures var parts := Split(s, sep);
      var last := parts[|parts| - 1];
      && |last| <= |s|
      && s[|s| - |last|..] == last
      && (sep in s ==> |last| < |s| && s[|s| - |last| - 1] == sep)
    decreases |s|
  {
    if |s| > 0 {
      var rest := Split(s[1..], sep);
      if |rest| == 1 {
        SplitLastOnePiece(s, sep);
      } else {
        SplitLastPlace(s[1..], sep);
        SplitLastStep(s, sep);
      }
    }
  }

  /** The base of SplitLastPlace: the tail holds no separator. */
  lemma SplitLastOnePiece(s: string, sep: char)
    requires |s| > 0 && |Split(s[1..], sep)| == 1
    ensures var parts := Split(s, sep);
      var last := parts[|parts| - 1];
      && |last| <= |s|
      && s[|s| - |last|..] == last
      && (sep in s ==> |last| < |s| && s[|s| - |last| - 1] == sep)
  {
    var t := s[1..];
    assert sep !in t && Split(t, sep) == [t];
    assert s == [s[0]] + t;
    if s[0] == sep {
      assert Split(s, sep) == [""] + [t];
    } else {
      assert Split(s, sep) == [[s[0]] + t];
    }
  }

  /** The step of SplitLastPlace: the last piece of the tail is the last
      piece of the whole, and sits at the same distance from the end. */
  lemma SplitLastStep(s: string, sep: char)
    requires |s| > 0 && |Split(s[1..], sep)| > 1
    requires var rest := Split(s[1..], sep);
      var last := rest[|rest| - 1];
      && |last| < |s[1..]|
      && s[1..][|s[1..]| - |last|..] == last
      && s[1..][|s[1..]| - |last| - 1] == sep
    ensures var parts := Split(s, sep);
      var last := parts[|parts| - 1];
      && |last| < |s|
      && s[|s| - |last|..] == last
      && s[|s| - |last| - 1] == sep
  {
    var t := s[1..];
    var rest := Split(t, sep);
    var last := rest[|rest| - 1];
    assert Split(s, sep)[|Split(s, sep)| - 1] == last;
    assert s[|s| - |last|..] == t[|t| - |last|..];
    assert s[|s| - |last| - 1] == t[|t| - |last| - 1];
  }

  /** ASCII upper-casing of one character. */
  function UpperChar(c: char): char {
    if 'a' <= c <= 'z' then (c as int - 'a' as int + 'A' as int) as char else c
  }

  /** `s.toLocaleUpperCase()` on ASCII letters. */
  function Upper(s: string): (r: string)
    ensures |r| == |s|
    ensures forall i :: 0 <= i < |s| ==> r[i] == UpperChar(s[i])
  {
    seq(|s|, i requires 0 <= i < |s| => UpperChar(s[i]))
  }

  /** Upper-casing twice changes nothing more. */
  lemma UpperIdempotent(s: string)
    ensures Upper(Upper(s)) == Upper(s)
  {
  }
}
