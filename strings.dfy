/**
 * The string operations of Rust's `str` that the status parsers and the
 * branch-name derivation rely on: `split` on a one-character separator,
 * `starts_with` and `trim_start_matches`.  Each is defined here once,
 * together with an independent characterisation (a join that undoes the
 * split, a unique decomposition for the trim).
 */
module Strings {

  /** Number of occurrences of `c` in `s`. */
  function CountChar(s: string, c: char): (n: nat)
    ensures n <= |s|
  {
    if s == [] then 0
    else (if s[0] == c then 1 else 0) + CountChar(s[1..], c)
  }

  /** The count is zero exactly when the character does not occur. */
  lemma {:induction false} CountCharZero(s: string, c: char)
    ensures CountChar(s, c) == 0 <==> c !in s
    decreases |s|
  {
    if s != [] {
      CountCharZero(s[1..], c);
      assert s == [s[0]] + s[1..];
    }
  }

  /**
   * `s.split(sep)` collected into a vector: the maximal pieces of `s`
   * between separators, always at least one (the empty string gives one
   * empty piece, a trailing separator gives a trailing empty piece).
   */
  function Split(s: string, sep: char): (pieces: seq<string>)
    ensures |pieces| == CountChar(s, sep) + 1
    decreases |s|
  {
    if s == [] then [[]]
    else
      var rest := Split(s[1..], sep);
      if s[0] == sep then [[]] + rest
      else [[s[0]] + rest[0]] + rest[1..]
  }

  /** No piece of a split contains the separator. */
  lemma {:induction false} SplitPiecesAvoidSeparator(s: string, sep: char)
    ensures forall i :: 0 <= i < |Split(s, sep)| ==> sep !in Split(s, sep)[i]
    decreases |s|
  {
    if s != [] {
      SplitPiecesAvoidSeparator(s[1..], sep);
      var rest := Split(s[1..], sep);
      if s[0] != sep {
        assert sep !in [s[0]] + rest[0];
      }
    }
  }

  /** The pieces glued back together with `sep` between neighbours. */
  function Join(pieces: seq<string>, sep: char): string
    requires |pieces| > 0
  {
    if |pieces| == 1 then pieces[0]
    else pieces[0] + [sep] + Join(pieces[1..], sep)
  }

  /** Splitting loses nothing: joining the pieces gives back the input. */
  lemma {:induction false} JoinSplit(s: string, sep: char)
    ensures Join(Split(s, sep), sep) == s
    decreases |s|
  {
    if s != [] {
      var rest := Split(s[1..], sep);
      JoinSplit(s[1..], sep);
      if s[0] == sep {
        assert Split(s, sep) == [[]] + rest;
        assert ([[]] + rest)[1..] == rest;
      } else {
        var pieces := [[s[0]] + rest[0]] + rest[1..];
        assert Split(s, sep) == pieces;
        if |rest| == 1 {
          assert Join(pieces, sep) == [s[0]] + rest[0];
        } else {
          assert pieces[1..] == rest[1..];
          assert Join(rest, sep) == rest[0] + [sep] + Join(rest[1..], sep);
          assert Join(pieces, sep) == [s[0]] + rest[0] + [sep] + Join(rest[1..], sep);
        }
        assert s == [s[0]] + s[1..];
      }
    }
  }

  /** A string without the separator is a single piece. */
  lemma {:induction false} SplitWithoutSeparator(s: string, sep: char)
    requires sep !in s
    ensures Split(s, sep) == [s]
    decreases |s|
  {
    if s != [] {
      assert sep !in s[1..];
      SplitWithoutSeparator(s[1..], sep);
      assert s == [s[0]] + s[1..];
    }
  }

  /** A leading piece followed by the separator splits off as its own piece. */
  lemma {:induction false} SplitAfterPiece(w: string, sep: char, t: string)
    requires sep !in w
    ensures Split(w + [sep] + t, sep) == [w] + Split(t, sep)
    decreases |w|
  {
    var s := w + [sep] + t;
    if w == [] {
      assert s == [sep] + t;
      assert s[1..] == t;
    } else {
      var w' := w[1..];
      assert s[1..] == w' + [sep] + t;
      SplitAfterPiece(w', sep, t);
      var rest := Split(s[1..], sep);
      assert rest == [w'] + Split(t, sep);
      assert Split(s, sep) == [[w[0]] + rest[0]] + rest[1..];
      assert [w[0]] + w' == w;
    }
  }

  /** Joining separator-free pieces and splitting again gives the pieces back. */
  lemma {:induction false} SplitJoin(pieces: seq<string>, sep: char)
    requires |pieces| > 0
    requires forall i :: 0 <= i < |pieces| ==> sep !in pieces[i]
    ensures Split(Join(pieces, sep), sep) == pieces
    decreases |pieces|
  {
    if |pieces| == 1 {
      SplitWithoutSeparator(pieces[0], sep);
    } else {
      var tail := pieces[1..];
      assert forall i :: 0 <= i < |tail| ==> sep !in tail[i] by {
        forall i | 0 <= i < |tail| ensures sep !in tail[i] {
          assert tail[i] == pieces[i + 1];
        }
      }
      SplitJoin(tail, sep);
      SplitAfterPiece(pieces[0], sep, Join(tail, sep));
      assert pieces == [pieces[0]] + tail;
    }
  }

  /**
   * Splitting text that is empty or ends with the separator, followed by
   * more text: the empty last piece of the first part merges with the
   * first piece of the second.
   */
  lemma {:induction false} SplitAppend(a: string, b: string, sep: char)
    requires a == [] || a[|a| - 1] == sep
    ensures Split(a + b, sep) == Split(a, sep)[..|Split(a, sep)| - 1] + Split(b, sep)
    decreases |a|
  {
    if a == [] {
      assert a + b == b;
    } else {
      var ab := a + b;
      var a' := a[1..];
      assert ab[0] == a[0] && ab[1..] == a' + b;
      SplitAppend(a', b, sep);
      var q := Split(a', sep);
      var r := Split(a' + b, sep);
      var sb := Split(b, sep);
      if a[0] == sep {
        SplitAppendSeparatorFirst(Split(a, sep), Split(ab, sep), q, r, sb);
      } else {
        assert sep in a' by {
          assert a'[|a'| - 1] == sep;
        }
        CountCharZero(a', sep);
        SplitAppendCharFirst(a[0], Split(a, sep), Split(ab, sep), q, r, sb);
      }
    }
  }

  /** The list bookkeeping of SplitAppend when the text begins with a separator. */
  lemma SplitAppendSeparatorFirst(sa: seq<string>, sab: seq<string>, q: seq<string>, r: seq<string>, sb: seq<string>)
    requires |q| > 0 && sa == [[]] + q && sab == [[]] + r && r == q[..|q| - 1] + sb
    ensures sab == sa[..|sa| - 1] + sb
  {
    assert sa[..|sa| - 1] == [[]] + q[..|q| - 1];
  }

  /** The list bookkeeping of SplitAppend when the text begins with another character. */
  lemma SplitAppendCharFirst(c: char, sa: seq<string>, sab: seq<string>, q: seq<string>, r: seq<string>, sb: seq<string>)
    requires |q| >= 2 && r == q[..|q| - 1] + sb
    requires sa == [[c] + q[0]] + q[1..] && sab == [[c] + r[0]] + r[1..]
    ensures sab == sa[..|sa| - 1] + sb
  {
    assert r[0] == q[0];
    assert r[1..] == q[1..|q| - 1] + sb;
    assert sa[..|sa| - 1] == [[c] + q[0]] + q[1..|q| - 1];
  }

  /** Dropping the last element of `x + y` drops it from `y`. */
  lemma DropLastOfAppend<T>(x: seq<T>, y: seq<T>)
    requires |y| > 0
    ensures (x + y)[..|x + y| - 1] == x + y[..|y| - 1]
  {
  }

  /** Joining peels off the last piece behind a separator. */
  lemma {:induction false} JoinLast(pieces: seq<string>, sep: char)
    requires |pieces| >= 2
    ensures Join(pieces, sep) == Join(pieces[..|pieces| - 1], sep) + [sep] + pieces[|pieces| - 1]
    decreases |pieces|
  {
    var n := |pieces|;
    if n > 2 {
      JoinLast(pieces[1..], sep);
      assert pieces[1..][..n - 2] == pieces[..n - 1][1..];
      assert pieces[1..][n - 2] == pieces[n - 1];
    }
  }

  /** `p` is the text of `s` before the first `c`, or all of `s` when there is none. */
  predicate IsTextBeforeFirst(s: string, c: char, p: string)
  {
    |p| <= |s| && p == s[..|p|] && c !in p && (|p| == |s| || s[|p|] == c)
  }

  /** `p` is the text of `s` after the last `c`, or all of `s` when there is none. */
  predicate IsTextAfterLast(s: string, c: char, p: string)
  {
    |p| <= |s| && p == s[|s| - |p|..] && c !in p && (|p| == |s| || s[|s| - |p| - 1] == c)
  }

  /** The first piece of a split is the text before the first separator. */
  lemma FirstPiece(s: string, sep: char)
    ensures IsTextBeforeFirst(s, sep, Split(s, sep)[0])
  {
    var pieces := Split(s, sep);
    JoinSplit(s, sep);
    SplitPiecesAvoidSeparator(s, sep);
    if |pieces| >= 2 {
      assert s == pieces[0] + ([sep] + Join(pieces[1..], sep));
    }
  }

  /** The last piece of a split is the text after the last separator. */
  lemma LastPiece(s: string, sep: char)
    ensures IsTextAfterLast(s, sep, Split(s, sep)[|Split(s, sep)| - 1])
  {
    var pieces := Split(s, sep);
    JoinSplit(s, sep);
    SplitPiecesAvoidSeparator(s, sep);
    if |pieces| >= 2 {
      JoinLast(pieces, sep);
      assert s == (Join(pieces[..|pieces| - 1], sep) + [sep]) + pieces[|pieces| - 1];
    }
  }

  /** The last piece is empty exactly when the text is empty or ends with the separator. */
  lemma LastPieceEmpty(s: string, sep: char)
    ensures Split(s, sep)[|Split(s, sep)| - 1] == [] <==> (s == [] || s[|s| - 1] == sep)
  {
    LastPiece(s, sep);
  }

  /** Rust's `starts_with`. */
  predicate StartsWith(s: string, prefix: string): (b: bool)
    ensures b <==> |prefix| <= |s| && s == prefix + s[|prefix|..]
  {
    |prefix| <= |s| && s[..|prefix|] == prefix
  }

  /** `k` copies of `p` one after another. */
  function Repeat(p: string, k: nat): string
  {
    if k == 0 then [] else p + Repeat(p, k - 1)
  }

  /**
   * Rust's `trim_start_matches` with a non-empty string pattern: removes
   * the pattern from the front for as long as the text starts with it.
   */
  function TrimStartMatches(s: string, p: string): (r: string)
    requires |p| > 0
    ensures |r| <= |s| && r == s[|s| - |r|..]
    ensures !StartsWith(r, p)
    decreases |s|
  {
    if StartsWith(s, p) then TrimStartMatches(s[|p|..], p) else s
  }

  /** Text that begins with `p` starts with `p`, and dropping `p` leaves the rest. */
  lemma PrefixThenRest(p: string, u: string)
    ensures StartsWith(p + u, p) && (p + u)[|p|..] == u
  {
    assert (p + u)[..|p|] == p;
  }

  /** How many copies of `p` stand one after another at the front of `s`. */
  function LeadingCopies(s: string, p: string): (k: nat)
    requires |p| > 0
    ensures k > 0 <==> StartsWith(s, p)
    decreases |s|
  {
    if StartsWith(s, p) then 1 + LeadingCopies(s[|p|..], p) else 0
  }

  /** The trimmed text is what follows the leading copies of the pattern. */
  lemma {:induction false} TrimStartMatchesStripsCopies(s: string, p: string)
    requires |p| > 0
    ensures s == Repeat(p, LeadingCopies(s, p)) + TrimStartMatches(s, p)
    decreases |s|
  {
    if StartsWith(s, p) {
      var u := s[|p|..];
      TrimStartMatchesStripsCopies(u, p);
      var k := LeadingCopies(u, p);
      var r := TrimStartMatches(u, p);
      assert LeadingCopies(s, p) == k + 1;
      assert TrimStartMatches(s, p) == r;
      assert s == p + u by {
        assert s[..|p|] == p;
      }
      RepeatThenRest(p, k, r);
    } else {
      assert LeadingCopies(s, p) == 0;
      assert TrimStartMatches(s, p) == s;
      assert Repeat(p, 0) + s == s;
    }
  }

  /** One more copy in front: regrouping `p + (Repeat(p, k) + r)`. */
  lemma RepeatThenRest(p: string, k: nat, r: string)
    ensures Repeat(p, k + 1) + r == p + (Repeat(p, k) + r)
  {
    assert Repeat(p, k + 1) == p + Repeat(p, k);
  }

  /**
   * The decomposition is unique: whenever `s` is `k` copies of the pattern
   * followed by text that does not start with it, the trim yields that text.
   */
  lemma {:induction false} TrimStartMatchesUnique(s: string, p: string, k: nat, t: string)
    requires |p| > 0
    requires s == Repeat(p, k) + t && !StartsWith(t, p)
    ensures TrimStartMatches(s, p) == t
    decreases k
  {
    if k > 0 {
      var u := Repeat(p, k - 1) + t;
      assert Repeat(p, k) == p + Repeat(p, k - 1);
      assert s == p + u;
      PrefixThenRest(p, u);
      TrimStartMatchesUnique(u, p, k - 1, t);
    } else {
      assert s == t;
    }
  }
}
