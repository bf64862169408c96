/**
 * The java.lang.String operations the plugin relies on, over `seq<char>`:
 * `endsWith`, `contains`, `String.join` with a one-character separator and
 * `String.split` with a one-character separator that is not special in a
 * regular expression (or is escaped, as in "\\."), with the default limit 0.
 */
module JavaStrings {

  predicate StartsWith(s: string, prefix: string) {
    |prefix| <= |s| && s[..|prefix|] == prefix
  }

  predicate EndsWith(s: string, suffix: string) {
    |suffix| <= |s| && s[|s| - |suffix|..] == suffix
  }

  /** `s.contains(part)`: `part` occurs at some position of `s`. */
  predicate Contains(s: string, part: string)
    decreases |s|
  {
    StartsWith(s, part) || (|s| > 0 && Contains(s[1..], part))
  }

  /** Position of the first `c` in `s` (`s.indexOf(c)` when it is found). */
  function IndexOf(s: string, c: char): (i: nat)
    requires c in s
    ensures i < |s| && s[i] == c
  {
    if s[0] == c then 0 else 1 + IndexOf(s[1..], c)
  }

  /** No `c` comes before `IndexOf(s, c)`. */
  lemma {:induction false} IndexOfIsFirst(s: string, c: char)
    requires c in s
    ensures forall j :: 0 <= j < IndexOf(s, c) ==> s[j] != c
    decreases |s|
  {
    if s[0] != c {
      IndexOfIsFirst(s[1..], c);
    }
  }

  /** Number of occurrences of `c` in `s`. */
  function Occurrences(s: string, c: char): nat {
    if s == [] then 0 else (if s[0] == c then 1 else 0) + Occurrences(s[1..], c)
  }

  lemma {:induction false} OccurrencesConcat(a: string, b: string, c: char)
    ensures Occurrences(a + b, c) == Occurrences(a, c) + Occurrences(b, c)
    decreases |a|
  {
    if a == [] {
      assert a + b == b;
    } else {
      assert (a + b)[1..] == a[1..] + b;
      OccurrencesConcat(a[1..], b, c);
    }
  }

  /** `c` occurs nowhere exactly when it is counted zero times. */
  lemma {:induction false} OccurrencesZero(s: string, c: char)
    ensures Occurrences(s, c) == 0 <==> c !in s
    decreases |s|
  {
    if s != [] {
      OccurrencesZero(s[1..], c);
      assert s == [s[0]] + s[1..];
    }
  }

  /** The first `c` is counted once; the others all come after it. */
  lemma {:induction false} OccurrencesAfterFirst(s: string, c: char)
    requires c in s
    ensures Occurrences(s, c) == 1 + Occurrences(s[IndexOf(s, c) + 1..], c)
    decreases |s|
  {
    if s[0] != c {
      OccurrencesAfterFirst(s[1..], c);
      assert s[1..][IndexOf(s[1..], c) + 1..] == s[IndexOf(s, c) + 1..];
    }
  }

  /**
   * Every piece of `s` between occurrences of `sep`, empty pieces included:
   * the list `Pattern.split` builds before it drops trailing empty pieces.
   * A separator in front starts a new (empty) piece; any other character is
   * added to the front of the first piece of the rest.
   */
  function Pieces(s: string, sep: char): (r: seq<string>)
    ensures |r| >= 1
    decreases |s|
  {
    if s == [] then [""]
    else
      var rest := Pieces(s[1..], sep);
      if s[0] == sep then [""] + rest
      else [[s[0]] + rest[0]] + rest[1..]
  }

  /** No piece holds the separator. */
  lemma {:induction false} PiecesHaveNoSeparator(s: string, sep: char)
    ensures forall k :: 0 <= k < |Pieces(s, sep)| ==> sep !in Pieces(s, sep)[k]
    decreases |s|
  {
    if s != [] {
      PiecesHaveNoSeparator(s[1..], sep);
    }
  }

  /** A string without the separator is its own only piece. */
  lemma {:induction false} PiecesWithoutSeparator(s: string, sep: char)
    requires sep !in s
    ensures Pieces(s, sep) == [s]
    decreases |s|
  {
    if s != [] {
      assert sep !in s[1..];
      PiecesWithoutSeparator(s[1..], sep);
      assert s == [s[0]] + s[1..];
    }
  }

  /** Pieces of two strings put together around a separator are the pieces of each. */
  lemma {:induction false} PiecesOfConcat(a: string, b: string, sep: char)
    ensures Pieces(a + [sep] + b, sep) == Pieces(a, sep) + Pieces(b, sep)
    decreases |a|
  {
    var s := a + [sep] + b;
    if a == [] {
      assert s[1..] == b;
    } else {
      assert s[0] == a[0] && s[1..] == a[1..] + [sep] + b;
      PiecesOfConcat(a[1..], b, sep);
      var x, y := Pieces(a[1..], sep), Pieces(b, sep);
      if a[0] != sep {
        assert (x + y)[0] == x[0];
        assert (x + y)[1..] == x[1..] + y;
      }
    }
  }

  /** One unfolding of `Pieces` at the first separator. */
  lemma PiecesAtFirst(s: string, sep: char)
    requires sep in s
    ensures Pieces(s, sep) == [s[..IndexOf(s, sep)]] + Pieces(s[IndexOf(s, sep) + 1..], sep)
  {
    var i := IndexOf(s, sep);
    IndexOfIsFirst(s, sep);
    assert s == s[..i] + [sep] + s[i + 1..];
    PiecesOfConcat(s[..i], s[i + 1..], sep);
    PiecesWithoutSeparator(s[..i], sep);
  }

  /** A string with one separator has two pieces, the text on each side of it. */
  lemma PiecesOfSingleSeparator(s: string, sep: char)
    requires Occurrences(s, sep) == 1
    ensures sep in s
    ensures Pieces(s, sep) == [s[..IndexOf(s, sep)], s[IndexOf(s, sep) + 1..]]
  {
    OccurrencesZero(s, sep);
    OccurrencesAfterFirst(s, sep);
    OccurrencesZero(s[IndexOf(s, sep) + 1..], sep);
    PiecesAtFirst(s, sep);
    PiecesWithoutSeparator(s[IndexOf(s, sep) + 1..], sep);
  }

  /** The first piece is the text before the first separator, or all of `s`. */
  lemma FirstPiece(s: string, sep: char)
    ensures Pieces(s, sep)[0] == if sep in s then s[..IndexOf(s, sep)] else s
  {
    if sep in s {
      PiecesAtFirst(s, sep);
    } else {
      PiecesWithoutSeparator(s, sep);
    }
  }

  /** The longest prefix of `xs` that does not end with an empty string. */
  function DropTrailingEmpty(xs: seq<string>): (r: seq<string>)
    ensures |r| <= |xs| && r == xs[..|r|]
    ensures r == [] || r[|r| - 1] != ""
    ensures forall k :: |r| <= k < |xs| ==> xs[k] == ""
  {
    if xs == [] || xs[|xs| - 1] != "" then xs
    else DropTrailingEmpty(xs[..|xs| - 1])
  }

  /**
   * `s.split(sep)`: when `sep` does not occur, the one-element array `[s]`
   * (so `"".split(":")` is `[""]`); otherwise the pieces between separators
   * with the trailing empty ones removed (so `"a::"` gives `["a"]` and `"::"`
   * gives `[]`).
   */
  function Split(s: string, sep: char): (r: seq<string>)
    ensures forall k :: 0 <= k < |r| ==> sep !in r[k]
    ensures |r| > 0 ==> r[0] == if sep in s then s[..IndexOf(s, sep)] else s
    ensures sep !in s ==> r == [s]
    ensures r == [] <==> s != [] && forall k :: 0 <= k < |s| ==> s[k] == sep
  {
    PiecesHaveNoSeparator(s, sep);
    FirstPiece(s, sep);
    NothingButSeparators(s, sep);
    if sep !in s then [s] else DropTrailingEmpty(Pieces(s, sep))
  }

  /** A run of separators breaks into empty pieces only. */
  lemma {:induction false} PiecesOfSeparators(s: string, sep: char)
    requires forall k :: 0 <= k < |s| ==> s[k] == sep
    ensures forall k :: 0 <= k < |Pieces(s, sep)| ==> Pieces(s, sep)[k] == ""
    decreases |s|
  {
    if s != [] {
      assert forall k :: 0 <= k < |s[1..]| ==> s[1..][k] == s[k + 1];
      PiecesOfSeparators(s[1..], sep);
    }
  }

  /** A character other than the separator ends up in some non-empty piece. */
  lemma {:induction false} NonSeparatorMakesPiece(s: string, sep: char, j: nat)
    requires j < |s| && s[j] != sep
    ensures exists k :: 0 <= k < |Pieces(s, sep)| && Pieces(s, sep)[k] != ""
    decreases |s|
  {
    var rest := Pieces(s[1..], sep);
    if s[0] != sep {
      assert Pieces(s, sep)[0] != "";
    } else {
      NonSeparatorMakesPiece(s[1..], sep, j - 1);
      var k :| 0 <= k < |rest| && rest[k] != "";
      assert Pieces(s, sep)[k + 1] == rest[k];
    }
  }

  /** Only a non-empty run of separators leaves no piece once the trailing empty ones are dropped. */
  lemma NothingButSeparators(s: string, sep: char)
    ensures (sep in s && DropTrailingEmpty(Pieces(s, sep)) == []) <==> (s != [] && forall k :: 0 <= k < |s| ==> s[k] == sep)
  {
    var ps := Pieces(s, sep);
    if s != [] && forall k :: 0 <= k < |s| ==> s[k] == sep {
      assert s[0] == sep;
      PiecesOfSeparators(s, sep);
    }
    if sep in s && DropTrailingEmpty(ps) == [] {
      forall j | 0 <= j < |s| ensures s[j] == sep {
        if s[j] != sep {
          NonSeparatorMakesPiece(s, sep, j);
        }
      }
    }
  }

  /** `String.join(sep, xs)` and `Collectors.joining(sep)`. */
  function Join(xs: seq<string>, sep: char): (r: string)
    ensures xs == [] ==> r == ""
    ensures |xs| == 1 ==> r == xs[0]
    ensures |xs| >= 2 ==> |r| > |xs[0]| && r[..|xs[0]|] == xs[0] && r[|xs[0]|] == sep
  {
    if xs == [] then ""
    else if |xs| == 1 then xs[0]
    else xs[0] + [sep] + Join(xs[1..], sep)
  }

  /** A character other than the separator that no piece holds is not in the join either. */
  lemma {:induction false} JoinAvoids(xs: seq<string>, sep: char, c: char)
    requires c != sep && forall k :: 0 <= k < |xs| ==> c !in xs[k]
    ensures c !in Join(xs, sep)
  {
    if |xs| >= 2 {
      JoinAvoids(xs[1..], sep, c);
      assert Join(xs, sep) == xs[0] + [sep] + Join(xs[1..], sep);
    }
  }


  /** `sep` occurs in the joined string exactly at the seams. */
  lemma {:induction false} OccurrencesInJoin(xs: seq<string>, sep: char)
    requires forall k :: 0 <= k < |xs| ==> sep !in xs[k]
    ensures |xs| >= 1 ==> Occurrences(Join(xs, sep), sep) == |xs| - 1
    ensures |xs| <= 1 <==> sep !in Join(xs, sep)
  {
    if |xs| == 1 {
      OccurrencesZero(xs[0], sep);
    } else if |xs| >= 2 {
      OccurrencesInJoin(xs[1..], sep);
      var j := Join(xs[1..], sep);
      assert Join(xs, sep) == xs[0] + ([sep] + j);
      OccurrencesConcat(xs[0], [sep] + j, sep);
      OccurrencesZero(xs[0], sep);
      assert ([sep] + j)[1..] == j;
      assert sep in Join(xs, sep) by { assert Join(xs, sep)[|xs[0]|] == sep; }
    }
  }

  /** Splitting a join on its separator gives back every piece, empty ones included. */
  lemma {:induction false} PiecesOfJoin(xs: seq<string>, sep: char)
    requires |xs| >= 1
    requires forall k :: 0 <= k < |xs| ==> sep !in xs[k]
    ensures Pieces(Join(xs, sep), sep) == xs
  {
    if |xs| >= 2 {
      PiecesOfJoin(xs[1..], sep);
      PiecesOfConcat(xs[0], Join(xs[1..], sep), sep);
      PiecesWithoutSeparator(xs[0], sep);
    } else {
      PiecesWithoutSeparator(xs[0], sep);
    }
  }

  /** Java's `split` inverts `join` when no piece holds the separator and the last piece is not empty. */
  lemma SplitOfJoin(xs: seq<string>, sep: char)
    requires |xs| >= 1 && xs[|xs| - 1] != ""
    requires forall k :: 0 <= k < |xs| ==> sep !in xs[k]
    ensures Split(Join(xs, sep), sep) == xs
  {
    OccurrencesInJoin(xs, sep);
    if |xs| >= 2 {
      PiecesOfJoin(xs, sep);
    }
  }

  /** There is one more piece than separators, and the last is not empty when `s` does not end with `sep`. */
  lemma {:induction false} PiecesCount(s: string, sep: char)
    ensures |Pieces(s, sep)| == Occurrences(s, sep) + 1
    ensures (|s| > 0 && s[|s| - 1] != sep) ==> Pieces(s, sep)[|Pieces(s, sep)| - 1] != ""
    decreases |s|
  {
    if s != [] {
      PiecesCount(s[1..], sep);
      if |s| > 1 {
        assert s[1..][|s[1..]| - 1] == s[|s| - 1];
      }
    }
  }

  /** `split` of a string that does not end with the separator keeps every piece. */
  lemma SplitNoTrailing(s: string, sep: char)
    requires |s| > 0 && s[|s| - 1] != sep
    ensures Split(s, sep) == Pieces(s, sep)
    ensures |Split(s, sep)| == Occurrences(s, sep) + 1
  {
    PiecesCount(s, sep);
    if sep !in s {
      PiecesWithoutSeparator(s, sep);
    }
  }

  /** `b` occurs in `a + b + c`. */
  lemma ContainsConcat(a: string, b: string, c: string)
    ensures Contains(a + b + c, b)
    decreases |a|
  {
    if |a| == 0 {
      assert a + b + c == b + c;
      assert (b + c)[..|b|] == b;
    } else {
      assert (a + b + c)[1..] == a[1..] + b + c;
      ContainsConcat(a[1..], b, c);
    }
  }

  /** A string in which the first character of `part` does not occur cannot contain `part`. */
  lemma NotContainsWithoutFirst(s: string, part: string)
    requires |part| > 0 && part[0] !in s
    ensures !Contains(s, part)
    decreases |s|
  {
    if |s| > 0 {
      assert forall x :: x in s[1..] ==> x in s;
      NotContainsWithoutFirst(s[1..], part);
      assert !StartsWith(s, part) by { if |part| <= |s| { assert s[..|part|][0] == s[0]; } }
    }
  }

  /** Appending the same text to a string and a candidate suffix keeps whether it is a suffix. */
  lemma EndsWithAppended(s: string, suffix: string, tail: string)
    ensures EndsWith(s + tail, suffix + tail) <==> EndsWith(s, suffix)
  {
    var st := s + tail;
    if |suffix| <= |s| {
      assert st[|st| - |suffix + tail|..] == s[|s| - |suffix|..] + tail;
      if EndsWith(st, suffix + tail) {
        assert s[|s| - |suffix|..] == (suffix + tail)[..|suffix|];
      }
    }
  }

  /**
   * When `s` is `head + last` and `head` ends with a character that does not
   * occur in `suffix`, `suffix` is a suffix of `s` only if it is one of `last`.
   */
  lemma EndsWithPastSeparator(head: string, last: string, suffix: string)
    requires |head| > 0 && head[|head| - 1] !in suffix
    ensures EndsWith(head + last, suffix) ==> EndsWith(last, suffix)
  {
    var s := head + last;
    var n := |suffix|;
    if EndsWith(s, suffix) {
      assert forall k :: |s| - n <= k < |s| ==> s[k] == suffix[k - (|s| - n)];
      assert s[|head| - 1] == head[|head| - 1];
      assert s[|head|..] == last;
      assert last[|last| - n..] == s[|s| - n..];
    }
  }

  lemma JoinOfTwo(a: string, b: string, sep: char)
    ensures Join([a, b], sep) == a + [sep] + b
  {
    assert [a, b][1..] == [b];
  }

  lemma JoinOfThree(a: string, b: string, c: string, sep: char)
    ensures Join([a, b, c], sep) == a + [sep] + b + [sep] + c
  {
    assert [a, b, c][1..] == [b, c];
    JoinOfTwo(b, c, sep);
  }

  /** The last piece of a join is a suffix of it. */
  lemma {:induction false} JoinEndsWithLast(xs: seq<string>, sep: char)
    requires |xs| >= 2
    ensures Join(xs, sep) == Join(xs[..|xs| - 1], sep) + [sep] + xs[|xs| - 1]
  {
    if |xs| > 2 {
      JoinEndsWithLast(xs[1..], sep);
      assert xs[1..][..|xs[1..]| - 1] == xs[..|xs| - 1][1..];
    }
  }

  /** A separator after the last piece of a join is dropped by `split`. */
  lemma SplitDropsFinalSeparator(xs: seq<string>, sep: char)
    requires |xs| >= 1 && xs[|xs| - 1] != ""
    requires forall k :: 0 <= k < |xs| ==> sep !in xs[k]
    ensures Split(Join(xs, sep) + [sep], sep) == xs
  {
    var ys := xs + [""];
    JoinEndsWithLast(ys, sep);
    assert ys[..|ys| - 1] == xs;
    var s := Join(ys, sep);
    assert s == Join(xs, sep) + [sep];
    PiecesOfJoin(ys, sep);
    assert sep in s by { assert s[|s| - 1] == sep; }
    assert DropTrailingEmpty(ys) == xs;
  }

  /**
   * An occurrence of `part` ends before a suffix whose first character is not
   * in `part`, when `part` is at least as long as the suffix.
   */
  lemma OccurrenceBeforeSuffix(s: string, part: string, suffix: string)
    requires 0 < |suffix| <= |part|
    requires suffix[0] !in part
    requires EndsWith(s, suffix) && Contains(s, part)
    ensures |s| >= |part| + |suffix|
  {
    var i := ContainsAt(s, part);
    var m := |s| - |suffix|;
    assert s[m] == suffix[0] by { assert s[m..][0] == s[m]; }
    assert forall k :: i <= k < i + |part| ==> s[k] in part by {
      forall k | i <= k < i + |part|
        ensures s[k] in part
      {
        assert s[i..i + |part|][k - i] == s[k];
      }
    }
    assert !(i <= m < i + |part|);
  }

  /** An occurrence of `part` at some position of `s`. */
  lemma {:induction false} ContainsAt(s: string, part: string) returns (i: nat)
    requires Contains(s, part)
    ensures i + |part| <= |s| && s[i..i + |part|] == part
    decreases |s|
  {
    if StartsWith(s, part) {
      i := 0;
    } else {
      var j := ContainsAt(s[1..], part);
      i := j + 1;
      assert s[i..i + |part|] == s[1..][j..j + |part|];
    }
  }
}
