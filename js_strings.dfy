/** The JavaScript string and array operations the gatherer uses, over `seq<char>`:
    `indexOf`, `replace` with a string pattern, `endsWith`, `split` on one
    character and `Array.prototype.join`. */
module JsStrings {

  /** `pat` occurs in `s` starting at index `i`. */
  predicate Occurs(s: string, pat: string, i: int)
  {
    0 <= i && i + |pat| <= |s| && s[i..i + |pat|] == pat
  }

  /** `pat` occurs somewhere in `s`. */
  ghost predicate Contains(s: string, pat: string)
  {
    exists i :: Occurs(s, pat, i)
  }

  /** `s.indexOf(pat, from)`: the first index at or after `from` where `pat` occurs, or -1. */
  function IndexOfFrom(s: string, pat: string, from: nat): (r: int)
    ensures r == -1 || (from <= r && Occurs(s, pat, r))
    ensures forall j :: from <= j && (r == -1 || j < r) ==> !Occurs(s, pat, j)
    decreases |s| - from
  {
    if |s| < from + |pat| then -1
    else if s[from..from + |pat|] == pat then from
    else IndexOfFrom(s, pat, from + 1)
  }

  /** `s.indexOf(pat)`: -1 exactly when `pat` does not occur, otherwise its first occurrence.
      The empty pattern occurs at 0. */
  function IndexOf(s: string, pat: string): (r: int)
    ensures r == -1 <==> !Contains(s, pat)
    ensures r != -1 ==> Occurs(s, pat, r) && forall j :: 0 <= j < r ==> !Occurs(s, pat, j)
  {
    IndexOfFrom(s, pat, 0)
  }

  /** `s.replace(pat, rep)` with a string pattern: only the first occurrence is replaced.
      The `$` substitutions of a replacement string are not modelled; no replacement
      the gatherer uses contains `$`. */
  function ReplaceFirst(s: string, pat: string, rep: string): string
  {
    var i := IndexOf(s, pat);
    if i == -1 then s else s[..i] + rep + s[i + |pat|..]
  }

  /** `s.endsWith(suffix)`. */
  predicate EndsWith(s: string, suffix: string)
  {
    |suffix| <= |s| && s[|s| - |suffix|..] == suffix
  }

  /** `parts.join(sep)`: the parts with `sep` between neighbours; `[].join(sep)` is "". */
  function Join(parts: seq<string>, sep: string): string
  {
    if |parts| == 0 then ""
    else if |parts| == 1 then parts[0]
    else parts[0] + sep + Join(parts[1..], sep)
  }

  /** `s.split(sep)` for a one-character separator: the maximal runs between separators,
      so that "" gives [""] and "a//b" gives ["a", "", "b"]. */
  function Split(s: string, sep: char): (parts: seq<string>)
    ensures |parts| >= 1
  {
    if s == [] then [""]
    else
      var rest := Split(s[1..], sep);
      if s[0] == sep then [""] + rest
      else [[s[0]] + rest[0]] + rest[1..]
  }

  // ---------------------------------------------------------------------------
  // replace

  /** A pattern at the very start is the one that is replaced. */
  lemma ReplaceFirstAtStart(pat: string, t: string, rep: string)
    ensures ReplaceFirst(pat + t, pat, rep) == rep + t
  {
  }

  /** With a one-character pattern, the replaced occurrence is the first one:
      everything after it is kept even if it holds the pattern again. */
  lemma ReplaceFirstAfterFreePrefix(a: string, c: char, b: string, rep: string)
    requires c !in a
    ensures ReplaceFirst(a + [c] + b, [c], rep) == a + rep + b
  {
    var s := a + [c] + b;
    assert s[|a|..|a| + 1] == [c];
    assert Occurs(s, [c], |a|);
    forall j | 0 <= j < |a| ensures !Occurs(s, [c], j) {
      assert s[j..j + 1] == [a[j]];
    }
    var i := IndexOf(s, [c]);
    assert i == |a|;
    assert s[..i] == a && s[i + 1..] == b;
  }

  /** A pattern that does not occur leaves the string unchanged. */
  lemma ReplaceFirstAbsent(s: string, c: char, rep: string)
    requires c !in s
    ensures ReplaceFirst(s, [c], rep) == s
  {
    forall j | 0 <= j < |s| ensures !Occurs(s, [c], j) {
      assert s[j..j + 1] == [s[j]];
    }
  }

  // ---------------------------------------------------------------------------
  // split and join

  lemma JoinCons(c: char, parts: seq<string>, sep: string)
    requires |parts| >= 1
    ensures Join([[c] + parts[0]] + parts[1..], sep) == [c] + Join(parts, sep)
  {
  }

  /** Joining the pieces of a split with the separator gives back the string. */
  lemma {:induction false} SplitJoin(s: string, sep: char)
    ensures Join(Split(s, sep), [sep]) == s
    decreases |s|
  {
    if s != [] {
      var rest := Split(s[1..], sep);
      SplitJoin(s[1..], sep);
      if s[0] == sep {
        assert ([""] + rest)[1..] == rest;
        assert s == [sep] + s[1..];
      } else {
        JoinCons(s[0], rest, [sep]);
        assert s == [s[0]] + s[1..];
      }
    }
  }

  /** No piece of a split contains the separator. */
  lemma {:induction false} SplitPiecesSeparatorFree(s: string, sep: char)
    ensures forall i :: 0 <= i < |Split(s, sep)| ==> sep !in Split(s, sep)[i]
    decreases |s|
  {
    if s != [] {
      SplitPiecesSeparatorFree(s[1..], sep);
      var rest := Split(s[1..], sep);
      var parts := Split(s, sep);
      if s[0] == sep {
        assert parts == [""] + rest;
        forall i | 0 <= i < |parts| ensures sep !in parts[i] {
          if i > 0 {
            assert parts[i] == rest[i - 1];
          }
        }
      } else {
        assert parts == [[s[0]] + rest[0]] + rest[1..];
        forall i | 0 <= i < |parts| ensures sep !in parts[i] {
          if i > 0 {
            assert parts[i] == rest[i];
          }
        }
      }
    }
  }

  /** A string without the separator is one piece. */
  lemma {:induction false} SplitWithoutSeparator(s: string, sep: char)
    requires sep !in s
    ensures Split(s, sep) == [s]
    decreases |s|
  {
    if s != [] {
      SplitWithoutSeparator(s[1..], sep);
      assert s == [s[0]] + s[1..];
    }
  }

  /** One step of `split`: the first character either closes an empty piece or starts
      the first piece of the rest. */
  lemma SplitUnfold(c: char, t: string, sep: char)
    ensures Split([c] + t, sep)
         == (var rest := Split(t, sep); if c == sep then [""] + rest else [[c] + rest[0]] + rest[1..])
  {
    assert ([c] + t)[0] == c;
    assert ([c] + t)[1..] == t;
  }

  /** Growing the first piece commutes with appending further pieces. */
  lemma ExtendFirstPiece(x: string, ra: seq<string>, rb: seq<string>)
    requires |ra| >= 1
    ensures [x + ra[0]] + ra[1..] + rb == [x + (ra + rb)[0]] + (ra + rb)[1..]
  {
    assert (ra + rb)[0] == ra[0];
    assert (ra + rb)[1..] == ra[1..] + rb;
  }

  /** The inductive step of `SplitAppend`: one more character in front of the left side. */
  lemma SplitAppendStep(c: char, a: string, b: string, sep: char)
    requires Split(a + [sep] + b, sep) == Split(a, sep) + Split(b, sep)
    ensures Split([c] + (a + [sep] + b), sep) == Split([c] + a, sep) + Split(b, sep)
  {
    SplitUnfold(c, a + [sep] + b, sep);
    SplitUnfold(c, a, sep);
    if c != sep {
      ExtendFirstPiece([c], Split(a, sep), Split(b, sep));
    }
  }

  /** Splitting at a separator splits the two sides independently. */
  lemma {:induction false} SplitAppend(a: string, b: string, sep: char)
    ensures Split(a + [sep] + b, sep) == Split(a, sep) + Split(b, sep)
    decreases |a|
  {
    if a == [] {
      assert a + [sep] + b == [sep] + b;
      SplitUnfold(sep, b, sep);
    } else {
      SplitAppend(a[1..], b, sep);
      SplitAppendStep(a[0], a[1..], b, sep);
      assert a == [a[0]] + a[1..];
      assert a + [sep] + b == [a[0]] + (a[1..] + [sep] + b);
    }
  }

  /** Splitting a join of separator-free pieces gives the pieces back. */
  lemma {:induction false} JoinSplit(parts: seq<string>, sep: char)
    requires |parts| >= 1
    requires forall i :: 0 <= i < |parts| ==> sep !in parts[i]
    ensures Split(Join(parts, [sep]), sep) == parts
    decreases |parts|
  {
    SplitWithoutSeparator(parts[0], sep);
    if |parts| > 1 {
      var joinedTail := Join(parts[1..], [sep]);
      assert Join(parts, [sep]) == parts[0] + [sep] + joinedTail;
      JoinSplit(parts[1..], sep);
      SplitAppend(parts[0], joinedTail, sep);
      assert parts == [parts[0]] + parts[1..];
    }
  }

  /** The first piece of a split is non-empty exactly when the string starts with
      something other than the separator, and then it starts with that character. */
  lemma SplitHead(s: string, sep: char)
    ensures |Split(s, sep)[0]| > 0 <==> |s| > 0 && s[0] != sep
    ensures |Split(s, sep)[0]| > 0 ==> Split(s, sep)[0][0] == s[0]
  {
  }

  /** The pieces after the first are those of the tail, when the string does not
      start with the separator. */
  lemma SplitTail(s: string, sep: char)
    requires |s| > 0
    ensures Split(s, sep)[1..] == if s[0] == sep then Split(s[1..], sep) else Split(s[1..], sep)[1..]
  {
  }
}
