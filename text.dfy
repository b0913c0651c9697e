/** The .NET string operations the thumbnail function relies on, on
    `string` = `seq<char>`: ordinal `String.Replace`, `String.Split` on one
    separator character, invariant (ASCII) `ToLower`, and `Int32.ToString`
    as used by string concatenation. */
module Text {
  import opened Wrappers

  // ---------------------------------------------------------------------
  // Occurrences of a pattern
  // ---------------------------------------------------------------------

  /** `pat` occurs in `s` starting at index `i` (ordinal comparison). */
  predicate OccursAt(pat: string, s: string, i: int) {
    0 <= i && i + |pat| <= |s| && s[i..i + |pat|] == pat
  }

  /** `pat` occurs somewhere in `s`, searched from the left. */
  predicate Occurs(pat: string, s: string)
    decreases |s|
  {
    |pat| <= |s| && (s[..|pat|] == pat || Occurs(pat, s[1..]))
  }

  /** The search finds `pat` exactly when it occurs at some index. */
  lemma {:induction false} OccursSomewhere(pat: string, s: string)
    ensures Occurs(pat, s) <==> exists i :: OccursAt(pat, s, i)
    decreases |s|
  {
    if pat == [] {
      assert OccursAt(pat, s, 0);
    } else if |pat| <= |s| {
      OccursSomewhere(pat, s[1..]);
      if s[..|pat|] == pat {
        assert OccursAt(pat, s, 0);
      }
      if Occurs(pat, s[1..]) {
        var i :| OccursAt(pat, s[1..], i);
        OccursInTail(pat, s, i);
      }
      if i :| OccursAt(pat, s, i) {
        if i > 0 {
          assert s[1..][i - 1..i - 1 + |pat|] == s[i..i + |pat|];
          assert OccursAt(pat, s[1..], i - 1);
        } else {
          assert s[..|pat|] == pat;
        }
      }
    } else {
      if i :| OccursAt(pat, s, i) {
        assert false;
      }
    }
  }

  /** Every character of a pattern that occurs in `s` is a character of `s`. */
  lemma {:induction false} OccursContains(pat: string, s: string, j: int)
    requires Occurs(pat, s) && 0 <= j < |pat|
    ensures pat[j] in s
    decreases |s|
  {
    if s[..|pat|] == pat {
      assert s[j] == pat[j];
    } else {
      OccursContains(pat, s[1..], j);
    }
  }

  /** A pattern with a character that `s` lacks does not occur in `s`. */
  lemma AbsentCharNoOccurrence(pat: string, s: string, j: int)
    requires 0 <= j < |pat| && pat[j] !in s
    ensures !Occurs(pat, s)
  {
    if Occurs(pat, s) {
      OccursContains(pat, s, j);
    }
  }

  /** An occurrence in the tail `s[1..]` is an occurrence in `s`, one further on. */
  lemma OccursInTail(pat: string, s: string, i: int)
    requires |s| >= 1 && OccursAt(pat, s[1..], i)
    ensures OccursAt(pat, s, i + 1)
  {
    assert s[1..][i..i + |pat|] == s[i + 1..i + 1 + |pat|];
  }

  // ---------------------------------------------------------------------
  // String.Replace (ordinal)
  // ---------------------------------------------------------------------

  /** Replaces every non-overlapping occurrence of `oldValue`, scanning left
      to right, by `newValue`; the scan resumes after each replaced match. */
  function ReplaceAll(s: string, oldValue: string, newValue: string): string
    requires oldValue != []
    decreases |s|
  {
    if |s| < |oldValue| then s
    else if s[..|oldValue|] == oldValue then newValue + ReplaceAll(s[|oldValue|..], oldValue, newValue)
    else [s[0]] + ReplaceAll(s[1..], oldValue, newValue)
  }

  /** `s.Replace(oldValue, newValue)`: throws (here `None`) when `oldValue`
      is empty, otherwise replaces all occurrences. */
  function Replace(s: string, oldValue: string, newValue: string): (r: Option<string>)
    ensures r.None? <==> oldValue == []
  {
    if oldValue == [] then None else Some(ReplaceAll(s, oldValue, newValue))
  }

  /** Without an occurrence there is nothing to replace. */
  lemma {:induction false} ReplaceAbsent(s: string, oldValue: string, newValue: string)
    requires oldValue != []
    ensures !Occurs(oldValue, s) ==> ReplaceAll(s, oldValue, newValue) == s
    decreases |s|
  {
    if |s| >= |oldValue| && !Occurs(oldValue, s) {
      ReplaceAbsent(s[1..], oldValue, newValue);
      assert [s[0]] + s[1..] == s;
    }
  }

  /** Replacing a pattern by itself changes nothing. */
  lemma {:induction false} ReplaceSelf(s: string, oldValue: string)
    requires oldValue != []
    ensures ReplaceAll(s, oldValue, oldValue) == s
    decreases |s|
  {
    if |s| >= |oldValue| {
      if s[..|oldValue|] == oldValue {
        ReplaceSelf(s[|oldValue|..], oldValue);
        assert s[..|oldValue|] + s[|oldValue|..] == s;
      } else {
        ReplaceSelf(s[1..], oldValue);
        assert [s[0]] + s[1..] == s;
      }
    }
  }

  /** A match at the very start is replaced, and the scan goes on after it. */
  lemma ReplaceLeading(y: string, oldValue: string, newValue: string)
    requires oldValue != []
    ensures ReplaceAll(oldValue + y, oldValue, newValue) == newValue + ReplaceAll(y, oldValue, newValue)
  {
    var s := oldValue + y;
    assert s[..|oldValue|] == oldValue;
    assert s[|oldValue|..] == y;
  }

  /** A pattern that occurs in `x + oldValue` only at the very end is replaced
      there and nowhere else. */
  lemma {:induction false} ReplaceTrailing(x: string, oldValue: string, newValue: string)
    requires oldValue != []
    requires !Occurs(oldValue, x + oldValue[..|oldValue| - 1])
    ensures ReplaceAll(x + oldValue, oldValue, newValue) == x + newValue
    decreases |x|
  {
    if x == [] {
      assert x + oldValue == oldValue + [];
      ReplaceLeading([], oldValue, newValue);
    } else {
      var q := oldValue[..|oldValue| - 1];
      ShiftAppend(x, q);
      ShiftAppend(x, oldValue);
      SamePrefix(x, oldValue);
      // no match at the start of x + oldValue, and none in the tail before the end
      ReplaceTrailing(x[1..], oldValue, newValue);
      assert [x[0]] + (x[1..] + newValue) == x + newValue;
    }
  }

  /** `x + p` and `x + p[..|p| - 1]` agree on their first `|p|` characters. */
  lemma SamePrefix(x: string, p: string)
    requires x != [] && p != []
    ensures (x + p[..|p| - 1])[..|p|] == (x + p)[..|p|]
  {
    var a, b := x + p[..|p| - 1], x + p;
    forall k | 0 <= k < |p| ensures a[k] == b[k] {
      if k >= |x| {
        assert a[k] == p[k - |x|];
      }
    }
  }

  /** Dropping the first element of a non-empty concatenation. */
  lemma ShiftAppend(x: string, y: string)
    requires x != []
    ensures (x + y)[1..] == x[1..] + y
    ensures [x[0]] + x[1..] == x
  {
  }

  /** `s` with every `c` taken out: the reference for deleting one character. */
  function Without(s: string, c: char): (r: string)
    ensures |r| <= |s|
    ensures forall x :: x in r <==> x in s && x != c
  {
    if s == [] then []
    else if s[0] == c then Without(s[1..], c)
    else [s[0]] + Without(s[1..], c)
  }

  /** Replacing a one-character pattern by the empty string deletes that character. */
  lemma {:induction false} ReplaceCharByEmpty(s: string, c: char)
    ensures ReplaceAll(s, [c], []) == Without(s, c)
    decreases |s|
  {
    if s != [] {
      ReplaceCharByEmpty(s[1..], c);
      assert s[..1] == [s[0]];
    }
  }

  /** Deleting a character that is not there changes nothing. */
  lemma {:induction false} WithoutAbsent(s: string, c: char)
    requires c !in s
    ensures Without(s, c) == s
    decreases |s|
  {
    if s != [] {
      WithoutAbsent(s[1..], c);
      assert [s[0]] + s[1..] == s;
    }
  }

  // ---------------------------------------------------------------------
  // String.Split(char) and the last segment
  // ---------------------------------------------------------------------

  /** `s.Split(sep)`: the maximal `sep`-free pieces between separators; there
      is always at least one (possibly empty) piece. */
  function Split(s: string, sep: char): (r: seq<string>)
    ensures |r| >= 1
    ensures forall i :: 0 <= i < |r| ==> sep !in r[i]
    decreases |s|
  {
    if s == [] then [[]]
    else
      var rest := Split(s[1..], sep);
      if s[0] == sep then [[]] + rest
      else [[s[0]] + rest[0]] + rest[1..]
  }

  /** `String.Join(sep, parts)`. */
  function Join(parts: seq<string>, sep: char): string
    requires |parts| >= 1
  {
    if |parts| == 1 then parts[0] else parts[0] + [sep] + Join(parts[1..], sep)
  }

  /** Joining the pieces back with the separator gives the original string. */
  lemma {:induction false} JoinSplit(s: string, sep: char)
    ensures Join(Split(s, sep), sep) == s
    decreases |s|
  {
    if s != [] {
      var rest := Split(s[1..], sep);
      JoinSplit(s[1..], sep);
      if s[0] == sep {
        assert ([[]] + rest)[1..] == rest;
      } else {
        var r := [[s[0]] + rest[0]] + rest[1..];
        if |rest| == 1 {
          assert Join(r, sep) == [s[0]] + rest[0];
        } else {
          assert r[1..] == rest[1..];
          assert Join(rest, sep) == rest[0] + [sep] + Join(rest[1..], sep);
        }
      }
    }
  }

  /** A separator-free prefix is glued onto the first piece. */
  lemma {:induction false} SplitFreePrefix(a: string, t: string, sep: char)
    requires sep !in a
    ensures Split(a + t, sep) == [a + Split(t, sep)[0]] + Split(t, sep)[1..]
    decreases |a|
  {
    if a == [] {
      assert a + t == t;
      var r := Split(t, sep);
      assert [r[0]] + r[1..] == r;
      assert a + r[0] == r[0];
    } else {
      assert (a + t)[1..] == a[1..] + t;
      SplitFreePrefix(a[1..], t, sep);
      assert [a[0]] + (a[1..] + Split(t, sep)[0]) == a + Split(t, sep)[0];
    }
  }

  /** Splitting undoes joining separator-free pieces. */
  lemma {:induction false} SplitJoin(parts: seq<string>, sep: char)
    requires |parts| >= 1
    requires forall i :: 0 <= i < |parts| ==> sep !in parts[i]
    ensures Split(Join(parts, sep), sep) == parts
    decreases |parts|
  {
    if |parts| == 1 {
      SplitFreePrefix(parts[0], [], sep);
      assert parts[0] + [] == parts[0];
    } else {
      var j := Join(parts[1..], sep);
      SplitJoin(parts[1..], sep);
      assert parts[0] + [sep] + j == parts[0] + ([sep] + j);
      SplitFreePrefix(parts[0], [sep] + j, sep);
      assert ([sep] + j)[1..] == j;
      assert Split([sep] + j, sep) == [[]] + parts[1..];
      assert parts[0] + [] == parts[0];
      assert [parts[0]] + parts[1..] == parts;
    }
  }

  /** The last piece of the split: `s.Split(sep)[s.Split(sep).Length - 1]`. */
  function LastSegment(s: string, sep: char): (f: string)
    ensures |f| <= |s| && f == s[|s| - |f|..]
    ensures sep !in f
    ensures |f| < |s| ==> s[|s| - |f| - 1] == sep
    ensures f == [] <==> s == [] || s[|s| - 1] == sep
  {
    var parts := Split(s, sep);
    LastOfSplit(s, sep);
    parts[|parts| - 1]
  }

  /** The last piece is the separator-free suffix after the last separator. */
  lemma {:induction false} LastOfSplit(s: string, sep: char)
    ensures var parts := Split(s, sep); var f := parts[|parts| - 1];
      |f| <= |s| && f == s[|s| - |f|..] && sep !in f &&
      (|f| < |s| ==> s[|s| - |f| - 1] == sep) &&
      (|parts| > 1 ==> |f| < |s|)
    decreases |s|
  {
    if s != [] {
      var rest := Split(s[1..], sep);
      LastOfSplit(s[1..], sep);
      var parts := Split(s, sep);
      if |rest| == 1 {
        JoinSplit(s[1..], sep);
        assert rest[0] == s[1..];
        if s[0] != sep {
          assert rest[1..] == [];
          assert [s[0]] + s[1..] == s;
          assert parts == [s];
        }
      } else {
        assert parts[|parts| - 1] == rest[|rest| - 1];
      }
    }
  }

  /** A suffix of `s` reaching back to index `j` contains `s[j]`. */
  lemma SuffixReaches(s: string, g: string, j: int)
    requires 0 <= j < |s| && |s| - j <= |g| <= |s| && g == s[|s| - |g|..]
    ensures s[j] in g
  {
    assert g[j - (|s| - |g|)] == s[j];
  }

  /** The last segment of `d/f`, or of `f` alone, is `f` when `f` has no separator. */
  lemma LastSegmentOfPath(d: string, f: string, sep: char)
    requires sep !in f
    ensures LastSegment(d + [sep] + f, sep) == f
    ensures LastSegment(f, sep) == f
  {
    var s := d + [sep] + f;
    var g := LastSegment(s, sep);
    assert s[|s| - |f| - 1] == sep;
    assert s[|s| - |f|..] == f;
    if |g| > |f| {
      SuffixReaches(s, g, |s| - |f| - 1);
      assert false;
    } else if |g| < |f| {
      SuffixReaches(s, f, |s| - |g| - 1);
      assert false;
    }
    var h := LastSegment(f, sep);
    if |h| < |f| {
      SuffixReaches(f, f, |f| - |h| - 1);
      assert false;
    }
  }

  // ---------------------------------------------------------------------
  // ToLower with invariant (ASCII) casing
  // ---------------------------------------------------------------------

  /** ASCII lower-casing of one character. */
  function LowerChar(c: char): char {
    if 'A' <= c <= 'Z' then (c as int - 'A' as int + 'a' as int) as char else c
  }

  /** `s.ToLower()` under invariant ASCII casing. */
  function Lower(s: string): (r: string)
    ensures |r| == |s|
    ensures forall i :: 0 <= i < |s| ==> r[i] == LowerChar(s[i])
    ensures forall i :: 0 <= i < |r| ==> !('A' <= r[i] <= 'Z')
  {
    if s == [] then [] else [LowerChar(s[0])] + Lower(s[1..])
  }

  /** Lower-casing a string without ASCII capitals changes nothing. */
  lemma LowerOfLowerCase(s: string)
    requires forall i :: 0 <= i < |s| ==> !('A' <= s[i] <= 'Z')
    ensures Lower(s) == s
  {
  }

  // ---------------------------------------------------------------------
  // Int32.ToString
  // ---------------------------------------------------------------------

  function DigitChar(d: nat): char
    requires d < 10
  {
    ('0' as int + d) as char
  }

  predicate IsDigit(c: char) {
    '0' <= c <= '9'
  }

  /** Decimal digits of `n`, most significant first, no leading zeros. */
  function NatToString(n: nat): (r: string)
    ensures |r| >= 1
    ensures forall i :: 0 <= i < |r| ==> IsDigit(r[i])
    ensures |r| > 1 ==> r[0] != '0'
    decreases n
  {
    if n < 10 then [DigitChar(n)] else NatToString(n / 10) + [DigitChar(n % 10)]
  }

  /** `i.ToString()` with the invariant culture's `-` sign. */
  function IntToString(i: int): (r: string)
    ensures |r| >= 1
    ensures '/' !in r
  {
    if i < 0 then "-" + NatToString(-i) else NatToString(i)
  }

  /** The value of a string of decimal digits; the reference that reads a numeral back. */
  function ParseNat(s: string): nat
    requires forall i :: 0 <= i < |s| ==> IsDigit(s[i])
  {
    if s == [] then 0
    else
      assert IsDigit(s[|s| - 1]);
      ParseNat(s[..|s| - 1]) * 10 + (s[|s| - 1] as int - '0' as int)
  }

  /** Reads back what `IntToString` writes. */
  function ParseInt(s: string): int
    requires |s| >= 1
    requires forall i :: (s[0] == '-' && 1 <= i < |s|) || (s[0] != '-' && 0 <= i < |s|) ==> IsDigit(s[i])
  {
    if s[0] == '-' then -(ParseNat(s[1..]) as int) else ParseNat(s)
  }

  lemma {:induction false} ParseNatToString(n: nat)
    ensures ParseNat(NatToString(n)) == n
    decreases n
  {
    if n >= 10 {
      var s := NatToString(n);
      ParseNatToString(n / 10);
      assert s[..|s| - 1] == NatToString(n / 10);
    }
  }

  /** `IntToString` is inverted by `ParseInt`. */
  lemma ParseIntToString(i: int)
    ensures ParseInt(IntToString(i)) == i
  {
    if i < 0 {
      ParseNatToString(-i);
      assert IntToString(i)[1..] == NatToString(-i);
    } else {
      ParseNatToString(i);
    }
  }

  /** Distinct integers print differently. */
  lemma IntToStringInjective(a: int, b: int)
    ensures IntToString(a) == IntToString(b) <==> a == b
  {
    if IntToString(a) == IntToString(b) {
      ParseIntToString(a);
      ParseIntToString(b);
    }
  }
}
