/**
  The few pieces of java.lang.String and java.lang.Integer that the index relies on:
  lexicographic order of String.compareTo (which orders the keys of a TreeMap),
  String.split on a one-character pattern, Integer.toString and Integer.parseInt.
 */
module JavaStrings {
  import opened Wrappers

  // ---------------------------------------------------------------------------
  // String.compareTo: lexicographic order, a proper prefix before its extensions
  // ---------------------------------------------------------------------------

  /**
    The position of a character in UTF-16 code-unit order, the order String.compareTo
    uses. A character below U+D800 is one code unit that sorts by its value. A
    supplementary character (U+10000 and up) is a surrogate pair whose first unit lies
    in D800..DBFF, so it sorts after U+D7FF, before U+E000..U+FFFF, and among the
    other supplementary characters by its code point.
   */
  function Utf16Rank(c: char): (r: int)
    ensures 0 <= r < 0x11_0000
    ensures c as int < 0xD800 ==> r == c as int
  {
    if c as int < 0xD800 then c as int
    else if c as int < 0x1_0000 then c as int + 0x10_0000
    else c as int - 0x1_0000 + 0xD800
  }

  /** Different characters have different ranks, so comparing ranks is a total order. */
  lemma Utf16RankInjective(c: char, d: char)
    requires c != d
    ensures Utf16Rank(c) != Utf16Rank(d)
  {
  }

  /**
    `a` sorts strictly before `b` under String.compareTo: the first differing character
    decides by its UTF-16 code units, and a proper prefix sorts first.
   */
  predicate LexLess(a: string, b: string)
    decreases |a|
  {
    if |a| == 0 then |b| > 0
    else if |b| == 0 then false
    else if a[0] != b[0] then Utf16Rank(a[0]) < Utf16Rank(b[0])
    else LexLess(a[1..], b[1..])
  }

  /**
    Unlike code-point order, String.compareTo puts U+10000 (code units D800 DC00)
    before U+FFFF (code unit FFFF).
   */
  lemma SupplementaryBeforeHighBmp()
    ensures LexLess("\U{10000}", "\U{FFFF}") && !LexLess("\U{FFFF}", "\U{10000}")
  {
  }

  lemma {:induction false} LexLessIrreflexive(a: string)
    ensures !LexLess(a, a)
    decreases |a|
  {
    if |a| > 0 {
      LexLessIrreflexive(a[1..]);
    }
  }

  lemma {:induction false} LexLessTransitive(a: string, b: string, c: string)
    requires LexLess(a, b) && LexLess(b, c)
    ensures LexLess(a, c)
    decreases |a|
  {
    if |a| > 0 && a[0] == b[0] && b[0] == c[0] {
      LexLessTransitive(a[1..], b[1..], c[1..]);
    }
  }

  lemma {:induction false} LexLessTotal(a: string, b: string)
    requires a != b
    ensures LexLess(a, b) || LexLess(b, a)
    decreases |a|
  {
    if |a| > 0 && |b| > 0 && a[0] == b[0] {
      assert a == [a[0]] + a[1..] && b == [b[0]] + b[1..];
      LexLessTotal(a[1..], b[1..]);
    } else if |a| > 0 && |b| > 0 {
      Utf16RankInjective(a[0], b[0]);
    }
  }

  lemma LexLessAsymmetric(a: string, b: string)
    requires LexLess(a, b)
    ensures !LexLess(b, a)
  {
    if LexLess(b, a) {
      LexLessTransitive(a, b, a);
      LexLessIrreflexive(a);
    }
  }

  /** `x` is the first element of `s` in String.compareTo order. */
  predicate IsLexMin(x: string, s: set<string>) {
    x in s && forall y :: y in s && y != x ==> LexLess(x, y)
  }

  lemma {:induction false} LexMinExists(s: set<string>)
    requires s != {}
    ensures exists x :: IsLexMin(x, s)
    decreases |s|
  {
    var a :| a in s;
    if s == {a} {
      assert IsLexMin(a, s);
    } else {
      LexMinExists(s - {a});
      var m :| IsLexMin(m, s - {a});
      if LexLess(a, m) {
        forall y | y in s && y != a
          ensures LexLess(a, y)
        {
          if y != m {
            LexLessTransitive(a, m, y);
          }
        }
        assert IsLexMin(a, s);
      } else {
        LexLessTotal(a, m);
        assert IsLexMin(m, s);
      }
    }
  }

  lemma LexMinUnique(x: string, y: string, s: set<string>)
    requires IsLexMin(x, s) && IsLexMin(y, s)
    ensures x == y
  {
    if x != y {
      LexLessAsymmetric(x, y);
    }
  }

  /** The first element of a non-empty set of strings. */
  ghost function LexMin(s: set<string>): (x: string)
    requires s != {}
    ensures IsLexMin(x, s)
  {
    LexMinExists(s);
    var x :| IsLexMin(x, s); x
  }

  /** The elements of `s` in ascending String.compareTo order, as a TreeMap iterates its keys. */
  ghost function SortedKeys(s: set<string>): (r: seq<string>)
    ensures forall x {:trigger x in r} :: x in r <==> x in s
    ensures forall i :: 0 <= i < |r| ==> r[i] in s
    decreases |s|
  {
    if s == {} then []
    else
      var x := LexMin(s);
      [x] + SortedKeys(s - {x})
  }

  /** SortedKeys lists each element once. */
  lemma {:induction false} SortedKeysLength(s: set<string>)
    ensures |SortedKeys(s)| == |s|
    decreases |s|
  {
    if s != {} {
      SortedKeysLength(s - {LexMin(s)});
    }
  }

  predicate StrictlyAscending(r: seq<string>) {
    forall i, j :: 0 <= i < j < |r| ==> LexLess(r[i], r[j])
  }

  /** SortedKeys lists the set in strictly ascending String.compareTo order. */
  lemma {:induction false} SortedKeysAscending(s: set<string>)
    ensures StrictlyAscending(SortedKeys(s))
    decreases |s|
  {
    if s != {} {
      var x := LexMin(s);
      var rest := SortedKeys(s - {x});
      SortedKeysAscending(s - {x});
      var r := [x] + rest;
      assert SortedKeys(s) == r;
      forall i, j | 0 <= i < j < |r|
        ensures LexLess(r[i], r[j])
      {
        if i == 0 {
          assert r[j] == rest[j - 1] && r[j] in s - {x};
          assert IsLexMin(x, s);
          assert LexLess(x, r[j]);
        } else {
          assert StrictlyAscending(rest);
          assert r[i] == rest[i - 1] && r[j] == rest[j - 1];
        }
      }
    }
  }

  /** Sorting a set starts with its first element and goes on with the rest sorted. */
  lemma SortedKeysFirst(x: string, s: set<string>)
    requires IsLexMin(x, s)
    ensures SortedKeys(s) == [x] + SortedKeys(s - {x})
  {
    LexMinUnique(LexMin(s), x, s);
  }

  // ---------------------------------------------------------------------------
  // Joining with a separator, as the writer builds "a|b|c" and "x@y@z@w"
  // ---------------------------------------------------------------------------

  /** The elements of a non-empty `xs`, with `sep` between neighbours. */
  function Join(xs: seq<string>, sep: char): string
    requires |xs| > 0
    decreases |xs|
  {
    if |xs| == 1 then xs[0]
    else Join(xs[..|xs| - 1], sep) + [sep] + xs[|xs| - 1]
  }

  /** Joining four pieces puts the separator between each neighbouring pair. */
  lemma JoinFour(a: string, b: string, c: string, d: string, sep: char)
    ensures Join([a, b, c, d], sep) == a + [sep] + b + [sep] + c + [sep] + d
  {
    assert [a, b][..1] == [a];
    assert Join([a, b], sep) == a + [sep] + b;
    assert [a, b, c][..2] == [a, b];
    assert Join([a, b, c], sep) == a + [sep] + b + [sep] + c;
    assert [a, b, c, d][..3] == [a, b, c];
  }

  lemma {:induction false} JoinExcludes(xs: seq<string>, sep: char, c: char)
    requires |xs| > 0 && c != sep
    requires forall i :: 0 <= i < |xs| ==> c !in xs[i]
    ensures c !in Join(xs, sep)
    decreases |xs|
  {
    if |xs| > 1 {
      JoinExcludes(xs[..|xs| - 1], sep, c);
    }
  }

  lemma {:induction false} JoinNonEmpty(xs: seq<string>, sep: char)
    requires |xs| > 0 && xs[0] != []
    ensures Join(xs, sep) != []
    decreases |xs|
  {
    if |xs| > 1 {
      JoinNonEmpty(xs[..|xs| - 1], sep);
    }
  }

  // ---------------------------------------------------------------------------
  // String.split on a single-character pattern
  // ---------------------------------------------------------------------------

  /** All pieces of `s` between occurrences of `sep`, empty pieces included. */
  function SplitAll(s: string, sep: char): (r: seq<string>)
    ensures |r| > 0
    ensures forall i :: 0 <= i < |r| ==> sep !in r[i]
    decreases |s|
  {
    if s == [] then [[]]
    else
      var r := SplitAll(s[..|s| - 1], sep);
      if s[|s| - 1] == sep then r + [[]]
      else r[..|r| - 1] + [r[|r| - 1] + [s[|s| - 1]]]
  }

  /** Removes the empty strings at the end, as String.split does. */
  function DropTrailingEmpty(xs: seq<string>): (r: seq<string>)
    ensures r <= xs && (r == [] || r[|r| - 1] != [])
    decreases |xs|
  {
    if |xs| > 0 && xs[|xs| - 1] == [] then DropTrailingEmpty(xs[..|xs| - 1]) else xs
  }

  /**
    s.split(sep) for a one-character, non-special pattern: when `sep` does not occur
    the result is `[s]` (so "".split gives [""]); otherwise the pieces with trailing
    empty strings removed.
   */
  function JavaSplit(s: string, sep: char): (r: seq<string>)
    ensures sep !in s ==> r == [s]
    ensures sep in s ==> r == [] || r[|r| - 1] != []
    ensures forall i :: 0 <= i < |r| ==> sep !in r[i]
  {
    if sep !in s then [s] else DropTrailingEmpty(SplitAll(s, sep))
  }

  lemma {:induction false} SplitAllNoSeparator(s: string, sep: char)
    requires sep !in s
    ensures SplitAll(s, sep) == [s]
    decreases |s|
  {
    if s != [] {
      SplitAllNoSeparator(s[..|s| - 1], sep);
      assert s[..|s| - 1] + [s[|s| - 1]] == s;
    }
  }

  lemma {:induction false} SplitAllAppend(a: string, b: string, sep: char)
    requires sep !in b
    ensures SplitAll(a + [sep] + b, sep) == SplitAll(a, sep) + [b]
    decreases |b|
  {
    var s := a + [sep] + b;
    if b == [] {
      assert s[..|s| - 1] == a;
    } else {
      var b' := b[..|b| - 1];
      assert s[..|s| - 1] == a + [sep] + b';
      SplitAllAppend(a, b', sep);
      assert b' + [b[|b| - 1]] == b;
    }
  }

  /** Splitting undoes joining when no piece holds the separator. */
  lemma {:induction false} SplitAllJoin(xs: seq<string>, sep: char)
    requires |xs| > 0
    requires forall i :: 0 <= i < |xs| ==> sep !in xs[i]
    ensures SplitAll(Join(xs, sep), sep) == xs
    decreases |xs|
  {
    if |xs| == 1 {
      SplitAllNoSeparator(xs[0], sep);
    } else {
      var front := xs[..|xs| - 1];
      SplitAllJoin(front, sep);
      SplitAllAppend(Join(front, sep), xs[|xs| - 1], sep);
      assert front + [xs[|xs| - 1]] == xs;
    }
  }

  /** String.split undoes joining when every piece is non-empty and free of the separator. */
  lemma JavaSplitJoin(xs: seq<string>, sep: char)
    requires |xs| > 0
    requires forall i :: 0 <= i < |xs| ==> xs[i] != [] && sep !in xs[i]
    ensures JavaSplit(Join(xs, sep), sep) == xs
  {
    var s := Join(xs, sep);
    if sep in s {
      SplitAllJoin(xs, sep);
    } else if |xs| > 1 {
      assert false;
    }
  }

  // ---------------------------------------------------------------------------
  // Integer.toString and Integer.parseInt (decimal, mathematical integers)
  // ---------------------------------------------------------------------------

  predicate IsDigit(ch: char) {
    '0' <= ch <= '9'
  }

  predicate AllDigits(s: string) {
    forall i :: 0 <= i < |s| ==> IsDigit(s[i])
  }

  function DigitChar(d: nat): char
    requires d < 10
  {
    ('0' as int + d) as char
  }

  /** The value of a string of decimal digits. */
  function DigitsValue(s: string): nat
    requires AllDigits(s)
    decreases |s|
  {
    if s == [] then 0
    else DigitsValue(s[..|s| - 1]) * 10 + (s[|s| - 1] as int - '0' as int)
  }

  /** The decimal digits of `n`, without leading zeros. */
  function NatToString(n: nat): (r: string)
    ensures |r| > 0 && AllDigits(r)
    decreases n
  {
    if n < 10 then [DigitChar(n)] else NatToString(n / 10) + [DigitChar(n % 10)]
  }

  /** Integer.toString: a minus sign for negative values, then the decimal digits. */
  function IntToString(n: int): (r: string)
    ensures |r| > 0 && (r[0] == '-' <==> n < 0)
    ensures n >= 0 ==> AllDigits(r)
    ensures n < 0 ==> |r| > 1 && AllDigits(r[1..])
  {
    if n < 0 then "-" + NatToString(-n) else NatToString(n)
  }

  /** Integer.parseInt: an optional sign followed by at least one decimal digit. */
  function ParseInt(s: string): (r: Option<int>)
    ensures |s| > 0 && AllDigits(s) ==> r.Some? && r.value >= 0
    ensures r.Some? ==> |s| > 0 && (r.value < 0 ==> s[0] == '-')
  {
    if |s| > 0 && (s[0] == '-' || s[0] == '+') then
      if |s| > 1 && AllDigits(s[1..]) then
        var magnitude: int := DigitsValue(s[1..]);
        Some(if s[0] == '-' then -magnitude else magnitude)
      else None
    else if |s| > 0 && AllDigits(s) then Some(DigitsValue(s))
    else None
  }

  lemma {:induction false} NatToStringDigits(n: nat)
    ensures NatToString(n) != [] && AllDigits(NatToString(n))
    ensures DigitsValue(NatToString(n)) == n
    decreases n
  {
    var s := NatToString(n);
    if n >= 10 {
      NatToStringDigits(n / 10);
      assert s[..|s| - 1] == NatToString(n / 10);
    }
  }

  /** parseInt reads back what toString writes, and the text holds no separator of the index format. */
  lemma ParseIntToString(n: int)
    ensures ParseInt(IntToString(n)) == Some(n)
    ensures IntToString(n) != []
    ensures forall i :: 0 <= i < |IntToString(n)| ==> IntToString(n)[i] == '-' || IsDigit(IntToString(n)[i])
  {
    NatToStringDigits(if n < 0 then -n else n);
    if n < 0 {
      assert IntToString(n)[1..] == NatToString(-n);
    }
  }
}
