/**
  The string operations the label's formatting leans on: ordinal
  `String.Replace(string, string)` and grouping a digit string in threes
  (the shape `ToString("N0")` gives a number).
 */
module Text {
  import opened Decimal

  /**
    Ordinal `String.Replace`: scanning left to right, every non-overlapping
    occurrence of `pattern` is replaced by `replacement`. An empty pattern
    makes the source method throw, hence the precondition.
   */
  function Replace(s: string, pattern: string, replacement: string): string
    requires |pattern| > 0
    decreases |s|
  {
    if |s| < |pattern| then s
    else if s[..|pattern|] == pattern then replacement + Replace(s[|pattern|..], pattern, replacement)
    else [s[0]] + Replace(s[1..], pattern, replacement)
  }

  /** No character of `s` is `c`. */
  predicate Avoids(s: string, c: char) {
    forall i :: 0 <= i < |s| ==> s[i] != c
  }

  /** A prefix that cannot start an occurrence of the pattern passes through unchanged. */
  lemma {:induction false} ReplaceSkipsPrefix(a: string, b: string, pattern: string, replacement: string)
    requires |pattern| > 0
    requires Avoids(a, pattern[0])
    ensures Replace(a + b, pattern, replacement) == a + Replace(b, pattern, replacement)
    decreases |a|
  {
    if |a| > 0 {
      var s := a + b;
      assert s[0] == a[0] != pattern[0];
      if |s| < |pattern| {
        assert Replace(b, pattern, replacement) == b;
      } else {
        assert s[..|pattern|] != pattern;
        assert s[1..] == a[1..] + b;
        ReplaceSkipsPrefix(a[1..], b, pattern, replacement);
      }
    } else {
      assert a + b == b;
    }
  }

  /** An occurrence at the front is replaced and scanning resumes after it. */
  lemma ReplaceLeadingOccurrence(b: string, pattern: string, replacement: string)
    requires |pattern| > 0
    ensures Replace(pattern + b, pattern, replacement) == replacement + Replace(b, pattern, replacement)
  {
    var s := pattern + b;
    assert s[..|pattern|] == pattern;
    assert s[|pattern|..] == b;
  }

  /** A string with no occurrence of the pattern's first character is left alone. */
  lemma ReplaceAbsent(s: string, pattern: string, replacement: string)
    requires |pattern| > 0
    requires Avoids(s, pattern[0])
    ensures Replace(s, pattern, replacement) == s
  {
    ReplaceSkipsPrefix(s, [], pattern, replacement);
    assert s + [] == s;
  }

  /** Blocks of three digits, each preceded by `sep`. */
  function Chunks(ds: string, sep: string): string
    requires |ds| % 3 == 0
    decreases |ds|
  {
    if |ds| == 0 then [] else sep + ds[..3] + Chunks(ds[3..], sep)
  }

  /** Length of the leading group: between one and three digits. */
  function HeadLength(n: nat): (h: nat)
    requires n > 3
    ensures 1 <= h <= 3 && (n - h) % 3 == 0
  {
    (n - 1) % 3 + 1
  }

  /** Dropping the last block of three keeps the leading group. */
  lemma HeadLengthAfterLastBlock(n: nat)
    requires n > 3
    ensures n <= 6 ==> HeadLength(n) == n - 3
    ensures n > 6 ==> HeadLength(n - 3) == HeadLength(n)
  {
    var q := (n - 4) / 3;
    assert n - 1 == 3 * (q + 1) + (n - 4) % 3;
  }

  /**
    A digit string split into groups of three counted from the right, the
    groups joined by `sep`: the layout "N0" gives the digits of a number,
    written left to right.
   */
  function Group(ds: string, sep: string): string {
    if |ds| <= 3 then ds
    else
      var h := HeadLength(|ds|);
      ds[..h] + Chunks(ds[h..], sep)
  }

  /** The same grouping, stated the other way round: peel off the last three digits. */
  function GroupFromRight(ds: string, sep: string): string
    decreases |ds|
  {
    if |ds| <= 3 then ds
    else GroupFromRight(ds[..|ds| - 3], sep) + sep + ds[|ds| - 3..]
  }

  lemma {:induction false} ChunksLastBlock(x: string, sep: string)
    requires |x| % 3 == 0 && |x| >= 3
    ensures Chunks(x, sep) == Chunks(x[..|x| - 3], sep) + sep + x[|x| - 3..]
    decreases |x|
  {
    if |x| == 3 {
      assert x[..3] == x && x[3..] == [] && x[..0] == [];
    } else {
      var y := x[3..];
      var p := x[..|x| - 3];
      var last := x[|x| - 3..];
      assert p[..3] == x[..3];
      assert p[3..] == y[..|y| - 3];
      assert y[|y| - 3..] == last;
      calc {
        Chunks(x, sep);
        sep + x[..3] + Chunks(y, sep);
        { ChunksLastBlock(y, sep); }
        sep + p[..3] + (Chunks(p[3..], sep) + sep + last);
        (sep + p[..3] + Chunks(p[3..], sep)) + sep + last;
        Chunks(p, sep) + sep + last;
      }
    }
  }

  /** The digits without their last block keep the same leading group, followed by one block fewer. */
  lemma GroupOfShorter(ds: string, sep: string)
    requires |ds| > 3
    ensures var h := HeadLength(|ds|);
      Group(ds[..|ds| - 3], sep) == ds[..h] + Chunks(ds[h..|ds| - 3], sep)
  {
    var h := HeadLength(|ds|);
    var p := ds[..|ds| - 3];
    HeadLengthAfterLastBlock(|ds|);
    assert p[h..] == ds[h..|ds| - 3];
    assert p[..h] == ds[..h];
    if |p| <= 3 {
      assert ds[h..|ds| - 3] == [];
      assert ds[..h] == p;
    }
  }

  /** Grouping left to right and right to left agree. */
  lemma {:induction false} GroupFromLeftIsFromRight(ds: string, sep: string)
    ensures Group(ds, sep) == GroupFromRight(ds, sep)
    decreases |ds|
  {
    if |ds| > 3 {
      var h := HeadLength(|ds|);
      var p := ds[..|ds| - 3];
      var rest := ds[h..];
      var last := ds[|ds| - 3..];
      assert rest[..|rest| - 3] == ds[h..|ds| - 3];
      assert rest[|rest| - 3..] == last;
      calc {
        Group(ds, sep);
        ds[..h] + Chunks(rest, sep);
        { ChunksLastBlock(rest, sep); }
        ds[..h] + (Chunks(ds[h..|ds| - 3], sep) + sep + last);
        (ds[..h] + Chunks(ds[h..|ds| - 3], sep)) + sep + last;
        { GroupOfShorter(ds, sep); }
        Group(p, sep) + sep + last;
        { GroupFromLeftIsFromRight(p, sep); }
        GroupFromRight(p, sep) + sep + last;
        GroupFromRight(ds, sep);
      }
    }
  }

  lemma {:induction false} ReplaceInChunks(x: string, sep: string, sep': string)
    requires |x| % 3 == 0 && AllDigits(x)
    requires |sep| > 0 && !IsDigit(sep[0])
    ensures Replace(Chunks(x, sep), sep, sep') == Chunks(x, sep')
    decreases |x|
  {
    if |x| > 0 {
      var block := x[..3];
      var tail := Chunks(x[3..], sep);
      assert Chunks(x, sep) == sep + (block + tail);
      ReplaceLeadingOccurrence(block + tail, sep, sep');
      ReplaceSkipsPrefix(block, tail, sep, sep');
      ReplaceInChunks(x[3..], sep, sep');
    }
  }

  /**
    Replacing the separator of a grouped digit string regroups it with the
    new separator; with an empty replacement the separators disappear.
   */
  lemma ReplaceSeparator(ds: string, sep: string, sep': string)
    requires AllDigits(ds)
    requires |sep| > 0 && !IsDigit(sep[0])
    ensures Replace(Group(ds, sep), sep, sep') == Group(ds, sep')
  {
    if |ds| <= 3 {
      ReplaceAbsent(ds, sep, sep');
    } else {
      var h := HeadLength(|ds|);
      ReplaceSkipsPrefix(ds[..h], Chunks(ds[h..], sep), sep, sep');
      ReplaceInChunks(ds[h..], sep, sep');
    }
  }

  lemma {:induction false} ChunksWithoutSeparator(x: string)
    requires |x| % 3 == 0
    ensures Chunks(x, []) == x
    decreases |x|
  {
    if |x| > 0 {
      ChunksWithoutSeparator(x[3..]);
      assert x[..3] + x[3..] == x;
    }
  }

  /** Grouping with an empty separator gives the digits back. */
  lemma GroupWithoutSeparator(ds: string)
    ensures Group(ds, []) == ds
  {
    if |ds| > 3 {
      ChunksWithoutSeparator(ds[HeadLength(|ds|)..]);
      assert ds[..HeadLength(|ds|)] + ds[HeadLength(|ds|)..] == ds;
    }
  }

  lemma {:induction false} ChunksAvoid(x: string, sep: string, c: char)
    requires |x| % 3 == 0
    requires Avoids(x, c) && Avoids(sep, c)
    ensures Avoids(Chunks(x, sep), c)
    decreases |x|
  {
    if |x| > 0 {
      ChunksAvoid(x[3..], sep, c);
    }
  }

  /** Grouping introduces no character that neither the digits nor the separator hold. */
  lemma GroupAvoids(ds: string, sep: string, c: char)
    requires Avoids(ds, c) && Avoids(sep, c)
    ensures Avoids(Group(ds, sep), c)
  {
    if |ds| > 3 {
      ChunksAvoid(ds[HeadLength(|ds|)..], sep, c);
    }
  }

}
