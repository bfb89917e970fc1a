/**
 * The handful of Python `str` operations the script uses on user input and
 * on statement text, with Python's own semantics:
 *   - `s.split(c)` with an explicit one-character separator,
 *   - `sep.join(xs)`,
 *   - `s.strip()` with no argument (removes whitespace at both ends).
 */
module PyText {

  /** Number of occurrences of `c` in `s` (Python's `s.count(c)`). */
  function Count(s: string, c: char): (n: nat)
    ensures n <= |s|
    ensures n == 0 <==> c !in s
  {
    if s == [] then 0 else (if s[0] == c then 1 else 0) + Count(s[1..], c)
  }

  lemma {:induction false} CountConcat(a: string, b: string, c: char)
    ensures Count(a + b, c) == Count(a, c) + Count(b, c)
  {
    if a != [] {
      assert (a + b)[1..] == a[1..] + b;
      CountConcat(a[1..], b, c);
    } else {
      assert a + b == b;
    }
  }

  /** `sep.join(xs)`: the strings of `xs` in order, `sep` between neighbours. */
  function Join(sep: string, xs: seq<string>): string
  {
    if xs == [] then ""
    else if |xs| == 1 then xs[0]
    else xs[0] + sep + Join(sep, xs[1..])
  }

  /**
   * When the separator does not hold `c` and every part holds it exactly
   * once, the join holds it once per part.
   */
  lemma {:induction false} JoinMarks(sep: string, xs: seq<string>, c: char)
    requires c !in sep
    requires forall i :: 0 <= i < |xs| ==> Count(xs[i], c) == 1
    ensures Count(Join(sep, xs), c) == |xs|
  {
    if |xs| > 1 {
      JoinMarks(sep, xs[1..], c);
      CountConcat(xs[0], sep, c);
      CountConcat(xs[0] + sep, Join(sep, xs[1..]), c);
    }
  }

  /**
   * A join is empty for no parts; otherwise it starts with the first part
   * and ends with the last one.
   */
  lemma {:induction false} JoinEnds(sep: string, xs: seq<string>)
    ensures xs == [] ==> Join(sep, xs) == ""
    ensures xs != [] ==> |xs[0]| <= |Join(sep, xs)| && Join(sep, xs)[..|xs[0]|] == xs[0]
    ensures xs != [] ==> var r, z := Join(sep, xs), xs[|xs| - 1];
                         |z| <= |r| && r[|r| - |z|..] == z
  {
    if |xs| > 1 {
      JoinEnds(sep, xs[1..]);
      var rest := Join(sep, xs[1..]);
      assert Join(sep, xs) == xs[0] + sep + rest;
      assert xs[1..][|xs[1..]| - 1] == xs[|xs| - 1];
    }
  }

  /** Joining never introduces a character that neither the parts nor the separator hold. */
  lemma {:induction false} JoinKeepsAbsence(sep: string, xs: seq<string>, c: char)
    requires c !in sep
    requires forall i :: 0 <= i < |xs| ==> c !in xs[i]
    ensures c !in Join(sep, xs)
  {
    if |xs| > 1 {
      JoinKeepsAbsence(sep, xs[1..], c);
    }
  }

  /**
   * `s.split(sep)` for a one-character separator: never empty, one field more
   * than there are separators, and no field holds the separator.
   */
  function Split(s: string, sep: char): (fields: seq<string>)
    ensures |fields| == Count(s, sep) + 1
    ensures forall i :: 0 <= i < |fields| ==> sep !in fields[i]
  {
    if s == [] then [""]
    else
      var rest := Split(s[1..], sep);
      if s[0] == sep then [""] + rest
      else [[s[0]] + rest[0]] + rest[1..]
  }

  /** A string without the separator is a single field. */
  lemma {:induction false} SplitNoSep(s: string, sep: char)
    requires sep !in s
    ensures Split(s, sep) == [s]
  {
    if s != [] {
      SplitNoSep(s[1..], sep);
      assert [s[0]] + s[1..] == s;
    }
  }

  /** The head and tail of a concatenation whose left part is not empty. */
  lemma HeadOfConcat<T>(x: seq<T>, y: seq<T>)
    requires x != []
    ensures (x + y)[0] == x[0] && (x + y)[1..] == x[1..] + y
  {
    assert (x + y)[1..] == x[1..] + y;
  }

  /** One step of `Split`: the first character either ends a field or extends it. */
  lemma SplitCons(c: char, t: string, sep: char)
    ensures var rest := Split(t, sep);
            Split([c] + t, sep)
            == if c == sep then [""] + rest else [[c] + rest[0]] + rest[1..]
  {
    assert ([c] + t)[0] == c && ([c] + t)[1..] == t;
  }

  /** Splitting distributes over a separator placed between two strings. */
  lemma {:induction false} SplitConcat(a: string, b: string, sep: char)
    ensures Split(a + [sep] + b, sep) == Split(a, sep) + Split(b, sep)
  {
    if a == [] {
      assert a + [sep] + b == [sep] + b;
      SplitCons(sep, b, sep);
    } else {
      var c, t := a[0], a[1..];
      assert a == [c] + t;
      assert a + [sep] + b == [c] + (t + [sep] + b);
      SplitConcat(t, b, sep);
      SplitConcatStep(c, t, b, sep);
    }
  }

  /** The inductive step of `SplitConcat`: one more character in front. */
  lemma SplitConcatStep(c: char, t: string, b: string, sep: char)
    requires Split(t + [sep] + b, sep) == Split(t, sep) + Split(b, sep)
    ensures Split([c] + (t + [sep] + b), sep) == Split([c] + t, sep) + Split(b, sep)
  {
    SplitCons(c, t, sep);
    SplitCons(c, t + [sep] + b, sep);
    ConsField(c == sep, c, Split(t, sep), Split(b, sep));
  }

  /** The list-level fact behind `SplitConcatStep`. */
  lemma ConsField(ends: bool, c: char, rt: seq<string>, rb: seq<string>)
    requires rt != []
    ensures (if ends then [""] + (rt + rb) else [[c] + (rt + rb)[0]] + (rt + rb)[1..])
         == (if ends then [""] + rt else [[c] + rt[0]] + rt[1..]) + rb
  {
    if ends {
      assert [""] + (rt + rb) == ([""] + rt) + rb;
    } else {
      HeadOfConcat(rt, rb);
      var h := [c] + rt[0];
      assert [h] + (rt[1..] + rb) == ([h] + rt[1..]) + rb;
    }
  }

  /** Joining the fields of a split with the separator gives back the input. */
  lemma {:induction false} JoinSplit(s: string, sep: char)
    ensures Join([sep], Split(s, sep)) == s
  {
    if s != [] {
      var c, t := s[0], s[1..];
      assert s == [c] + t;
      JoinSplit(t, sep);
      SplitCons(c, t, sep);
      JoinCons(c == sep, c, sep, Split(t, sep));
    }
  }

  /** The Join-level step of `JoinSplit`: one more character in front of the fields. */
  lemma JoinCons(ends: bool, c: char, sep: char, rest: seq<string>)
    requires rest != []
    requires ends ==> c == sep
    ensures Join([sep], if ends then [""] + rest else [[c] + rest[0]] + rest[1..])
         == [c] + Join([sep], rest)
  {
    if ends {
      var f := [""] + rest;
      assert f[1..] == rest;
      assert Join([sep], f) == "" + [sep] + Join([sep], rest);
    } else {
      var f := [[c] + rest[0]] + rest[1..];
      if |rest| == 1 {
        assert Join([sep], f) == [c] + rest[0];
      } else {
        assert f[1..] == rest[1..];
        assert Join([sep], f) == ([c] + rest[0]) + [sep] + Join([sep], rest[1..]);
        assert Join([sep], rest) == rest[0] + [sep] + Join([sep], rest[1..]);
      }
    }
  }

  /**
   * Splitting `q + pad.join`-style text on `sep` gives the first element
   * (after `q`) and then every later element preceded by `pad`, when neither
   * `q`, `pad` nor any element holds the separator.
   */
  lemma {:induction false} SplitJoinPaddedFrom(q: string, xs: seq<string>, sep: char, pad: string)
    requires xs != []
    requires sep !in q && sep !in pad
    requires forall i :: 0 <= i < |xs| ==> sep !in xs[i]
    decreases |xs|
    ensures var fields := Split(q + Join([sep] + pad, xs), sep);
            |fields| == |xs| && fields[0] == q + xs[0]
            && forall i :: 1 <= i < |xs| ==> fields[i] == pad + xs[i]
  {
    if |xs| == 1 {
      assert Join([sep] + pad, xs) == xs[0];
      SplitNoSep(q + xs[0], sep);
    } else {
      var rest := Join([sep] + pad, xs[1..]);
      assert Join([sep] + pad, xs) == xs[0] + ([sep] + pad) + rest;
      assert q + Join([sep] + pad, xs) == (q + xs[0]) + [sep] + (pad + rest);
      SplitConcat(q + xs[0], pad + rest, sep);
      SplitNoSep(q + xs[0], sep);
      SplitJoinPaddedFrom(pad, xs[1..], sep, pad);
      var tail := Split(pad + rest, sep);
      var fields := Split(q + Join([sep] + pad, xs), sep);
      assert fields == [q + xs[0]] + tail;
      forall i | 1 <= i < |xs|
        ensures fields[i] == pad + xs[i]
      {
        assert fields[i] == tail[i - 1];
        assert xs[1..][i - 1] == xs[i];
      }
    }
  }

  /** `(sep + pad).join(xs).split(sep)`: each element, later ones behind `pad`. */
  lemma SplitJoinPadded(xs: seq<string>, sep: char, pad: string)
    requires xs != []
    requires sep !in pad
    requires forall i :: 0 <= i < |xs| ==> sep !in xs[i]
    ensures var fields := Split(Join([sep] + pad, xs), sep);
            |fields| == |xs| && fields[0] == xs[0]
            && forall i :: 1 <= i < |xs| ==> fields[i] == pad + xs[i]
  {
    SplitJoinPaddedFrom("", xs, sep, pad);
    assert "" + Join([sep] + pad, xs) == Join([sep] + pad, xs);
  }

  /** `sep.join(xs).split(sep) == xs` when no element holds the separator. */
  lemma SplitJoin(xs: seq<string>, sep: char)
    requires xs != []
    requires forall i :: 0 <= i < |xs| ==> sep !in xs[i]
    ensures Split(Join([sep], xs), sep) == xs
  {
    assert [sep] + "" == [sep];
    SplitJoinPadded(xs, sep, "");
    var fields := Split(Join([sep], xs), sep);
    forall i | 0 <= i < |xs|
      ensures fields[i] == xs[i]
    {
      if i > 0 {
        assert fields[i] == "" + xs[i];
      }
    }
  }

  /** Python's `str.isspace` for one character, by code point. */
  predicate IsSpace(c: char)
  {
    var n := c as int;
    (9 <= n <= 13) || (28 <= n <= 32) || n == 0x85 || n == 0xA0 || n == 0x1680
    || (0x2000 <= n <= 0x200A) || n == 0x2028 || n == 0x2029 || n == 0x202F
    || n == 0x205F || n == 0x3000
  }

  /** Neither starts nor ends with whitespace: what `strip()` leaves. */
  predicate Stripped(s: string)
  {
    s == [] || (!IsSpace(s[0]) && !IsSpace(s[|s| - 1]))
  }

  /** Index of the first non-whitespace character of `s` at or after `i` (`|s|` if none). */
  function SkipSpace(s: string, i: nat): (j: nat)
    requires i <= |s|
    decreases |s| - i
    ensures i <= j <= |s|
    ensures forall k :: i <= k < j ==> IsSpace(s[k])
    ensures j == |s| || !IsSpace(s[j])
  {
    if i == |s| || !IsSpace(s[i]) then i else SkipSpace(s, i + 1)
  }

  /** End of `s[lo..j]` once its trailing whitespace is dropped. */
  function SkipSpaceBack(s: string, lo: nat, j: nat): (hi: nat)
    requires lo <= j <= |s|
    decreases j - lo
    ensures lo <= hi <= j
    ensures forall k :: hi <= k < j ==> IsSpace(s[k])
    ensures hi == lo || !IsSpace(s[hi - 1])
  {
    if j == lo || !IsSpace(s[j - 1]) then j else SkipSpaceBack(s, lo, j - 1)
  }

  /**
   * `s.strip()`: the slice of `s` between its leading and its trailing
   * whitespace; it neither starts nor ends with whitespace.
   */
  function Strip(s: string): (r: string)
    ensures var lo := SkipSpace(s, 0);
            lo + |r| <= |s| && r == s[lo..lo + |r|]
            && (forall i :: 0 <= i < lo ==> IsSpace(s[i]))
            && (forall i :: lo + |r| <= i < |s| ==> IsSpace(s[i]))
    ensures Stripped(r)
  {
    var lo := SkipSpace(s, 0);
    s[lo..SkipSpaceBack(s, lo, |s|)]
  }

  /** `[x.strip() for x in xs]`. */
  function StripEach(xs: seq<string>): (r: seq<string>)
    ensures |r| == |xs|
    ensures forall i :: 0 <= i < |xs| ==> r[i] == Strip(xs[i])
  {
    if xs == [] then [] else [Strip(xs[0])] + StripEach(xs[1..])
  }

  /**
   * Strip is the only slice with whitespace-only surroundings and
   * non-whitespace ends: any such `s[lo..hi]` equals `Strip(s)`.
   */
  lemma StripUnique(s: string, lo: nat, hi: nat)
    requires lo <= hi <= |s|
    requires forall i :: 0 <= i < lo ==> IsSpace(s[i])
    requires forall i :: hi <= i < |s| ==> IsSpace(s[i])
    requires lo == hi || (!IsSpace(s[lo]) && !IsSpace(s[hi - 1]))
    ensures Strip(s) == s[lo..hi]
  {
    var r := Strip(s);
    var l := SkipSpace(s, 0);
    var h := l + |r|;
    if lo == hi {
      assert r == [];
    } else {
      assert l <= lo;
      assert lo < h;
      assert lo <= l;
      assert hi <= h;
      assert h <= hi;
    }
  }

  /** Text whose ends are not whitespace is left alone by strip. */
  lemma StripStripped(s: string)
    requires Stripped(s)
    ensures Strip(s) == s
  {
    StripUnique(s, 0, |s|);
  }

  /** Whitespace on either side of already stripped text is removed by strip. */
  lemma StripSurrounded(lead: string, s: string, trail: string)
    requires forall i :: 0 <= i < |lead| ==> IsSpace(lead[i])
    requires forall i :: 0 <= i < |trail| ==> IsSpace(trail[i])
    requires Stripped(s)
    ensures Strip(lead + s + trail) == s
  {
    var t := lead + s + trail;
    forall i | |lead| + |s| <= i < |t| ensures IsSpace(t[i]) {
      assert t[i] == trail[i - |lead| - |s|];
    }
    if s == [] {
      StripUnique(t, |t|, |t|);
      assert t[|t|..|t|] == s;
    } else {
      assert t[|lead|] == s[0] && t[|lead| + |s| - 1] == s[|s| - 1];
      StripUnique(t, |lead|, |lead| + |s|);
      assert t[|lead|..|lead| + |s|] == s;
    }
  }

  /** Stripping never introduces a character: it only removes some. */
  lemma StripKeepsAbsence(s: string, c: char)
    requires c !in s
    ensures c !in Strip(s)
  {
  }
}
