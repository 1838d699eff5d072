/** The string primitives the matcher is built from.

    Brand names and product-name keywords are used by the matcher as regular
    expression patterns with the IGNORECASE flag. This model treats them as
    literal text: a pattern "matches" at a position when each of its characters
    equals the title's character there up to ASCII case. */
module Text {

  /** ASCII upper-casing of one character; every other character is unchanged. */
  function Upper(c: char): (u: char)
    ensures !('a' <= u <= 'z')
    ensures u == c || u as int + 32 == c as int
  {
    if 'a' <= c <= 'z' then (c as int - 32) as char else c
  }

  /** `str.upper()` restricted to ASCII letters. */
  function UpperString(s: string): (r: string)
    ensures |r| == |s|
  {
    seq(|s|, i requires 0 <= i < |s| => Upper(s[i]))
  }

  /** The literal `w` occurs in `t` at position `i`, ignoring case. */
  predicate OccursAtI(w: string, t: string, i: nat)
  {
    i + |w| <= |t| && forall k :: 0 <= k < |w| ==> Upper(w[k]) == Upper(t[i + k])
  }

  /** `t` starts with the literal `w`, ignoring case (an anchored match of `w`). */
  predicate StartsWithI(w: string, t: string)
  {
    OccursAtI(w, t, 0)
  }

  /** Upper-casing a literal does not change where it occurs case-insensitively. */
  lemma OccursAtUpper(w: string, t: string, i: nat)
    ensures OccursAtI(UpperString(w), t, i) <==> OccursAtI(w, t, i)
  {
    var u := UpperString(w);
    forall k | 0 <= k < |w|
      ensures Upper(u[k]) == Upper(w[k])
    {
      assert u[k] == Upper(w[k]);
    }
  }

  /** The text `t[lo..hi]` can be spanned by `.*` in a pattern compiled
      without DOTALL: it holds no line break. */
  predicate GapWithoutBreak(t: string, lo: nat, hi: nat)
  {
    lo <= hi <= |t| && forall k :: lo <= k < hi ==> t[k] != '\n'
  }

  // ---------------------------------------------------------------------------
  // Splitting a product name into keywords: `re.split('[_-]', name)`.

  predicate IsSeparator(c: char)
  {
    c == '_' || c == '-'
  }

  function SeparatorCount(s: string): nat
  {
    if s == [] then 0 else (if IsSeparator(s[0]) then 1 else 0) + SeparatorCount(s[1..])
  }

  /** The pieces of `s` between separators, in order. As with `re.split`,
      there is always one more piece than there are separators, and adjacent
      or boundary separators give empty pieces. */
  function SplitKeywords(s: string): (r: seq<string>)
    ensures |r| == SeparatorCount(s) + 1
    ensures forall i, k :: 0 <= i < |r| && 0 <= k < |r[i]| ==> !IsSeparator(r[i][k])
    decreases |s|
  {
    if s == [] then [[]]
    else
      var rest := SplitKeywords(s[1..]);
      if IsSeparator(s[0]) then [[]] + rest
      else [[s[0]] + rest[0]] + rest[1..]
  }

  /** The pieces joined back together with `sep` between consecutive ones. */
  function Join(ws: seq<string>, sep: char): string
    requires |ws| >= 1
  {
    if |ws| == 1 then ws[0] else ws[0] + [sep] + Join(ws[1..], sep)
  }

  /** `s` with every `-` written as `_`: what survives a split-and-join. */
  function Underscored(s: string): string
  {
    if s == [] then [] else [if s[0] == '-' then '_' else s[0]] + Underscored(s[1..])
  }

  lemma JoinCons(c: char, ws: seq<string>, sep: char)
    requires |ws| >= 1
    ensures Join([[c] + ws[0]] + ws[1..], sep) == [c] + Join(ws, sep)
  {
    var v := [[c] + ws[0]] + ws[1..];
    assert v[1..] == ws[1..];
  }

  /** Splitting loses only which separator stood between two keywords:
      joining the keywords with `_` gives the name back up to `-`/`_`. */
  lemma {:induction false} SplitJoin(s: string)
    ensures Join(SplitKeywords(s), '_') == Underscored(s)
    decreases |s|
  {
    if s != [] {
      var rest := SplitKeywords(s[1..]);
      SplitJoin(s[1..]);
      if IsSeparator(s[0]) {
        var r := [[]] + rest;
        assert r[1..] == rest;
        assert Join(r, '_') == [] + ['_'] + Join(rest, '_');
      } else {
        JoinCons(s[0], rest, '_');
      }
    }
  }

  /** A word without separators glues onto the first piece of what follows
      it and leaves the later pieces alone. */
  lemma {:induction false} SplitWord(w: string, rest: string)
    requires forall k :: 0 <= k < |w| ==> !IsSeparator(w[k])
    ensures SplitKeywords(w + rest)[0] == w + SplitKeywords(rest)[0]
    ensures SplitKeywords(w + rest)[1..] == SplitKeywords(rest)[1..]
    decreases |w|
  {
    if w == [] {
      assert w + rest == rest;
    } else {
      assert (w + rest)[1..] == w[1..] + rest;
      SplitWord(w[1..], rest);
      assert w == [w[0]] + w[1..];
    }
  }

  /** Splitting undoes joining with `_`, as long as no word holds a
      separator of its own. */
  lemma {:induction false} JoinSplit(ws: seq<string>)
    requires |ws| >= 1
    requires forall i, k :: 0 <= i < |ws| && 0 <= k < |ws[i]| ==> !IsSeparator(ws[i][k])
    ensures SplitKeywords(Join(ws, '_')) == ws
    decreases |ws|
  {
    if |ws| == 1 {
      SplitWord(ws[0], []);
      assert ws[0] + [] == ws[0];
    } else {
      var rest := ['_'] + Join(ws[1..], '_');
      assert Join(ws, '_') == ws[0] + rest;
      SplitWord(ws[0], rest);
      assert rest[1..] == Join(ws[1..], '_');
      JoinSplit(ws[1..]);
      var r := SplitKeywords(rest);
      assert r == [[]] + ws[1..];
      assert ws[0] + r[0] == ws[0];
      var whole := SplitKeywords(ws[0] + rest);
      assert whole == [whole[0]] + whole[1..];
    }
  }

  // ---------------------------------------------------------------------------
  // Python's `<=` on `str`: lexicographic by code point, a proper prefix first.

  predicate LexLe(a: string, b: string)
    decreases |a|
  {
    a == [] || (b != [] && (a[0] < b[0] || (a[0] == b[0] && LexLe(a[1..], b[1..]))))
  }

  lemma {:induction false} LexLeReflexive(a: string)
    ensures LexLe(a, a)
    decreases |a|
  {
    if a != [] {
      LexLeReflexive(a[1..]);
    }
  }

  lemma {:induction false} LexLeTransitive(a: string, b: string, c: string)
    requires LexLe(a, b) && LexLe(b, c)
    ensures LexLe(a, c)
    decreases |a|
  {
    if a != [] && a[0] == b[0] && b[0] == c[0] {
      LexLeTransitive(a[1..], b[1..], c[1..]);
    }
  }

  lemma {:induction false} LexLeTotal(a: string, b: string)
    ensures LexLe(a, b) || LexLe(b, a)
    decreases |a|
  {
    if a != [] && b != [] && a[0] == b[0] {
      LexLeTotal(a[1..], b[1..]);
    }
  }

  lemma {:induction false} LexLeAntisymmetric(a: string, b: string)
    requires LexLe(a, b) && LexLe(b, a)
    ensures a == b
    decreases |a|
  {
    if a != [] {
      LexLeAntisymmetric(a[1..], b[1..]);
      assert a == [a[0]] + a[1..] && b == [b[0]] + b[1..];
    }
  }

  // ---------------------------------------------------------------------------

  predicate Distinct<T(==)>(s: seq<T>)
  {
    forall i, j :: 0 <= i < j < |s| ==> s[i] != s[j]
  }
}
