/** Models of the parts of Go's `strings` package (and of `fmt`'s decimal
    formatting) that the services rely on: TrimSpace, Contains, ReplaceAll,
    Split/Join and `%d`.  Strings are sequences of Unicode scalar values, so
    `len([]rune(s))` is `|s|`. */
module GoStrings {

  // ---------------------------------------------------------------------
  // White space and TrimSpace
  // ---------------------------------------------------------------------

  /** The white space characters outside the range U+2000..U+200A. */
  const SpaceChars: set<char> := {' ', '\t', '\n', '\U{B}', '\U{C}', '\r', '\U{85}', '\U{A0}',
                                  '\U{1680}', '\U{2028}', '\U{2029}', '\U{202F}', '\U{205F}', '\U{3000}'}

  /** White space as Go's `unicode.IsSpace` defines it. */
  predicate IsSpace(c: char) {
    c in SpaceChars || '\U{2000}' <= c <= '\U{200A}'
  }

  predicate AllSpace(s: string) {
    forall i :: 0 <= i < |s| ==> IsSpace(s[i])
  }

  /** The number of white space characters at the start of `s`. */
  function LeadingSpace(s: string): (n: nat)
    ensures n <= |s|
    ensures forall i :: 0 <= i < n ==> IsSpace(s[i])
    ensures n == |s| || !IsSpace(s[n])
  {
    if |s| > 0 && IsSpace(s[0]) then
      var m := LeadingSpace(s[1..]);
      assert forall i :: 1 <= i < m + 1 ==> s[i] == s[1..][i - 1];
      m + 1
    else 0
  }

  /** The number of white space characters at the end of `s`. */
  function TrailingSpace(s: string): (n: nat)
    ensures n <= |s|
    ensures forall i :: |s| - n <= i < |s| ==> IsSpace(s[i])
    ensures n == |s| || !IsSpace(s[|s| - n - 1])
  {
    if |s| > 0 && IsSpace(s[|s| - 1]) then
      var m := TrailingSpace(s[..|s| - 1]);
      assert forall i :: |s| - 1 - m <= i < |s| - 1 ==> s[i] == s[..|s| - 1][i];
      m + 1
    else 0
  }

  /** `s` with its leading white space removed. */
  function TrimLeft(s: string): (r: string)
    ensures |r| <= |s| && r == s[|s| - |r|..]
    ensures forall i :: 0 <= i < |s| - |r| ==> IsSpace(s[i])
    ensures r == [] || !IsSpace(r[0])
  {
    s[LeadingSpace(s)..]
  }

  /** `s` with its trailing white space removed. */
  function TrimRight(s: string): (r: string)
    ensures |r| <= |s| && r == s[..|r|]
    ensures forall i :: |r| <= i < |s| ==> IsSpace(s[i])
    ensures r == [] || !IsSpace(r[|r| - 1])
  {
    s[..|s| - TrailingSpace(s)]
  }

  /** Go's `strings.TrimSpace`: the part of `s` between its leading and its
      trailing white space. */
  function TrimSpace(s: string): (r: string)
    ensures |r| <= |s|
    ensures r == [] || (!IsSpace(r[0]) && !IsSpace(r[|r| - 1]))
  {
    TrimRight(TrimLeft(s))
  }

  /** The trimmed text is the slice of `s` that starts after the leading
      white space. */
  lemma TrimSpaceSlice(s: string)
    ensures var i := |s| - |TrimLeft(s)|;
      i + |TrimSpace(s)| <= |s| && s[i..i + |TrimSpace(s)|] == TrimSpace(s)
  {
    var l := TrimLeft(s);
    var i := |s| - |l|;
    var r := TrimRight(l);
    assert TrimSpace(s) == r;
    assert l == s[i..];
    assert r == l[..|r|];
  }

  /** What trimming removes on either side is white space. */
  lemma TrimSpaceMargins(s: string)
    ensures var i := |s| - |TrimLeft(s)|;
      i + |TrimSpace(s)| <= |s| && AllSpace(s[..i]) && AllSpace(s[i + |TrimSpace(s)|..])
  {
    var l := TrimLeft(s);
    var i := |s| - |l|;
    var r := TrimRight(l);
    assert TrimSpace(s) == r;
    var n := i + |r|;
    forall k | 0 <= k < i
      ensures IsSpace(s[..i][k])
    {
      assert s[..i][k] == s[k];
    }
    forall k | 0 <= k < |s| - n
      ensures IsSpace(s[n..][k])
    {
      assert s[n..][k] == l[|r| + k];
    }
  }

  /** Trimming is idempotent: an already trimmed string is left alone. */
  lemma TrimSpaceIdempotent(s: string)
    ensures TrimSpace(TrimSpace(s)) == TrimSpace(s)
  {
    var t := TrimSpace(s);
    assert LeadingSpace(t) == 0;
    assert TrimLeft(t) == t;
    assert TrailingSpace(t) == 0;
    assert TrimRight(t) == t;
  }

  /** A string made only of white space trims to the empty string. */
  lemma TrimSpaceOfBlank(s: string)
    requires AllSpace(s)
    ensures TrimSpace(s) == []
  {
    assert LeadingSpace(s) == |s|;
  }

  // ---------------------------------------------------------------------
  // Contains
  // ---------------------------------------------------------------------

  /** `pat` occurs in `s` starting at index `i`. */
  predicate OccursAt(s: string, i: int, pat: string) {
    0 <= i && i + |pat| <= |s| && s[i..i + |pat|] == pat
  }

  /** Go's `strings.Contains`. */
  predicate Contains(s: string, pat: string) {
    exists i | 0 <= i <= |s| - |pat| :: OccursAt(s, i, pat)
  }

  /** Being a substring is transitive. */
  lemma ContainsTransitive(a: string, b: string, c: string)
    requires Contains(a, b) && Contains(b, c)
    ensures Contains(a, c)
  {
    var i :| 0 <= i <= |a| - |b| && OccursAt(a, i, b);
    var j :| 0 <= j <= |b| - |c| && OccursAt(b, j, c);
    forall k | 0 <= k < |c|
      ensures a[i + j + k] == c[k]
    {
      assert c[k] == b[j + k] == a[i + j + k];
    }
    assert a[i + j..i + j + |c|] == c;
    assert OccursAt(a, i + j, c);
  }

  // ---------------------------------------------------------------------
  // ReplaceAll, Split and Join
  // ---------------------------------------------------------------------

  /** Go's `strings.ReplaceAll` for a non-empty pattern: every non-overlapping
      occurrence of `pat`, scanning left to right, is replaced by `rep`. */
  function ReplaceAll(s: string, pat: string, rep: string): string
    requires |pat| > 0
    decreases |s|
  {
    if |s| < |pat| then s
    else if s[..|pat|] == pat then rep + ReplaceAll(s[|pat|..], pat, rep)
    else [s[0]] + ReplaceAll(s[1..], pat, rep)
  }

  /** Go's `strings.Split` for a non-empty separator: the pieces of `s`
      between the non-overlapping occurrences of `sep`, left to right. */
  function Split(s: string, sep: string): (pieces: seq<string>)
    requires |sep| > 0
    ensures |pieces| > 0
    ensures |pieces[0]| <= |s| && pieces[0] == s[..|pieces[0]|]
    decreases |s|
  {
    if |s| < |sep| then [s]
    else if s[..|sep|] == sep then [[]] + Split(s[|sep|..], sep)
    else
      var t := Split(s[1..], sep);
      [[s[0]] + t[0]] + t[1..]
  }

  /** Go's `strings.Join`. */
  function Join(pieces: seq<string>, sep: string): string
  {
    if |pieces| == 0 then []
    else if |pieces| == 1 then pieces[0]
    else pieces[0] + sep + Join(pieces[1..], sep)
  }

  /** Joining pieces whose first one starts with `c` puts `c` in front. */
  lemma JoinConsHead(c: char, t: seq<string>, sep: string)
    requires |t| > 0
    ensures Join([[c] + t[0]] + t[1..], sep) == [c] + Join(t, sep)
  {
    var ps := [[c] + t[0]] + t[1..];
    if |t| > 1 {
      assert ps[1..] == t[1..];
      calc {
        Join(ps, sep);
        ([c] + t[0]) + sep + Join(t[1..], sep);
        [c] + (t[0] + sep + Join(t[1..], sep));
        [c] + Join(t, sep);
      }
    }
  }

  /** Replacing is splitting at the pattern and joining with the replacement:
      every occurrence is replaced by the same text. */
  lemma {:induction false} ReplaceAllIsJoinOfSplit(s: string, pat: string, rep: string)
    requires |pat| > 0
    ensures ReplaceAll(s, pat, rep) == Join(Split(s, pat), rep)
    decreases |s|
  {
    if |s| < |pat| {
    } else if s[..|pat|] == pat {
      var t := Split(s[|pat|..], pat);
      ReplaceAllIsJoinOfSplit(s[|pat|..], pat, rep);
      assert Split(s, pat) == [[]] + t;
      assert ReplaceAll(s, pat, rep) == rep + Join(t, rep);
      assert ([[]] + t)[1..] == t;
    } else {
      var t := Split(s[1..], pat);
      ReplaceAllIsJoinOfSplit(s[1..], pat, rep);
      assert Split(s, pat) == [[s[0]] + t[0]] + t[1..];
      JoinConsHead(s[0], t, rep);
    }
  }

  /** Splitting and joining again with the same separator gives back the input. */
  lemma {:induction false} JoinSplitRoundTrip(s: string, sep: string)
    requires |sep| > 0
    ensures Join(Split(s, sep), sep) == s
    decreases |s|
  {
    if |s| < |sep| {
    } else if s[..|sep|] == sep {
      var t := Split(s[|sep|..], sep);
      JoinSplitRoundTrip(s[|sep|..], sep);
      assert Split(s, sep) == [[]] + t && ([[]] + t)[1..] == t;
      assert Join(Split(s, sep), sep) == sep + Join(t, sep);
      assert s == sep + s[|sep|..];
    } else {
      var t := Split(s[1..], sep);
      JoinSplitRoundTrip(s[1..], sep);
      assert Split(s, sep) == [[s[0]] + t[0]] + t[1..];
      JoinConsHead(s[0], t, sep);
      assert s == [s[0]] + s[1..];
    }
  }

  /** A piece made of one character and a piece without `sep` contains
      `sep` only at its start. */
  lemma ConsNoOccurrence(c: char, t: string, sep: string)
    requires |sep| > 0 && !Contains(t, sep) && !OccursAt([c] + t, 0, sep)
    ensures !Contains([c] + t, sep)
  {
    var p := [c] + t;
    forall i | 0 <= i <= |p| - |sep|
      ensures !OccursAt(p, i, sep)
    {
      if i > 0 {
        assert t[i - 1..i - 1 + |sep|] == p[i..i + |sep|];
        assert !OccursAt(t, i - 1, sep);
      }
    }
  }

  /** No piece of a split contains the separator, and every piece is a
      substring of the input. */
  lemma {:induction false} SplitPieces(s: string, sep: string)
    requires |sep| > 0
    ensures forall k :: 0 <= k < |Split(s, sep)| ==>
              !Contains(Split(s, sep)[k], sep) && Contains(s, Split(s, sep)[k])
    decreases |s|
  {
    var ps := Split(s, sep);
    if |s| < |sep| {
      assert OccursAt(s, 0, s);
    } else if s[..|sep|] == sep {
      var rest := s[|sep|..];
      SplitPieces(rest, sep);
      assert OccursAt(s, 0, []);
      assert s[|sep|..|sep| + |rest|] == rest;
      assert OccursAt(s, |sep|, rest);
      forall k | 1 <= k < |ps|
        ensures !Contains(ps[k], sep) && Contains(s, ps[k])
      {
        assert ps[k] == Split(rest, sep)[k - 1];
        ContainsTransitive(s, rest, ps[k]);
      }
    } else {
      var rest := s[1..];
      var t := Split(rest, sep);
      SplitPieces(rest, sep);
      assert OccursAt(s, 1, rest);
      var p := ps[0];
      assert p == [s[0]] + t[0];
      assert OccursAt(s, 0, p);
      assert !OccursAt(p, 0, sep) by {
        if |sep| <= |p| {
          assert p[..|sep|] == s[..|sep|];
        }
      }
      ConsNoOccurrence(s[0], t[0], sep);
      forall k | 1 <= k < |ps|
        ensures !Contains(ps[k], sep) && Contains(s, ps[k])
      {
        assert ps[k] == t[k];
        ContainsTransitive(s, rest, ps[k]);
      }
    }
  }

  /** An occurrence that starts in `p` and runs past its end contains the
      first character of what follows `p`. */
  lemma StraddlingOccurrence(j: string, p: string, sep: string, rest: string, pat: string, i: int)
    requires |sep| > 0 && j == p + sep + rest
    requires OccursAt(j, i, pat) && i < |p| < i + |pat|
    ensures sep[0] in pat
  {
    assert pat[|p| - i] == j[|p|] == sep[0];
  }

  /** An occurrence of `pat` in a join lies inside one of the pieces, provided
      that `pat` cannot start inside the separator and cannot run into it. */
  lemma {:induction false} JoinOccurrence(pieces: seq<string>, sep: string, pat: string)
    requires |pat| > 0 && |sep| > 0
    requires pat[0] !in sep && sep[0] !in pat
    ensures Contains(Join(pieces, sep), pat) ==>
              exists k :: 0 <= k < |pieces| && Contains(pieces[k], pat)
    decreases |pieces|
  {
    if |pieces| > 1 && Contains(Join(pieces, sep), pat) {
      var p := pieces[0];
      var rest := Join(pieces[1..], sep);
      var j := Join(pieces, sep);
      assert j == p + sep + rest;
      var i :| 0 <= i <= |j| - |pat| && OccursAt(j, i, pat);
      if i + |pat| <= |p| {
        assert p[i..i + |pat|] == j[i..i + |pat|];
        assert OccursAt(p, i, pat);
      } else if i < |p| {
        StraddlingOccurrence(j, p, sep, rest, pat, i);
        assert false;
      } else if i < |p| + |sep| {
        assert false;
      } else {
        var i' := i - |p| - |sep|;
        assert rest[i'..i' + |pat|] == j[i..i + |pat|];
        assert OccursAt(rest, i', pat);
        JoinOccurrence(pieces[1..], sep, pat);
        var k :| 0 <= k < |pieces[1..]| && Contains(pieces[1..][k], pat);
        assert pieces[k + 1] == pieces[1..][k];
      }
    }
  }

  /** After ReplaceAll, the pattern no longer occurs, as long as the
      replacement cannot take part in a new occurrence of it. */
  lemma ReplaceAllRemovesPattern(s: string, pat: string, rep: string)
    requires |pat| > 0 && |rep| > 0
    requires pat[0] !in rep && rep[0] !in pat
    ensures !Contains(ReplaceAll(s, pat, rep), pat)
  {
    ReplaceAllIsJoinOfSplit(s, pat, rep);
    SplitPieces(s, pat);
    JoinOccurrence(Split(s, pat), rep, pat);
  }

  /** ReplaceAll creates no occurrence of a pattern that cannot overlap the
      replacement text: whatever occurs afterwards occurred before. */
  lemma ReplaceAllAddsNoOccurrence(s: string, pat: string, rep: string, other: string)
    requires |pat| > 0 && |rep| > 0 && |other| > 0
    requires other[0] !in rep && rep[0] !in other
    ensures Contains(ReplaceAll(s, pat, rep), other) ==> Contains(s, other)
  {
    ReplaceAllIsJoinOfSplit(s, pat, rep);
    SplitPieces(s, pat);
    JoinOccurrence(Split(s, pat), rep, other);
    if Contains(ReplaceAll(s, pat, rep), other) {
      var k :| 0 <= k < |Split(s, pat)| && Contains(Split(s, pat)[k], other);
      ContainsTransitive(s, Split(s, pat)[k], other);
    }
  }

  /** A string without the pattern is left unchanged by ReplaceAll. */
  lemma {:induction false} ReplaceAllAbsent(s: string, pat: string, rep: string)
    requires |pat| > 0 && !Contains(s, pat)
    ensures ReplaceAll(s, pat, rep) == s
    decreases |s|
  {
    if |s| >= |pat| {
      if s[..|pat|] == pat {
        assert OccursAt(s, 0, pat);
        assert false;
      }
      if Contains(s[1..], pat) {
        var i :| 0 <= i <= |s[1..]| - |pat| && OccursAt(s[1..], i, pat);
        assert s[i + 1..i + 1 + |pat|] == s[1..][i..i + |pat|];
        assert OccursAt(s, i + 1, pat);
        assert false;
      }
      ReplaceAllAbsent(s[1..], pat, rep);
      assert s == [s[0]] + s[1..];
    }
  }

  // ---------------------------------------------------------------------
  // Decimal formatting, as fmt.Sprintf("%d", n) for n >= 0
  // ---------------------------------------------------------------------

  predicate IsDigit(c: char) {
    '0' <= c <= '9'
  }

  function DigitChar(d: nat): (c: char)
    requires d < 10
    ensures IsDigit(c)
  {
    "0123456789"[d]
  }

  /** The decimal digits of `n`, most significant first, without leading zeros. */
  function Decimal(n: nat): (s: string)
    ensures |s| > 0 && forall i :: 0 <= i < |s| ==> IsDigit(s[i])
    ensures n >= 10 ==> s[0] != '0'
  {
    if n < 10 then [DigitChar(n)] else Decimal(n / 10) + [DigitChar(n % 10)]
  }

  /** The value of a string of decimal digits. */
  function DecimalValue(s: string): nat
    requires forall i :: 0 <= i < |s| ==> IsDigit(s[i])
  {
    if s == [] then 0
    else
      assert IsDigit(s[|s| - 1]);
      DecimalValue(s[..|s| - 1]) * 10 + ((s[|s| - 1] as int) - ('0' as int))
  }

  /** Decimal formatting is injective: reading the digits back gives `n`. */
  lemma {:induction false} DecimalRoundTrip(n: nat)
    ensures DecimalValue(Decimal(n)) == n
  {
    if n < 10 {
      assert "0123456789"[n] as int - '0' as int == n;
    } else {
      var s := Decimal(n);
      DecimalRoundTrip(n / 10);
      assert s[..|s| - 1] == Decimal(n / 10);
      var d := n % 10;
      assert "0123456789"[d] as int - '0' as int == d;
    }
  }
}
