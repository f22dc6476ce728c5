/** The Python `str` operations both scripts call, with CPython's semantics:
    `str.replace`, `str.split` with an explicit separator, `''.join` and
    `str.strip` with no argument. The `in` operator, `str.count` and
    `sep.join` with a non-empty separator are defined too: the scripts never
    call them, and the contracts are stated in their terms. */
module PyStr {

  /** `pat` occurs in `s` starting at index `j`. */
  predicate MatchAt(s: string, pat: string, j: int) {
    0 <= j && j + |pat| <= |s| && s[j..j + |pat|] == pat
  }

  /** Python's `pat in s` (the empty string occurs in every string). */
  predicate Contains(s: string, pat: string) {
    exists j :: 0 <= j <= |s| - |pat| && MatchAt(s, pat, j)
  }

  /** No occurrence of `pat` in `t` starts before index `k`. */
  ghost predicate NoMatchBefore(t: string, pat: string, k: int) {
    forall j :: 0 <= j < k ==> !MatchAt(t, pat, j)
  }

  /** `b` occurs in `a + b + c`, starting right after `a`. */
  lemma ContainsMiddle(a: string, b: string, c: string)
    ensures Contains(a + b + c, b)
  {
    assert (a + b + c)[|a|..|a| + |b|] == b;
    assert MatchAt(a + b + c, b, |a|);
  }

  /** `c` occurs in `b` and `b` occurs in `a`, so `c` occurs in `a`. */
  lemma ContainsTransitive(a: string, b: string, c: string)
    requires Contains(a, b) && Contains(b, c)
    ensures Contains(a, c)
  {
    var i :| 0 <= i <= |a| - |b| && MatchAt(a, b, i);
    var j :| 0 <= j <= |b| - |c| && MatchAt(b, c, j);
    assert a[i..i + |b|] == b;
    assert b[j..j + |c|] == c;
    forall k | 0 <= k < |c|
      ensures a[i + j..i + j + |c|][k] == c[k]
    {
      assert a[i + j + k] == a[i..i + |b|][j + k] == b[j + k] == b[j..j + |c|][k];
    }
    assert a[i + j..i + j + |c|] == c;
    assert MatchAt(a, c, i + j);
  }

  /** Every part occurs in `''.join(parts)`. */
  lemma {:induction false} ConcatContains(parts: seq<string>, i: int)
    requires 0 <= i < |parts|
    ensures Contains(Concat(parts), parts[i])
    decreases i
  {
    var c := Concat(parts);
    assert c == parts[0] + Concat(parts[1..]);
    if i == 0 {
      assert c[..|parts[0]|] == parts[0];
      assert MatchAt(c, parts[0], 0);
    } else {
      ConcatContains(parts[1..], i - 1);
      assert c[|parts[0]|..] == Concat(parts[1..]);
      assert MatchAt(c, Concat(parts[1..]), |parts[0]|);
      ContainsTransitive(c, Concat(parts[1..]), parts[i]);
    }
  }

  /** The first occurrence of `pat` in `u` is also the first in any string
      that starts with `u`. */
  lemma FirstMatchInExtension(u: string, t: string, pat: string, p: int)
    requires u <= t && MatchAt(u, pat, p) && NoMatchBefore(u, pat, p)
    ensures MatchAt(t, pat, p) && NoMatchBefore(t, pat, p)
  {
    assert u == t[..|u|];
    assert t[p..p + |pat|] == u[p..p + |pat|];
    forall k | 0 <= k < p
      ensures !MatchAt(t, pat, k)
    {
      assert !MatchAt(u, pat, k);
      assert t[k..k + |pat|] == u[k..k + |pat|];
    }
  }

  /** The empty pattern first occurs at 0, and its replacement starts the
      output. */
  lemma ReplaceAllFirstEmpty(s: string, rep: string)
    ensures rep <= ReplaceAll(s, "", rep)
  {
    if s != [] {
      assert SurroundEach(s, rep) == rep + ([s[0]] + SurroundEach(s[1..], rep));
    }
  }

  /** No occurrence before `p` in `s` means none before `p - 1` in
      `s[1..]`. */
  lemma NoMatchBeforeTail(s: string, pat: string, p: int)
    requires |s| >= 1 && p >= 1 && NoMatchBefore(s, pat, p)
    ensures NoMatchBefore(s[1..], pat, p - 1)
  {
    forall j | 0 <= j < p - 1
      ensures !MatchAt(s[1..], pat, j)
    {
      MatchShift(s, pat, j);
    }
  }

  /** The first occurrence of `pat` is the first one replaced: the output
      begins with the text before it, then `rep`. */
  lemma ReplaceAllFirstMatch(s: string, pat: string, rep: string, p: int)
    requires MatchAt(s, pat, p) && NoMatchBefore(s, pat, p)
    ensures s[..p] + rep <= ReplaceAll(s, pat, rep)
  {
    if pat == [] {
      if p > 0 {
        assert MatchAt(s, pat, 0);
        assert false;
      }
      ReplaceAllFirstEmpty(s, rep);
    } else {
      ReplaceAllSkipPrefix(s, pat, rep, p);
      var u := s[p..];
      assert u[..|pat|] == pat;
      assert ReplaceAll(u, pat, rep) == rep + ReplaceAll(u[|pat|..], pat, rep);
    }
  }

  /** Text before the first occurrence of a non-empty pattern is copied
      unchanged. */
  lemma {:induction false} ReplaceAllSkipPrefix(s: string, pat: string, rep: string, p: nat)
    requires pat != [] && p <= |s| && NoMatchBefore(s, pat, p)
    ensures ReplaceAll(s, pat, rep) == s[..p] + ReplaceAll(s[p..], pat, rep)
    decreases p
  {
    if p == 0 {
      assert s[..0] == [] && s[0..] == s;
    } else {
      NoMatchBeforeTail(s, pat, p);
      ReplaceAllSkipPrefix(s[1..], pat, rep, p - 1);
      ReplaceAllSkipPrefixStep(s, pat, rep, p);
    }
  }

  /** One more character copied in front of the prefix already copied. */
  lemma ReplaceAllSkipPrefixStep(s: string, pat: string, rep: string, p: nat)
    requires pat != [] && 1 <= p <= |s| && !MatchAt(s, pat, 0)
    requires ReplaceAll(s[1..], pat, rep) == s[1..][..p - 1] + ReplaceAll(s[1..][p - 1..], pat, rep)
    ensures ReplaceAll(s, pat, rep) == s[..p] + ReplaceAll(s[p..], pat, rep)
  {
    var t := s[1..];
    ReplaceAllSkipChar(s, pat, rep);
    assert t[p - 1..] == s[p..];
    assert s[..p] == [s[0]] + t[..p - 1];
    ConsRegroup(s[0], t[..p - 1], ReplaceAll(s[p..], pat, rep));
  }

  /** Regrouping after a leading character. Kept as a lemma over plain
      variables rather than an inline assertion: stated about the `ReplaceAll`
      terms directly, it leaves the step above out of resource on some
      solver seeds. */
  lemma ConsRegroup(c: char, a: string, x: string)
    ensures [c] + (a + x) == ([c] + a) + x
  {
  }

  /** A first character that starts no occurrence is copied as it is. */
  lemma ReplaceAllSkipChar(s: string, pat: string, rep: string)
    requires pat != [] && |s| >= 1 && !MatchAt(s, pat, 0)
    ensures ReplaceAll(s, pat, rep) == [s[0]] + ReplaceAll(s[1..], pat, rep)
  {
    if |s| < |pat| {
      assert ReplaceAll(s[1..], pat, rep) == s[1..];
      assert s == [s[0]] + s[1..];
    }
  }

  /** Two replacements in a row, where the second pattern first occurs
      inside the first replacement of the first pattern: the second
      replacement lands there, at offset `j` of the first. */
  lemma ReplaceInsideReplacement(s: string, p1: string, r1: string, i: int, p2: string, r2: string, j: int)
    requires MatchAt(s, p1, i) && NoMatchBefore(s, p1, i)
    requires MatchAt(r1, p2, j)
    requires NoMatchBefore(s[..i] + r1, p2, i + j)
    ensures s[..i] + r1 <= ReplaceAll(s, p1, r1)
    ensures MatchAt(ReplaceAll(s, p1, r1), p2, i + j)
    ensures s[..i] + r1[..j] + r2 <= ReplaceAll(ReplaceAll(s, p1, r1), p2, r2)
  {
    var u := s[..i] + r1;
    var mid := ReplaceAll(s, p1, r1);
    ReplaceAllFirstMatch(s, p1, r1, i);
    assert u[i + j..i + j + |p2|] == r1[j..j + |p2|];
    FirstMatchInExtension(u, mid, p2, i + j);
    ReplaceAllFirstMatch(mid, p2, r2, i + j);
    assert mid[..i + j] == u[..i + j] == s[..i] + r1[..j];
  }

  /** Python's `sep.join(parts)`. */
  function Join(parts: seq<string>, sep: string): string
    decreases |parts|
  {
    if |parts| == 0 then ""
    else if |parts| == 1 then parts[0]
    else parts[0] + sep + Join(parts[1..], sep)
  }

  /** Python's `''.join(parts)`: as long as the parts together. */
  function Concat(parts: seq<string>): (r: string)
    ensures |r| == SumLengths(parts)
    decreases |parts|
  {
    if parts == [] then "" else parts[0] + Concat(parts[1..])
  }

  /** Total length of the pieces. */
  function SumLengths(parts: seq<string>): nat
    decreases |parts|
  {
    if parts == [] then 0 else |parts[0]| + SumLengths(parts[1..])
  }

  /** Python's `s.split(sep)` for a non-empty separator (CPython raises
      ValueError for an empty one): scan left to right, cut at every
      non-overlapping occurrence of `sep`. Joining the pieces back with
      `sep` gives `s`. */
  function Split(s: string, sep: string): (r: seq<string>)
    requires sep != []
    ensures |r| >= 1
    ensures Join(r, sep) == s
    decreases |s|
  {
    if |s| < |sep| then [s]
    else if s[..|sep|] == sep then
      var rest := Split(s[|sep|..], sep);
      assert ([""] + rest)[1..] == rest;
      assert s == s[..|sep|] + s[|sep|..];
      [""] + rest
    else
      var rest := Split(s[1..], sep);
      JoinConsChar(s[0], rest, sep);
      assert s == [s[0]] + s[1..];
      [[s[0]] + rest[0]] + rest[1..]
  }

  /** Python's `s.replace(pat, rep)`: every non-overlapping occurrence of
      `pat`, found scanning left to right, becomes `rep`. Replacing a
      pattern by itself changes nothing. */
  function ReplaceAll(s: string, pat: string, rep: string): (r: string)
    ensures rep == pat ==> r == s
    decreases |s|
  {
    if pat == [] then SurroundEach(s, rep)
    else if |s| < |pat| then s
    else if s[..|pat|] == pat then rep + ReplaceAll(s[|pat|..], pat, rep)
    else [s[0]] + ReplaceAll(s[1..], pat, rep)
  }

  /** `s.replace('', rep)`: CPython puts `rep` before every character and
      once more at the end. */
  function SurroundEach(s: string, rep: string): (r: string)
    ensures rep == [] ==> r == s
    decreases |s|
  {
    if s == [] then rep else rep + [s[0]] + SurroundEach(s[1..], rep)
  }

  /** Python's `s.count(pat)`: the number of non-overlapping occurrences,
      `len(s) + 1` for the empty pattern. */
  function Count(s: string, pat: string): nat {
    if pat == [] then |s| + 1 else |Split(s, pat)| - 1
  }

  /** The single-character strings of `s`, in order. */
  function Chars(s: string): (r: seq<string>)
    ensures |r| == |s|
    ensures forall i :: 0 <= i < |s| ==> r[i] == [s[i]]
  {
    seq(|s|, i requires 0 <= i < |s| => [s[i]])
  }

  /** `ps` cuts `s` at occurrences of `pat` exactly as a left-to-right scan
      does: joining the pieces with `pat` gives `s` back, no occurrence of
      `pat` starts inside a piece before the separator that follows it, and
      the last piece holds no occurrence at all. */
  ghost predicate IsLeftmostSplit(s: string, pat: string, ps: seq<string>) {
    && |ps| >= 1
    && Join(ps, pat) == s
    && (forall i :: 0 <= i < |ps| - 1 ==> NoMatchBefore(ps[i] + pat, pat, |ps[i]|))
    && !Contains(ps[|ps| - 1], pat)
  }

  lemma JoinCons(ps: seq<string>, sep: string)
    requires |ps| >= 2
    ensures Join(ps, sep) == ps[0] + sep + Join(ps[1..], sep)
  {
  }

  /** Prepending a character to the first piece prepends it to the join. */
  lemma JoinConsChar(c: char, ps: seq<string>, sep: string)
    requires |ps| >= 1
    ensures Join([[c] + ps[0]] + ps[1..], sep) == [c] + Join(ps, sep)
  {
    var q := [[c] + ps[0]] + ps[1..];
    if |ps| == 1 {
      assert q == [[c] + ps[0]];
    } else {
      assert q[1..] == ps[1..];
    }
  }

  /** An occurrence in `s[1..]` is an occurrence in `s`, one place later. */
  lemma MatchShift(s: string, pat: string, j: int)
    requires |s| >= 1 && j >= 0
    ensures MatchAt(s[1..], pat, j) <==> MatchAt(s, pat, j + 1)
  {
    if 0 <= j && j + |pat| <= |s| - 1 {
      assert s[1..][j..j + |pat|] == s[j + 1..j + 1 + |pat|];
    }
  }

  /** A string without an occurrence of `sep` splits into itself. */
  lemma {:induction false} NoMatchSplit(s: string, sep: string)
    requires sep != [] && !Contains(s, sep)
    ensures Split(s, sep) == [s]
    decreases |s|
  {
    if |s| < |sep| {
    } else if s[..|sep|] == sep {
      assert MatchAt(s, sep, 0);
      assert false;
    } else {
      forall j | 0 <= j <= |s[1..]| - |sep|
        ensures !MatchAt(s[1..], sep, j)
      {
        MatchShift(s, sep, j);
      }
      NoMatchSplit(s[1..], sep);
      assert s == [s[0]] + s[1..];
    }
  }

  /** A leading separator adds an empty first piece. */
  lemma LeftmostAfterSeparator(s: string, sep: string, rest: seq<string>)
    requires sep != [] && |s| >= |sep| && s[..|sep|] == sep
    requires IsLeftmostSplit(s[|sep|..], sep, rest)
    ensures IsLeftmostSplit(s, sep, [""] + rest)
  {
    var ps := [""] + rest;
    assert ps[1..] == rest;
    assert s == s[..|sep|] + s[|sep|..];
    forall i | 0 <= i < |ps| - 1
      ensures NoMatchBefore(ps[i] + sep, sep, |ps[i]|)
    {
      if i > 0 {
        assert ps[i] == rest[i - 1];
      }
    }
  }

  /** A leading character that does not start a separator joins the first
      piece. */
  lemma LeftmostAfterChar(s: string, sep: string, rest: seq<string>)
    requires sep != [] && |s| >= |sep| && s[..|sep|] != sep
    requires IsLeftmostSplit(s[1..], sep, rest)
    ensures IsLeftmostSplit(s, sep, [[s[0]] + rest[0]] + rest[1..])
  {
    var ps := [[s[0]] + rest[0]] + rest[1..];
    JoinConsChar(s[0], rest, sep);
    assert s == [s[0]] + s[1..];
    if |rest| == 1 {
      assert rest[0] == s[1..];
      assert ps[0] == s;
      forall j | 0 <= j <= |s| - |sep|
        ensures !MatchAt(s, sep, j)
      {
        if j > 0 {
          MatchShift(s, sep, j - 1);
        }
      }
    } else {
      JoinCons(rest, sep);
      var t := ps[0] + sep;
      assert s == t + Join(rest[1..], sep);
      forall j | 0 <= j < |ps[0]|
        ensures !MatchAt(t, sep, j)
      {
        if j == 0 {
          assert t[..|sep|] == s[..|sep|];
        } else {
          assert t[1..] == rest[0] + sep;
          MatchShift(t, sep, j - 1);
        }
      }
      forall i | 1 <= i < |ps| - 1
        ensures NoMatchBefore(ps[i] + sep, sep, |ps[i]|)
      {
        assert ps[i] == rest[i];
      }
      assert ps[|ps| - 1] == rest[|rest| - 1];
    }
  }

  /** `Split` cuts at the leftmost occurrences. */
  lemma {:induction false} SplitIsLeftmost(s: string, sep: string)
    requires sep != []
    ensures IsLeftmostSplit(s, sep, Split(s, sep))
    decreases |s|
  {
    if |s| < |sep| {
    } else if s[..|sep|] == sep {
      SplitIsLeftmost(s[|sep|..], sep);
      LeftmostAfterSeparator(s, sep, Split(s[|sep|..], sep));
    } else {
      SplitIsLeftmost(s[1..], sep);
      LeftmostAfterChar(s, sep, Split(s[1..], sep));
    }
  }

  /** The leftmost-split conditions determine the pieces: `Split` is the only
      list of pieces that satisfies them. */
  lemma {:induction false} LeftmostSplitUnique(s: string, sep: string, ps: seq<string>)
    requires sep != [] && IsLeftmostSplit(s, sep, ps)
    ensures ps == Split(s, sep)
    decreases |s|
  {
    if |ps| == 1 {
      NoMatchSplit(s, sep);
    } else {
      JoinCons(ps, sep);
      var tail := Join(ps[1..], sep);
      assert s == ps[0] + sep + tail;
      if ps[0] == [] {
        assert s[..|sep|] == sep;
        var s' := s[|sep|..];
        assert s' == tail;
        var ps' := ps[1..];
        forall i | 0 <= i < |ps'| - 1
          ensures NoMatchBefore(ps'[i] + sep, sep, |ps'[i]|)
        {
          assert ps'[i] == ps[i + 1];
        }
        assert ps'[|ps'| - 1] == ps[|ps| - 1];
        LeftmostSplitUnique(s', sep, ps');
        assert ps == [""] + ps';
      } else {
        var c := ps[0][0];
        var t := ps[0] + sep;
        assert t[..|sep|] == s[..|sep|];
        assert !MatchAt(t, sep, 0);
        var ps' := [ps[0][1..]] + ps[1..];
        assert ps[0] == [c] + ps[0][1..];
        assert ps == [[c] + ps'[0]] + ps'[1..];
        JoinConsChar(c, ps', sep);
        assert s == [c] + Join(ps', sep);
        assert s[1..] == Join(ps', sep);
        forall j | 0 <= j < |ps'[0]|
          ensures !MatchAt(ps'[0] + sep, sep, j)
        {
          assert t[1..] == ps'[0] + sep;
          MatchShift(t, sep, j);
        }
        forall i | 1 <= i < |ps'| - 1
          ensures NoMatchBefore(ps'[i] + sep, sep, |ps'[i]|)
        {
          assert ps'[i] == ps[i];
        }
        assert ps'[|ps'| - 1] == ps[|ps| - 1];
        LeftmostSplitUnique(s[1..], sep, ps');
      }
    }
  }

  /** For a non-empty pattern, `s.replace(pat, rep)` is
      `rep.join(s.split(pat))`: the text between occurrences is kept
      verbatim and each occurrence becomes `rep`. */
  lemma {:induction false} ReplaceAllViaSplit(s: string, pat: string, rep: string)
    requires pat != []
    ensures ReplaceAll(s, pat, rep) == Join(Split(s, pat), rep)
    decreases |s|
  {
    if |s| < |pat| {
    } else if s[..|pat|] == pat {
      var rest := Split(s[|pat|..], pat);
      assert Split(s, pat) == [""] + rest;
      assert ReplaceAll(s, pat, rep) == rep + ReplaceAll(s[|pat|..], pat, rep);
      ReplaceAllViaSplit(s[|pat|..], pat, rep);
      JoinCons([""] + rest, rep);
      assert ([""] + rest)[1..] == rest;
    } else {
      var rest := Split(s[1..], pat);
      assert Split(s, pat) == [[s[0]] + rest[0]] + rest[1..];
      assert ReplaceAll(s, pat, rep) == [s[0]] + ReplaceAll(s[1..], pat, rep);
      ReplaceAllViaSplit(s[1..], pat, rep);
      JoinConsChar(s[0], rest, rep);
    }
  }

  /** The full characterisation of `str.replace` for a non-empty pattern:
      the pieces `ps` that the output joins with `rep` are exactly the
      leftmost cut of `s` at `pat`. */
  lemma ReplaceAllSpec(s: string, pat: string, rep: string, ps: seq<string>)
    requires pat != []
    ensures IsLeftmostSplit(s, pat, ps) <==> ps == Split(s, pat)
    ensures ReplaceAll(s, pat, rep) == Join(Split(s, pat), rep)
  {
    ReplaceAllViaSplit(s, pat, rep);
    SplitIsLeftmost(s, pat);
    if IsLeftmostSplit(s, pat, ps) {
      LeftmostSplitUnique(s, pat, ps);
    }
  }

  /** The empty pattern: `rep` is inserted before every character and at the
      end, i.e. it joins the characters with an empty piece at each end. */
  lemma {:induction false} ReplaceAllEmptyPattern(s: string, rep: string)
    ensures ReplaceAll(s, "", rep) == Join([""] + Chars(s) + [""], rep)
    decreases |s|
  {
    if s == [] {
      assert [""] + Chars(s) + [""] == ["", ""];
    } else {
      ReplaceAllEmptyPattern(s[1..], rep);
      var ps := [""] + Chars(s[1..]) + [""];
      var qs := [""] + Chars(s) + [""];
      assert Chars(s) == [[s[0]]] + Chars(s[1..]);
      assert ps[1..] == Chars(s[1..]) + [""];
      assert [s[0]] + ps[0] == [s[0]];
      assert qs[1..] == Chars(s) + [""];
      assert qs[1..] == [[s[0]] + ps[0]] + ps[1..];
      JoinConsChar(s[0], ps, rep);
      JoinCons(qs, rep);
    }
  }

  /** A pattern that does not occur leaves the string unchanged. */
  lemma ReplaceAllAbsent(s: string, pat: string, rep: string)
    requires !Contains(s, pat)
    ensures ReplaceAll(s, pat, rep) == s
  {
    if pat == [] {
      assert MatchAt(s, pat, 0);
      assert false;
    }
    NoMatchSplit(s, pat);
    ReplaceAllViaSplit(s, pat, rep);
  }

  /** `s.count(pat) >= 1` exactly when `pat in s`. */
  lemma CountPositiveIffContains(s: string, pat: string)
    ensures Count(s, pat) >= 1 <==> Contains(s, pat)
  {
    if pat == [] {
      assert MatchAt(s, pat, 0);
    } else {
      var ps := Split(s, pat);
      SplitIsLeftmost(s, pat);
      if |ps| >= 2 {
        JoinCons(ps, pat);
        assert (ps[0] + pat + Join(ps[1..], pat))[|ps[0]|..|ps[0]| + |pat|] == pat;
        assert MatchAt(s, pat, |ps[0]|);
      }
    }
  }

  /** Multiplying by a count of at least one keeps a positive difference
      positive. Kept as a lemma over plain variables: the same fact asserted
      where `k` and `g` are lengths of `ReplaceAll` terms runs out of
      resource. */
  lemma ProductPositive(k: int, g: int)
    requires k >= 1 && g >= 1
    ensures k * g >= 1
  {
  }

  /** When the replacement is longer than the pattern, `str.replace`
      changes the string exactly when the pattern occurs in it. */
  lemma ReplaceAllChangesIffContains(s: string, pat: string, rep: string)
    requires |rep| > |pat|
    ensures ReplaceAll(s, pat, rep) != s <==> Contains(s, pat)
  {
    if Contains(s, pat) {
      var k := Count(s, pat);
      var g := |rep| - |pat|;
      assert k >= 1 by { CountPositiveIffContains(s, pat); }
      assert |ReplaceAll(s, pat, rep)| == |s| + k * g by { ReplaceAllLength(s, pat, rep); }
      ProductPositive(k, g);
    } else {
      ReplaceAllAbsent(s, pat, rep);
    }
  }

  lemma {:induction false} JoinLength(ps: seq<string>, sep: string)
    requires |ps| >= 1
    ensures |Join(ps, sep)| == SumLengths(ps) + (|ps| - 1) * |sep|
    decreases |ps|
  {
    if |ps| > 1 {
      JoinLength(ps[1..], sep);
    }
  }

  lemma {:induction false} SurroundEachLength(s: string, rep: string)
    ensures |SurroundEach(s, rep)| == |s| + (|s| + 1) * |rep|
    decreases |s|
  {
    if s != [] {
      SurroundEachLength(s[1..], rep);
    }
  }

  /** Each of the `k = s.count(pat)` replacements changes the length by
      `len(rep) - len(pat)`. */
  lemma ReplaceAllLength(s: string, pat: string, rep: string)
    ensures |ReplaceAll(s, pat, rep)| == |s| + Count(s, pat) * (|rep| - |pat|)
  {
    if pat == [] {
      SurroundEachLength(s, rep);
    } else {
      var ps := Split(s, pat);
      ReplaceAllViaSplit(s, pat, rep);
      JoinLength(ps, pat);
      JoinLength(ps, rep);
      var n := |ps| - 1;
      assert n * |rep| - n * |pat| == n * (|rep| - |pat|);
    }
  }

  /** Splitting at a one-character separator yields one piece more than the
      separator occurs, and no piece holds the separator. */
  lemma {:induction false} SplitOnChar(s: string, c: char)
    ensures |Split(s, [c])| == multiset(s)[c] + 1
    ensures forall i :: 0 <= i < |Split(s, [c])| ==> c !in Split(s, [c])[i]
    decreases |s|
  {
    if |s| >= 1 {
      assert s == [s[0]] + s[1..];
      assert multiset(s) == multiset([s[0]]) + multiset(s[1..]);
      var rest := Split(s[1..], [c]);
      SplitOnChar(s[1..], c);
      var ps := Split(s, [c]);
      if s[..1] == [c] {
        assert ps == [""] + rest;
        forall i | 0 <= i < |ps| ensures c !in ps[i] {
          if i > 0 { assert ps[i] == rest[i - 1]; }
        }
      } else {
        assert s[0] != c;
        assert ps == [[s[0]] + rest[0]] + rest[1..];
        forall i | 0 <= i < |ps| ensures c !in ps[i] {
          if i > 0 { assert ps[i] == rest[i]; }
        }
      }
    }
  }

  lemma {:induction false} ConcatAppend(a: seq<string>, b: seq<string>)
    ensures Concat(a + b) == Concat(a) + Concat(b)
    decreases |a|
  {
    if a == [] {
      assert a + b == b;
    } else {
      assert (a + b)[0] == a[0];
      assert (a + b)[1..] == a[1..] + b;
      ConcatAppend(a[1..], b);
    }
  }

  /** Python's `str.isspace()` for one character: the characters that
      `str.strip()` with no argument removes. */
  predicate IsSpace(c: char) {
    || c in {' ', '\t', '\n', '\r', '\U{000B}', '\U{000C}', '\U{001C}', '\U{001D}', '\U{001E}',
             '\U{001F}', '\U{0085}', '\U{00A0}', '\U{1680}', '\U{2028}', '\U{2029}', '\U{202F}',
             '\U{205F}', '\U{3000}'}
    || '\U{2000}' <= c <= '\U{200A}'
  }

  /** Python's `s.lstrip()`: the longest suffix that does not start with
      whitespace, everything before it being whitespace. */
  function TrimStart(s: string): (r: string)
    ensures |r| <= |s| && r == s[|s| - |r|..]
    ensures forall k :: 0 <= k < |s| - |r| ==> IsSpace(s[k])
    ensures r != [] ==> !IsSpace(r[0])
    decreases |s|
  {
    if s != [] && IsSpace(s[0]) then TrimStart(s[1..]) else s
  }

  /** Python's `s.rstrip()`: the longest prefix that does not end with
      whitespace, everything after it being whitespace. */
  function TrimEnd(s: string): (r: string)
    ensures |r| <= |s| && r == s[..|r|]
    ensures forall k :: |r| <= k < |s| ==> IsSpace(s[k])
    ensures r != [] ==> !IsSpace(r[|r| - 1])
    decreases |s|
  {
    if s != [] && IsSpace(s[|s| - 1]) then TrimEnd(s[..|s| - 1]) else s
  }

  /** `r` is `s[i:i+len(r)]` and only whitespace lies outside that slice. */
  ghost predicate StrippedAt(s: string, r: string, i: int) {
    && 0 <= i <= |s| - |r| && r == s[i..i + |r|]
    && (forall k :: 0 <= k < i ==> IsSpace(s[k]))
    && (forall k :: i + |r| <= k < |s| ==> IsSpace(s[k]))
  }

  /** Python's `s.strip()`: the slice `s[i:i+len(r)]` left once the
      whitespace at both ends is removed. */
  function Strip(s: string): (r: string)
    ensures exists i :: StrippedAt(s, r, i)
    ensures r != [] ==> !IsSpace(r[0]) && !IsSpace(r[|r| - 1])
  {
    var t := TrimStart(s);
    var r := TrimEnd(t);
    var i := |s| - |t|;
    assert StrippedAt(s, r, i);
    r
  }

  /** A string without whitespace at either end is its own strip. */
  lemma StripUnchanged(s: string)
    requires s != [] && !IsSpace(s[0]) && !IsSpace(s[|s| - 1])
    ensures Strip(s) == s
  {
  }

  /** Leading whitespace is dropped by strip. */
  lemma StripLeadingSpace(c: char, s: string)
    requires IsSpace(c)
    ensures Strip([c] + s) == Strip(s)
  {
    assert ([c] + s)[1..] == s;
  }

}
