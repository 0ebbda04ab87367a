/** Python string operations used by the four maintenance scripts, written out on
    `seq<char>`: `str.replace`, `str.count`, `str.split`, `str.join`, `str.strip`
    and `in`, together with the character classes `\s` and `\w` of the two regular
    expressions (restricted to ASCII). */
module Text {

  datatype Option<+T> = None | Some(value: T)

  /** A character Python classifies as whitespace (`str.isspace`, regex `\s`), ASCII part. */
  predicate IsSpace(c: char) {
    c == ' ' || c == '\t' || c == '\n' || c == '\r'
    || c == '\U{0B}' || c == '\U{0C}' || ('\U{1C}' <= c <= '\U{1F}')
  }

  /** A character matched by the regex class `\w`, ASCII part. */
  predicate IsWord(c: char) {
    ('a' <= c <= 'z') || ('A' <= c <= 'Z') || ('0' <= c <= '9') || c == '_'
  }

  predicate AllSpace(s: string) {
    forall j | 0 <= j < |s| :: IsSpace(s[j])
  }

  predicate AllWord(s: string) {
    forall j | 0 <= j < |s| :: IsWord(s[j])
  }

  /** Every character of `s` at positions `a` up to `b` is whitespace. */
  predicate SpaceBetween(s: string, a: int, b: int) {
    forall j | a <= j < b && 0 <= j < |s| :: IsSpace(s[j])
  }

  /** Every character of `s` at positions `a` up to `b` is a word character. */
  predicate WordBetween(s: string, a: int, b: int) {
    forall j | a <= j < b && 0 <= j < |s| :: IsWord(s[j])
  }

  /** Where a greedy `\s*` that starts at `a` stops (at `a` itself when `a` is
      past the end). */
  function SpaceEnd(s: string, a: nat): (e: nat)
    ensures a <= e && (a <= |s| ==> e <= |s|) && SpaceBetween(s, a, e)
    ensures e < |s| ==> !IsSpace(s[e])
    decreases |s| - a
  {
    if a < |s| && IsSpace(s[a]) then SpaceEnd(s, a + 1) else a
  }

  /** Where a greedy `\w*` that starts at `a` stops (at `a` itself when `a` is
      past the end). */
  function WordEnd(s: string, a: nat): (e: nat)
    ensures a <= e && (a <= |s| ==> e <= |s|) && WordBetween(s, a, e)
    ensures e < |s| ==> !IsWord(s[e])
    decreases |s| - a
  {
    if a < |s| && IsWord(s[a]) then WordEnd(s, a + 1) else a
  }

  /** A run that is all of one class and is followed by a character outside it ends
      where the greedy scan ends. */
  lemma SpaceEndExact(s: string, a: nat, e: nat)
    requires a <= e <= |s| && SpaceBetween(s, a, e)
    requires e == |s| || !IsSpace(s[e])
    ensures SpaceEnd(s, a) == e
    decreases e - a
  {
    if a < e {
      SpaceEndExact(s, a + 1, e);
    }
  }

  lemma WordEndExact(s: string, a: nat, e: nat)
    requires a <= e <= |s| && WordBetween(s, a, e)
    requires e == |s| || !IsWord(s[e])
    ensures WordEnd(s, a) == e
    decreases e - a
  {
    if a < e {
      WordEndExact(s, a + 1, e);
    }
  }

  /** A piece of word characters placed after `pre` is a run of word characters. */
  lemma WordRunAt(pre: string, w: string, post: string)
    requires AllWord(w)
    ensures WordBetween(pre + w + post, |pre|, |pre| + |w|)
  {
    var s := pre + w + post;
    forall j | |pre| <= j < |pre| + |w| ensures IsWord(s[j]) {
      assert s[j] == w[j - |pre|];
    }
  }

  /** A slice that is all word characters is a run of them in the whole text. */
  lemma WordSlice(s: string, a: nat, b: nat)
    requires a <= b <= |s| && AllWord(s[a..b])
    ensures WordBetween(s, a, b)
  {
    forall j | a <= j < b ensures IsWord(s[j]) {
      assert s[j] == s[a..b][j - a];
    }
  }

  /** A piece of whitespace placed after `pre` is a run of whitespace. */
  lemma SpaceRunAt(pre: string, w: string, post: string)
    requires AllSpace(w)
    ensures SpaceBetween(pre + w + post, |pre|, |pre| + |w|)
  {
    var s := pre + w + post;
    forall j | |pre| <= j < |pre| + |w| ensures IsSpace(s[j]) {
      assert s[j] == w[j - |pre|];
    }
  }

  // ---------------------------------------------------------------------------
  // Substrings

  /** `pat` occurs in `s` at index `i`. */
  predicate Occurs(s: string, pat: string, i: int) {
    0 <= i <= |s| - |pat| && pat <= s[i..]
  }

  /** The two parts of a concatenation are its slices. */
  lemma AppendSlices(a: string, b: string)
    ensures (a + b)[..|a|] == a && (a + b)[|a|..] == b
  {
  }

  /** The first part of a longer concatenation is its leading slice. */
  lemma LeadingSlice(a: string, b: string, c: string, d: string)
    ensures (a + b + c + d)[..|a|] == a
  {
    assert a + b + c + d == a + (b + c + d);
  }

  /** The five parts of a concatenation are its slices. */
  lemma Slices5(p: string, n: string, q: string, m: string, r: string)
    ensures var s := p + n + q + m + r; var i := |p| + |n|; var j := i + |q| + |m|;
      s[..|p|] == p && s[|p|..i] == n && s[i..i + |q|] == q
      && s[i + |q|..j] == m && s[j..] == r
  {
  }

  /** Regrouping a concatenation. */
  lemma AppendAssoc(x: string, p: string, q: string, r: string)
    ensures x + (p + q) == x + p + q
    ensures x + (p + q + r) == x + p + q + r
  {
  }

  /** A text is its first character followed by the rest. */
  lemma FirstAndRest(w: string, r: string)
    requires w != []
    ensures [w[0]] + (w[1..] + r) == w + r
  {
    assert w == [w[0]] + w[1..];
  }

  /** Text placed before a concatenation of four or of six parts. */
  lemma Flatten(x: string, a: string, b: string, c: string, d: string, e: string, f: string)
    ensures x + (a + b + c + d) == x + a + b + c + d
    ensures x + (a + b + c + d + e + f) == x + a + b + c + d + e + f
  {
    AppendAssoc(x, a, b, c);
    AppendAssoc(x + a + b, c, d, []);
    AppendAssoc(x + a + b + c, d, e, f);
  }

  /** Two ways of splitting the middle of a text. */
  lemma Regroup(a: string, p: string, q: string, d: string, e: string, x: string)
    requires p + q == d + e
    ensures a + p + q + x == a + d + (e + x)
    ensures a + p + (q + x) == a + d + (e + x)
  {
    assert a + p + q + x == a + (p + q) + x;
    assert a + d + (e + x) == a + (d + e) + x;
  }

  /** A piece of a text written as two pieces. */
  lemma Unsplit(a: string, i: string, p: string, e: string, x: string)
    requires i == p + e
    ensures a + p + (e + x) == a + i + x
  {
    assert a + p + (e + x) == a + (p + e) + x;
  }

  /** Python's `pat in s`. */
  predicate Contains(s: string, pat: string)
  {
    exists i | 0 <= i <= |s| - |pat| :: Occurs(s, pat, i)
  }

  /** A character of the pattern that the text lacks rules the pattern out. */
  lemma MissingCharNotContained(s: string, pat: string, c: char)
    requires c in pat && c !in s
    ensures !Contains(s, pat)
  {
    var d :| 0 <= d < |pat| && pat[d] == c;
    forall i | 0 <= i <= |s| - |pat| ensures !Occurs(s, pat, i) {
      assert s[i + d] in s;
    }
  }

  /** An occurrence in `s[1..]` is an occurrence in `s` one place later, and back. */
  lemma OccursShift(s: string, pat: string)
    requires s != []
    ensures forall i | 0 <= i :: Occurs(s[1..], pat, i) <==> Occurs(s, pat, i + 1)
  {
    forall i | 0 <= i ensures Occurs(s[1..], pat, i) <==> Occurs(s, pat, i + 1) {
      if i <= |s| - 1 {
        assert s[1..][i..] == s[i + 1..];
      }
    }
  }

  /** An occurrence in the tail is an occurrence in the whole text. */
  lemma ContainsTail(s: string, pat: string)
    requires s != []
    ensures Contains(s[1..], pat) ==> Contains(s, pat)
  {
    if Contains(s[1..], pat) {
      var i :| 0 <= i <= |s[1..]| - |pat| && Occurs(s[1..], pat, i);
      OccursShift(s, pat);
      assert Occurs(s, pat, i + 1);
    }
  }

  /** The three parts of a concatenation are its slices. */
  lemma Parts3(a: string, b: string, c: string)
    ensures (a + b + c)[..|a|] == a && (a + b + c)[|a|..] == b + c
    ensures (a + b + c)[|a| + |b|..] == c
  {
    assert a + b + c == a + (b + c);
  }

  /** A character that the outer parts lack lies inside the middle part. */
  lemma CharInMiddle(a: string, b: string, c: string, ch: char, j: int)
    requires ch !in a && ch !in c && 0 <= j < |a + b + c| && (a + b + c)[j] == ch
    ensures |a| <= j < |a| + |b| && b[j - |a|] == ch
  {
    assert forall m | 0 <= m < |a| :: (a + b + c)[m] == a[m];
    assert forall m | |a| + |b| <= m < |a + b + c| :: (a + b + c)[m] == c[m - |a| - |b|];
  }

  /** A pattern whose character at `d` the text holds only at `k + d` can occur
      only at `k`. */
  lemma OccursOnlyAt(s: string, pat: string, d: nat, k: int)
    requires d < |pat|
    requires forall j | 0 <= j < |s| :: s[j] == pat[d] ==> j == k + d
    ensures forall i | 0 <= i <= |s| :: Occurs(s, pat, i) ==> i == k
  {
    forall i | 0 <= i <= |s| && Occurs(s, pat, i) ensures i == k {
      assert s[i + d] == pat[d];
    }
  }

  /** A pattern with the same character at `d` and at `e` occurs nowhere in a text
      that holds that character at most once. */
  lemma NotContainedTwice(s: string, pat: string, d: nat, e: nat, k: int)
    requires d < e < |pat| && pat[d] == pat[e]
    requires forall j | 0 <= j < |s| :: s[j] == pat[d] ==> j == k
    ensures !Contains(s, pat)
  {
    forall i | 0 <= i <= |s| - |pat| ensures !Occurs(s, pat, i) {
      assert s[i..][d] == s[i + d] && s[i..][e] == s[i + e];
    }
  }

  /** A pattern with the same character at `d` and at `e` can occur only at `k` in
      a text that holds that character only at `k + d` and `k + e`. */
  lemma OccursOnlyAtPair(s: string, pat: string, d: nat, e: nat, k: int)
    requires d < e < |pat| && pat[d] == pat[e]
    requires forall j | 0 <= j < |s| :: s[j] == pat[d] ==> j == k + d || j == k + e
    ensures forall i | 0 <= i <= |s| :: Occurs(s, pat, i) ==> i == k
  {
    forall i | 0 <= i <= |s| && Occurs(s, pat, i) ensures i == k {
      assert s[i + d] == pat[d] && s[i + e] == pat[e];
    }
  }

  // ---------------------------------------------------------------------------
  // str.replace, str.count, str.split, str.join

  /** Python's `s.replace(pat, rep)`: the leftmost occurrence is replaced first and the
      scan resumes after it, so replacements never overlap and the inserted text is
      never scanned again. An empty pattern inserts `rep` before every character and
      at the end, as Python does. */
  function ReplaceAll(s: string, pat: string, rep: string): (r: string)
    decreases |s|
  {
    if pat == [] then
      (if s == [] then rep else rep + [s[0]] + ReplaceAll(s[1..], pat, rep))
    else if pat <= s then rep + ReplaceAll(s[|pat|..], pat, rep)
    else if s == [] then []
    else [s[0]] + ReplaceAll(s[1..], pat, rep)
  }

  /** Python's `s.count(pat)`: the number of occurrences the same left-to-right,
      non-overlapping scan finds (`len(s) + 1` for the empty pattern). */
  function Count(s: string, pat: string): (n: nat)
    decreases |s|
  {
    if pat == [] then |s| + 1
    else if pat <= s then 1 + Count(s[|pat|..], pat)
    else if s == [] then 0
    else Count(s[1..], pat)
  }

  /** Python's `sep.join(pieces)`. */
  function Join(pieces: seq<string>, sep: string): (r: string)
  {
    if pieces == [] then []
    else if |pieces| == 1 then pieces[0]
    else pieces[0] + sep + Join(pieces[1..], sep)
  }

  lemma JoinCons(p: string, pieces: seq<string>, sep: string)
    requires pieces != []
    ensures Join([p] + pieces, sep) == p + sep + Join(pieces, sep)
  {
    assert ([p] + pieces)[1..] == pieces;
  }

  lemma JoinConsHead(c: char, pieces: seq<string>, sep: string)
    requires pieces != []
    ensures Join([[c] + pieces[0]] + pieces[1..], sep) == [c] + Join(pieces, sep)
  {
    var ps := [[c] + pieces[0]] + pieces[1..];
    if |pieces| > 1 {
      assert ps[1..] == pieces[1..];
    }
  }

  /** Python's `s.split(sep)`: the texts between the occurrences that the scan of
      `ReplaceAll` and `Count` finds. One piece more than there are occurrences, and
      the pieces joined by `sep` give `s` back. */
  function Split(s: string, sep: string): (pieces: seq<string>)
    requires sep != []
    ensures |pieces| == Count(s, sep) + 1
    ensures pieces[0] <= s
    ensures Join(pieces, sep) == s
    decreases |s|
  {
    if sep <= s then
      var rest := Split(s[|sep|..], sep);
      assert s == [] + sep + Join(rest, sep);
      [[]] + rest
    else if s == [] then [[]]
    else
      var rest := Split(s[1..], sep);
      JoinConsHead(s[0], rest, sep);
      [[s[0]] + rest[0]] + rest[1..]
  }

  /** No piece of a split contains the separator: the scan misses no occurrence. */
  lemma {:induction false} SplitPiecesLackSep(s: string, sep: string)
    requires sep != []
    ensures forall k | 0 <= k < |Split(s, sep)| :: !Contains(Split(s, sep)[k], sep)
    decreases |s|
  {
    if sep <= s {
      SplitPiecesLackSep(s[|sep|..], sep);
      assert Split(s, sep) == [[]] + Split(s[|sep|..], sep);
    } else if s != [] {
      var rest := Split(s[1..], sep);
      SplitPiecesLackSep(s[1..], sep);
      var first := [s[0]] + rest[0];
      assert Split(s, sep) == [first] + rest[1..];
      assert first[1..] == rest[0];
      assert first <= s;
      OccursShift(first, sep);
      forall i | 0 <= i <= |first| - |sep| ensures !Occurs(first, sep, i) {
        if i > 0 {
          assert !Occurs(rest[0], sep, i - 1);
        }
      }
    }
  }

  /** `s.replace(pat, rep) == rep.join(s.split(pat))`: every occurrence the scan finds
      is replaced, and the text between occurrences is kept as it was. */
  lemma {:induction false} ReplaceAllIsJoinOfSplit(s: string, pat: string, rep: string)
    requires pat != []
    ensures ReplaceAll(s, pat, rep) == Join(Split(s, pat), rep)
    decreases |s|
  {
    ReplaceAllStep(s, pat, rep);
    SplitStep(s, pat);
    if pat <= s {
      var u := s[|pat|..];
      ReplaceAllIsJoinOfSplit(u, pat, rep);
      JoinCons([], Split(u, pat), rep);
      assert [] + rep + Join(Split(u, pat), rep) == rep + Join(Split(u, pat), rep);
    } else if s != [] {
      var u := s[1..];
      ReplaceAllIsJoinOfSplit(u, pat, rep);
      JoinConsHead(s[0], Split(u, pat), rep);
    }
  }

  /** One step of the scan of `ReplaceAll` for a non-empty pattern. */
  lemma ReplaceAllStep(s: string, pat: string, rep: string)
    requires pat != []
    ensures pat <= s ==> ReplaceAll(s, pat, rep) == rep + ReplaceAll(s[|pat|..], pat, rep)
    ensures !(pat <= s) && s != [] ==> ReplaceAll(s, pat, rep) == [s[0]] + ReplaceAll(s[1..], pat, rep)
  {
  }

  /** One step of the scan of `Split`. */
  lemma SplitStep(s: string, sep: string)
    requires sep != []
    ensures sep <= s ==> Split(s, sep) == [[]] + Split(s[|sep|..], sep)
    ensures !(sep <= s) && s != [] ==>
      Split(s, sep) == [[s[0]] + Split(s[1..], sep)[0]] + Split(s[1..], sep)[1..]
  {
  }

  lemma MulSucc(c: int, d: int)
    ensures (c + 1) * d == c * d + d
  {
  }

  /** Each replacement changes the length by `|rep| - |pat|`. */
  lemma {:induction false} ReplaceAllLength(s: string, pat: string, rep: string)
    ensures |ReplaceAll(s, pat, rep)| == |s| + Count(s, pat) * (|rep| - |pat|)
    decreases |s|
  {
    if pat == [] {
      if s != [] {
        ReplaceAllLength(s[1..], pat, rep);
        var c := Count(s[1..], pat);
        MulSucc(c, |rep|);
      }
    } else {
      ReplaceAllLengthNonEmpty(s, pat, rep);
    }
  }

  lemma {:induction false} ReplaceAllLengthNonEmpty(s: string, pat: string, rep: string)
    requires pat != []
    ensures |ReplaceAll(s, pat, rep)| == |s| + Count(s, pat) * (|rep| - |pat|)
    decreases |s|
  {
    var d := |rep| - |pat|;
    if pat <= s {
      var rest := s[|pat|..];
      ReplaceAllLengthNonEmpty(rest, pat, rep);
      var c := Count(rest, pat);
      assert |ReplaceAll(s, pat, rep)| == |rep| + |rest| + c * d;
      MulSucc(c, d);
    } else if s != [] {
      ReplaceAllLengthNonEmpty(s[1..], pat, rep);
    }
  }

  /** The scan replaces something exactly when Python's `in` finds the pattern. */
  lemma {:induction false} CountPositiveIffContains(s: string, pat: string)
    requires pat != []
    ensures Count(s, pat) > 0 <==> Contains(s, pat)
    decreases |s|
  {
    if pat <= s {
      assert Occurs(s, pat, 0);
    } else if s != [] {
      CountPositiveIffContains(s[1..], pat);
      OccursShift(s, pat);
      if Contains(s, pat) {
        var i :| 0 <= i <= |s| - |pat| && Occurs(s, pat, i);
        assert Occurs(s[1..], pat, i - 1);
      }
    }
  }

  /** Without an occurrence, `replace` returns its input unchanged. */
  lemma ReplaceAllAbsent(s: string, pat: string, rep: string)
    requires pat != [] && !Contains(s, pat)
    ensures ReplaceAll(s, pat, rep) == s
  {
    CountPositiveIffContains(s, pat);
    ReplaceAllIsJoinOfSplit(s, pat, rep);
  }

  /** A prefix in which no occurrence starts passes through the scan unchanged. */
  lemma {:induction false} ReplaceAllSkip(a: string, b: string, pat: string, rep: string)
    requires pat != []
    requires forall i | 0 <= i < |a| :: !Occurs(a + b, pat, i)
    ensures ReplaceAll(a + b, pat, rep) == a + ReplaceAll(b, pat, rep)
    decreases |a|
  {
    if a != [] {
      var s := a + b;
      assert !Occurs(s, pat, 0);
      assert s[1..] == a[1..] + b;
      forall i | 0 <= i < |a[1..]| ensures !Occurs(a[1..] + b, pat, i) {
        assert !Occurs(s, pat, i + 1);
        assert s[1..][i..] == s[i + 1..];
      }
      ReplaceAllSkip(a[1..], b, pat, rep);
      assert ReplaceAll(s, pat, rep) == [a[0]] + ReplaceAll(a[1..] + b, pat, rep);
      assert a == [a[0]] + a[1..];
      AppendAssoc([a[0]], a[1..], ReplaceAll(b, pat, rep), []);
    }
  }

  /** When the only place the pattern can occur is `k`, the scan replaces at most there. */
  lemma ReplaceAllOnlyAt(s: string, pat: string, rep: string, k: nat)
    requires pat != [] && k <= |s|
    requires forall i | 0 <= i <= |s| :: Occurs(s, pat, i) ==> i == k
    ensures Occurs(s, pat, k) ==> ReplaceAll(s, pat, rep) == s[..k] + rep + s[k + |pat|..]
    ensures !Occurs(s, pat, k) ==> ReplaceAll(s, pat, rep) == s
  {
    assert s == s[..k] + s[k..];
    ReplaceAllSkip(s[..k], s[k..], pat, rep);
    if Occurs(s, pat, k) {
      var tail := s[k + |pat|..];
      forall i | 0 <= i <= |tail| - |pat| ensures !Occurs(tail, pat, i) {
        if Occurs(tail, pat, i) {
          assert s[k + |pat| + i..] == tail[i..];
          assert Occurs(s, pat, k + |pat| + i);
        }
      }
      ReplaceAllAbsent(tail, pat, rep);
    } else {
      forall i | 0 <= i <= |s[k..]| - |pat| ensures !Occurs(s[k..], pat, i) {
        if Occurs(s[k..], pat, i) {
          assert s[k..][i..] == s[k + i..];
          assert Occurs(s, pat, k + i);
        }
      }
      ReplaceAllAbsent(s[k..], pat, rep);
    }
  }

  /** An occurrence past the first character is one in the tail. */
  lemma OccursInTail(s: string, pat: string, i: int)
    requires 1 <= i && Occurs(s, pat, i)
    ensures Occurs(s[1..], pat, i - 1)
  {
    assert s[1..][i - 1..] == s[i..];
  }

  /** An occurrence moves one place on when a character is put in front. */
  lemma OccursAfterChar(c: char, t: string, pat: string, j: int)
    requires Occurs(t, pat, j)
    ensures Occurs([c] + t, pat, j + 1)
  {
    assert ([c] + t)[j + 1..] == t[j..];
  }

  /** Replacing a pattern that occurs leaves the replacement text in the result. */
  lemma {:induction false} ReplaceAllLeavesRep(s: string, pat: string, rep: string)
    requires pat != [] && Contains(s, pat)
    ensures Contains(ReplaceAll(s, pat, rep), rep)
    decreases |s|
  {
    var r := ReplaceAll(s, pat, rep);
    if pat <= s {
      assert Occurs(r, rep, 0);
    } else {
      var i :| 0 <= i <= |s| - |pat| && Occurs(s, pat, i);
      assert s[0..] == s;
      OccursInTail(s, pat, i);
      ReplaceAllLeavesRep(s[1..], pat, rep);
      var r1 := ReplaceAll(s[1..], pat, rep);
      var j :| 0 <= j <= |r1| - |rep| && Occurs(r1, rep, j);
      assert r == [s[0]] + r1;
      OccursAfterChar(s[0], r1, rep, j);
    }
  }

  // ---------------------------------------------------------------------------
  // str.strip

  /** Where a greedy `\s*` that ends at `b` starts, scanning backwards. */
  function SpaceStart(s: string, b: nat): (a: nat)
    requires b <= |s|
    ensures a <= b && SpaceBetween(s, a, b) && (a > 0 ==> !IsSpace(s[a - 1]))
    decreases b
  {
    if b > 0 && IsSpace(s[b - 1]) then SpaceStart(s, b - 1) else b
  }

  /** `s.lstrip()`: drops the leading whitespace and nothing else. */
  function StripStart(s: string): (r: string)
    ensures |r| <= |s| && r == s[|s| - |r|..]
    ensures forall j | 0 <= j < |s| - |r| :: IsSpace(s[j])
    ensures r == [] || !IsSpace(r[0])
  {
    s[SpaceEnd(s, 0)..]
  }

  /** `s.rstrip()`: drops the trailing whitespace and nothing else. */
  function StripEnd(s: string): (r: string)
    ensures |r| <= |s| && r == s[..|r|]
    ensures forall j | |r| <= j < |s| :: IsSpace(s[j])
    ensures r == [] || !IsSpace(r[|r| - 1])
  {
    s[..SpaceStart(s, |s|)]
  }

  /** `s.strip()`: the text between the leading and the trailing whitespace. It is
      empty exactly when `s` is all whitespace, and otherwise starts and ends with a
      character that is not whitespace. */
  function Strip(s: string): (r: string)
    ensures r == [] <==> AllSpace(s)
    ensures r != [] ==> !IsSpace(r[0]) && !IsSpace(r[|r| - 1])
    ensures Contains(s, r)
    ensures exists k :: StrippedAt(s, r, k)
  {
    var t := StripStart(s);
    var r := StripEnd(t);
    StripFound(s, t, r);
    r
  }

  /** `r` is `s` without the `k` leading characters and the characters after
      `r`, and all of those are whitespace. */
  predicate StrippedAt(s: string, r: string, k: int) {
    0 <= k <= |s| - |r| && r == s[k..k + |r|] && AllSpace(s[..k]) && AllSpace(s[k + |r|..])
  }

  /** Where the stripped text lies in the original one. */
  lemma StripFound(s: string, t: string, r: string)
    requires t == StripStart(s) && r == StripEnd(t)
    ensures r == [] <==> AllSpace(s)
    ensures r != [] ==> !IsSpace(r[0]) && !IsSpace(r[|r| - 1])
    ensures Contains(s, r)
    ensures StrippedAt(s, r, |s| - |t|)
  {
    var k := |s| - |t|;
    assert t == s[k..] && r == t[..|r|];
    assert r <= s[k..];
    if r != [] {
      assert s[k] == t[0] == r[0];
    }
    assert Occurs(s, r, k);
    assert r == s[k..k + |r|];
    assert s[k + |r|..] == t[|r|..];
  }

  /** Stripping twice strips nothing more. */
  lemma StripIdempotent(s: string)
    ensures Strip(Strip(s)) == Strip(s)
  {
    var r := Strip(s);
    if r != [] {
      assert StripStart(r) == r;
      assert StripEnd(r) == r;
    }
  }
}
