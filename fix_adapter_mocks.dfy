/** The rewrite done by fix-adapter-mocks.py: in assertions on the user-management
    adapter mock, the `expect.any(String),` placeholder that an earlier pass put in
    front of the arguments is deleted, together with the whitespace after it. The
    pattern is fixed, so it is written here as a matcher of its own rather than as an
    instance of a regular-expression engine:

      expect\(userMgmtAdapterMock\.\w+\)\.toHaveBeenCalledWith\(expect\.any\(String\),\s*

    and a match is replaced by its first group, the text up to and including the
    opening parenthesis of `toHaveBeenCalledWith(`. */
module FixAdapterMocks {
  import opened Text

  /** The one mock whose assertions are fixed. */
  const Target := "userMgmtAdapterMock"

  /** `expect(userMgmtAdapterMock.`, the start of the pattern. */
  const Head := "expect(" + Target + "."

  /** What follows the member name, up to the end of the first group. */
  const Call := ").toHaveBeenCalledWith("

  /** The deleted placeholder; the whitespace after it is deleted as well. */
  const PlaceholderComma := "expect.any(String),"

  /** The characters of the pattern that the proofs below rely on. */
  lemma Layout()
    ensures |Head| == 27 && |Call| == 23 && |PlaceholderComma| == 19
    ensures Head[6] == '(' && Head[7] == 'u' && Head[7..26] == Target && Head[26] == '.'
    ensures Call[0] == ')' && Call[22] == '(' && PlaceholderComma[0] == 'e'
    ensures 'A' in Target && 'A' !in Call && 'A' !in PlaceholderComma
  {
    assert Target[8] == 'A';
  }

  // ---------------------------------------------------------------------------
  // The pattern

  /** A match at the start of `s`: `s[..|Head|]` is the head, the member name
      `s[|Head|..nameEnd]` is a non-empty run of word characters (`\w+`), then come
      `).toHaveBeenCalledWith(` and the placeholder, and `s[..end]` is the whole match:
      `\s*` is greedy, so the whitespace run after the placeholder is maximal. */
  predicate PatternAt(s: string, nameEnd: int, end: int) {
    Head <= s && |Head| < nameEnd <= |s| && WordBetween(s, |Head|, nameEnd)
    && Call + PlaceholderComma <= s[nameEnd..]
    && nameEnd + |Call| + |PlaceholderComma| <= end <= |s|
    && SpaceBetween(s, nameEnd + |Call| + |PlaceholderComma|, end)
    && (end == |s| || !IsSpace(s[end]))
  }

  /** Where a match at the start of a text ends its member name and ends itself. */
  datatype Match = Match(nameEnd: nat, end: nat)

  /** The matcher: tries the pattern at the start of `s`. */
  function MatchAt(s: string): (r: Option<Match>)
    ensures r.Some? ==> PatternAt(s, r.value.nameEnd, r.value.end)
  {
    if Head <= s then
      var nameEnd := WordEnd(s, |Head|);
      if |Head| < nameEnd && Call + PlaceholderComma <= s[nameEnd..] then
        Some(Match(nameEnd, SpaceEnd(s, nameEnd + |Call| + |PlaceholderComma|)))
      else
        None
    else
      None
  }

  /** The matcher finds every match, and a match at a given start is unique: `\w+` must
      stop where `)` starts, and the greedy `\s*` has only one place to stop. */
  lemma MatchAtComplete(s: string, nameEnd: int, end: int)
    requires PatternAt(s, nameEnd, end)
    ensures MatchAt(s) == Some(Match(nameEnd, end))
  {
    assert s[nameEnd] == (Call + PlaceholderComma)[0] == Call[0] == ')';
    WordEndExact(s, |Head|, nameEnd);
    SpaceEndExact(s, nameEnd + |Call| + |PlaceholderComma|, end);
  }

  /** A match spells out the mock's name. */
  lemma MatchNeedsTarget(s: string)
    ensures MatchAt(s).Some? ==> Contains(s, Target)
  {
    Layout();
    if Head <= s {
      assert s[7..][..19] == Head[7..26];
      assert Occurs(s, Target, 7);
    }
  }

  // ---------------------------------------------------------------------------
  // pattern.subn

  /** The new text and the number of replacements, as `subn` returns them. */
  datatype Outcome = Outcome(text: string, count: nat)

  /** `pattern.subn(r'\1', content)`: scanning left to right, each match is replaced by
      its first group and the scan resumes after the match. Every replacement deletes at
      least the placeholder, so the text shrinks by at least 19 characters per count,
      and the text is unchanged exactly when nothing was replaced. */
  function Subn(s: string): (r: Outcome)
    ensures |r.text| + 19 * r.count <= |s|
    ensures r.count == 0 <==> r.text == s
    decreases |s|
  {
    Layout();
    if s == [] then Outcome([], 0)
    else
      match MatchAt(s)
      case Some(m) =>
        var rest := Subn(s[m.end..]);
        Outcome(s[..m.nameEnd + |Call|] + rest.text, rest.count + 1)
      case None =>
        var rest := Subn(s[1..]);
        assert s == [s[0]] + s[1..];
        Outcome([s[0]] + rest.text, rest.count)
  }

  /** A text that never names the adapter mock is left alone: assertions on the
      repository mocks, or on any other mock, are not touched. */
  lemma {:induction false} UntouchedWithoutTarget(s: string)
    requires !Contains(s, Target)
    ensures Subn(s) == Outcome(s, 0)
    decreases |s|
  {
    if s != [] {
      MatchNeedsTarget(s);
      ContainsTail(s, Target);
      UntouchedWithoutTarget(s[1..]);
      assert s == [s[0]] + s[1..];
    }
  }

  /** At a match, `subn` keeps the first group and resumes after the match. */
  lemma SubnAtMatch(s: string, nameEnd: int, end: int)
    requires PatternAt(s, nameEnd, end)
    ensures Subn(s) == Outcome(s[..nameEnd + |Call|] + Subn(s[end..]).text, Subn(s[end..]).count + 1)
  {
    MatchAtComplete(s, nameEnd, end);
  }

  /** An assertion on the adapter mock whose arguments start with the placeholder
      matches the pattern, up to the end of the whitespace after the placeholder. */
  lemma AssertionMatches(member: string, ws: string, args: string)
    requires member != [] && AllWord(member) && AllSpace(ws)
    requires args == [] || !IsSpace(args[0])
    ensures var pre := Head + member + Call + PlaceholderComma;
            PatternAt(pre + ws + args, |Head| + |member|, |pre| + |ws|)
  {
    var pre := Head + member + Call + PlaceholderComma;
    var s := pre + ws + args;
    assert s == Head + member + (Call + PlaceholderComma + ws + args);
    WordRunAt(Head, member, Call + PlaceholderComma + ws + args);
    SpaceRunAt(pre, ws, args);
    assert s[|Head| + |member|..][..|Call| + |PlaceholderComma|] == Call + PlaceholderComma;
  }

  /** An assertion on the adapter mock at the start of a text: the head, the member
      name and `).toHaveBeenCalledWith(` are kept as they are, the placeholder and the
      whitespace after it are deleted, and the scan goes on with the arguments. */
  lemma RemovesPlaceholderAtStart(member: string, ws: string, args: string)
    requires member != [] && AllWord(member) && AllSpace(ws)
    requires args == [] || !IsSpace(args[0])
    ensures Subn(Head + member + Call + PlaceholderComma + ws + args)
         == Outcome(Head + member + Call + Subn(args).text, Subn(args).count + 1)
  {
    var pre := Head + member + Call + PlaceholderComma;
    var s := pre + ws + args;
    AssertionMatches(member, ws, args);
    SubnAtMatch(s, |Head| + |member|, |pre| + |ws|);
    LeadingSlice(Head + member + Call, PlaceholderComma, ws, args);
    AppendSlices(pre + ws, args);
  }

  /** The pattern occurs somewhere in `s`. */
  predicate HasMatch(s: string) {
    exists i | 0 <= i < |s| :: MatchAt(s[i..]).Some?
  }

  /** A match in a text is at its start or in the text after its first character. */
  lemma HasMatchShift(s: string)
    requires s != []
    ensures HasMatch(s) <==> MatchAt(s).Some? || HasMatch(s[1..])
  {
    assert s[0..] == s;
    if HasMatch(s[1..]) {
      var i :| 0 <= i < |s| - 1 && MatchAt(s[1..][i..]).Some?;
      assert s[1..][i..] == s[i + 1..];
    }
    if HasMatch(s) && MatchAt(s).None? {
      var i :| 0 <= i < |s| && MatchAt(s[i..]).Some?;
      assert s[1..][i - 1..] == s[i..];
    }
  }

  /** Where no match starts, `subn` copies the first character. */
  lemma SubnNoMatch(s: string)
    requires s != [] && MatchAt(s).None?
    ensures Subn(s) == Outcome([s[0]] + Subn(s[1..]).text, Subn(s[1..]).count)
  {
  }

  /** `subn` reports no replacement exactly when the pattern occurs nowhere in the
      text. */
  lemma {:induction false} SubnZeroIffNoMatch(s: string)
    ensures Subn(s).count == 0 <==> !HasMatch(s)
    decreases |s|
  {
    if s != [] {
      HasMatchShift(s);
      if MatchAt(s).None? {
        SubnNoMatch(s);
        SubnZeroIffNoMatch(s[1..]);
      } else {
        var m := MatchAt(s).value;
        SubnAtMatch(s, m.nameEnd, m.end);
      }
    }
  }

  /** The text skipped after the first character starts no match either. */
  lemma SkipTail(w: string, x: string)
    requires w != [] && forall i | 0 <= i < |w| :: MatchAt((w + x)[i..]).None?
    ensures (w + x)[1..] == w[1..] + x && MatchAt(w + x).None?
    ensures forall i | 0 <= i < |w[1..]| :: MatchAt((w[1..] + x)[i..]).None?
  {
    var s, t := w + x, w[1..] + x;
    assert s[0..] == s && s[1..] == t;
    forall i | 0 <= i < |w[1..]| ensures MatchAt(t[i..]).None? {
      assert MatchAt(s[i + 1..]).None?;
      assert t[i..] == s[i + 1..];
    }
  }

  /** Text in which the pattern starts nowhere is copied as it is, and the scan goes
      on with what follows it. */
  lemma {:induction false} SubnSkip(w: string, x: string)
    requires forall i | 0 <= i < |w| :: MatchAt((w + x)[i..]).None?
    ensures Subn(w + x) == Outcome(w + Subn(x).text, Subn(x).count)
    decreases |w|
  {
    if w != [] {
      var s, t := w + x, w[1..] + x;
      SkipTail(w, x);
      SubnSkip(w[1..], x);
      SubnNoMatch(s);
      assert s[0] == w[0] && s[1..] == t;
      FirstAndRest(w, Subn(x).text);
    } else {
      assert w + x == x && w + Subn(x).text == Subn(x).text;
    }
  }

  /** A match that starts in text without the mock's name, before a text that
      begins with `ex`, would have to spell out the name across the boundary; the
      head of the pattern has no `ex` after its start that would allow that. */
  lemma NoMatchAt(w: string, y: string, i: int)
    requires !Contains(w, Target) && |y| >= 2 && y[0] == 'e' && y[1] == 'x'
    requires 0 <= i < |w|
    ensures MatchAt((w + y)[i..]).None?
  {
    var s, k := (w + y)[i..], |w| - i;
    if Head <= s {
      HeadHasNoLaterEx();
      assert s[k] == y[0] && s[k + 1] == y[1];
      if i + 26 <= |w| {
        Layout();
        assert w[i + 7..][..19] == s[7..26] == Head[7..26];
        assert Occurs(w, Target, i + 7);
      }
    }
  }

  /** After its first character, the head of the pattern holds no `e` followed by
      `x`. */
  lemma HeadHasNoLaterEx()
    ensures forall j | 1 <= j < |Head| - 1 :: !(Head[j] == 'e' && Head[j + 1] == 'x')
  {
    assert Head == "expect(userMgmtAdapterMock.";
  }

  /** No match starts in text without the mock's name that comes before the start
      of an assertion. */
  lemma NoMatchBefore(w: string, y: string)
    requires !Contains(w, Target) && |y| >= 2 && y[0] == 'e' && y[1] == 'x'
    ensures forall i | 0 <= i < |w| :: MatchAt((w + y)[i..]).None?
  {
    forall i | 0 <= i < |w| ensures MatchAt((w + y)[i..]).None? {
      NoMatchAt(w, y, i);
    }
  }

  /** One assertion on the adapter mock, after code that does not name that mock:
      the code before it, its head, its member name and `).toHaveBeenCalledWith(`
      are kept as they are, the placeholder and the whitespace after it are
      deleted, and the scan goes on with the arguments. */
  lemma RemovesPlaceholder(pre: string, member: string, ws: string, args: string)
    requires !Contains(pre, Target)
    requires member != [] && AllWord(member) && AllSpace(ws)
    requires args == [] || !IsSpace(args[0])
    ensures Subn(pre + Head + member + Call + PlaceholderComma + ws + args)
         == Outcome(pre + Head + member + Call + Subn(args).text, Subn(args).count + 1)
  {
    var y := Head + member + Call + PlaceholderComma + ws + args;
    RemovesPlaceholderAtStart(member, ws, args);
    StartsWithEx(y, member, ws, args);
    NoMatchBefore(pre, y);
    SubnSkip(pre, y);
    Flatten(pre, Head, member, Call, Subn(args).text, [], []);
    Flatten(pre, Head, member, Call, PlaceholderComma, ws, args);
  }

  /** A file that mixes assertions: code before an assertion on the adapter mock
      and code after it that do not name that mock (assertions on the repository
      mocks, say, with their placeholder) are kept byte for byte, and only the
      adapter assertion loses its placeholder: one fix in all. */
  lemma RemovesOnePlaceholder(pre: string, member: string, ws: string, args: string)
    requires !Contains(pre, Target)
    requires member != [] && AllWord(member) && AllSpace(ws)
    requires args == [] || !IsSpace(args[0])
    requires !Contains(args, Target)
    ensures Subn(pre + Head + member + Call + PlaceholderComma + ws + args)
         == Outcome(pre + Head + member + Call + args, 1)
  {
    UntouchedWithoutTarget(args);
    RemovesPlaceholder(pre, member, ws, args);
  }

  /** An assertion on the adapter mock starts with `ex`. */
  lemma StartsWithEx(y: string, member: string, ws: string, args: string)
    requires y == Head + member + Call + PlaceholderComma + ws + args
    ensures |y| >= 2 && y[0] == 'e' && y[1] == 'x'
  {
    Layout();
    assert y[0] == Head[0] && y[1] == Head[1];
    assert Head[..2] == "ex";
  }

  /** The adapter-mock example: `expect(userMgmtAdapterMock.createUser)
      .toHaveBeenCalledWith(expect.any(String), tenantId, payload)` loses its
      placeholder and nothing else. */
  lemma CreateUserExample(pre: string, member: string, args: string)
    requires pre == "    " && member == "createUser" && args == "tenantId, payload"
    ensures Subn(pre + Head + member + Call + PlaceholderComma + " " + args)
         == Outcome(pre + Head + member + Call + args, 1)
  {
    Layout();
    MissingCharNotContained(pre, Target, 'A');
    MissingCharNotContained(args, Target, 'A');
    RemovesOnePlaceholder(pre, member, " ", args);
  }

  /** A repository-mock assertion that carries the same placeholder is left byte for
      byte as it is. */
  lemma RepositoryMockExample(s: string)
    requires s == "expect(userRepositoryMock.createUser" + Call + PlaceholderComma + " tenantId)"
    ensures Subn(s) == Outcome(s, 0)
  {
    Layout();
    assert 'A' !in "expect(userRepositoryMock.createUser";
    MissingCharNotContained(s, Target, 'A');
    UntouchedWithoutTarget(s);
  }

  /** The member name of an assertion ends where its word characters end. */
  lemma NameEnd(member: string, rest: string)
    requires AllWord(member) && rest != [] && !IsWord(rest[0])
    ensures WordEnd(Head + member + rest, |Head|) == |Head| + |member|
    ensures (Head + member + rest)[|Head| + |member|..] == rest
  {
    var s := Head + member + rest;
    WordRunAt(Head, member, rest);
    AppendSlices(Head + member, rest);
    assert s[|Head| + |member|] == rest[0];
    WordEndExact(s, |Head|, |Head| + |member|);
  }

  /** The pattern is strict about whitespace, here between `expect` and `(` and right
      after `(`: no match starts at such an assertion. */
  lemma SpaceInExpectNotMatched(rest: string)
    requires rest != [] && IsSpace(rest[0])
    ensures MatchAt("expect" + rest) == None
    ensures MatchAt("expect(" + rest) == None
  {
    Layout();
    assert ("expect" + rest)[6] == rest[0];
    assert ("expect(" + rest)[7] == rest[0];
  }

  /** Whitespace between the member name and `)` rules the match out as well. */
  lemma SpaceAfterNameNotMatched(member: string, rest: string)
    requires AllWord(member) && rest != [] && IsSpace(rest[0])
    ensures MatchAt(Head + member + rest) == None
  {
    Layout();
    NameEnd(member, rest);
  }

  /** So does whitespace before the `(` of `toHaveBeenCalledWith(`, or between that
      `(` and the placeholder. */
  lemma SpaceInCallNotMatched(member: string, rest: string)
    requires AllWord(member) && rest != [] && IsSpace(rest[0])
    ensures MatchAt(Head + member + ").toHaveBeenCalledWith" + rest) == None
    ensures MatchAt(Head + member + Call + rest) == None
  {
    Layout();
    AppendAssoc(Head + member, ").toHaveBeenCalledWith", rest, []);
    NameEnd(member, ").toHaveBeenCalledWith" + rest);
    assert (").toHaveBeenCalledWith" + rest)[22] == rest[0];
    AppendAssoc(Head + member, Call, rest, []);
    NameEnd(member, Call + rest);
    assert (Call + rest)[23] == rest[0];
  }

  /** `subn` is a single pass: after a placeholder is deleted, the scan resumes behind
      the deleted text, so a second placeholder that follows stays and needs a second
      run. The rewrite is not idempotent. */
  lemma RepeatedPlaceholderNeedsTwoRuns(member: string, args: string)
    requires member != [] && AllWord(member) && 'A' !in args
    requires args == [] || !IsSpace(args[0])
    ensures var once := Head + member + Call + PlaceholderComma + " " + args;
            Subn(Head + member + Call + PlaceholderComma + " " + (PlaceholderComma + " " + args))
              == Outcome(once, 1)
            && Subn(once) == Outcome(Head + member + Call + args, 1)
  {
    Layout();
    var tail := PlaceholderComma + " " + args;
    MissingCharNotContained(tail, Target, 'A');
    UntouchedWithoutTarget(tail);
    RemovesPlaceholderAtStart(member, " ", tail);
    AppendAssoc(Head + member + Call, PlaceholderComma, " ", args);
    MissingCharNotContained(args, Target, 'A');
    UntouchedWithoutTarget(args);
    RemovesPlaceholderAtStart(member, " ", args);
  }

  // ---------------------------------------------------------------------------
  // The file loop

  /** `n` runs of the rewrite over one text. */
  function Repeat(s: string, n: nat): string
  {
    if n == 0 then s else Subn(Repeat(s, n - 1)).text
  }

  /** What is on disk, and the running total of fixes. */
  datatype State = State(files: map<string, string>, total: nat)

  /** One iteration of the loop: the file is read and rewritten, and written back
      with its count added to the total only when the count is positive. A path that
      is not a file is skipped, as the per-file error handler does. */
  function Step(st: State, path: string): (r: State)
    ensures r.files.Keys == st.files.Keys
    ensures path in st.files ==>
      (r.files == st.files[path := Subn(st.files[path]).text]
       && r.total == st.total + Subn(st.files[path]).count)
    ensures path !in st.files ==> r == st
  {
    if path in st.files && Subn(st.files[path]).count > 0 then
      State(st.files[path := Subn(st.files[path]).text], st.total + Subn(st.files[path]).count)
    else
      st
  }

  /** The state after the listed paths are processed in order. Each path reads what is
      on disk at that moment, so a path listed twice is rewritten twice. */
  function Run(files: map<string, string>, paths: seq<string>): (r: State)
    ensures r.files.Keys == files.Keys
    decreases |paths|
  {
    if paths == [] then State(files, 0)
    else Step(Run(files, paths[..|paths| - 1]), paths[|paths| - 1])
  }

  /** The set of files never changes, no file grows, and the total is zero exactly
      when no file was changed. */
  lemma {:induction false} RunInvariants(files: map<string, string>, paths: seq<string>)
    ensures Run(files, paths).files.Keys == files.Keys
    ensures forall p | p in files :: |Run(files, paths).files[p]| <= |files[p]|
    ensures Run(files, paths).total == 0 <==> Run(files, paths).files == files
    decreases |paths|
  {
    if paths != [] {
      var prev := Run(files, paths[..|paths| - 1]);
      RunInvariants(files, paths[..|paths| - 1]);
      var p := paths[|paths| - 1];
      if p in prev.files && Subn(prev.files[p]).count > 0 {
        assert Run(files, paths).files[p] != files[p];
      }
    }
  }

  /** After the run, every file holds its original text rewritten once for every time
      its path is listed. */
  lemma {:induction false} RunRepeats(files: map<string, string>, paths: seq<string>)
    ensures forall p | p in files :: p in Run(files, paths).files
    ensures forall p | p in files :: Run(files, paths).files[p] == Repeat(files[p], multiset(paths)[p])
    decreases |paths|
  {
    if paths != [] {
      var init, last := paths[..|paths| - 1], paths[|paths| - 1];
      RunRepeats(files, init);
      assert paths == init + [last];
      forall p | p in files
        ensures Run(files, paths).files[p] == Repeat(files[p], multiset(paths)[p])
      {
        var n := multiset(init)[p];
        if p == last {
          assert multiset(paths)[p] == n + 1;
          assert Repeat(files[p], n + 1) == Subn(Repeat(files[p], n)).text;
        } else {
          assert multiset(paths)[p] == n;
        }
      }
    }
  }

  /** The script's loop over the listed files: each file is read, rewritten by `subn`,
      written back only when the count is positive, and the count is added to
      `total_fixes`. */
  method FixFiles(files: map<string, string>, paths: seq<string>)
    returns (written: map<string, string>, totalFixes: nat)
    ensures State(written, totalFixes) == Run(files, paths)
    ensures written.Keys == files.Keys
    ensures forall p | p in files :: written[p] == Repeat(files[p], multiset(paths)[p])
    ensures totalFixes == 0 <==> written == files
  {
    written, totalFixes := files, 0;
    var i := 0;
    while i < |paths|
      invariant 0 <= i <= |paths|
      invariant State(written, totalFixes) == Run(files, paths[..i])
    {
      var path := paths[i];
      if path in written {
        var outcome := Subn(written[path]);
        if outcome.count > 0 {
          written := written[path := outcome.text];
          totalFixes := totalFixes + outcome.count;
        }
      }
      assert paths[..i + 1][..i] == paths[..i];
      i := i + 1;
    }
    assert paths[..i] == paths;
    assert written == Run(files, paths).files && totalFixes == Run(files, paths).total;
    RunInvariants(files, paths);
    RunRepeats(files, paths);
  }
}
