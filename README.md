# Test-suite maintenance scripts, modelled in Dafny

Four one-off Python scripts rewrite TypeScript test files in place:

- `patch-tests.py` reads a manifest of failed test files. In each one it finds every
  assertion `expect(<mock>.<member>).toHaveBeenCalledWith(` on one of fourteen
  repository and adapter mocks, and inserts the placeholder argument
  `expect.any(String), ` after the opening parenthesis. Two `str.replace` cleanups
  then undo a doubled placeholder and close a placeholder that an empty argument list
  follows. A file is written back only when its text changed.
- `fix-adapter-mocks.py` takes that placeholder back out of assertions on
  `userMgmtAdapterMock` only. It deletes the placeholder and the whitespace after it,
  counts the fixes with `re.subn` and keeps a running total.
- `patch-container.py` turns every `container.reset();` into a comment that still
  holds the statement.
- `revert-container-patch.py` turns those comments back into the statement.

The model has one module per script plus a module `Text`:

- `Text` (`text.dfy`) holds the Python string operations:
  - `str.replace`, `str.strip` and `in`, which the scripts call;
  - `str.count`, `str.split` and `str.join`, which no script calls. They are
    reference definitions that state what `str.replace` does;
  - the character classes `\s` and `\w`;
  - the greedy runs `\s*` and `\w+`.
- `PatchTests` (`patch_tests.dfy`).
- `FixAdapterMocks` (`fix_adapter_mocks.dfy`).
- `PatchContainer` (`patch_container.dfy`).
- `RevertContainerPatch` (`revert_container_patch.dfy`).

Each of the two regular expressions is written as a matcher of its own, with a
declarative `PatternAt` predicate beside it. The two are proved to agree in both
directions: every match the matcher reports is a match of the pattern, and every
match of the pattern is the one the matcher reports. The second direction includes
that a match has only one set of positions, because no backtracking into a shorter
run can succeed. The substitutions `pattern.sub` and `pattern.subn` are written as
left-to-right scans that resume after each match.

The file loop of `fix-adapter-mocks.py` is a method, `FixFiles`, over a map from path
to content. It is proved against the functional `Run`.

For the other three scripts, the per-file step is modelled as a function from the old
content to the new one, or to `None` when the file is left alone. Their loops over the
files are not modelled (see "Left out" below).

Two points where a script's code does something other than its own comments say.
The model follows the code:

- The comment at `patch-container.py:12-13` speaks of replacing the statement with
  `container.clearInstances();`. Line 15 instead wraps the statement in a comment that
  still contains `container.reset();`. So a second run wraps the line again
  (`DisableNotIdempotent`), and the revert then undoes only one level
  (`DoubleDisableRestoresOnce`, `DoublyWrappedLine`).
- The comment at `patch-tests.py:30` says the replacer avoids doubling an existing
  placeholder. Line 31 adds the placeholder unconditionally, even when it is already
  there. The first cleanup (line 36) undoes exactly one doubling (`AlreadyPatched`).
  Both cleanups are single passes, so a second run can still change a text
  (`CleanupNotIdempotent`).

## Model

| member | source | states |
|---|---|---|
| Text.Strip | patch-tests.py:5 | `f.strip()` removes exactly the whitespace at both ends: the result is the slice of the line between a leading and a trailing run of whitespace, empty exactly when the line is all whitespace, and otherwise starting and ending with a non-space character |
| Text.StripIdempotent | patch-tests.py:5 | stripping a stripped line changes nothing |
| Text.Split | patch-container.py:15 | the reference `str.split`: one piece more than the occurrences the scan counts, the first piece a prefix of the text, and the pieces joined by the separator give the text back |
| Text.ReplaceAllIsJoinOfSplit | patch-container.py:15 | `s.replace(p, r)` equals `r.join(s.split(p))`: every occurrence the scan finds is replaced and the text between them is kept |
| Text.ReplaceAllLength | patch-container.py:15 | a replacement changes the length by `len(rep) - len(pat)` per occurrence |
| Text.CountPositiveIffContains | patch-container.py:14 | the scan finds an occurrence exactly when Python's `in` does, so the `in` guard and the replacement agree |
| Text.ReplaceAllLeavesRep | patch-container.py:15 | replacing a pattern that occurs leaves the replacement text in the result |
| PatchTests.Manifest | patch-tests.py:4-5 | the file set holds the stripped form of every non-blank line, only such forms, each non-empty with non-space ends |
| PatchTests.ManifestStable | patch-tests.py:5 | the names in the set are already stripped, and a manifest listing them again, in any order and with repeats, yields the same set |
| PatchTests.MocksAreWords | patch-tests.py:7-12 | every listed mock name is a non-empty run of `\w` characters |
| PatchTests.MatchCall | patch-tests.py:18 | a match the matcher reports lies inside the text |
| PatchTests.MatchCallSound | patch-tests.py:18 | every match the matcher reports fits the pattern `expect\s*\(\s*(<mocks>)\.(\w+)\s*\)\.toHaveBeenCalledWith\s*\(` at the reported positions |
| PatchTests.MatchCallComplete | patch-tests.py:18 | every fit of the pattern at the start of a text is found, with those exact positions, so a match is unique |
| PatchTests.MatchExtends | patch-tests.py:18 | the text after a match does not change the match |
| PatchTests.MatchNeedsH | patch-tests.py:18 | every match contains `toHaveBeenCalledWith` and so its `H` |
| PatchTests.AssertionOf | patch-tests.py:18 | `expect(<name>.<member>).toHaveBeenCalledWith(` on a listed mock is one whole match |
| PatchTests.UnlistedNotMatched | patch-tests.py:14-18 | an assertion on a mock name not in the alternation is never matched, whatever follows |
| PatchTests.UserAdminServiceNotMatched | patch-tests.py:14-18 | `expect(mockUserAdminService.<member>)`, the case the comment mentions, is not matched, whatever follows |
| PatchTests.NoCallBefore | patch-tests.py:18 | no match starts inside code without `H` that comes before an assertion |
| PatchTests.Insert | patch-tests.py:29-33 | `pattern.sub(replacer, content)` never shortens the text |
| PatchTests.InsertSkip | patch-tests.py:33 | text in which no match starts is copied as it is, and the scan goes on after it |
| PatchTests.InsertUnchangedIff | patch-tests.py:29-33 | `pattern.sub` leaves a text unchanged exactly when the pattern occurs nowhere in it |
| PatchTests.NoCallWithoutH | patch-tests.py:33 | a text without `H` holds no match and is left unchanged |
| PatchTests.InsertAfterAssertion | patch-tests.py:29-33 | after each matched assertion, `expect.any(String), ` is inserted and the scan resumes at the first argument |
| PatchTests.InsertedAfter | patch-tests.py:29-33 | a listed-mock assertion between code without `H` before it and text without `H` after it gets exactly one placeholder; the code around it is kept |
| PatchTests.Cleanup | patch-tests.py:35-39 | the two cleanups leave a text without the `S` of `String` unchanged |
| PatchTests.NoDoubledAfterOne | patch-tests.py:36 | the first cleanup leaves a single placeholder alone |
| PatchTests.DoubledUndone | patch-tests.py:35-36 | the first cleanup turns a doubled placeholder into one |
| PatchTests.DanglingClosed | patch-tests.py:38-39 | the second cleanup closes a placeholder followed by `)` and otherwise leaves it alone |
| PatchTests.CleanupFresh | patch-tests.py:35-39 | both cleanups on a freshly inserted placeholder: kept before arguments, closed before `)` |
| PatchTests.CleanupTwice | patch-tests.py:35-36 | a placeholder inserted before an existing one is undone by the cleanups |
| PatchTests.CleanupClosed | patch-tests.py:35-39 | a placeholder inserted before a closed placeholder is undone, and the closed one stays |
| PatchTests.Transform | patch-tests.py:29-39 | the whole rewrite leaves a text with neither `S` nor `H` unchanged |
| PatchTests.PatchFile | patch-tests.py:41-43 | the file is written back exactly when the rewrite changes its text, and then with the rewritten text |
| PatchTests.FreshAssertion | patch-tests.py:29-39 | one listed-mock assertion, after any code without `S` or `H`, gains the placeholder as its first expected argument, or as its only one when the argument list is empty; the code before it is kept |
| PatchTests.AlreadyPatched | patch-tests.py:29-36 | such an assertion that already starts with the placeholder ends up as if it did not |
| PatchTests.ClosedStays | patch-tests.py:29-39 | such an assertion whose only argument is the placeholder is left as it is, with the code around it |
| PatchTests.OneAssertionStable | patch-tests.py:29-39 | a second run leaves such a text as the first run left it |
| PatchTests.CleanupNotIdempotent | patch-tests.py:33-39 | a text with no assertion, made of two fresh placeholders and an old one, is changed by one run and changed again by a second |
| PatchTests.PolicySaveExample | patch-tests.py:29-39 | an indented `expect(policyRepositoryMock.save).toHaveBeenCalledWith(policy)` gains the placeholder before `policy` |
| PatchTests.EmptyArgumentsExample | patch-tests.py:29-39 | an indented `expect(idpAdapterMock.logout).toHaveBeenCalledWith()` gets the placeholder as its only argument |
| FixAdapterMocks.MatchAt | fix-adapter-mocks.py:16-18 | every match the matcher reports fits the pattern, with a maximal `\s*` after the placeholder |
| FixAdapterMocks.MatchAtComplete | fix-adapter-mocks.py:16-18 | every fit of the pattern at the start of a text is found, with those exact positions |
| FixAdapterMocks.MatchNeedsTarget | fix-adapter-mocks.py:17 | every match spells out `userMgmtAdapterMock` |
| FixAdapterMocks.Subn | fix-adapter-mocks.py:26 | `subn` shrinks the text by at least the 19 placeholder characters per fix, and the count is zero exactly when the text is unchanged |
| FixAdapterMocks.SubnZeroIffNoMatch | fix-adapter-mocks.py:26-28 | the count is zero, and the file is not written, exactly when the pattern matches nowhere in the text |
| FixAdapterMocks.SubnSkip | fix-adapter-mocks.py:26 | text in which no match starts is copied as it is and adds nothing to the count |
| FixAdapterMocks.NoMatchBefore | fix-adapter-mocks.py:17 | no match starts inside code that does not name `userMgmtAdapterMock` and comes before an assertion |
| FixAdapterMocks.UntouchedWithoutTarget | fix-adapter-mocks.py:5-7 | a text that never names the adapter mock, such as repository-mock assertions, is left alone with count 0 |
| FixAdapterMocks.SubnAtMatch | fix-adapter-mocks.py:26 | at a match, `subn` keeps the first group and resumes after the match |
| FixAdapterMocks.AssertionMatches | fix-adapter-mocks.py:14-17 | an adapter-mock assertion whose arguments start with the placeholder matches, up to the end of the whitespace after it |
| FixAdapterMocks.RemovesPlaceholder | fix-adapter-mocks.py:9-10 | such an assertion, after code that does not name the mock, keeps that code, its head, member and `).toHaveBeenCalledWith(`, and loses the placeholder and the whitespace after it; the scan goes on with the arguments |
| FixAdapterMocks.RemovesOnePlaceholder | fix-adapter-mocks.py:5-7 | in a file that names the adapter mock only in one assertion, the code before and after it (repository-mock assertions with their placeholder, say) is kept byte for byte, and that assertion loses its placeholder: exactly one fix |
| FixAdapterMocks.CreateUserExample | fix-adapter-mocks.py:9-10 | an indented `expect(userMgmtAdapterMock.createUser).toHaveBeenCalledWith(expect.any(String), tenantId, payload)` loses only its placeholder |
| FixAdapterMocks.RepositoryMockExample | fix-adapter-mocks.py:6-7 | a repository-mock assertion with the same placeholder is left byte for byte |
| FixAdapterMocks.NameEnd | fix-adapter-mocks.py:17 | the `\w+` run of the member name stops where the word characters stop |
| FixAdapterMocks.SpaceInExpectNotMatched | fix-adapter-mocks.py:17 | whitespace between `expect` and `(`, or right after `(`, rules out a match |
| FixAdapterMocks.SpaceAfterNameNotMatched | fix-adapter-mocks.py:17 | whitespace between the member name and `)` rules out a match |
| FixAdapterMocks.SpaceInCallNotMatched | fix-adapter-mocks.py:17 | whitespace before or after the `(` of `toHaveBeenCalledWith(` rules out a match |
| FixAdapterMocks.RepeatedPlaceholderNeedsTwoRuns | fix-adapter-mocks.py:26 | `subn` is one pass: of two placeholders in a row one run removes the first and a second run the other |
| FixAdapterMocks.Step | fix-adapter-mocks.py:21-32 | one listed path: an existing file gets the `subn` text and the total grows by its count, no other file changes; a path that is not a file changes nothing |
| FixAdapterMocks.Run | fix-adapter-mocks.py:20-32 | the loop keeps the set of files |
| FixAdapterMocks.RunInvariants | fix-adapter-mocks.py:20-32 | the loop keeps the set of files, never grows a file, and the total is zero exactly when no file changed |
| FixAdapterMocks.RunRepeats | fix-adapter-mocks.py:12 | each file ends up rewritten once for every time its path is listed; the two globs list a `.e2e.spec.ts` file twice |
| FixAdapterMocks.FixFiles | fix-adapter-mocks.py:20-32 | the loop computes `Run`: same files, each rewritten once per listing, total zero exactly when nothing was written |
| PatchContainer.Disable | patch-container.py:15 | the replacement never shortens the text |
| PatchContainer.PatchFile | patch-container.py:14-17 | the file is rewritten exactly when the statement occurs, then with the replaced text, which is longer; otherwise the replacement would change nothing |
| PatchContainer.DisableLength | patch-container.py:15 | every statement found grows the text by the 57 characters the comment adds |
| PatchContainer.DisableLeadingStatement | patch-container.py:15 | a statement at the start becomes the comment and the scan resumes after it |
| PatchContainer.DisableKeepsPrefix | patch-container.py:15 | text without `c` before the statements is kept |
| PatchContainer.NoStatementAtStart | patch-container.py:15 | the rewritten text never starts with a live statement |
| PatchContainer.StatementsOnlyInMarkers | patch-container.py:15 | after the rewrite every `container.reset();` left is the one inside a comment marker |
| PatchContainer.DisableNotIdempotent | patch-container.py:14-15 | a text that had the statement still has one afterwards, so a second run grows it again |
| PatchContainer.DisableStatement | patch-container.py:15 | a lone statement becomes exactly the marker |
| RevertContainerPatch.Restore | revert-container-patch.py:13-16 | the replacement never lengthens the text |
| RevertContainerPatch.RevertFile | revert-container-patch.py:12-17 | the file is rewritten exactly when a marker occurs, then with the restored text, which is shorter |
| RevertContainerPatch.RestoreLength | revert-container-patch.py:13-16 | every marker found shrinks the text by 57 characters |
| RevertContainerPatch.RoundTrip | revert-container-patch.py:13-16 | restoring after disabling gives back the original text, for every text |
| RevertContainerPatch.DoubleDisableRestoresOnce | revert-container-patch.py:13-16 | a text disabled twice comes back only to the once-disabled text, which differs from the original when the statement occurred |
| RevertContainerPatch.DisableMarker | patch-container.py:15 | disabling a marker wraps it a second time |
| RevertContainerPatch.DoublyWrappedLine | revert-container-patch.py:13-16 | a doubly wrapped line reverts to the singly wrapped marker, not to the statement |
| RevertContainerPatch.RestoreMarker | revert-container-patch.py:13-16 | a lone marker becomes the statement |

## Left out

- File I/O is not modelled: reading and writing files, `glob`, `os.path.exists`, the
  `os.sep` path rewrite, the encodings, the printed messages and the `try`/`except`
  handlers. The per-file handler is modelled only as skipping a path that is not a
  file (`FixAdapterMocks.Step`).
- `splitlines()` of the manifest is not modelled: `Manifest` takes the lines.
- The loop of `patch-tests.py` (lines 20-46) is not modelled beyond `PatchTests.PatchFile`.
  Line 5 removes repeated manifest lines as strings, not repeated files:
  `tests/a.spec.ts` and `./tests/a.spec.ts` name one file, which the loop then
  rewrites twice, and `CleanupNotIdempotent` shows that a second rewrite can change
  a text again. The model states nothing about such a file.
- The loops of the two container scripts are not modelled beyond their per-file
  functions.
- `\s`, `\w` and `str.strip` are restricted to ASCII: Python's Unicode whitespace and
  word characters beyond ASCII are not modelled.
- A general regular-expression engine is not modelled: each of the two fixed patterns
  is its own matcher.
- PatchTests.MatchCall: its own contract says only that a match ends inside the text.
  What a match is comes from `MatchCallSound` and `MatchCallComplete`.
- PatchTests.Insert: its own contract says only that the text does not shrink. What is
  inserted where comes from `InsertAfterAssertion`, `InsertSkip` and
  `InsertUnchangedIff`.
- PatchTests.Cleanup: its own contract covers only texts without `S`. What the cleanups
  do to placeholders comes from `NoDoubledAfterOne`, `DoubledUndone`, `DanglingClosed`
  and the `Cleanup…` lemmas.
- PatchTests.Transform: its own contract covers only texts without `S` and `H`. What
  it does to assertions comes from `FreshAssertion`, `AlreadyPatched`, `ClosedStays`
  and `OneAssertionStable`.
- PatchTests.InsertedAfter: stated for code before the assertion and arguments after
  it that have no `H`, and therefore hold no further assertion.
- PatchTests.FreshAssertion: stated for one assertion whose text, leading code and
  arguments have no `S`, and whose leading code and arguments have no `H`. No other
  placeholder or assertion can then interfere with the cleanups or the scan.
- PatchTests.AlreadyPatched: the same hypotheses as `FreshAssertion`.
- PatchTests.ClosedStays: the same hypotheses as `FreshAssertion`.
- PatchTests.OneAssertionStable: the same hypotheses as `FreshAssertion`. Stability of
  whole files with several assertions is not stated, and `CleanupNotIdempotent`
  shows it does not hold in general.
- FixAdapterMocks.RemovesPlaceholder: stated for code before the assertion that does
  not name `userMgmtAdapterMock`, so no match starts in it.
- FixAdapterMocks.RemovesOnePlaceholder: stated for code before and after the
  assertion that does not name `userMgmtAdapterMock`.
- FixAdapterMocks.Subn: the length is stated as a bound, at least the 19 placeholder
  characters removed per fix. The exact number removed also depends on the length of
  each deleted whitespace run, which the contract does not total up.
- FixAdapterMocks.Run: its own contract says only that the set of files is kept. What
  each file becomes and what the total is comes from `RunInvariants`, `RunRepeats`
  and `FixFiles`.
- PatchContainer.Disable: its own contract says only that the text does not shrink.
  The exact growth is `DisableLength`, and what the text holds is
  `StatementsOnlyInMarkers` and `RoundTrip`.
- RevertContainerPatch.Restore: its own contract says only that the text does not
  grow. The exact shrinkage is `RestoreLength`, and `RoundTrip` ties it to `Disable`.
