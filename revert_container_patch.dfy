/** The rewrite done by revert-container-patch.py: every marker that
    patch-container.py left behind becomes the live `container.reset();` statement
    again. The file is rewritten only when a marker occurs. */
module RevertContainerPatch {
  import opened Text
  import opened PatchContainer

  /** The text of a file after the rewrite (the `str.replace` call): the statement
      is shorter than the marker, so the text never grows. */
  function Restore(content: string): (r: string)
    ensures |r| <= |content|
  {
    MarkerLayout();
    ReplaceAllLength(content, Marker, Statement);
    ReplaceAll(content, Marker, Statement)
  }

  /** One file: `None` when no marker occurs and the file is left alone, otherwise
      the new content that is written back. A file that is left alone is one the
      replacement would not have changed, and a file that is written shrinks. */
  function RevertFile(content: string): (r: Option<string>)
    ensures r.None? <==> !Contains(content, Marker)
    ensures r.None? ==> Restore(content) == content
    ensures r.Some? ==> r.value == Restore(content) && |r.value| < |content|
  {
    MarkerLayout();
    if Contains(content, Marker) then
      CountPositiveIffContains(content, Marker);
      RestoreLength(content);
      Some(Restore(content))
    else
      ReplaceAllAbsent(content, Marker, Statement);
      None
  }

  /** Every marker found shrinks the text by 57 characters. */
  lemma RestoreLength(s: string)
    ensures |Restore(s)| == |s| - 57 * Count(s, Marker)
  {
    MarkerLayout();
    ReplaceAllLength(s, Marker, Statement);
  }

  /** No marker starts one character into a disabled text: after any first character,
      a disabled text never continues with the marker's tail `/ container.reset(); ...`. */
  lemma NoMarkerAfter(c: char, t: string)
    ensures !(Marker <= [c] + Disable(t))
  {
    MarkerLayout();
    var d := Disable(t);
    var y := [c] + d;
    MarkerPrefix(y);
    DisableStep(t);
    if Statement <= t {
      assert y[2] == d[1] == Marker[1];
    } else if t != [] {
      var u := t[1..];
      DisableStep(u);
      if Statement <= u {
        assert y[2] == Disable(u)[0] == Marker[0];
      } else if u != [] {
        NoStatementAtStart(u[1..]);
        assert y[3..] == Disable(u[1..]);
      }
    }
  }

  /** What a text that starts with the marker holds at the places the proofs use. */
  lemma MarkerPrefix(y: string)
    ensures Marker <= y ==> |y| >= |Marker| && y[2] == ' ' && Statement <= y[3..]
  {
    MarkerLayout();
    if Marker <= y {
      assert y[3..21] == Marker[3..21];
    }
  }

  /** A marker at the start is restored, and the scan resumes after it. */
  lemma RestoreLeadingMarker(x: string)
    ensures Restore(Marker + x) == Statement + Restore(x)
  {
    MarkerLayout();
    AppendSlices(Marker, x);
  }

  /** A character that starts no marker is kept, and the scan resumes after it. */
  lemma RestoreLeadingChar(c: char, x: string)
    requires !(Marker <= [c] + x)
    ensures Restore([c] + x) == [c] + Restore(x)
  {
    MarkerLayout();
    assert ([c] + x)[1..] == x;
  }

  /** Restoring after disabling gives back the original text, for every text: the
      statement has no `/`, so the only markers in a disabled text are the ones the
      disabling put there, and the restoring scan finds exactly those. */
  lemma {:induction false} RoundTrip(s: string)
    ensures Restore(Disable(s)) == s
    decreases |s|
  {
    if Statement <= s {
      var rest := s[|Statement|..];
      RoundTrip(rest);
      assert Disable(s) == Marker + Disable(rest);
      RestoreLeadingMarker(Disable(rest));
      assert s == Statement + rest;
    } else if s != [] {
      RoundTrip(s[1..]);
      assert Disable(s) == [s[0]] + Disable(s[1..]);
      NoMarkerAfter(s[0], s[1..]);
      RestoreLeadingChar(s[0], Disable(s[1..]));
      assert s == [s[0]] + s[1..];
    }
  }

  /** The restoring pass is a single pass too: a marker that it produces is not
      restored again, so a text disabled twice comes back only to the once-disabled
      text, which differs from the original whenever the original had the statement. */
  lemma DoubleDisableRestoresOnce(s: string)
    ensures Restore(Disable(Disable(s))) == Disable(s)
    ensures Contains(s, Statement) ==> Restore(Disable(Disable(s))) != s
  {
    RoundTrip(Disable(s));
    if Contains(s, Statement) {
      DisableNotIdempotent(s);
    }
  }

  /** The explanation has no `(`, so the disabling leaves it alone. */
  lemma DisableRationale()
    ensures Disable(Rationale) == Rationale
  {
    MarkerLayout();
    assert Statement[15] in Statement;
    MissingCharNotContained(Rationale, Statement, '(');
    ReplaceAllAbsent(Rationale, Statement, Marker);
  }

  /** Disabling a marker wraps it a second time. */
  lemma DisableMarker()
    ensures Disable(Marker) == "// " + (Marker + Rationale)
  {
    DisableRationale();
    DisableLeadingStatement(Rationale);
    AppendAssoc("// ", Statement, Rationale, []);
    DisableKeepsPrefix("// ", Statement + Rationale);
  }

  /** A doubly wrapped line `// // container.reset(); // ... // ...` reverts to the
      singly wrapped marker, not to the statement. */
  lemma DoublyWrappedLine(line: string)
    requires line == "// " + Marker + Rationale
    ensures Restore(line) == Marker
  {
    DisableMarker();
    RoundTrip(Marker);
    AppendAssoc("// ", Marker, Rationale, []);
  }

  /** A lone marker becomes the statement. */
  lemma RestoreMarker()
    ensures Restore(Marker) == Statement
  {
    DisableStatement();
    RoundTrip(Statement);
  }
}
