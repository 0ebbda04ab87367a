/** The rewrite done by patch-container.py: in a test file, every statement
    `container.reset();` becomes a line comment that still holds the statement and
    says why it was disabled. The file is rewritten only when the statement occurs. */
module PatchContainer {
  import opened Text

  /** The statement that resets the dependency-injection container. */
  const Statement := "container.reset();"

  /** The explanation that follows the disabled statement. */
  const Rationale := " // Removed to preserve" + " src/container.ts registrations"

  /** What each statement is replaced by. */
  const Marker := "// " + Statement + Rationale

  /** The explanation has no `(`. */
  lemma RationaleHasNoParen()
    ensures |Rationale| == 54
    ensures forall k | 0 <= k < |Rationale| :: Rationale[k] != '('
  {
    var front, back := " // Removed to preserve", " src/container.ts registrations";
    assert '(' !in front && '(' !in back;
    forall k | 0 <= k < |Rationale| ensures Rationale[k] != '(' {
      if k < |front| {
        assert Rationale[k] in front;
      } else {
        assert Rationale[k] in back;
      }
    }
  }

  /** The last fifteen characters of the explanation, `s registrations`, have no `c`. */
  lemma RationaleEndHasNoC()
    ensures |Rationale| == 54
    ensures forall k | 39 <= k < |Rationale| :: Rationale[k] != 'c'
  {
    var back := " src/container.ts registrations";
    assert 'c' !in back[16..];
    forall k | 39 <= k < |Rationale| ensures Rationale[k] != 'c' {
      assert Rationale[k] == back[16..][k - 39];
    }
  }

  /** The characters of the two texts that the proofs below rely on. */
  lemma MarkerLayout()
    ensures |Statement| == 18 && |Marker| == 75 && |Marker| - |Statement| == 57
    ensures Statement[0] == 'c' && Statement[15] == '(' && '/' !in Statement
    ensures Marker[0] == '/' && Marker[1] == '/' && Marker[2] == ' ' && Marker[3..21] == Statement
    ensures forall j | 0 <= j < |Marker| && Marker[j] == '(' :: j == 18
    ensures forall j | 60 <= j < |Marker| :: Marker[j] != 'c'
  {
    RationaleHasNoParen();
    RationaleEndHasNoC();
    assert forall k | 0 <= k < |Statement| && k != 15 :: Statement[k] != '(';
    forall j | 0 <= j < |Marker| ensures Marker[j] == '(' ==> j == 18 {
      if 3 <= j < 21 {
        assert Marker[j] == Statement[j - 3];
      } else if 21 <= j {
        assert Marker[j] == Rationale[j - 21];
      }
    }
    forall j | 60 <= j < |Marker| ensures Marker[j] != 'c' {
      assert Marker[j] == Rationale[j - 21];
    }
  }

  /** The text of a file after the rewrite (the `str.replace` call): the marker is
      longer than the statement, so the text never shrinks. */
  function Disable(content: string): (r: string)
    ensures |content| <= |r|
  {
    MarkerLayout();
    ReplaceAllLength(content, Statement, Marker);
    ReplaceAll(content, Statement, Marker)
  }

  /** One file: `None` when the statement does not occur and the file is left alone,
      otherwise the new content that is written back. A file that is left alone is
      one the replacement would not have changed, and a file that is written grows. */
  function PatchFile(content: string): (r: Option<string>)
    ensures r.None? <==> !Contains(content, Statement)
    ensures r.None? ==> Disable(content) == content
    ensures r.Some? ==> r.value == Disable(content) && |r.value| > |content|
  {
    MarkerLayout();
    if Contains(content, Statement) then
      CountPositiveIffContains(content, Statement);
      DisableLength(content);
      Some(Disable(content))
    else
      ReplaceAllAbsent(content, Statement, Marker);
      None
  }

  /** Every statement found grows the text by the 57 characters the marker adds. */
  lemma DisableLength(s: string)
    ensures |Disable(s)| == |s| + 57 * Count(s, Statement)
  {
    MarkerLayout();
    ReplaceAllLength(s, Statement, Marker);
  }

  /** A statement at the start becomes a marker, and the scan resumes after it. */
  lemma DisableLeadingStatement(x: string)
    ensures Disable(Statement + x) == Marker + Disable(x)
  {
    MarkerLayout();
    AppendSlices(Statement, x);
  }

  /** One step of the scan: a statement at the start becomes a marker, any other
      first character is kept. */
  lemma DisableStep(t: string)
    ensures Statement <= t ==> Disable(t) == Marker + Disable(t[|Statement|..])
    ensures !(Statement <= t) && t != [] ==> Disable(t) == [t[0]] + Disable(t[1..])
  {
    MarkerLayout();
  }

  /** A prefix without the letter `c` holds no start of a statement and is kept. */
  lemma DisableKeepsPrefix(w: string, x: string)
    requires 'c' !in w
    ensures Disable(w + x) == w + Disable(x)
  {
    MarkerLayout();
    forall i | 0 <= i < |w| ensures !Occurs(w + x, Statement, i) {
      assert (w + x)[i] == w[i];
      assert w[i] in w;
    }
    ReplaceAllSkip(w, x, Statement, Marker);
  }

  /** A prefix of the rewritten text that has no `/` was already there before: the
      text the rewrite produces starts with `/` wherever it differs from the input. */
  lemma {:induction false} DisabledPrefix(t: string, w: string)
    requires '/' !in w
    ensures w <= Disable(t) ==> w <= t
    decreases |t|
  {
    if w != [] && w <= Disable(t) {
      MarkerLayout();
      DisableStep(t);
      assert w[0] in w;
      var d := Disable(t);
      assert d != [] && w[0] == d[0];
      assert !(Statement <= t);
      var u := t[1..];
      DisabledPrefix(u, w[1..]);
      assert w[1..] <= d[1..] == Disable(u);
      assert t == [t[0]] + u;
    }
  }

  /** The rewritten text never starts with a live statement. */
  lemma NoStatementAtStart(u: string)
    ensures !(Statement <= Disable(u))
  {
    MarkerLayout();
    DisabledPrefix(u, Statement);
  }

  /** A statement that starts inside a marker is the one the marker holds. */
  lemma StatementInsideMarker(x: string, i: int)
    requires 0 <= i < |Marker| && Occurs(Marker + x, Statement, i)
    ensures i == 3
  {
    MarkerLayout();
    var d := Marker + x;
    assert d[i] == Statement[0];
    assert d[i + 15] == Statement[15];
  }

  /** After the rewrite every `container.reset();` left in the text is the one inside
      a marker, three characters after the marker's start. */
  lemma {:induction false} StatementsOnlyInMarkers(s: string, i: int)
    requires Occurs(Disable(s), Statement, i)
    ensures 3 <= i && Occurs(Disable(s), Marker, i - 3)
    decreases |s|
  {
    NoStatementAtStart(s);
    var d := Disable(s);
    if Statement <= s {
      var rest := s[|Statement|..];
      assert d == Marker + Disable(rest);
      if i >= |Marker| {
        assert d[i..] == Disable(rest)[i - |Marker|..];
        StatementsOnlyInMarkers(rest, i - |Marker|);
        assert d[i - 3..] == Disable(rest)[i - |Marker| - 3..];
      } else {
        StatementInsideMarker(Disable(rest), i);
      }
    } else if s != [] && i >= 1 {
      var t := Disable(s[1..]);
      assert d == [s[0]] + t;
      assert d[1..] == t;
      assert d[i..] == d[1..][i - 1..];
      StatementsOnlyInMarkers(s[1..], i - 1);
      assert d[i - 3..] == d[1..][i - 4..];
    }
  }

  /** The marker holds the statement, so a text that had the statement still has one
      after the rewrite: a second run rewrites again and the text grows again. The
      rewrite is not idempotent. */
  lemma DisableNotIdempotent(s: string)
    requires Contains(s, Statement)
    ensures Contains(Disable(s), Statement)
    ensures |Disable(Disable(s))| > |Disable(s)| > |s|
  {
    MarkerLayout();
    ReplaceAllLeavesRep(s, Statement, Marker);
    var d := Disable(s);
    var j :| 0 <= j <= |d| - |Marker| && Occurs(d, Marker, j);
    assert d[j + 3..][..|Statement|] == Marker[3..21];
    assert Occurs(d, Statement, j + 3);
    CountPositiveIffContains(s, Statement);
    CountPositiveIffContains(d, Statement);
    DisableLength(s);
    DisableLength(d);
  }

  /** A lone statement becomes exactly the marker. */
  lemma DisableStatement()
    ensures Disable(Statement) == Marker
  {
    MarkerLayout();
    assert Statement[|Statement|..] == [];
  }
}
