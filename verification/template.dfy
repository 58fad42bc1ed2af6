/** Placeholder substitution in the email body. For each column, in table
    order, every `{column}` in the text produced so far is replaced by the
    row's value; a value inserted for one column is therefore visible to the
    replacements of the later columns, but not to its own. */
module Template {
  import opened Optional
  import opened Strings
  import opened Dataset

  /** The two renderers of the program: the one used when sending, and the
      preview of the first row. They differ only on missing cells. */
  datatype Mode = Sending | Previewing

  /** The text a cell contributes: a missing cell becomes "" when sending and
      the float text "nan" in the preview. */
  function CellText(c: Cell, mode: Mode): (r: string)
    ensures c.Str? ==> r == c.text
    ensures c.Missing? ==> (r == "" <==> mode == Sending)
  {
    match c
    case Str(s) => s
    case Missing => if mode == Sending then "" else "nan"
  }

  /** The placeholder token for a column. */
  function Token(name: string): (t: string)
    ensures |t| == |name| + 2 && t[0] == '{' && t[|t| - 1] == '}'
    ensures t[1..|t| - 1] == name
  {
    "{" + name + "}"
  }

  predicate BraceFree(s: string) {
    forall i :: 0 <= i < |s| ==> s[i] != '{' && s[i] != '}'
  }

  /** One step of the fold: replace every token of column `c`. */
  function Substitute(s: string, c: string, row: Record, mode: Mode): string
    requires c in row
  {
    ReplaceAll(s, Token(c), CellText(row[c], mode))
  }

  /** The rendered body: the columns applied left to right, the last column
      of `cols` last. */
  function Render(t: string, cols: seq<string>, row: Record, mode: Mode): string
    requires Conforms(row, cols)
    decreases |cols|
  {
    if |cols| == 0 then t
    else Substitute(Render(t, cols[..|cols| - 1], row, mode), cols[|cols| - 1], row, mode)
  }

  /** The personalisation loop as written, including its `if placeholder in
      body` guard: it computes the unguarded fold. */
  method PersonalizeBody(body: string, cols: seq<string>, row: Record, mode: Mode)
    returns (r: string)
    requires Conforms(row, cols)
    ensures r == Render(body, cols, row, mode)
  {
    r := body;
    var i := 0;
    while i < |cols|
      invariant 0 <= i <= |cols|
      invariant r == Render(body, cols[..i], row, mode)
    {
      var placeholder := Token(cols[i]);
      if Contains(r, placeholder) {
        r := ReplaceAll(r, placeholder, CellText(row[cols[i]], mode));
      } else {
        ReplaceAbsent(r, placeholder, CellText(row[cols[i]], mode));
      }
      assert cols[..i + 1][..i] == cols[..i];
      i := i + 1;
    }
    assert cols[..i] == cols;
  }

  /** The preview (`app.py`, lines 192-198): the first row of the table, rendered with
      missing cells shown as "nan"; an empty table has no first row. */
  function Preview(body: string, t: Table): (r: Option<string>)
    requires t.Valid()
    ensures r.None? <==> |t.rows| == 0
  {
    if |t.rows| == 0 then None
    else Some(Render(body, t.columns, t.rows[0], Previewing))
  }

  /** A template with no token of any column comes back unchanged. */
  lemma {:induction false} RenderWithoutTokens(t: string, cols: seq<string>, row: Record, mode: Mode)
    requires Conforms(row, cols)
    requires forall c :: c in cols ==> !Occurs(Token(c), t)
    ensures Render(t, cols, row, mode) == t
    decreases |cols|
  {
    if |cols| > 0 {
      var init := cols[..|cols| - 1];
      assert forall c :: c in init ==> c in cols;
      RenderWithoutTokens(t, init, row, mode);
      ReplaceAbsent(t, Token(cols[|cols| - 1]), CellText(row[cols[|cols| - 1]], mode));
    }
  }

  /** Rendering only looks at the cells of the columns, through `CellText`:
      two rows whose cells render alike on every column render alike. */
  lemma {:induction false} RenderSameText(t: string, cols: seq<string>, row1: Record, mode1: Mode,
                                          row2: Record, mode2: Mode)
    requires Conforms(row1, cols) && Conforms(row2, cols)
    requires forall c :: c in cols ==> CellText(row1[c], mode1) == CellText(row2[c], mode2)
    ensures Render(t, cols, row1, mode1) == Render(t, cols, row2, mode2)
    decreases |cols|
  {
    if |cols| > 0 {
      var init := cols[..|cols| - 1];
      assert forall c :: c in init ==> c in cols;
      RenderSameText(t, init, row1, mode1, row2, mode2);
    }
  }

  /** The preview shows exactly what the first recipient row would be sent
      when none of its cells is missing. */
  lemma PreviewMatchesSendingWithoutMissing(body: string, t: Table)
    requires t.Valid() && |t.rows| > 0
    requires forall c :: c in t.columns ==> t.rows[0][c].Str?
    ensures Preview(body, t) == Some(Render(body, t.columns, t.rows[0], Sending))
  {
    assert Conforms(t.rows[0], t.columns);
    RenderSameText(body, t.columns, t.rows[0], Previewing, t.rows[0], Sending);
  }

  /** A lone token of a missing cell disappears when sending but reads "nan"
      in the preview. */
  lemma MissingCellRendering(c: string, row: Record)
    requires c in row && row[c].Missing?
    ensures Render(Token(c), [c], row, Sending) == ""
    ensures Render(Token(c), [c], row, Previewing) == "nan"
  {
    assert [c][..0] == [];
    ReplaceLeading(Token(c), "", "");
    ReplaceLeading(Token(c), "", "nan");
    assert Token(c) + "" == Token(c);
  }

  /** A value inserted for an earlier column is rewritten by a later column's
      replacement. */
  lemma EarlierValueSeenByLaterColumn()
    ensures Render("{A}", ["A", "B"], map["A" := Str("{B}"), "B" := Str("x")], Sending) == "x"
  {
    var row := map["A" := Str("{B}"), "B" := Str("x")];
    assert ["A", "B"][..1] == ["A"];
    assert ["A"][..0] == [];
    ReplaceLeading(Token("A"), "", "{B}");
    assert Token("A") + "" == "{A}";
    assert Render("{A}", ["A"], row, Sending) == "{B}";
    ReplaceLeading(Token("B"), "", "x");
    assert Token("B") + "" == "{B}";
  }

  /** Substitution may assemble a new token out of the text around a replaced
      one, so the rendered text can still hold a token of a column. */
  lemma RenderCanLeaveToken()
    ensures Render("{{A}A}", ["A"], map["A" := Missing], Sending) == "{A}"
  {
    var row := map["A" := Missing];
    assert ["A"][..0] == [];
    var s := "{{A}A}";
    assert !MatchAt(s, Token("A"), 0);
    assert MatchAt(s, Token("A"), 1);
    assert FindFrom(s, Token("A"), 1) == Some(1);
    assert FindFrom(s, Token("A"), 0) == Some(1);
    assert s[1 + 3..] == "A}";
    assert FindFrom("A}", Token("A"), 0) == None;
  }

  /** One differing character rules out a match. */
  lemma Mismatch(s: string, p: string, j: int, k: int)
    requires 0 <= j && j + |p| <= |s| && 0 <= k < |p| && s[j + k] != p[k]
    ensures !MatchAt(s, p, j)
  {
    assert s[j..j + |p|][k] == s[j + k];
  }

  /** No match of `Token(c)` starts inside `Token(u)` or straddles either of
      its ends, when `u` and `c` are distinct brace-free names. */
  lemma NoMatchAcrossToken(a: string, u: string, b: string, c: string, j: int)
    requires BraceFree(u) && BraceFree(c) && u != c
    requires |a| - |Token(c)| < j < |a| + |Token(u)|
    ensures !MatchAt(a + Token(u) + b, Token(c), j)
  {
    var m := Token(u);
    var p := Token(c);
    var s := a + m + b;
    var A := |a|;
    if 0 <= j && j + |p| <= |s| {
      if j < A {
        var k := A - j;
        assert s[A] == m[0] == '{';
        if k < |p| - 1 {
          assert p[k] == c[k - 1];
        }
        Mismatch(s, p, j, k);
      } else if j == A {
        if |p| < |m| {
          var k := |p| - 1;
          assert s[A + k] == m[k] == u[k - 1];
          Mismatch(s, p, j, k);
        } else if |p| > |m| {
          var k := |m| - 1;
          assert s[A + k] == m[k] == '}';
          assert p[k] == c[k - 1];
          Mismatch(s, p, j, k);
        } else {
          assert s[j..j + |p|] == m;
          assert m[1..|m| - 1] == u && p[1..|p| - 1] == c;
        }
      } else {
        var k := j - A;
        assert s[j] == m[k];
        if k < |m| - 1 {
          assert m[k] == u[k - 1];
        }
        Mismatch(s, p, j, 0);
      }
    }
  }

  /** `ReplaceAll` keeps a token of another brace-free name intact. */
  lemma ReplaceAroundToken(a: string, u: string, b: string, c: string, rep: string)
    requires BraceFree(u) && BraceFree(c) && u != c
    ensures ReplaceAll(a + Token(u) + b, Token(c), rep)
         == ReplaceAll(a, Token(c), rep) + Token(u) + ReplaceAll(b, Token(c), rep)
  {
    forall j | |a| - |Token(c)| < j < |a| + |Token(u)|
      ensures !MatchAt(a + Token(u) + b, Token(c), j)
    {
      NoMatchAcrossToken(a, u, b, c, j);
    }
    ReplaceAround(a, Token(u), b, Token(c), rep);
  }

  /** A token naming something that is not a column survives rendering
      verbatim, whatever the row's values, as long as names are brace-free;
      the text on either side is rendered as if on its own. */
  lemma {:induction false} RenderKeepsUnknownToken(a: string, u: string, b: string,
                                                   cols: seq<string>, row: Record, mode: Mode)
    requires Conforms(row, cols)
    requires BraceFree(u) && u !in cols
    requires forall c :: c in cols ==> BraceFree(c)
    ensures Render(a + Token(u) + b, cols, row, mode)
         == Render(a, cols, row, mode) + Token(u) + Render(b, cols, row, mode)
    decreases |cols|
  {
    if |cols| > 0 {
      var init := cols[..|cols| - 1];
      var c := cols[|cols| - 1];
      assert forall x :: x in init ==> x in cols;
      RenderKeepsUnknownToken(a, u, b, init, row, mode);
      ReplaceAroundToken(Render(a, init, row, mode), u, Render(b, init, row, mode),
                         c, CellText(row[c], mode));
    }
  }
}
