/**
  The `CREATE TABLE` statement the PostgreSQL adapter emits for the join
  table of a many-to-many field, as abstract syntax. `Lines` gives the lines
  the adapter produces and `Render` joins them with newlines, as the adapter
  does; `Parse` reads such text back, line by line and each line word by
  word. The two are proved inverse: a text parses to a statement exactly
  when it is that statement's rendering.

  Names and types in a statement are already quoted. A well-formed
  statement has no space and no newline inside a name or a type; its
  inline tablespace and deferrable clauses are empty or start with a space,
  and hold no newline; its table tablespace line holds no newline.
 */
module TableSql {
  import opened Wrappers
  import opened Text
  import Sql

  /** `<column> <type> NOT NULL REFERENCES <table> (<pk>)<deferrable>,` */
  datatype ForeignKey = ForeignKey(column: string, columnType: string, table: string, pk: string, deferrable: string)

  /**
    The join table: its name, the `id` primary key with its type and inline
    tablespace clause, the reference to each of the two models, and the
    table's own tablespace line when there is one. The unique constraint
    names the two reference columns and repeats the inline tablespace.
   */
  datatype CreateTable = CreateTable(
    table: string, id: string, idType: string, inlineTablespace: string,
    source: ForeignKey, target: ForeignKey, tablespace: Option<string>)

  function HeaderLine(table: string): string
  {
    "CREATE TABLE " + table + " ("
  }

  function IdLine(id: string, idType: string, its: string): string
  {
    "    " + id + " " + idType + " NOT NULL PRIMARY KEY" + its + ","
  }

  function ReferenceLine(fk: ForeignKey): string
  {
    "    " + fk.column + " " + fk.columnType + " NOT NULL REFERENCES " + fk.table + " (" + fk.pk + ")" + fk.deferrable + ","
  }

  function UniqueLine(a: string, b: string, its: string): string
  {
    "    UNIQUE (" + a + ", " + b + ")" + its
  }

  function TablespaceLines(tablespace: Option<string>): seq<string>
  {
    if tablespace.Some? then [tablespace.value] else []
  }

  function Lines(ct: CreateTable): (lines: seq<string>)
  {
    [ HeaderLine(ct.table),
      IdLine(ct.id, ct.idType, ct.inlineTablespace),
      ReferenceLine(ct.source),
      ReferenceLine(ct.target),
      UniqueLine(ct.source.column, ct.target.column, ct.inlineTablespace),
      ")" ]
    + TablespaceLines(ct.tablespace) + [";"]
  }

  function Render(ct: CreateTable): string
  {
    Join(Lines(ct), '\n')
  }

  predicate IsWord(w: string) { ' ' !in w && '\n' !in w }

  predicate IsClause(c: string) { Sql.WellFormedTablespace(c) && '\n' !in c }

  predicate WellFormedKey(fk: ForeignKey)
  {
    IsWord(fk.column) && IsWord(fk.columnType) && IsWord(fk.table) && IsWord(fk.pk) && IsClause(fk.deferrable)
  }

  predicate WellFormed(ct: CreateTable)
  {
    && IsWord(ct.table) && IsWord(ct.id) && IsWord(ct.idType) && IsClause(ct.inlineTablespace)
    && WellFormedKey(ct.source) && WellFormedKey(ct.target)
    && (ct.tablespace.Some? ==> '\n' !in ct.tablespace.value)
  }

  // The words of each line. The four-space indentation is four empty words.

  function Indented(ws: seq<string>): seq<string>
  {
    [""] + ([""] + ([""] + ([""] + ws)))
  }

  function HeaderWords(table: string): seq<string>
  {
    ["CREATE", "TABLE", table, "("]
  }

  function IdWords(id: string, idType: string, its: string): seq<string>
  {
    Indented([id, idType, "NOT", "NULL", "PRIMARY", "KEY"] + Sql.TablespaceWords(its))
  }

  function ReferenceWords(fk: ForeignKey): seq<string>
  {
    Indented([fk.column, fk.columnType, "NOT", "NULL", "REFERENCES", fk.table, Sql.Parenthesized(fk.pk)]
             + Sql.TablespaceWords(fk.deferrable))
  }

  function UniqueWords(a: string, b: string, its: string): seq<string>
  {
    Indented(["UNIQUE", "(" + a + ",", b + ")"] + Sql.TablespaceWords(its))
  }

  // Reading a statement back.

  function Parse(s: string): Option<CreateTable>
  {
    ParseLines(Split(s, '\n'))
  }

  function ParseLines(ls: seq<string>): Option<CreateTable>
  {
    if (|ls| == 7 || |ls| == 8) && ls[5] == ")" && ls[|ls| - 1] == ";" then
      match (ParseHeader(ls[0]), ParseIdLine(ls[1]), ParseReferenceLine(ls[2]), ParseReferenceLine(ls[3]), ParseUniqueLine(ls[4]))
      case (Some(t), Some((id, ty, its)), Some(src), Some(tgt), Some((a, b, its2))) =>
        if a == src.column && b == tgt.column && its2 == its then
          Some(CreateTable(t, id, ty, its, src, tgt, if |ls| == 8 then Some(ls[6]) else None))
        else None
      case _ => None
    else None
  }

  function ParseHeader(line: string): Option<string>
  {
    var ws := Split(line, ' ');
    if |ws| == 4 && ws[0] == "CREATE" && ws[1] == "TABLE" && ws[3] == "(" then Some(ws[2]) else None
  }

  predicate IsIndented(ws: seq<string>) { |ws| >= 4 && ws[0] == "" && ws[1] == "" && ws[2] == "" && ws[3] == "" }

  /** The text before a line's final comma. */
  function BeforeComma(line: string): Option<string>
  {
    if |line| == 0 || line[|line| - 1] != ',' then None else Some(line[..|line| - 1])
  }

  function ParseIdLine(line: string): Option<(string, string, string)>
  {
    match BeforeComma(line)
    case None => None
    case Some(body) =>
      var ws := Split(body, ' ');
      if |ws| >= 10 && IsIndented(ws) && ws[6] == "NOT" && ws[7] == "NULL" && ws[8] == "PRIMARY" && ws[9] == "KEY" then
        Some((ws[4], ws[5], Sql.ParseTablespace(ws[10..])))
      else None
  }

  function ParseReferenceLine(line: string): Option<ForeignKey>
  {
    match BeforeComma(line)
    case None => None
    case Some(body) =>
      var ws := Split(body, ' ');
      if |ws| >= 11 && IsIndented(ws) && ws[6] == "NOT" && ws[7] == "NULL" && ws[8] == "REFERENCES"
         && Sql.IsParenthesized(ws[10]) then
        Some(ForeignKey(ws[4], ws[5], ws[9], Sql.Unparenthesized(ws[10]), Sql.ParseTablespace(ws[11..])))
      else None
  }

  predicate IsOpening(w: string) { |w| >= 2 && w[0] == '(' && w[|w| - 1] == ',' }

  predicate IsClosing(w: string) { |w| >= 1 && w[|w| - 1] == ')' }

  function ParseUniqueLine(line: string): Option<(string, string, string)>
  {
    var ws := Split(line, ' ');
    if |ws| >= 7 && IsIndented(ws) && ws[4] == "UNIQUE" && IsOpening(ws[5]) && IsClosing(ws[6]) then
      Some((ws[5][1..|ws[5]| - 1], ws[6][..|ws[6]| - 1], Sql.ParseTablespace(ws[7..])))
    else None
  }

  // Each line is its words joined by single spaces.

  lemma {:induction false} IndentText(ws: seq<string>)
    requires |ws| >= 1
    ensures Join(Indented(ws), ' ') == "    " + Join(ws, ' ')
  {
    var j := Join(ws, ' ');
    var w1 := [""] + ws;
    var w2 := [""] + w1;
    var w3 := [""] + w2;
    assert Join(w1, ' ') == " " + j by { SpaceBefore(ws); }
    assert Join(w2, ' ') == "  " + j by { SpaceBefore(w1); }
    assert Join(w3, ' ') == "   " + j by { SpaceBefore(w2); }
    assert Join([""] + w3, ' ') == "    " + j by { SpaceBefore(w3); }
  }

  lemma {:induction false} IndentedBack(ws: seq<string>)
    requires IsIndented(ws)
    ensures Indented(ws[4..]) == ws
  {
    assert ws == [ws[0]] + ([ws[1]] + ([ws[2]] + ([ws[3]] + ws[4..])));
  }

  /** An empty first word is one more space in front. */
  lemma {:induction false} SpaceBefore(ws: seq<string>)
    requires |ws| >= 1
    ensures Join([""] + ws, ' ') == " " + Join(ws, ' ')
  {
    JoinCons("", ws, ' ');
  }

  lemma {:induction false} ClauseText(ws: seq<string>, c: string)
    requires |ws| >= 1 && Sql.WellFormedTablespace(c)
    ensures Join(ws + Sql.TablespaceWords(c), ' ') == Join(ws, ' ') + c
  {
    if c != "" {
      SpacedText(ws, c[1..]);
      assert [' '] + c[1..] == c;
    } else {
      assert ws + [] == ws;
    }
  }

  lemma {:induction false} SpacedText(ws: seq<string>, t: string)
    requires |ws| >= 1
    ensures Join(ws + Split(t, ' '), ' ') == Join(ws, ' ') + ([' '] + t)
  {
    JoinAppend(ws, Split(t, ' '), ' ');
    JoinSplit(t, ' ');
  }

  lemma HeaderText(table: string)
    ensures Join(HeaderWords(table), ' ') == HeaderLine(table)
  {
    Sql.Join4("CREATE", "TABLE", table, "(");
  }

  lemma {:induction false} IdText(id: string, idType: string, its: string)
    requires Sql.WellFormedTablespace(its)
    ensures Join(IdWords(id, idType, its), ' ') + "," == IdLine(id, idType, its)
  {
    var headText := id + " " + idType + " NOT NULL PRIMARY KEY";
    assert Join(IdWords(id, idType, its), ' ') == "    " + (headText + its) by {
      var head := [id, idType, "NOT", "NULL", "PRIMARY", "KEY"];
      assert Join(head, ' ') == headText by { IdHeadText(id, idType); }
      assert Join(head + Sql.TablespaceWords(its), ' ') == headText + its by { ClauseText(head, its); }
      IndentText(head + Sql.TablespaceWords(its));
    }
    IdLineGlue(id, idType, its);
  }

  lemma IdLineGlue(id: string, idType: string, its: string)
    ensures "    " + (id + " " + idType + " NOT NULL PRIMARY KEY" + its) + ","
         == "    " + id + " " + idType + " NOT NULL PRIMARY KEY" + its + ","
  {
  }

  lemma {:induction false} IdHeadText(id: string, idType: string)
    ensures Join([id, idType, "NOT", "NULL", "PRIMARY", "KEY"], ' ') == id + " " + idType + " NOT NULL PRIMARY KEY"
  {
    Sql.Join6(id, idType, "NOT", "NULL", "PRIMARY", "KEY");
  }

  lemma {:induction false} ReferenceText(fk: ForeignKey)
    requires Sql.WellFormedTablespace(fk.deferrable)
    ensures Join(ReferenceWords(fk), ' ') + "," == ReferenceLine(fk)
  {
    var headText := fk.column + " " + fk.columnType + " NOT NULL REFERENCES " + fk.table + " (" + fk.pk + ")";
    assert Join(ReferenceWords(fk), ' ') == "    " + (headText + fk.deferrable) by {
      var head := [fk.column, fk.columnType, "NOT", "NULL", "REFERENCES", fk.table, Sql.Parenthesized(fk.pk)];
      assert Join(head, ' ') == headText by { ReferenceHeadText(fk.column, fk.columnType, fk.table, fk.pk); }
      assert Join(head + Sql.TablespaceWords(fk.deferrable), ' ') == headText + fk.deferrable by {
        ClauseText(head, fk.deferrable);
      }
      IndentText(head + Sql.TablespaceWords(fk.deferrable));
    }
    ReferenceLineGlue(fk.column, fk.columnType, fk.table, fk.pk, fk.deferrable);
  }

  lemma ReferenceLineGlue(column: string, columnType: string, table: string, pk: string, deferrable: string)
    ensures "    " + (column + " " + columnType + " NOT NULL REFERENCES " + table + " (" + pk + ")" + deferrable) + ","
         == "    " + column + " " + columnType + " NOT NULL REFERENCES " + table + " (" + pk + ")" + deferrable + ","
  {
  }

  lemma {:induction false} ReferenceHeadText(column: string, columnType: string, table: string, pk: string)
    ensures Join([column, columnType, "NOT", "NULL", "REFERENCES", table, Sql.Parenthesized(pk)], ' ')
         == column + " " + columnType + " NOT NULL REFERENCES " + table + " (" + pk + ")"
  {
    Sql.Join7(column, columnType, "NOT", "NULL", "REFERENCES", table, Sql.Parenthesized(pk));
  }

  lemma {:induction false} UniqueText(a: string, b: string, its: string)
    requires Sql.WellFormedTablespace(its)
    ensures Join(UniqueWords(a, b, its), ' ') == UniqueLine(a, b, its)
  {
    var headText := "UNIQUE (" + a + ", " + b + ")";
    assert Join(UniqueWords(a, b, its), ' ') == "    " + (headText + its) by {
      var head := ["UNIQUE", "(" + a + ",", b + ")"];
      assert Join(head, ' ') == headText by { UniqueHeadText(a, b); }
      assert Join(head + Sql.TablespaceWords(its), ' ') == headText + its by { ClauseText(head, its); }
      IndentText(head + Sql.TablespaceWords(its));
    }
    UniqueLineGlue(a, b, its);
  }

  lemma UniqueLineGlue(a: string, b: string, its: string)
    ensures "    " + ("UNIQUE (" + a + ", " + b + ")" + its) == "    UNIQUE (" + a + ", " + b + ")" + its
  {
  }

  lemma {:induction false} UniqueHeadText(a: string, b: string)
    ensures Join(["UNIQUE", "(" + a + ",", b + ")"], ' ') == "UNIQUE (" + a + ", " + b + ")"
  {
    Sql.Join3("UNIQUE", "(" + a + ",", b + ")");
  }

  // Round trip, line by line.

  lemma ClauseWordsAreNames(c: string)
    ensures Sql.AllNames(Sql.TablespaceWords(c))
  {
  }

  lemma HeaderRoundTrip(table: string)
    requires IsWord(table)
    ensures ParseHeader(HeaderLine(table)) == Some(table)
  {
    HeaderText(table);
    SplitJoin(HeaderWords(table), ' ');
  }

  lemma HeaderBack(line: string)
    requires ParseHeader(line).Some?
    ensures ' ' !in ParseHeader(line).value && HeaderLine(ParseHeader(line).value) == line
  {
    var ws := Split(line, ' ');
    assert ws == HeaderWords(ws[2]);
    JoinSplit(line, ' ');
    HeaderText(ws[2]);
  }

  lemma IdRoundTrip(id: string, idType: string, its: string)
    requires IsWord(id) && IsWord(idType) && Sql.WellFormedTablespace(its)
    ensures ParseIdLine(IdLine(id, idType, its)) == Some((id, idType, its))
  {
    var ws := IdWords(id, idType, its);
    var tail := [id, idType, "NOT", "NULL", "PRIMARY", "KEY"] + Sql.TablespaceWords(its);
    assert Sql.AllNames(ws) by { ClauseWordsAreNames(its); }
    assert IdLine(id, idType, its) == Join(ws, ' ') + "," by { IdText(id, idType, its); }
    CommaWords(ws, IdLine(id, idType, its));
    IndentedParts(tail);
    assert ws[10..] == tail[6..] == Sql.TablespaceWords(its);
    Sql.TablespaceRoundTrip(its);
  }

  /** A line that is words joined by spaces, then a comma, splits back into those words before the comma. */
  lemma CommaWords(ws: seq<string>, line: string)
    requires |ws| >= 1 && Sql.AllNames(ws) && line == Join(ws, ' ') + ","
    ensures BeforeComma(line) == Some(Join(ws, ' ')) && Split(Join(ws, ' '), ' ') == ws
  {
    assert line[..|line| - 1] == Join(ws, ' ');
    SplitJoin(ws, ' ');
  }

  lemma IndentedParts(ws: seq<string>)
    ensures IsIndented(Indented(ws)) && Indented(ws)[4..] == ws
  {
  }

  lemma IdBack(line: string)
    requires ParseIdLine(line).Some?
    ensures var (id, idType, its) := ParseIdLine(line).value;
      ' ' !in id && ' ' !in idType && Sql.WellFormedTablespace(its) && IdLine(id, idType, its) == line
  {
    var body := BeforeComma(line).value;
    var ws := Split(body, ' ');
    Sql.TablespaceBack(ws[10..]);
    var its := Sql.ParseTablespace(ws[10..]);
    assert ws == IdWords(ws[4], ws[5], its) by {
      IndentedBack(ws);
      assert ws[4..] == [ws[4], ws[5], ws[6], ws[7], ws[8], ws[9]] + ws[10..];
    }
    JoinSplit(body, ' ');
    IdText(ws[4], ws[5], its);
    assert body + "," == line;
  }

  lemma ReferenceRoundTrip(fk: ForeignKey)
    requires WellFormedKey(fk)
    ensures ParseReferenceLine(ReferenceLine(fk)) == Some(fk)
  {
    var ws := ReferenceWords(fk);
    var tail := [fk.column, fk.columnType, "NOT", "NULL", "REFERENCES", fk.table, Sql.Parenthesized(fk.pk)]
                + Sql.TablespaceWords(fk.deferrable);
    assert Sql.AllNames(ws) by {
      ClauseWordsAreNames(fk.deferrable);
      assert Sql.IsName(Sql.Parenthesized(fk.pk));
    }
    assert ReferenceLine(fk) == Join(ws, ' ') + "," by { ReferenceText(fk); }
    CommaWords(ws, ReferenceLine(fk));
    IndentedParts(tail);
    assert ws[11..] == tail[7..] == Sql.TablespaceWords(fk.deferrable);
    Sql.TablespaceRoundTrip(fk.deferrable);
    Sql.ParenthesizedRoundTrip(fk.pk);
  }

  lemma ReferenceBack(line: string)
    requires ParseReferenceLine(line).Some?
    ensures var fk := ParseReferenceLine(line).value;
      ' ' !in fk.column && ' ' !in fk.columnType && ' ' !in fk.table && ' ' !in fk.pk
      && Sql.WellFormedTablespace(fk.deferrable) && ReferenceLine(fk) == line
  {
    var body := BeforeComma(line).value;
    var ws := Split(body, ' ');
    Sql.TablespaceBack(ws[11..]);
    Sql.UnparenthesizedRoundTrip(ws[10]);
    var fk := ParseReferenceLine(line).value;
    assert ws == ReferenceWords(fk) by {
      IndentedBack(ws);
      assert ws[4..] == [ws[4], ws[5], ws[6], ws[7], ws[8], ws[9], ws[10]] + ws[11..];
    }
    JoinSplit(body, ' ');
    ReferenceText(fk);
    assert body + "," == line;
  }

  lemma UniqueRoundTrip(a: string, b: string, its: string)
    requires IsWord(a) && IsWord(b) && Sql.WellFormedTablespace(its)
    ensures ParseUniqueLine(UniqueLine(a, b, its)) == Some((a, b, its))
  {
    var ws := UniqueWords(a, b, its);
    var tail := ["UNIQUE", "(" + a + ",", b + ")"] + Sql.TablespaceWords(its);
    assert Sql.AllNames(ws) by {
      ClauseWordsAreNames(its);
      assert Sql.IsName("(" + a + ",") && Sql.IsName(b + ")");
    }
    assert Split(UniqueLine(a, b, its), ' ') == ws by {
      UniqueText(a, b, its);
      SplitJoin(ws, ' ');
    }
    IndentedParts(tail);
    assert ws[7..] == tail[3..] == Sql.TablespaceWords(its);
    Sql.TablespaceRoundTrip(its);
    assert ("(" + a + ",")[1..|"(" + a + ","| - 1] == a;
    assert (b + ")")[..|b + ")"| - 1] == b;
  }

  lemma UniqueBack(line: string)
    requires ParseUniqueLine(line).Some?
    ensures var (a, b, its) := ParseUniqueLine(line).value;
      Sql.WellFormedTablespace(its) && UniqueLine(a, b, its) == line
  {
    var ws := Split(line, ' ');
    Sql.TablespaceBack(ws[7..]);
    var (a, b, its) := ParseUniqueLine(line).value;
    assert ws[5] == "(" + a + "," && ws[6] == b + ")";
    assert ws == UniqueWords(a, b, its) by {
      IndentedBack(ws);
      assert ws[4..] == [ws[4], ws[5], ws[6]] + ws[7..];
    }
    JoinSplit(line, ' ');
    UniqueText(a, b, its);
  }

  // Round trip, whole statement.

  lemma LinesHaveNoNewline(ct: CreateTable)
    requires WellFormed(ct)
    ensures forall i :: 0 <= i < |Lines(ct)| ==> '\n' !in Lines(ct)[i]
  {
  }

  /** A well-formed join table statement is read back from its rendering. */
  lemma ParseRender(ct: CreateTable)
    requires WellFormed(ct)
    ensures Parse(Render(ct)) == Some(ct)
  {
    var ls := Lines(ct);
    assert Split(Render(ct), '\n') == ls by {
      LinesHaveNoNewline(ct);
      SplitJoin(ls, '\n');
    }
    assert ParseLines(ls) == Some(ct) by {
      LinesParts(ct);
      HeaderRoundTrip(ct.table);
      IdRoundTrip(ct.id, ct.idType, ct.inlineTablespace);
      ReferenceRoundTrip(ct.source);
      ReferenceRoundTrip(ct.target);
      UniqueRoundTrip(ct.source.column, ct.target.column, ct.inlineTablespace);
      ParseLinesOf(ls, ct);
    }
  }

  lemma LinesParts(ct: CreateTable)
    ensures var ls := Lines(ct);
      && |ls| == (if ct.tablespace.Some? then 8 else 7)
      && ls[0] == HeaderLine(ct.table)
      && ls[1] == IdLine(ct.id, ct.idType, ct.inlineTablespace)
      && ls[2] == ReferenceLine(ct.source)
      && ls[3] == ReferenceLine(ct.target)
      && ls[4] == UniqueLine(ct.source.column, ct.target.column, ct.inlineTablespace)
      && ls[5] == ")" && ls[|ls| - 1] == ";"
      && (ct.tablespace.Some? ==> ls[6] == ct.tablespace.value)
  {
  }

  /** The lines of a statement parse to it when each line parses to its part. */
  lemma ParseLinesOf(ls: seq<string>, ct: CreateTable)
    requires (|ls| == 7 || |ls| == 8) && ls[5] == ")" && ls[|ls| - 1] == ";"
    requires |ls| == 8 <==> ct.tablespace.Some?
    requires ct.tablespace.Some? ==> ls[6] == ct.tablespace.value
    requires ParseHeader(ls[0]) == Some(ct.table)
    requires ParseIdLine(ls[1]) == Some((ct.id, ct.idType, ct.inlineTablespace))
    requires ParseReferenceLine(ls[2]) == Some(ct.source)
    requires ParseReferenceLine(ls[3]) == Some(ct.target)
    requires ParseUniqueLine(ls[4]) == Some((ct.source.column, ct.target.column, ct.inlineTablespace))
    ensures ParseLines(ls) == Some(ct)
  {
  }

  /** Whatever text parses is exactly the rendering of the well-formed statement it parses to. */
  lemma RenderParse(s: string)
    requires Parse(s).Some?
    ensures WellFormed(Parse(s).value) && Render(Parse(s).value) == s
  {
    var ls := Split(s, '\n');
    var ct := Parse(s).value;
    HeaderBack(ls[0]);
    IdBack(ls[1]);
    ReferenceBack(ls[2]);
    ReferenceBack(ls[3]);
    UniqueBack(ls[4]);
    assert Lines(ct) == ls;
    JoinSplit(s, '\n');
  }

  /** Distinct well-formed join table statements render to distinct texts. */
  lemma RenderInjective(a: CreateTable, b: CreateTable)
    requires WellFormed(a) && WellFormed(b)
    requires Render(a) == Render(b)
    ensures a == b
  {
    ParseRender(a);
    ParseRender(b);
  }
}
