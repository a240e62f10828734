/**
  The SQL statements the PostgreSQL adapter emits, as abstract syntax.
  `Render` gives the text the adapter produces; `Parse` reads such text back
  by splitting it into space-separated words. The two are proved inverse:
  a text parses to a statement exactly when it is that statement's rendering.
  Names in a statement are already quoted; a well-formed statement has no
  space inside a name or a column type.
 */
module Sql {
  import opened Wrappers
  import opened Text

  /** `REFERENCES <table> (<column>) <deferrable>` on an added column. */
  datatype Reference = Reference(table: string, column: string, deferrable: string)

  datatype Statement =
    | AlterRenameColumn(table: string, oldName: string, newName: string)
    | AlterRenameTable(oldName: string, newName: string)
    | AlterDropColumn(table: string, column: string)
    | DropTable(table: string)
    | AlterAddColumn(table: string, column: string, columnType: string,
                     notNull: bool, unique: bool, references: Option<Reference>)
    | CreateIndex(unique: bool, name: string, table: string, column: string, tablespace: string)

  function Render(st: Statement): string
  {
    match st
    case AlterRenameColumn(t, o, n) => "ALTER TABLE " + t + " RENAME COLUMN " + o + " TO " + n + ";"
    case AlterRenameTable(o, n) => "ALTER TABLE " + o + " RENAME TO " + n + ";"
    case AlterDropColumn(t, c) => "ALTER TABLE " + t + " DROP COLUMN " + c + " CASCADE;"
    case DropTable(t) => "DROP TABLE " + t + ";"
    case AlterAddColumn(t, c, ty, notNull, unique, refs) =>
      "ALTER TABLE " + t + " ADD COLUMN " + c + " " + ty + " "
      + NullText(notNull) + UniqueText(unique) + ReferencesText(refs) + ";"
    case CreateIndex(unique, name, t, c, ts) =>
      "CREATE " + (if unique then "UNIQUE " else "") + "INDEX " + name + " ON " + t + " (" + c + ")" + ts + ";"
  }

  function NullText(notNull: bool): string { if notNull then "NOT NULL" else "NULL" }

  function UniqueText(unique: bool): string { if unique then " UNIQUE" else "" }

  function ReferencesText(refs: Option<Reference>): string
  {
    match refs
    case None => ""
    case Some(r) => " " + ReferencesClause(r)
  }

  function ReferencesClause(r: Reference): string
  {
    "REFERENCES " + r.table + " (" + r.column + ") " + r.deferrable
  }

  predicate IsName(s: string) { ' ' !in s }

  predicate AllNames(ws: seq<string>) { forall i :: 0 <= i < |ws| ==> IsName(ws[i]) }

  /** Every name and type is a single word; an index tablespace clause is empty or starts with a space. */
  predicate WellFormed(st: Statement)
  {
    match st
    case AlterRenameColumn(t, o, n) => IsName(t) && IsName(o) && IsName(n)
    case AlterRenameTable(o, n) => IsName(o) && IsName(n)
    case AlterDropColumn(t, c) => IsName(t) && IsName(c)
    case DropTable(t) => IsName(t)
    case AlterAddColumn(t, c, ty, _, _, refs) =>
      IsName(t) && IsName(c) && IsName(ty) && WellFormedReferences(refs)
    case CreateIndex(_, name, t, c, ts) =>
      IsName(name) && IsName(t) && IsName(c) && WellFormedTablespace(ts)
  }

  predicate WellFormedReferences(refs: Option<Reference>)
  {
    refs.Some? ==> IsName(refs.value.table) && IsName(refs.value.column)
  }

  predicate WellFormedTablespace(ts: string) { ts == "" || ts[0] == ' ' }

  function Parenthesized(s: string): string { "(" + s + ")" }

  predicate IsParenthesized(w: string) { |w| >= 2 && w[0] == '(' && w[|w| - 1] == ')' }

  function Unparenthesized(w: string): string
    requires IsParenthesized(w)
  {
    w[1..|w| - 1]
  }

  // The words of each statement, without the final semicolon.

  function AddColumnHead(t: string, c: string, ty: string): seq<string>
  {
    ["ALTER", "TABLE", t, "ADD", "COLUMN", c, ty]
  }

  function NullWords(notNull: bool): seq<string> { if notNull then ["NOT", "NULL"] else ["NULL"] }

  function UniqueWords(unique: bool): seq<string> { if unique then ["UNIQUE"] else [] }

  function ReferenceWords(refs: Option<Reference>): seq<string>
  {
    match refs
    case None => []
    case Some(r) => ["REFERENCES", r.table, Parenthesized(r.column)] + Split(r.deferrable, ' ')
  }

  function IndexBody(name: string, t: string, c: string, ts: string): seq<string>
  {
    ["INDEX", name, "ON", t, Parenthesized(c)] + TablespaceWords(ts)
  }

  function TablespaceWords(ts: string): seq<string>
  {
    if ts == "" then [] else Split(ts[1..], ' ')
  }

  function Words(st: Statement): (ws: seq<string>)
    ensures |ws| >= 1
  {
    match st
    case AlterRenameColumn(t, o, n) => ["ALTER", "TABLE", t, "RENAME", "COLUMN", o, "TO", n]
    case AlterRenameTable(o, n) => ["ALTER", "TABLE", o, "RENAME", "TO", n]
    case AlterDropColumn(t, c) => ["ALTER", "TABLE", t, "DROP", "COLUMN", c, "CASCADE"]
    case DropTable(t) => ["DROP", "TABLE", t]
    case AlterAddColumn(t, c, ty, notNull, unique, refs) =>
      AddColumnHead(t, c, ty) + (NullWords(notNull) + UniqueWords(unique) + ReferenceWords(refs))
    case CreateIndex(unique, name, t, c, ts) =>
      ["CREATE"] + (UniqueWords(unique) + IndexBody(name, t, c, ts))
  }

  // Reading a statement back.

  function Parse(s: string): Option<Statement>
  {
    if |s| == 0 || s[|s| - 1] != ';' then None
    else ParseWords(Split(s[..|s| - 1], ' '))
  }

  function ParseWords(ws: seq<string>): Option<Statement>
  {
    if |ws| == 8 && ws[0] == "ALTER" && ws[1] == "TABLE" && ws[3] == "RENAME" && ws[4] == "COLUMN" && ws[6] == "TO" then
      Some(AlterRenameColumn(ws[2], ws[5], ws[7]))
    else if |ws| == 6 && ws[0] == "ALTER" && ws[1] == "TABLE" && ws[3] == "RENAME" && ws[4] == "TO" then
      Some(AlterRenameTable(ws[2], ws[5]))
    else if |ws| == 7 && ws[0] == "ALTER" && ws[1] == "TABLE" && ws[3] == "DROP" && ws[4] == "COLUMN" && ws[6] == "CASCADE" then
      Some(AlterDropColumn(ws[2], ws[5]))
    else if |ws| == 3 && ws[0] == "DROP" && ws[1] == "TABLE" then
      Some(DropTable(ws[2]))
    else if |ws| >= 7 && ws[0] == "ALTER" && ws[1] == "TABLE" && ws[3] == "ADD" && ws[4] == "COLUMN" then
      ParseAddColumn(ws[2], ws[5], ws[6], ws[7..])
    else if |ws| >= 1 && ws[0] == "CREATE" then
      ParseCreateIndex(ws[1..])
    else
      None
  }

  function ParseAddColumn(t: string, c: string, ty: string, rest: seq<string>): Option<Statement>
  {
    if |rest| >= 2 && rest[0] == "NOT" && rest[1] == "NULL" then
      ParseUnique(t, c, ty, true, rest[2..])
    else if |rest| >= 1 && rest[0] == "NULL" then
      ParseUnique(t, c, ty, false, rest[1..])
    else
      None
  }

  function ParseUnique(t: string, c: string, ty: string, notNull: bool, rest: seq<string>): Option<Statement>
  {
    if |rest| >= 1 && rest[0] == "UNIQUE" then
      ParseReferences(t, c, ty, notNull, true, rest[1..])
    else
      ParseReferences(t, c, ty, notNull, false, rest)
  }

  function ParseReferences(t: string, c: string, ty: string, notNull: bool, unique: bool, rest: seq<string>): Option<Statement>
  {
    if rest == [] then
      Some(AlterAddColumn(t, c, ty, notNull, unique, None))
    else if |rest| >= 4 && rest[0] == "REFERENCES" && IsParenthesized(rest[2]) then
      var r := Reference(rest[1], Unparenthesized(rest[2]), Join(rest[3..], ' '));
      Some(AlterAddColumn(t, c, ty, notNull, unique, Some(r)))
    else
      None
  }

  function ParseCreateIndex(ws: seq<string>): Option<Statement>
  {
    if |ws| >= 1 && ws[0] == "UNIQUE" then ParseIndexBody(true, ws[1..])
    else ParseIndexBody(false, ws)
  }

  function ParseIndexBody(unique: bool, rest: seq<string>): Option<Statement>
  {
    if |rest| >= 5 && rest[0] == "INDEX" && rest[2] == "ON" && IsParenthesized(rest[4]) then
      Some(CreateIndex(unique, rest[1], rest[3], Unparenthesized(rest[4]), ParseTablespace(rest[5..])))
    else
      None
  }

  function ParseTablespace(ws: seq<string>): string
  {
    if ws == [] then "" else " " + Join(ws, ' ')
  }

  /** The rendering of a well-formed statement is its words joined by single spaces, then `;`. */
  lemma RenderIsWords(st: Statement)
    requires WellFormed(st)
    ensures Render(st) == Join(Words(st), ' ') + ";"
  {
    match st
    case AlterRenameColumn(t, o, n) => RenameColumnIsWords(t, o, n);
    case AlterRenameTable(o, n) => RenameTableIsWords(o, n);
    case AlterDropColumn(t, c) => DropColumnIsWords(t, c);
    case DropTable(t) => DropTableIsWords(t);
    case AlterAddColumn(t, c, ty, notNull, unique, refs) => AddColumnIsWords(t, c, ty, notNull, unique, refs);
    case CreateIndex(unique, name, t, c, ts) => CreateIndexIsWords(unique, name, t, c, ts);
  }

  lemma RenameColumnIsWords(t: string, o: string, n: string)
    ensures Render(AlterRenameColumn(t, o, n)) == Join(Words(AlterRenameColumn(t, o, n)), ' ') + ";"
  {
    RenameColumnText(t, o, n);
  }

  lemma RenameColumnText(t: string, o: string, n: string)
    ensures Join(["ALTER", "TABLE", t, "RENAME", "COLUMN", o, "TO", n], ' ') == "ALTER TABLE " + t + " RENAME COLUMN " + o + " TO " + n
  {
    Join8("ALTER", "TABLE", t, "RENAME", "COLUMN", o, "TO", n);
  }

  lemma RenameTableIsWords(o: string, n: string)
    ensures Render(AlterRenameTable(o, n)) == Join(Words(AlterRenameTable(o, n)), ' ') + ";"
  {
    Join6("ALTER", "TABLE", o, "RENAME", "TO", n);
  }

  lemma DropColumnIsWords(t: string, c: string)
    ensures Render(AlterDropColumn(t, c)) == Join(Words(AlterDropColumn(t, c)), ' ') + ";"
  {
    DropColumnText(t, c);
  }

  lemma DropColumnText(t: string, c: string)
    ensures Join(["ALTER", "TABLE", t, "DROP", "COLUMN", c, "CASCADE"], ' ') == "ALTER TABLE " + t + " DROP COLUMN " + c + " CASCADE"
  {
    Join7("ALTER", "TABLE", t, "DROP", "COLUMN", c, "CASCADE");
  }

  lemma DropTableIsWords(t: string)
    ensures Render(DropTable(t)) == Join(Words(DropTable(t)), ' ') + ";"
  {
    Join3("DROP", "TABLE", t);
  }

  lemma AddColumnIsWords(t: string, c: string, ty: string, notNull: bool, unique: bool, refs: Option<Reference>)
    ensures Render(AlterAddColumn(t, c, ty, notNull, unique, refs))
         == Join(Words(AlterAddColumn(t, c, ty, notNull, unique, refs)), ' ') + ";"
  {
    var a := AddColumnHead(t, c, ty) + NullWords(notNull);
    var b := a + UniqueWords(unique);
    var ws := Words(AlterAddColumn(t, c, ty, notNull, unique, refs));
    assert ws == b + ReferenceWords(refs);
    var headText := "ALTER TABLE " + t + " ADD COLUMN " + c + " " + ty + " " + NullText(notNull);
    assert Join(a, ' ') == headText by { NullWordsText(t, c, ty, notNull); }
    assert Join(b, ' ') == Join(a, ' ') + UniqueText(unique) by { UniqueWordsText(a, unique); }
    assert Join(ws, ' ') == Join(b, ' ') + ReferencesText(refs) by { ReferenceWordsText(b, refs); }
    assert Join(ws, ' ') == headText + UniqueText(unique) + ReferencesText(refs);
  }

  lemma NullWordsText(t: string, c: string, ty: string, notNull: bool)
    ensures Join(AddColumnHead(t, c, ty) + NullWords(notNull), ' ')
         == "ALTER TABLE " + t + " ADD COLUMN " + c + " " + ty + " " + NullText(notNull)
  {
    AddColumnHeadText(t, c, ty);
    if notNull { Join2("NOT", "NULL"); }
    JoinAppend(AddColumnHead(t, c, ty), NullWords(notNull), ' ');
  }

  lemma UniqueWordsText(ws: seq<string>, unique: bool)
    requires |ws| >= 1
    ensures Join(ws + UniqueWords(unique), ' ') == Join(ws, ' ') + UniqueText(unique)
  {
    if unique {
      assert Join(ws + ["UNIQUE"], ' ') == Join(ws, ' ') + [' '] + "UNIQUE" by {
        JoinAppend(ws, ["UNIQUE"], ' ');
      }
      var j := Join(ws, ' ');
      assert j + [' '] + "UNIQUE" == j + " UNIQUE";
    } else {
      assert ws + UniqueWords(unique) == ws;
    }
  }

  lemma ReferenceWordsText(ws: seq<string>, refs: Option<Reference>)
    requires |ws| >= 1
    ensures Join(ws + ReferenceWords(refs), ' ') == Join(ws, ' ') + ReferencesText(refs)
  {
    if refs.Some? {
      ReferencesWords(refs.value);
      JoinAppend(ws, ReferenceWords(refs), ' ');
    } else {
      assert ws + ReferenceWords(refs) == ws;
    }
  }

  lemma ReferencesWords(r: Reference)
    ensures Join(["REFERENCES", r.table, Parenthesized(r.column)] + Split(r.deferrable, ' '), ' ') == ReferencesClause(r)
  {
    Join3("REFERENCES", r.table, Parenthesized(r.column));
    JoinAppend(["REFERENCES", r.table, Parenthesized(r.column)], Split(r.deferrable, ' '), ' ');
    JoinSplit(r.deferrable, ' ');
  }

  lemma AddColumnHeadText(t: string, c: string, ty: string)
    ensures Join(AddColumnHead(t, c, ty), ' ') == "ALTER TABLE " + t + " ADD COLUMN " + c + " " + ty
  {
    Join7("ALTER", "TABLE", t, "ADD", "COLUMN", c, ty);
  }

  lemma CreateIndexIsWords(unique: bool, name: string, t: string, c: string, ts: string)
    requires WellFormedTablespace(ts)
    ensures Render(CreateIndex(unique, name, t, c, ts)) == Join(Words(CreateIndex(unique, name, t, c, ts)), ' ') + ";"
  {
    var head := ["CREATE"] + UniqueWords(unique) + ["INDEX", name, "ON", t, Parenthesized(c)];
    var headText := "CREATE " + (if unique then "UNIQUE " else "") + "INDEX " + name + " ON " + t + " (" + c + ")";
    CreateIndexHead(unique, name, t, c);
    if ts != "" {
      JoinAppend(head, Split(ts[1..], ' '), ' ');
      JoinSplit(ts[1..], ' ');
      assert headText + [' '] + ts[1..] == headText + ts by {
        assert [' '] + ts[1..] == ts;
      }
    } else {
      assert head + [] == head;
    }
    assert ["CREATE"] + (UniqueWords(unique) + IndexBody(name, t, c, ts)) == head + TablespaceWords(ts);
  }

  lemma CreateIndexHead(unique: bool, name: string, t: string, c: string)
    ensures Join(["CREATE"] + UniqueWords(unique) + ["INDEX", name, "ON", t, Parenthesized(c)], ' ')
         == "CREATE " + (if unique then "UNIQUE " else "") + "INDEX " + name + " ON " + t + " (" + c + ")"
  {
    if unique {
      assert ["CREATE"] + ["UNIQUE"] + ["INDEX", name, "ON", t, Parenthesized(c)]
          == ["CREATE", "UNIQUE", "INDEX", name, "ON", t, Parenthesized(c)];
      Join7("CREATE", "UNIQUE", "INDEX", name, "ON", t, Parenthesized(c));
    } else {
      assert ["CREATE"] + [] + ["INDEX", name, "ON", t, Parenthesized(c)]
          == ["CREATE", "INDEX", name, "ON", t, Parenthesized(c)];
      Join6("CREATE", "INDEX", name, "ON", t, Parenthesized(c));
    }
  }

  lemma Join2(a: string, b: string)
    ensures Join([a, b], ' ') == a + " " + b
  {
    assert [a, b][1..] == [b];
  }

  lemma Join3(a: string, b: string, c: string)
    ensures Join([a, b, c], ' ') == a + " " + b + " " + c
  {
    Join2(b, c);
    JoinCons(a, [b, c], ' ');
    assert [a] + [b, c] == [a, b, c];
  }

  lemma Join4(a: string, b: string, c: string, d: string)
    ensures Join([a, b, c, d], ' ') == a + " " + b + " " + c + " " + d
  {
    Join3(b, c, d);
    JoinCons(a, [b, c, d], ' ');
    assert [a] + [b, c, d] == [a, b, c, d];
  }

  lemma Join5(a: string, b: string, c: string, d: string, e: string)
    ensures Join([a, b, c, d, e], ' ') == a + " " + b + " " + c + " " + d + " " + e
  {
    Join4(b, c, d, e);
    JoinCons(a, [b, c, d, e], ' ');
    assert [a] + [b, c, d, e] == [a, b, c, d, e];
  }

  lemma Join6(a: string, b: string, c: string, d: string, e: string, f: string)
    ensures Join([a, b, c, d, e, f], ' ') == a + " " + b + " " + c + " " + d + " " + e + " " + f
  {
    Join5(b, c, d, e, f);
    JoinCons(a, [b, c, d, e, f], ' ');
    assert [a] + [b, c, d, e, f] == [a, b, c, d, e, f];
  }

  lemma Join7(a: string, b: string, c: string, d: string, e: string, f: string, g: string)
    ensures Join([a, b, c, d, e, f, g], ' ') == a + " " + b + " " + c + " " + d + " " + e + " " + f + " " + g
  {
    Join6(b, c, d, e, f, g);
    JoinCons(a, [b, c, d, e, f, g], ' ');
    assert [a] + [b, c, d, e, f, g] == [a, b, c, d, e, f, g];
  }

  lemma Join8(a: string, b: string, c: string, d: string, e: string, f: string, g: string, h: string)
    ensures Join([a, b, c, d, e, f, g, h], ' ') == a + " " + b + " " + c + " " + d + " " + e + " " + f + " " + g + " " + h
  {
    Join7(b, c, d, e, f, g, h);
    JoinCons(a, [b, c, d, e, f, g, h], ' ');
    assert [a] + [b, c, d, e, f, g, h] == [a, b, c, d, e, f, g, h];
  }


  // Round trip, words level.

  lemma NameSlice(w: string, i: nat, j: nat)
    requires IsName(w) && i <= j <= |w|
    ensures IsName(w[i..j])
  {
  }

  lemma WordsAreNames(st: Statement)
    requires WellFormed(st)
    ensures AllNames(Words(st))
  {
    match st
    case AlterAddColumn(t, c, ty, notNull, unique, refs) =>
      if refs.Some? {
        assert IsName(Parenthesized(refs.value.column));
      }
      assert AllNames(ReferenceWords(refs));
    case CreateIndex(unique, name, t, c, ts) =>
      assert IsName(Parenthesized(c));
      assert AllNames(IndexBody(name, t, c, ts));
    case _ =>
  }

  lemma ParenthesizedRoundTrip(c: string)
    ensures IsParenthesized(Parenthesized(c)) && Unparenthesized(Parenthesized(c)) == c
  {
  }

  lemma UnparenthesizedRoundTrip(w: string)
    requires IsName(w) && IsParenthesized(w)
    ensures Parenthesized(Unparenthesized(w)) == w && IsName(Unparenthesized(w))
  {
    NameSlice(w, 1, |w| - 1);
  }

  lemma TablespaceRoundTrip(ts: string)
    requires WellFormedTablespace(ts)
    ensures ParseTablespace(TablespaceWords(ts)) == ts
  {
    if ts != "" {
      JoinSplit(ts[1..], ' ');
      assert [' '] + ts[1..] == ts;
    }
  }

  lemma TablespaceBack(ws: seq<string>)
    requires AllNames(ws)
    ensures WellFormedTablespace(ParseTablespace(ws)) && TablespaceWords(ParseTablespace(ws)) == ws
  {
    if ws != [] {
      SplitJoin(ws, ' ');
      assert (" " + Join(ws, ' '))[1..] == Join(ws, ' ');
    }
  }

  lemma ReferencesRoundTrip(t: string, c: string, ty: string, notNull: bool, unique: bool, refs: Option<Reference>)
    ensures ParseReferences(t, c, ty, notNull, unique, ReferenceWords(refs))
         == Some(AlterAddColumn(t, c, ty, notNull, unique, refs))
  {
    if refs.Some? {
      var r := refs.value;
      var ws := ReferenceWords(refs);
      assert ws[3..] == Split(r.deferrable, ' ');
      JoinSplit(r.deferrable, ' ');
      ParenthesizedRoundTrip(r.column);
    }
  }

  lemma ReferencesBack(t: string, c: string, ty: string, notNull: bool, unique: bool, rest: seq<string>)
    requires AllNames(rest)
    requires ParseReferences(t, c, ty, notNull, unique, rest).Some?
    ensures ParseReferences(t, c, ty, notNull, unique, rest).value.AlterAddColumn?
    ensures var st := ParseReferences(t, c, ty, notNull, unique, rest).value;
      st == AlterAddColumn(t, c, ty, notNull, unique, st.references)
      && WellFormedReferences(st.references) && ReferenceWords(st.references) == rest
  {
    if rest != [] {
      UnparenthesizedRoundTrip(rest[2]);
      SplitJoin(rest[3..], ' ');
      assert rest == ["REFERENCES", rest[1], rest[2]] + rest[3..];
    }
  }

  lemma UniqueRoundTrip(t: string, c: string, ty: string, notNull: bool, unique: bool, refs: Option<Reference>)
    ensures ParseUnique(t, c, ty, notNull, UniqueWords(unique) + ReferenceWords(refs))
         == Some(AlterAddColumn(t, c, ty, notNull, unique, refs))
  {
    ReferencesRoundTrip(t, c, ty, notNull, unique, refs);
    var ws := UniqueWords(unique) + ReferenceWords(refs);
    if unique {
      assert ws[1..] == ReferenceWords(refs);
    } else {
      assert ws == ReferenceWords(refs);
    }
  }

  lemma UniqueBack(t: string, c: string, ty: string, notNull: bool, rest: seq<string>)
    requires AllNames(rest)
    requires ParseUnique(t, c, ty, notNull, rest).Some?
    ensures ParseUnique(t, c, ty, notNull, rest).value.AlterAddColumn?
    ensures var st := ParseUnique(t, c, ty, notNull, rest).value;
      st == AlterAddColumn(t, c, ty, notNull, st.unique, st.references)
      && WellFormedReferences(st.references)
      && UniqueWords(st.unique) + ReferenceWords(st.references) == rest
  {
    if |rest| >= 1 && rest[0] == "UNIQUE" {
      ReferencesBack(t, c, ty, notNull, true, rest[1..]);
      assert rest == ["UNIQUE"] + rest[1..];
    } else {
      ReferencesBack(t, c, ty, notNull, false, rest);
    }
  }

  lemma NullRoundTrip(t: string, c: string, ty: string, notNull: bool, unique: bool, refs: Option<Reference>)
    ensures ParseAddColumn(t, c, ty, NullWords(notNull) + UniqueWords(unique) + ReferenceWords(refs))
         == Some(AlterAddColumn(t, c, ty, notNull, unique, refs))
  {
    UniqueRoundTrip(t, c, ty, notNull, unique, refs);
    var tail := UniqueWords(unique) + ReferenceWords(refs);
    var ws := NullWords(notNull) + UniqueWords(unique) + ReferenceWords(refs);
    assert ws == NullWords(notNull) + tail;
    if notNull {
      assert ws[2..] == tail;
    } else {
      assert ws[1..] == tail;
      assert tail == [] || tail[0] == "UNIQUE" || tail[0] == "REFERENCES";
    }
  }

  lemma NullBack(t: string, c: string, ty: string, rest: seq<string>)
    requires AllNames(rest)
    requires ParseAddColumn(t, c, ty, rest).Some?
    ensures ParseAddColumn(t, c, ty, rest).value.AlterAddColumn?
    ensures var st := ParseAddColumn(t, c, ty, rest).value;
      st == AlterAddColumn(t, c, ty, st.notNull, st.unique, st.references)
      && WellFormedReferences(st.references)
      && NullWords(st.notNull) + UniqueWords(st.unique) + ReferenceWords(st.references) == rest
  {
    var notNull := |rest| >= 2 && rest[0] == "NOT" && rest[1] == "NULL";
    var tail := if notNull then rest[2..] else rest[1..];
    assert rest == NullWords(notNull) + tail;
    assert ParseAddColumn(t, c, ty, rest) == ParseUnique(t, c, ty, notNull, tail);
    UniqueBack(t, c, ty, notNull, tail);
  }

  lemma IndexRoundTrip(unique: bool, name: string, t: string, c: string, ts: string)
    requires WellFormedTablespace(ts)
    ensures ParseCreateIndex(UniqueWords(unique) + IndexBody(name, t, c, ts)) == Some(CreateIndex(unique, name, t, c, ts))
  {
    var body := IndexBody(name, t, c, ts);
    assert body[5..] == TablespaceWords(ts);
    TablespaceRoundTrip(ts);
    ParenthesizedRoundTrip(c);
    if unique {
      assert (UniqueWords(unique) + body)[1..] == body;
    } else {
      assert UniqueWords(unique) + body == body;
    }
  }

  lemma IndexBack(ws: seq<string>)
    requires AllNames(ws)
    requires ParseCreateIndex(ws).Some?
    ensures ParseCreateIndex(ws).value.CreateIndex?
    ensures var st := ParseCreateIndex(ws).value;
      IsName(st.name) && IsName(st.table) && IsName(st.column) && WellFormedTablespace(st.tablespace)
      && UniqueWords(st.unique) + IndexBody(st.name, st.table, st.column, st.tablespace) == ws
  {
    var st := ParseCreateIndex(ws).value;
    var rest := if st.unique then ws[1..] else ws;
    assert ws == UniqueWords(st.unique) + rest;
    UnparenthesizedRoundTrip(rest[4]);
    TablespaceBack(rest[5..]);
    assert rest == ["INDEX", rest[1], "ON", rest[3], rest[4]] + rest[5..];
  }

  lemma ParseWordsOfWords(st: Statement)
    requires WellFormed(st)
    ensures ParseWords(Words(st)) == Some(st)
  {
    match st
    case AlterAddColumn(t, c, ty, notNull, unique, refs) =>
      var ws := Words(st);
      assert ws[7..] == NullWords(notNull) + UniqueWords(unique) + ReferenceWords(refs);
      NullRoundTrip(t, c, ty, notNull, unique, refs);
    case CreateIndex(unique, name, t, c, ts) =>
      assert Words(st)[1..] == UniqueWords(unique) + IndexBody(name, t, c, ts);
      IndexRoundTrip(unique, name, t, c, ts);
    case _ =>
  }

  lemma WordsOfParseWords(ws: seq<string>)
    requires |ws| >= 1 && AllNames(ws)
    requires ParseWords(ws).Some?
    ensures WellFormed(ParseWords(ws).value) && Words(ParseWords(ws).value) == ws
  {
    if |ws| == 8 && ws[0] == "ALTER" && ws[1] == "TABLE" && ws[3] == "RENAME" && ws[4] == "COLUMN" && ws[6] == "TO" {
    } else if |ws| == 6 && ws[0] == "ALTER" && ws[1] == "TABLE" && ws[3] == "RENAME" && ws[4] == "TO" {
    } else if |ws| == 7 && ws[0] == "ALTER" && ws[1] == "TABLE" && ws[3] == "DROP" && ws[4] == "COLUMN" && ws[6] == "CASCADE" {
    } else if |ws| == 3 && ws[0] == "DROP" && ws[1] == "TABLE" {
    } else if |ws| >= 7 && ws[0] == "ALTER" && ws[1] == "TABLE" && ws[3] == "ADD" && ws[4] == "COLUMN" {
      NullBack(ws[2], ws[5], ws[6], ws[7..]);
      assert ws == AddColumnHead(ws[2], ws[5], ws[6]) + ws[7..];
    } else {
      IndexBack(ws[1..]);
      assert ws == ["CREATE"] + ws[1..];
    }
  }

  // Round trip, text level.

  /** A well-formed statement is read back from its rendering. */
  lemma ParseRender(st: Statement)
    requires WellFormed(st)
    ensures Parse(Render(st)) == Some(st)
  {
    RenderIsWords(st);
    var s := Render(st);
    assert s[..|s| - 1] == Join(Words(st), ' ');
    WordsAreNames(st);
    SplitJoin(Words(st), ' ');
    ParseWordsOfWords(st);
  }

  /** Whatever text parses is exactly the rendering of the well-formed statement it parses to. */
  lemma RenderParse(s: string)
    requires Parse(s).Some?
    ensures WellFormed(Parse(s).value) && Render(Parse(s).value) == s
  {
    var body := s[..|s| - 1];
    var ws := Split(body, ' ');
    WordsOfParseWords(ws);
    var st := Parse(s).value;
    RenderIsWords(st);
    JoinSplit(body, ' ');
    assert body + ";" == s;
  }

  /** Distinct well-formed statements render to distinct texts. */
  lemma RenderInjective(a: Statement, b: Statement)
    requires WellFormed(a) && WellFormed(b)
    requires Render(a) == Render(b)
    ensures a == b
  {
    ParseRender(a);
    ParseRender(b);
  }

}
