/** Text assembly for Word documents: the paragraph texts and the table cell
    texts a Word reader reports are filtered, joined and normalised into one
    line of text. The reader itself is not modelled; a document is the plain
    strings it would report. */
module Docx {
  import opened Text
  import opened Whitespace

  datatype Row = Row(cells: seq<string>)
  datatype Table = Table(rows: seq<Row>)
  datatype Document = Document(paragraphs: seq<string>, tables: seq<Table>)

  /** Python's `not text.strip()`. */
  predicate Blank(t: string)
  {
    Strip(t) == []
  }

  /** The items of `xs` that are not blank, in their original order. */
  function KeepNonBlank(xs: seq<string>): seq<string>
  {
    if xs == [] then []
    else if Blank(xs[0]) then KeepNonBlank(xs[1..])
    else [xs[0]] + KeepNonBlank(xs[1..])
  }

  /** The cell texts of a sequence of rows, row by row. */
  function RowTexts(rows: seq<Row>): seq<string>
  {
    if rows == [] then [] else rows[0].cells + RowTexts(rows[1..])
  }

  /** The cell texts of a sequence of tables, table by table. */
  function CellTexts(tables: seq<Table>): seq<string>
  {
    if tables == [] then [] else RowTexts(tables[0].rows) + CellTexts(tables[1..])
  }

  /** Every text the reader reports: paragraphs first, then cells. */
  function AllTexts(doc: Document): seq<string>
  {
    doc.paragraphs + CellTexts(doc.tables)
  }

  /** The list the extractor builds before joining: non-blank paragraphs, then
      non-blank cells. */
  function Items(doc: Document): seq<string>
  {
    KeepNonBlank(doc.paragraphs) + KeepNonBlank(CellTexts(doc.tables))
  }

  /** The text returned for a Word document: the items joined by newlines, each
      whitespace run replaced by one space, and the result stripped. */
  function ExtractText(doc: Document): (r: string)
    ensures Canonical(r)
  {
    NormalizeCanonical(Join("\n", Items(doc)));
    Normalize(Join("\n", Items(doc)))
  }

  // Filtering

  /** Filtering keeps no blank text and never lengthens the list. */
  lemma {:induction false} KeepNonBlankSound(xs: seq<string>)
    ensures |KeepNonBlank(xs)| <= |xs|
    ensures forall i :: 0 <= i < |KeepNonBlank(xs)| ==> !Blank(KeepNonBlank(xs)[i])
    decreases |xs|
  {
    if xs != [] {
      KeepNonBlankSound(xs[1..]);
    }
  }

  /** A text survives filtering exactly when it occurs and is not blank. */
  lemma {:induction false} KeepNonBlankMembers(xs: seq<string>, x: string)
    ensures x in KeepNonBlank(xs) <==> x in xs && !Blank(x)
    decreases |xs|
  {
    if xs != [] {
      KeepNonBlankMembers(xs[1..], x);
      assert x in xs <==> x == xs[0] || x in xs[1..];
    }
  }

  lemma {:induction false} KeepNonBlankAppend(a: seq<string>, b: seq<string>)
    ensures KeepNonBlank(a + b) == KeepNonBlank(a) + KeepNonBlank(b)
    decreases |a|
  {
    if a == [] {
      assert a + b == b;
    } else {
      assert (a + b)[1..] == a[1..] + b;
      KeepNonBlankAppend(a[1..], b);
    }
  }

  /** Filtering one more item keeps it exactly when it is not blank. */
  lemma KeepNonBlankSnoc(a: seq<string>, x: string)
    ensures KeepNonBlank(a + [x]) == KeepNonBlank(a) + (if Blank(x) then [] else [x])
  {
    KeepNonBlankAppend(a, [x]);
  }

  lemma {:induction false} RowTextsSnoc(rows: seq<Row>, row: Row)
    ensures RowTexts(rows + [row]) == RowTexts(rows) + row.cells
    decreases |rows|
  {
    if rows == [] {
      assert RowTexts([row]) == row.cells + RowTexts([]);
    } else {
      assert (rows + [row])[1..] == rows[1..] + [row];
      RowTextsSnoc(rows[1..], row);
    }
  }

  lemma {:induction false} CellTextsSnoc(tables: seq<Table>, table: Table)
    ensures CellTexts(tables + [table]) == CellTexts(tables) + RowTexts(table.rows)
    decreases |tables|
  {
    if tables == [] {
      assert CellTexts([table]) == RowTexts(table.rows) + CellTexts([]);
    } else {
      assert (tables + [table])[1..] == tables[1..] + [table];
      CellTextsSnoc(tables[1..], table);
    }
  }

  /** One `for text in texts: if text.strip(): all_text.append(text)` loop. */
  method AppendNonBlank(acc: seq<string>, xs: seq<string>) returns (r: seq<string>)
    ensures r == acc + KeepNonBlank(xs)
  {
    r := acc;
    var i := 0;
    while i < |xs|
      invariant 0 <= i <= |xs|
      invariant r == acc + KeepNonBlank(xs[..i])
    {
      AppendStep(acc, xs, i);
      if !Blank(xs[i]) {
        r := r + [xs[i]];
      }
      i := i + 1;
    }
    assert xs[..i] == xs;
  }

  lemma AppendStep(acc: seq<string>, xs: seq<string>, i: nat)
    requires i < |xs|
    ensures acc + KeepNonBlank(xs[..i + 1])
         == (acc + KeepNonBlank(xs[..i])) + (if Blank(xs[i]) then [] else [xs[i]])
  {
    assert xs[..i + 1] == xs[..i] + [xs[i]];
    KeepNonBlankSnoc(xs[..i], xs[i]);
  }

  /** Appending `y` to `acc + x` extends the accumulated list to `acc + z`.
      Stated on plain variables so that the loop proofs of `CollectItems` and
      `AppendTable` apply associativity without unfolding `KeepNonBlank`. */
  lemma ExtendBy(acc: seq<string>, x: seq<string>, y: seq<string>, z: seq<string>)
    requires z == x + y
    ensures (acc + x) + y == acc + z
  {
  }

  /** The cell loops over one table, row by row. */
  method AppendTable(acc: seq<string>, table: Table) returns (r: seq<string>)
    ensures r == acc + KeepNonBlank(RowTexts(table.rows))
  {
    var rows := table.rows;
    r := acc;
    var i := 0;
    while i < |rows|
      invariant 0 <= i <= |rows|
      invariant r == acc + KeepNonBlank(RowTexts(rows[..i]))
    {
      r := AppendNonBlank(r, rows[i].cells);
      RowStep(rows, i);
      ExtendBy(acc, KeepNonBlank(RowTexts(rows[..i])), KeepNonBlank(rows[i].cells),
        KeepNonBlank(RowTexts(rows[..i + 1])));
      i := i + 1;
    }
    assert rows[..i] == rows;
  }

  /** The extractor's loops: paragraphs in order, then every table, row and
      cell in order, keeping each text that is not blank. */
  method CollectItems(doc: Document) returns (allText: seq<string>)
    ensures allText == Items(doc)
  {
    allText := AppendNonBlank([], doc.paragraphs);
    var head := allText;
    assert head == KeepNonBlank(doc.paragraphs);
    var ts := doc.tables;
    var t := 0;
    while t < |ts|
      invariant 0 <= t <= |ts|
      invariant allText == head + KeepNonBlank(CellTexts(ts[..t]))
    {
      allText := AppendTable(allText, ts[t]);
      TableStep(ts, t);
      ExtendBy(head, KeepNonBlank(CellTexts(ts[..t])), KeepNonBlank(RowTexts(ts[t].rows)),
        KeepNonBlank(CellTexts(ts[..t + 1])));
      t := t + 1;
    }
    assert ts[..t] == ts;
    assert allText == head + KeepNonBlank(CellTexts(doc.tables));
  }

  lemma RowStep(rows: seq<Row>, i: nat)
    requires i < |rows|
    ensures KeepNonBlank(RowTexts(rows[..i + 1]))
         == KeepNonBlank(RowTexts(rows[..i])) + KeepNonBlank(rows[i].cells)
  {
    assert rows[..i + 1] == rows[..i] + [rows[i]];
    RowTextsSnoc(rows[..i], rows[i]);
    KeepNonBlankAppend(RowTexts(rows[..i]), rows[i].cells);
  }

  lemma TableStep(ts: seq<Table>, t: nat)
    requires t < |ts|
    ensures KeepNonBlank(CellTexts(ts[..t + 1]))
         == KeepNonBlank(CellTexts(ts[..t])) + KeepNonBlank(RowTexts(ts[t].rows))
  {
    assert ts[..t + 1] == ts[..t] + [ts[t]];
    CellTextsSnoc(ts[..t], ts[t]);
    KeepNonBlankAppend(CellTexts(ts[..t]), RowTexts(ts[t].rows));
  }

  // Words of the joined items

  /** The words of every text in `xs`, text by text. */
  function WordsOfAll(xs: seq<string>): seq<string>
  {
    if xs == [] then [] else Words(xs[0]) + WordsOfAll(xs[1..])
  }

  lemma {:induction false} WordsOfAllAppend(a: seq<string>, b: seq<string>)
    ensures WordsOfAll(a + b) == WordsOfAll(a) + WordsOfAll(b)
    decreases |a|
  {
    if a == [] {
      assert a + b == b;
    } else {
      assert (a + b)[1..] == a[1..] + b;
      WordsOfAllAppend(a[1..], b);
    }
  }

  lemma BlankHasNoWords(x: string)
    ensures Blank(x) <==> Words(x) == []
  {
    StripEmptyIff(x);
    WordsEmptyIff(x);
  }

  /** Dropping blank texts loses no word. */
  lemma {:induction false} KeepNonBlankWords(xs: seq<string>)
    ensures WordsOfAll(KeepNonBlank(xs)) == WordsOfAll(xs)
    decreases |xs|
  {
    if xs != [] {
      KeepNonBlankWords(xs[1..]);
      BlankHasNoWords(xs[0]);
    }
  }

  /** A newline between two texts separates their words and adds none. */
  lemma {:induction false} WordsOfNewlineJoin(xs: seq<string>)
    ensures Words(Join("\n", xs)) == WordsOfAll(xs)
    decreases |xs|
  {
    if xs == [] {
    } else if |xs| == 1 {
      assert WordsOfAll(xs) == Words(xs[0]) + WordsOfAll([]);
    } else {
      WordsOfNewlineJoin(xs[1..]);
      assert xs[0] + "\n" + Join("\n", xs[1..]) == xs[0] + ['\n'] + Join("\n", xs[1..]);
      WordsAppendSep(xs[0], '\n', Join("\n", xs[1..]));
    }
  }

  /** The text of a Word document is exactly the words of all its paragraph and
      cell texts, paragraphs first and then cells in table, row and cell order,
      separated by single spaces. Blank texts therefore make no difference to
      it. */
  lemma ExtractTextIsWords(doc: Document)
    ensures ExtractText(doc) == Join(" ", WordsOfAll(AllTexts(doc)))
  {
    var items := Items(doc);
    NormalizeIsJoinedWords(Join("\n", items));
    WordsOfNewlineJoin(items);
    WordsOfAllAppend(KeepNonBlank(doc.paragraphs), KeepNonBlank(CellTexts(doc.tables)));
    KeepNonBlankWords(doc.paragraphs);
    KeepNonBlankWords(CellTexts(doc.tables));
    WordsOfAllAppend(doc.paragraphs, CellTexts(doc.tables));
  }

  lemma WordsOfAllSkipsBlank(a: seq<string>, x: string, b: seq<string>)
    requires Blank(x)
    ensures WordsOfAll(a + [x] + b) == WordsOfAll(a + b)
  {
    BlankHasNoWords(x);
    WordsOfAllAppend(a + [x], b);
    WordsOfAllAppend(a, [x]);
    WordsOfAllAppend(a, b);
    assert WordsOfAll([x]) == Words(x) + WordsOfAll([]);
  }

  /** Inserting a blank paragraph anywhere does not change the text. */
  lemma BlankParagraphIgnored(ps1: seq<string>, x: string, ps2: seq<string>, tables: seq<Table>)
    requires Blank(x)
    ensures ExtractText(Document(ps1 + [x] + ps2, tables)) == ExtractText(Document(ps1 + ps2, tables))
  {
    var cs := CellTexts(tables);
    ExtractTextIsWords(Document(ps1 + [x] + ps2, tables));
    ExtractTextIsWords(Document(ps1 + ps2, tables));
    WordsOfAllSkipsBlank(ps1, x, ps2);
    WordsOfAllAppend(ps1 + [x] + ps2, cs);
    WordsOfAllAppend(ps1 + ps2, cs);
  }

  lemma WordsOfHelloWorld()
    ensures WordsOfAll(["Hello", "", "World"]) == ["Hello", "World"]
  {
    WordsOfWord("Hello");
    WordsOfWord("World");
    WordsEmptyIff("");
    var ps := ["Hello", "", "World"];
    assert ps[1..] == ["", "World"] && ps[1..][1..] == ["World"];
    assert WordsOfAll(["World"]) == ["World"] + WordsOfAll([]);
    assert WordsOfAll(["", "World"]) == [] + WordsOfAll(["World"]);
  }

  lemma JoinHelloWorld()
    ensures Join(" ", ["Hello", "World"]) == "Hello World"
  {
    assert ["Hello", "World"][1..] == ["World"];
    assert Join(" ", ["Hello", "World"]) == "Hello" + " " + "World";
  }

  /** Blank paragraphs vanish and the words of the others are joined by one
      space: `Hello`, an empty paragraph and `World` give `Hello World`. */
  lemma HelloWorldExample()
    ensures ExtractText(Document(["Hello", "", "World"], [])) == "Hello World"
  {
    var doc := Document(["Hello", "", "World"], []);
    assert AllTexts(doc) == doc.paragraphs;
    WordsOfHelloWorld();
    JoinHelloWorld();
    ExtractTextIsWords(doc);
  }

  // Characters kept

  lemma {:induction false} NonWsOfNewlineJoin(xs: seq<string>)
    ensures NonWs(Join("\n", xs)) == NonWs(Flatten(xs))
    decreases |xs|
  {
    if xs == [] {
    } else if |xs| == 1 {
      assert xs[1..] == [];
      assert Flatten(xs) == xs[0] + Flatten(xs[1..]);
      assert Flatten(xs) == xs[0];
      assert Join("\n", xs) == xs[0];
    } else {
      NonWsOfNewlineJoin(xs[1..]);
      NonWsAppend(xs[0] + "\n", Join("\n", xs[1..]));
      NonWsAppend(xs[0], "\n");
      NonWsAppend(xs[0], Flatten(xs[1..]));
    }
  }

  lemma {:induction false} KeepNonBlankNonWs(xs: seq<string>)
    ensures NonWs(Flatten(KeepNonBlank(xs))) == NonWs(Flatten(xs))
    decreases |xs|
  {
    if xs != [] {
      KeepNonBlankNonWs(xs[1..]);
      NonWsAppend(xs[0], Flatten(xs[1..]));
      if Blank(xs[0]) {
        StripEmptyIff(xs[0]);
      } else {
        NonWsAppend(xs[0], Flatten(KeepNonBlank(xs[1..])));
      }
    }
  }

  /** The non-whitespace characters of the text are exactly those of all the
      paragraph texts followed by those of the cell texts. */
  lemma ExtractTextKeepsNonWs(doc: Document)
    ensures NonWs(ExtractText(doc)) == NonWs(Flatten(AllTexts(doc)))
  {
    var kp := KeepNonBlank(doc.paragraphs);
    var kc := KeepNonBlank(CellTexts(doc.tables));
    NormalizeKeepsNonWs(Join("\n", kp + kc));
    NonWsOfNewlineJoin(kp + kc);
    FlattenAppend(kp, kc);
    NonWsAppend(Flatten(kp), Flatten(kc));
    KeepNonBlankNonWs(doc.paragraphs);
    KeepNonBlankNonWs(CellTexts(doc.tables));
    FlattenAppend(doc.paragraphs, CellTexts(doc.tables));
    NonWsAppend(Flatten(doc.paragraphs), Flatten(CellTexts(doc.tables)));
  }

  lemma BlankNoNonWs(x: string)
    ensures Blank(x) <==> NonWs(x) == []
  {
  }

  lemma {:induction false} NonWsFlattenEmpty(xs: seq<string>)
    ensures NonWs(Flatten(xs)) == [] <==> forall i :: 0 <= i < |xs| ==> Blank(xs[i])
    decreases |xs|
  {
    if xs != [] {
      var t := xs[1..];
      NonWsFlattenEmpty(t);
      NonWsAppend(xs[0], Flatten(t));
      BlankNoNonWs(xs[0]);
      AllBlankSplit(xs);
    }
  }

  lemma AllBlankSplit(xs: seq<string>)
    requires xs != []
    ensures (forall i :: 0 <= i < |xs| ==> Blank(xs[i]))
        <==> Blank(xs[0]) && (forall i :: 0 <= i < |xs[1..]| ==> Blank(xs[1..][i]))
  {
    if Blank(xs[0]) && (forall i :: 0 <= i < |xs[1..]| ==> Blank(xs[1..][i])) {
      forall i | 0 <= i < |xs| ensures Blank(xs[i]) {
        if i > 0 { assert xs[i] == xs[1..][i - 1]; }
      }
    }
  }

  /** The text is empty exactly when every paragraph and cell text is blank. */
  lemma ExtractTextEmptyIff(doc: Document)
    ensures ExtractText(doc) == [] <==>
      forall i :: 0 <= i < |AllTexts(doc)| ==> Blank(AllTexts(doc)[i])
  {
    ExtractTextKeepsNonWs(doc);
    NonWsFlattenEmpty(AllTexts(doc));
  }
}
