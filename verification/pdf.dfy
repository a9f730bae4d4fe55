/** The text returned for a PDF file: the page texts joined by single spaces,
    a fixed separator line, then every hyperlink entry on a line of its own.
    Page texts and entries are given; the PDF reader is not modelled. */
module PdfText {
  import opened Text

  /** The line that introduces the hyperlink list. */
  const Separator := "\n here are hyperlinks with anchors if they exist:-\n"

  /** Each entry followed by a newline, in order. */
  function Terminated(entries: seq<string>): string
  {
    if entries == [] then [] else entries[0] + "\n" + Terminated(entries[1..])
  }

  /** The PDF response text built from page texts and hyperlink entries. */
  function Response(pageTexts: seq<string>, entries: seq<string>): string
  {
    Join(" ", pageTexts) + Separator + Terminated(entries)
  }

  lemma {:induction false} TerminatedSnoc(entries: seq<string>, e: string)
    ensures Terminated(entries + [e]) == Terminated(entries) + e + "\n"
    decreases |entries|
  {
    if entries == [] {
      assert Terminated([e]) == e + "\n" + Terminated([]);
    } else {
      assert (entries + [e])[1..] == entries[1..] + [e];
      TerminatedSnoc(entries[1..], e);
    }
  }

  /** The handler's `text += i + "\n"` loop, started from the joined page
      texts and the separator. */
  method AssembleResponse(pageTexts: seq<string>, hyperlinks: seq<string>) returns (text: string)
    ensures text == Response(pageTexts, hyperlinks)
  {
    text := Join(" ", pageTexts);
    text := text + Separator;
    var i := 0;
    while i < |hyperlinks|
      invariant 0 <= i <= |hyperlinks|
      invariant text == Join(" ", pageTexts) + Separator + Terminated(hyperlinks[..i])
    {
      assert hyperlinks[..i + 1] == hyperlinks[..i] + [hyperlinks[i]];
      TerminatedSnoc(hyperlinks[..i], hyperlinks[i]);
      text := text + (hyperlinks[i] + "\n");
      i := i + 1;
    }
    assert hyperlinks[..i] == hyperlinks;
  }

  // Reading the response back

  /** The index of the first newline of `s`, or `|s|` when there is none. */
  function FirstNewline(s: string): (k: nat)
    ensures k <= |s|
    ensures forall i :: 0 <= i < k ==> s[i] != '\n'
    ensures k < |s| ==> s[k] == '\n'
  {
    if s == [] || s[0] == '\n' then 0 else 1 + FirstNewline(s[1..])
  }

  /** The lines of `s`: the pieces between newlines, with no empty piece after
      a final newline. */
  function Lines(s: string): seq<string>
    decreases |s|
  {
    if s == [] then []
    else
      var k := FirstNewline(s);
      if k == |s| then [s] else [s[..k]] + Lines(s[k + 1..])
  }

  lemma LinesCons(e: string, rest: string)
    requires '\n' !in e
    ensures Lines(e + "\n" + rest) == [e] + Lines(rest)
  {
    var s := e + "\n" + rest;
    var k := FirstNewline(s);
    assert s[|e|] == '\n';
    assert forall i :: 0 <= i < |e| ==> s[i] == e[i];
    assert k == |e|;
    assert s[..k] == e;
    assert s[k + 1..] == rest;
  }

  /** When no entry contains a newline, the lines after the separator are
      exactly the entries, in order. */
  lemma {:induction false} TerminatedReadBack(entries: seq<string>)
    requires forall k :: 0 <= k < |entries| ==> '\n' !in entries[k]
    ensures Lines(Terminated(entries)) == entries
    decreases |entries|
  {
    if entries != [] {
      TerminatedReadBack(entries[1..]);
      LinesCons(entries[0], Terminated(entries[1..]));
    }
  }

  /** The response splits into the joined page texts, the separator, and the
      terminated entries; with no hyperlinks the separator still ends it. */
  lemma ResponseParts(pageTexts: seq<string>, entries: seq<string>)
    ensures var r := Response(pageTexts, entries);
      var n := |Join(" ", pageTexts)|;
      n + |Separator| <= |r|
      && r[..n] == Join(" ", pageTexts)
      && r[n..n + |Separator|] == Separator
      && r[n + |Separator|..] == Terminated(entries)
    ensures entries == [] ==> Response(pageTexts, entries) == Join(" ", pageTexts) + Separator
  {
  }

  /** The entries can be read back from the response when none contains a
      newline. */
  lemma ResponseReadBack(pageTexts: seq<string>, entries: seq<string>)
    requires forall k :: 0 <= k < |entries| ==> '\n' !in entries[k]
    ensures Lines(Response(pageTexts, entries)[|Join(" ", pageTexts)| + |Separator|..]) == entries
  {
    ResponseParts(pageTexts, entries);
    TerminatedReadBack(entries);
  }
}
