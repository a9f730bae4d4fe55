/** The DOCX normaliser `re.sub(r"\s+", " ", text).strip()` and its
    characterisation: the result is the text's words joined by single spaces. */
module Whitespace {
  import opened Text

  /** `re.sub(r"\s+", " ", s)`: every maximal whitespace run becomes one space;
      every other character is copied. */
  function Collapse(s: string): string
    decreases |s|
  {
    if s == [] then []
    else if IsWs(s[0]) then " " + Collapse(TrimLeft(s))
    else [s[0]] + Collapse(s[1..])
  }

  /** Collapsing changes whitespace only. */
  lemma {:induction false} CollapseKeepsNonWs(s: string)
    ensures NonWs(Collapse(s)) == NonWs(s)
    decreases |s|
  {
    if s == [] {
    } else if IsWs(s[0]) {
      var t := TrimLeft(s);
      TrimLeftKeepsNonWs(s);
      CollapseKeepsNonWs(t);
      NonWsAppend(" ", Collapse(t));
    } else {
      CollapseKeepsNonWs(s[1..]);
      NonWsAppend([s[0]], Collapse(s[1..]));
    }
  }

  /** The text normaliser applied to the joined DOCX items. */
  function Normalize(s: string): string
  {
    Strip(Collapse(s))
  }

  /** A non-empty run of non-whitespace characters. */
  predicate IsWord(w: string)
  {
    w != [] && forall i :: 0 <= i < |w| ==> !IsWs(w[i])
  }

  /** The longest whitespace-free prefix of `s`. */
  function TakeWord(s: string): (w: string)
    ensures |w| <= |s|
    ensures forall i :: 0 <= i < |w| ==> !IsWs(w[i])
    ensures s != [] && !IsWs(s[0]) ==> |w| > 0
  {
    if s == [] || IsWs(s[0]) then [] else [s[0]] + TakeWord(s[1..])
  }

  /** `TakeWord` stops at the first whitespace character. */
  lemma {:induction false} TakeWordPrefix(s: string)
    ensures s == TakeWord(s) + s[|TakeWord(s)|..]
    ensures |TakeWord(s)| == |s| || IsWs(s[|TakeWord(s)|])
  {
    if s != [] && !IsWs(s[0]) {
      TakeWordPrefix(s[1..]);
    }
  }

  /** The maximal whitespace-free runs of `s`, in order (Python's `s.split()`). */
  function Words(s: string): (ws: seq<string>)
    ensures forall k :: 0 <= k < |ws| ==> IsWord(ws[k])
    decreases |s|
  {
    var t := TrimLeft(s);
    if t == [] then []
    else
      var w := TakeWord(t);
      [w] + Words(t[|w|..])
  }

  /** The shape of a normalised text: no whitespace at either end, every
      whitespace character a plain space, and no two whitespace characters
      next to each other. */
  predicate Canonical(r: string)
  {
    && (r == [] || (!IsWs(r[0]) && !IsWs(r[|r| - 1])))
    && (forall i :: 0 <= i < |r| && IsWs(r[i]) ==> r[i] == ' ')
    && (forall i :: 0 <= i < |r| - 1 && IsWs(r[i]) ==> !IsWs(r[i + 1]))
  }

  predicate AllWords(ws: seq<string>)
  {
    forall k :: 0 <= k < |ws| ==> IsWord(ws[k])
  }

  // ---------------------------------------------------------------------------
  // Unfolding facts about Words and Collapse

  lemma WordsSkipWs(s: string)
    requires s != [] && IsWs(s[0])
    ensures Words(s) == Words(s[1..])
  {
    assert TrimLeft(s) == TrimLeft(s[1..]);
  }

  lemma WordsOfTrimmed(s: string)
    ensures Words(s) == Words(TrimLeft(s))
  {
    var t := TrimLeft(s);
    TrimLeftUnique([], t);
    assert [] + t == t;
  }

  lemma WordsAtWord(s: string)
    requires s != [] && !IsWs(s[0])
    ensures Words(s) == [TakeWord(s)] + Words(s[|TakeWord(s)|..])
  {
  }

  lemma {:induction false} TakeWordOfWord(w: string)
    requires forall i :: 0 <= i < |w| ==> !IsWs(w[i])
    ensures TakeWord(w) == w
  {
    if w != [] {
      TakeWordOfWord(w[1..]);
    }
  }

  /** A single word splits into itself. */
  lemma WordsOfWord(w: string)
    requires IsWord(w)
    ensures Words(w) == [w]
  {
    TakeWordOfWord(w);
    WordsAtWord(w);
    assert w[|w|..] == [];
  }

  lemma {:induction false} TakeWordAppend(a: string, rest: string)
    requires |TakeWord(a)| < |a| || rest == [] || IsWs(rest[0])
    ensures TakeWord(a + rest) == TakeWord(a)
    decreases |a|
  {
    if a == [] {
      assert a + rest == rest;
    } else if !IsWs(a[0]) {
      assert (a + rest)[1..] == a[1..] + rest;
      TakeWordAppend(a[1..], rest);
    }
  }

  lemma {:induction false} CollapseWordPrefix(p: string, q: string)
    requires forall i :: 0 <= i < |p| ==> !IsWs(p[i])
    ensures Collapse(p + q) == p + Collapse(q)
    decreases |p|
  {
    if p == [] {
      assert p + q == q;
    } else {
      assert (p + q)[1..] == p[1..] + q;
      CollapseWordPrefix(p[1..], q);
    }
  }

  function Lead(s: string): string
  {
    if s != [] && IsWs(s[0]) then " " else ""
  }

  function Trail(s: string): string
  {
    if TrimLeft(s) != [] && IsWs(s[|s| - 1]) then " " else ""
  }

  lemma JoinCons(w: string, ws: seq<string>)
    ensures Join(" ", [w] + ws) == if ws == [] then w else w + " " + Join(" ", ws)
  {
    assert ([w] + ws)[1..] == ws;
  }

  /** A text has no words exactly when it is all whitespace. */
  lemma WordsEmptyIff(s: string)
    ensures Words(s) == [] <==> AllWs(s)
  {
    var t := TrimLeft(s);
    TrimLeftSplit(s);
  }

  lemma TrailOfTrimmed(s: string)
    requires s != [] && IsWs(s[0])
    ensures Trail(TrimLeft(s)) == Trail(s)
  {
    var t := TrimLeft(s);
    TrimLeftUnique([], t);
    assert [] + t == t;
    if t != [] {
      TrimLeftLast(s);
    }
  }

  lemma CollapseShapeAtWs(s: string)
    requires s != [] && IsWs(s[0])
    requires Collapse(TrimLeft(s)) == Lead(TrimLeft(s)) + Join(" ", Words(TrimLeft(s))) + Trail(TrimLeft(s))
    ensures Collapse(s) == Lead(s) + Join(" ", Words(s)) + Trail(s)
  {
    var t := TrimLeft(s);
    var j := Join(" ", Words(s));
    assert Collapse(t) == j + Trail(t) by {
      WordsOfTrimmed(s);
      assert Lead(t) == "";
    }
    TrailOfTrimmed(s);
    assert Collapse(s) == " " + Collapse(t);
  }

  lemma CollapseAtWord(s: string)
    ensures Collapse(s) == TakeWord(s) + Collapse(s[|TakeWord(s)|..])
  {
    TakeWordPrefix(s);
    CollapseWordPrefix(TakeWord(s), s[|TakeWord(s)|..]);
  }

  /** After a word comes either nothing or whitespace, and the text ends where
      that remainder ends. */
  lemma AfterWord(s: string)
    requires s != [] && !IsWs(s[0])
    ensures var rest := s[|TakeWord(s)|..];
      && (rest == [] ==> !IsWs(s[|s| - 1]))
      && (rest != [] ==> IsWs(rest[0]) && s[|s| - 1] == rest[|rest| - 1])
  {
    TakeWordPrefix(s);
    var w := TakeWord(s);
    if s[|w|..] == [] {
      assert s[|s| - 1] == w[|w| - 1];
    }
  }

  /** How the leading and trailing spaces of the text after a word relate to
      those of the whole text. */
  lemma EdgesAtWord(s: string)
    requires s != [] && !IsWs(s[0])
    ensures var rest := s[|TakeWord(s)|..];
      && Lead(s) == ""
      && (rest == [] ==> Lead(rest) == "" && Words(rest) == [] && Trail(rest) == "" && Trail(s) == "")
      && (rest != [] ==> Lead(rest) == " ")
      && (rest != [] && Words(rest) == [] ==> Trail(rest) == "" && Trail(s) == " ")
      && (rest != [] && Words(rest) != [] ==> Trail(s) == Trail(rest))
  {
    var rest := s[|TakeWord(s)|..];
    AfterWord(s);
    assert TrimLeft(s) == s;
    if rest != [] && Words(rest) == [] {
      WordsEmptyIff(rest);
      assert IsWs(rest[|rest| - 1]);
    }
  }

  /** The string algebra closing the word case of `CollapseShape`. */
  lemma AssembleAtWord(w: string, wr: seq<string>, lr: string, tr: string, ts: string, cr: string, restEmpty: bool)
    requires cr == lr + Join(" ", wr) + tr
    requires restEmpty ==> lr == "" && wr == [] && tr == "" && ts == ""
    requires !restEmpty ==> lr == " "
    requires !restEmpty && wr == [] ==> tr == "" && ts == " "
    requires !restEmpty && wr != [] ==> ts == tr
    ensures w + cr == "" + Join(" ", [w] + wr) + ts
  {
    JoinCons(w, wr);
  }

  lemma CollapseShapeAtWord(s: string)
    requires s != [] && !IsWs(s[0])
    requires var rest := s[|TakeWord(s)|..];
      Collapse(rest) == Lead(rest) + Join(" ", Words(rest)) + Trail(rest)
    ensures Collapse(s) == Lead(s) + Join(" ", Words(s)) + Trail(s)
  {
    var w := TakeWord(s);
    var rest := s[|w|..];
    CollapseAtWord(s);
    WordsAtWord(s);
    EdgesAtWord(s);
    AssembleAtWord(w, Words(rest), Lead(rest), Trail(rest), Trail(s), Collapse(rest), rest == []);
  }

  /** `Collapse` keeps one space for a leading and for a trailing whitespace
      run and otherwise produces the words joined by single spaces. */
  lemma {:induction false} CollapseShape(s: string)
    ensures Collapse(s) == Lead(s) + Join(" ", Words(s)) + Trail(s)
    decreases |s|
  {
    if s == [] {
    } else if IsWs(s[0]) {
      CollapseShape(TrimLeft(s));
      CollapseShapeAtWs(s);
    } else {
      CollapseShape(s[|TakeWord(s)|..]);
      CollapseShapeAtWord(s);
    }
  }

  /** Joining words with single spaces yields a canonical text that starts with
      the first word and ends with the last. */
  lemma {:induction false} JoinWordsCanonical(ws: seq<string>)
    requires AllWords(ws)
    ensures Canonical(Join(" ", ws))
    ensures ws != [] ==> |Join(" ", ws)| >= |ws[0]| && Join(" ", ws)[0] == ws[0][0]
    ensures ws != [] ==> Join(" ", ws)[|Join(" ", ws)| - 1] == ws[|ws| - 1][|ws[|ws| - 1]| - 1]
  {
    if ws == [] {
    } else if |ws| == 1 {
      assert Join(" ", ws) == ws[0];
    } else {
      var w := ws[0];
      var rest := ws[1..];
      assert ws == [w] + rest;
      JoinCons(w, rest);
      JoinWordsCanonical(rest);
      var j := Join(" ", rest);
      var r := w + " " + j;
      assert r == Join(" ", ws);
      forall i | 0 <= i < |r| && IsWs(r[i])
        ensures r[i] == ' '
      {
        if i > |w| { assert r[i] == j[i - |w| - 1]; }
      }
      forall i | 0 <= i < |r| - 1 && IsWs(r[i])
        ensures !IsWs(r[i + 1])
      {
        if i > |w| {
          assert r[i] == j[i - |w| - 1];
          assert r[i + 1] == j[i - |w|];
        }
      }
      assert r[|r| - 1] == j[|j| - 1];
    }
  }

  /** The normaliser is the words of its input joined by single spaces. */
  lemma NormalizeIsJoinedWords(s: string)
    ensures Normalize(s) == Join(" ", Words(s))
  {
    CollapseShape(s);
    JoinWordsCanonical(Words(s));
    StripUnique(Lead(s), Join(" ", Words(s)), Trail(s));
  }

  /** Every normalised text is canonical. */
  lemma NormalizeCanonical(s: string)
    ensures Canonical(Normalize(s))
  {
    NormalizeIsJoinedWords(s);
    JoinWordsCanonical(Words(s));
  }

  lemma WordsAppendSepEmpty(c: char, b: string)
    requires IsWs(c)
    ensures Words([] + [c] + b) == Words([]) + Words(b)
  {
    var s := [c] + b;
    WordsSkipWs(s);
    assert s[1..] == b;
    assert [] + [c] + b == s;
  }

  /** Indexing into `a + [c] + b` below `|a|` reads `a`; stated once so the
      word-splitting steps need not re-derive it from the concatenation. */
  lemma DropHead(a: string, c: char, b: string)
    requires a != []
    ensures (a + [c] + b)[0] == a[0]
    ensures (a + [c] + b)[1..] == a[1..] + [c] + b
  {
  }

  /** Cutting `a + [c] + b` inside `a` cuts `a`; used to step past the first
      word of `a`. */
  lemma DropWord(a: string, c: char, b: string, k: nat)
    requires k <= |a|
    ensures (a + [c] + b)[..k] == a[..k]
    ensures (a + [c] + b)[k..] == a[k..] + [c] + b
  {
  }

  lemma WordsAppendSepAtWs(a: string, c: char, b: string)
    requires a != [] && IsWs(a[0])
    requires Words(a[1..] + [c] + b) == Words(a[1..]) + Words(b)
    ensures Words(a + [c] + b) == Words(a) + Words(b)
  {
    DropHead(a, c, b);
    WordsSkipWs(a + [c] + b);
    WordsSkipWs(a);
  }

  lemma TakeWordBeforeSep(a: string, c: char, b: string)
    requires IsWs(c)
    ensures TakeWord(a + [c] + b) == TakeWord(a)
  {
    assert a + [c] + b == a + ([c] + b);
    TakeWordAppend(a, [c] + b);
  }

  lemma WordsAtWordBeforeSep(a: string, c: char, b: string)
    requires a != [] && !IsWs(a[0]) && IsWs(c)
    ensures Words(a + [c] + b) == [TakeWord(a)] + Words(a[|TakeWord(a)|..] + [c] + b)
  {
    DropHead(a, c, b);
    DropWord(a, c, b, |TakeWord(a)|);
    TakeWordBeforeSep(a, c, b);
    WordsAtWord(a + [c] + b);
  }

  /** List associativity on plain variables, so that `WordsAppendSepAtWord`
      can regroup its word lists without unfolding `Words`. */
  lemma ConsAssoc(w: string, x: seq<string>, y: seq<string>, l: seq<string>, m: seq<string>, r: seq<string>)
    requires l == [w] + m && m == x + y && r == [w] + x
    ensures l == r + y
  {
  }

  lemma WordsAppendSepAtWord(a: string, c: char, b: string)
    requires a != [] && !IsWs(a[0]) && IsWs(c)
    requires var a' := a[|TakeWord(a)|..];
      Words(a' + [c] + b) == Words(a') + Words(b)
    ensures Words(a + [c] + b) == Words(a) + Words(b)
  {
    var w := TakeWord(a);
    var a' := a[|w|..];
    WordsAtWordBeforeSep(a, c, b);
    WordsAtWord(a);
    ConsAssoc(w, Words(a'), Words(b), Words(a + [c] + b), Words(a' + [c] + b), Words(a));
  }

  /** Whitespace between two texts separates their words. */
  lemma {:induction false} WordsAppendSep(a: string, c: char, b: string)
    requires IsWs(c)
    ensures Words(a + [c] + b) == Words(a) + Words(b)
    decreases |a|
  {
    if a == [] {
      WordsAppendSepEmpty(c, b);
    } else if IsWs(a[0]) {
      WordsAppendSep(a[1..], c, b);
      WordsAppendSepAtWs(a, c, b);
    } else {
      WordsAppendSep(a[|TakeWord(a)|..], c, b);
      WordsAppendSepAtWord(a, c, b);
    }
  }

  /** Splitting words joined by single spaces gives the words back. */
  lemma {:induction false} WordsOfJoin(ws: seq<string>)
    requires AllWords(ws)
    ensures Words(Join(" ", ws)) == ws
  {
    if ws == [] {
    } else {
      var w := ws[0];
      var rest := ws[1..];
      assert ws == [w] + rest;
      JoinCons(w, rest);
      WordsOfWord(w);
      if rest != [] {
        WordsOfJoin(rest);
        assert w + " " + Join(" ", rest) == w + [' '] + Join(" ", rest);
        WordsAppendSep(w, ' ', Join(" ", rest));
      }
    }
  }

  /** Normalising twice is the same as normalising once. */
  lemma NormalizeIdempotent(s: string)
    ensures Normalize(Normalize(s)) == Normalize(s)
  {
    NormalizeIsJoinedWords(s);
    WordsOfJoin(Words(s));
    NormalizeIsJoinedWords(Normalize(s));
  }

  /** Normalising keeps exactly the non-whitespace characters, in order. */
  lemma NormalizeKeepsNonWs(s: string)
    ensures NonWs(Normalize(s)) == NonWs(s)
  {
    CollapseKeepsNonWs(s);
  }

  /** The normalised text is empty exactly when the input is all whitespace. */
  lemma NormalizeEmptyIff(s: string)
    ensures Normalize(s) == [] <==> AllWs(s)
  {
    NormalizeCanonical(s);
    NormalizeKeepsNonWs(s);
    var r := Normalize(s);
    if r != [] {
      assert NonWs(r) == [r[0]] + NonWs(r[1..]);
    }
  }
}
