/** Hyperlink listing for PDF files: every link that carries a URI becomes one
    entry `(anchor)[uri]`, where the anchor is the stripped text inside the
    link's rectangle, or `Unknown Text` when that text is blank. The PDF reader
    is not modelled; a page is the list of links it reports, each with the
    text it would find inside the link's rectangle. */
module Hyperlinks {
  import opened Text

  /** One link of a page: its `"uri"` entry, if it has one, and the raw text of
      the page inside the link's rectangle. */
  datatype Link = Link(uri: Option<string>, anchor: string)

  /** The caption written when a link's anchor text is blank. */
  const Placeholder := "Unknown Text"

  /** The caption of an entry: the stripped anchor, or the placeholder. */
  function Label(anchor: string): string
  {
    var a := Strip(anchor);
    if a != [] then a else Placeholder
  }

  /** A caption is never empty and never starts or ends with whitespace. It is
      the placeholder for a blank anchor, and otherwise it has the anchor's
      non-whitespace characters. An anchor reading `Unknown Text` also gives
      the placeholder (see `BlankAnchorLooksLikePlaceholder`). */
  lemma LabelShape(anchor: string)
    ensures Label(anchor) != []
    ensures !IsWs(Label(anchor)[0]) && !IsWs(Label(anchor)[|Label(anchor)| - 1])
    ensures AllWs(anchor) ==> Label(anchor) == Placeholder
    ensures !AllWs(anchor) ==> NonWs(Label(anchor)) == NonWs(anchor)
  {
    StripEmptyIff(anchor);
    if Strip(anchor) == [] {
      LabelOfBlank(anchor);
    } else {
      LabelOfText(anchor);
    }
  }

  lemma LabelOfBlank(anchor: string)
    requires Strip(anchor) == []
    ensures Label(anchor) == Placeholder
    ensures !IsWs(Label(anchor)[0]) && !IsWs(Label(anchor)[|Label(anchor)| - 1])
  {
  }

  lemma LabelOfText(anchor: string)
    requires Strip(anchor) != []
    ensures Label(anchor) == Strip(anchor)
    ensures !IsWs(Label(anchor)[0]) && !IsWs(Label(anchor)[|Label(anchor)| - 1])
    ensures NonWs(Label(anchor)) == NonWs(anchor)
  {
  }

  /** The formatted entry for a link with URI `uri`. */
  function Entry(uri: string, anchor: string): string
  {
    "(" + Label(anchor) + ")[" + uri + "]"
  }

  /** Any blank anchor and an anchor reading `Unknown Text` give the same
      entry, so an entry does not tell whether its anchor was blank. */
  lemma BlankAnchorLooksLikePlaceholder(uri: string, anchor: string)
    requires AllWs(anchor)
    ensures Entry(uri, anchor) == Entry(uri, Placeholder)
  {
    LabelShape(anchor);
    StripUnique("", Placeholder, "");
    assert "" + Placeholder + "" == Placeholder;
  }

  /** The characters `)[` start at index `i` of `s`. */
  predicate SepAt(s: string, i: int)
  {
    0 <= i && i + 1 < |s| && s[i] == ')' && s[i + 1] == '['
  }

  predicate NoSep(s: string)
  {
    forall i :: 0 <= i < |s| ==> !SepAt(s, i)
  }

  /** The last index at which `)[` occurs in `s`, if any. */
  function LastSep(s: string): (r: Option<nat>)
    ensures r.Some? ==> SepAt(s, r.value) && forall j :: r.value < j ==> !SepAt(s, j)
    ensures r.None? ==> NoSep(s)
  {
    if |s| < 2 then None
    else if s[|s| - 2] == ')' && s[|s| - 1] == '[' then Some(|s| - 2)
    else
      var r := LastSep(s[..|s| - 1]);
      assert forall j :: SepAt(s, j) && j != |s| - 2 ==> SepAt(s[..|s| - 1], j);
      r
  }

  datatype Parsed = Parsed(caption: string, uri: string)

  /** Reads an entry back: the text between `(` and the last `)[` is the caption,
      the rest up to the closing `]` is the URI. */
  function ParseEntry(e: string): (r: Option<Parsed>)
    ensures r.Some? ==> e == "(" + r.value.caption + ")[" + r.value.uri + "]"
  {
    if |e| >= 2 && e[0] == '(' && e[|e| - 1] == ']' then
      var m := e[1..|e| - 1];
      match LastSep(m)
      case None => None
      case Some(k) =>
        assert m == m[..k] + ")[" + m[k + 2..];
        Some(Parsed(m[..k], m[k + 2..]))
    else None
  }

  /** In `caption + ")[" + uri` with no `)[` inside `uri`, the last `)[` is the
      one after the caption. */
  lemma LastSepAfterLabel(caption: string, uri: string)
    requires NoSep(uri)
    ensures LastSep(caption + ")[" + uri) == Some(|caption|)
  {
    var m := caption + ")[" + uri;
    var n := |caption|;
    assert SepAt(m, n);
    forall j | n < j
      ensures !SepAt(m, j)
    {
      if j >= n + 2 && j + 1 < |m| {
        assert m[j] == uri[j - n - 2] && m[j + 1] == uri[j - n - 1];
        assert !SepAt(uri, j - n - 2);
      }
    }
  }

  lemma ParseFramed(caption: string, uri: string)
    requires NoSep(uri)
    ensures ParseEntry("(" + caption + ")[" + uri + "]") == Some(Parsed(caption, uri))
  {
    var m := caption + ")[" + uri;
    var e := "(" + caption + ")[" + uri + "]";
    assert e == "(" + m + "]";
    assert e[1..|e| - 1] == m;
    LastSepAfterLabel(caption, uri);
    assert m[..|caption|] == caption;
    assert m[|caption| + 2..] == uri;
  }

  /** An entry whose URI does not contain `)[` reads back as its caption and
      URI. */
  lemma ParseEntryRoundTrip(uri: string, anchor: string)
    requires NoSep(uri)
    ensures ParseEntry(Entry(uri, anchor)) == Some(Parsed(Label(anchor), uri))
  {
    ParseFramed(Label(anchor), uri);
  }

  /** What one link adds to the list: its entry when it has a URI, nothing
      otherwise. */
  function LinkEntries(l: Link): seq<string>
  {
    match l.uri
    case None => []
    case Some(u) => [Entry(u, l.anchor)]
  }

  /** The entries of a list of links, one per link that has a URI. */
  function Entries(links: seq<Link>): seq<string>
  {
    if links == [] then [] else LinkEntries(links[0]) + Entries(links[1..])
  }

  /** The links that have a URI, in order. */
  function WithUri(links: seq<Link>): (r: seq<Link>)
    ensures forall k :: 0 <= k < |r| ==> r[k].uri.Some?
  {
    if links == [] then []
    else if links[0].uri.Some? then [links[0]] + WithUri(links[1..])
    else WithUri(links[1..])
  }

  /** The hyperlink list of a document given page by page. */
  function HyperlinksOf(pages: seq<seq<Link>>): seq<string>
  {
    Entries(Flatten(pages))
  }

  lemma {:induction false} EntriesAppend(a: seq<Link>, b: seq<Link>)
    ensures Entries(a + b) == Entries(a) + Entries(b)
    decreases |a|
  {
    if a == [] {
      assert a + b == b;
    } else {
      assert (a + b)[1..] == a[1..] + b;
      EntriesAppend(a[1..], b);
    }
  }

  /** `entries` lists, position by position, the entries of the links in
      `withUri`. */
  predicate EntriesFor(entries: seq<string>, withUri: seq<Link>)
  {
    && |entries| == |withUri|
    && forall k :: 0 <= k < |withUri| && withUri[k].uri.Some? ==>
         entries[k] == Entry(withUri[k].uri.value, withUri[k].anchor)
  }

  /** Prepending one link with a URI and its entry keeps the lists aligned;
      used by `EntriesIndexed` to step past the head link. */
  lemma EntriesForCons(u: string, anchor: string, entries: seq<string>, withUri: seq<Link>)
    requires EntriesFor(entries, withUri)
    ensures EntriesFor([Entry(u, anchor)] + entries, [Link(Some(u), anchor)] + withUri)
  {
  }

  /** The k-th entry is formatted from the k-th link that has a URI, and there
      is one entry per such link. */
  lemma {:induction false} EntriesIndexed(links: seq<Link>)
    ensures EntriesFor(Entries(links), WithUri(links))
    decreases |links|
  {
    if links != [] {
      var rest := links[1..];
      EntriesIndexed(rest);
      var l := links[0];
      match l.uri
      case Some(u) =>
        assert Entries(links) == [Entry(u, l.anchor)] + Entries(rest);
        assert WithUri(links) == [Link(Some(u), l.anchor)] + WithUri(rest);
        EntriesForCons(u, l.anchor, Entries(rest), WithUri(rest));
      case None =>
        assert Entries(links) == Entries(rest);
    }
  }

  /** Reading back the hyperlink list recovers, for every link with a URI in
      page order then link order, its caption and its URI. */
  lemma HyperlinksReadBack(pages: seq<seq<Link>>)
    requires forall k :: 0 <= k < |WithUri(Flatten(pages))| ==> NoSep(WithUri(Flatten(pages))[k].uri.value)
    ensures |HyperlinksOf(pages)| == |WithUri(Flatten(pages))|
    ensures forall k :: 0 <= k < |HyperlinksOf(pages)| ==>
      ParseEntry(HyperlinksOf(pages)[k])
        == Some(Parsed(Label(WithUri(Flatten(pages))[k].anchor), WithUri(Flatten(pages))[k].uri.value))
  {
    var w := WithUri(Flatten(pages));
    EntriesIndexed(Flatten(pages));
    forall k | 0 <= k < |w|
      ensures ParseEntry(HyperlinksOf(pages)[k]) == Some(Parsed(Label(w[k].anchor), w[k].uri.value))
    {
      ParseEntryRoundTrip(w[k].uri.value, w[k].anchor);
    }
  }

  /** A link without a URI adds no entry wherever it stands. */
  lemma LinkWithoutUriSkipped(a: seq<Link>, anchor: string, b: seq<Link>)
    ensures Entries(a + [Link(None, anchor)] + b) == Entries(a + b)
  {
    var x := Link(None, anchor);
    assert Entries([x]) == LinkEntries(x) + Entries([]);
    EntriesAppend(a, [x]);
    assert Entries(a + [x]) == Entries(a);
    EntriesAppend(a + [x], b);
    EntriesAppend(a, b);
  }

  lemma HyperlinkStep(done: seq<Link>, links: seq<Link>, j: nat)
    requires j < |links|
    ensures Entries(done + links[..j + 1]) == Entries(done + links[..j]) + LinkEntries(links[j])
  {
    assert done + links[..j + 1] == (done + links[..j]) + [links[j]];
    EntriesAppend(done + links[..j], [links[j]]);
    assert Entries([links[j]]) == LinkEntries(links[j]) + Entries([]);
  }

  lemma PageStep(pages: seq<seq<Link>>, p: nat)
    requires p < |pages|
    ensures Flatten(pages[..p + 1]) == Flatten(pages[..p]) + pages[p][..|pages[p]|]
  {
    assert pages[p][..|pages[p]|] == pages[p];
    assert pages[..p + 1] == pages[..p] + [pages[p]];
    FlattenSnoc(pages[..p], pages[p]);
  }

  /** The extractor's loops over pages and their links. */
  method ExtractHyperlinks(pages: seq<seq<Link>>) returns (hyperlinks: seq<string>)
    ensures hyperlinks == HyperlinksOf(pages)
  {
    hyperlinks := [];
    var p := 0;
    while p < |pages|
      invariant 0 <= p <= |pages|
      invariant hyperlinks == Entries(Flatten(pages[..p]))
    {
      var links := pages[p];
      var j := 0;
      assert Flatten(pages[..p]) + links[..j] == Flatten(pages[..p]);
      while j < |links|
        invariant 0 <= j <= |links|
        invariant hyperlinks == Entries(Flatten(pages[..p]) + links[..j])
      {
        HyperlinkStep(Flatten(pages[..p]), links, j);
        var link := links[j];
        if link.uri.Some? {
          hyperlinks := hyperlinks + [Entry(link.uri.value, link.anchor)];
        }
        j := j + 1;
      }
      PageStep(pages, p);
      p := p + 1;
    }
    assert pages[..p] == pages;
  }
}
