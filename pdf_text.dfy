/** The PDF text extractor: reads the text of at most `max_pages` pages of an
    uploaded manuscript, in page order, and concatenates every non-empty page
    text followed by a newline. Any exception, whether opening the document
    or extracting one page, discards what was gathered and yields the empty
    string. The PDF parser is replaced by what it reports per page. */
module PdfText {
  import opened Wrappers
  import opened Text

  /** What `page.extract_text()` gave for one page: its text (a `None` result
      is the empty text, which Python treats the same way) or an exception. */
  datatype PageText = Extracted(text: string) | Failed

  /** An uploaded PDF as the reader sees it: unreadable as a whole, or a
      sequence of pages. */
  datatype Pdf = Unreadable | Pages(pages: seq<PageText>)

  /** The page budget the audit button passes. */
  const DefaultMaxPages := 6

  /** `min(max_pages, len(reader.pages))`, as `range` uses it: a bound of zero
      or less visits no page. */
  function PagesToProcess(pageCount: nat, maxPages: int): (k: nat)
    ensures k <= pageCount
    ensures maxPages <= 0 ==> k == 0
    ensures maxPages > 0 ==> k <= maxPages && (k == pageCount || k == maxPages)
  {
    if maxPages <= 0 then 0 else if maxPages < pageCount then maxPages else pageCount
  }

  /** What one page adds to the text: its text and a newline, or nothing when
      the page has no text. (A failed page never contributes: the whole
      extraction is abandoned then.) */
  function Contribution(p: PageText): string
  {
    match p
    case Failed => ""
    case Extracted(text) => if text == "" then "" else text + "\n"
  }

  predicate NoFailure(ps: seq<PageText>)
  {
    forall i :: 0 <= i < |ps| ==> ps[i].Extracted?
  }

  /** The concatenation of the contributions of the pages, in order. */
  function JoinPages(ps: seq<PageText>): string
  {
    if ps == [] then "" else JoinPages(ps[..|ps| - 1]) + Contribution(ps[|ps| - 1])
  }

  /** The text `extract_pdf_text_fast(doc, max_pages)` returns. */
  function ExtractedText(doc: Pdf, maxPages: int): string
  {
    match doc
    case Unreadable => ""
    case Pages(ps) =>
      var k := PagesToProcess(|ps|, maxPages);
      if NoFailure(ps[..k]) then JoinPages(ps[..k]) else ""
  }

  /** `extract_pdf_text_fast`: visits pages 0, 1, ... in order, appending each
      non-empty page text and a newline; stops at the first page whose
      extraction fails, and then returns the empty string. `visited` lists the
      pages whose text was requested. */
  method ExtractPdfText(doc: Pdf, maxPages: int) returns (text: string, visited: seq<nat>)
    ensures text == ExtractedText(doc, maxPages)
    ensures forall j :: 0 <= j < |visited| ==> visited[j] == j
    ensures doc.Unreadable? ==> visited == []
    ensures doc.Pages? ==> |visited| <= PagesToProcess(|doc.pages|, maxPages)
    ensures doc.Pages? && NoFailure(doc.pages[..PagesToProcess(|doc.pages|, maxPages)])
            ==> |visited| == PagesToProcess(|doc.pages|, maxPages)
    ensures doc.Pages? && !NoFailure(doc.pages[..PagesToProcess(|doc.pages|, maxPages)])
            ==> 0 < |visited| && doc.pages[|visited| - 1].Failed?
                && NoFailure(doc.pages[..|visited| - 1])
  {
    text, visited := "", [];
    if doc.Unreadable? {
      return;
    }
    var ps := doc.pages;
    var k := PagesToProcess(|ps|, maxPages);
    var i := 0;
    while i < k
      invariant 0 <= i <= k && |visited| == i
      invariant forall j :: 0 <= j < i ==> visited[j] == j
      invariant NoFailure(ps[..i])
      invariant text == JoinPages(ps[..i])
    {
      visited := visited + [i];
      match ps[i] {
        case Failed =>
          FailedPageSpoils(ps, i, k);
          text := "";
          return;
        case Extracted(t) =>
          PageStep(ps, i);
          if t != "" {
            text := text + t + "\n";
          }
      }
      i := i + 1;
    }
    assert ps[..k] == ps[..i];
  }

  /** A failed page among the first `k` spoils the whole run, and the pages
      before it were all read. */
  lemma FailedPageSpoils(ps: seq<PageText>, i: nat, k: nat)
    requires i < k <= |ps| && ps[i].Failed? && NoFailure(ps[..i])
    ensures !NoFailure(ps[..k])
  {
    assert ps[..k][i].Failed?;
  }

  /** Reading one more page that did not fail. */
  lemma PageStep(ps: seq<PageText>, i: nat)
    requires i < |ps| && ps[i].Extracted? && NoFailure(ps[..i])
    ensures NoFailure(ps[..i + 1])
    ensures JoinPages(ps[..i + 1]) == JoinPages(ps[..i]) + Contribution(ps[i])
  {
    assert ps[..i + 1][..i] == ps[..i];
  }

  /** Appending one page appends its contribution. */
  lemma JoinPagesSnoc(ps: seq<PageText>, p: PageText)
    ensures JoinPages(ps + [p]) == JoinPages(ps) + Contribution(p)
  {
    var ext := ps + [p];
    assert ext[..|ext| - 1] == ps;
  }

  /** Joining distributes over concatenation of page runs. */
  lemma {:induction false} JoinPagesAppend(a: seq<PageText>, b: seq<PageText>)
    ensures JoinPages(a + b) == JoinPages(a) + JoinPages(b)
    decreases |b|
  {
    if b != [] {
      var n := |b| - 1;
      var front := b[..n];
      assert b == front + [b[n]];
      assert a + b == (a + front) + [b[n]];
      JoinPagesAppend(a, front);
      JoinPagesSnoc(a + front, b[n]);
      JoinPagesSnoc(front, b[n]);
    } else {
      assert a + b == a;
    }
  }

  /** The non-empty page texts, in page order. */
  function NonEmptyTexts(ps: seq<PageText>): seq<string>
  {
    if ps == [] then []
    else (if ps[0].Failed? || ps[0].text == "" then [] else [ps[0].text]) + NonEmptyTexts(ps[1..])
  }

  /** Pages with no text add nothing, and every other page is followed by a
      newline: when no page text holds a newline itself, splitting the result
      on newlines gives back exactly the non-empty page texts, followed by the
      empty piece after the final newline. */
  lemma {:induction false} JoinPagesSplitsBack(ps: seq<PageText>)
    requires forall i :: 0 <= i < |ps| ==> ps[i].Extracted? && !Contains(ps[i].text, "\n")
    ensures Split(JoinPages(ps), "\n") == NonEmptyTexts(ps) + [""]
  {
    if ps != [] {
      var rest := ps[1..];
      assert ps == [ps[0]] + rest;
      assert forall i :: 0 <= i < |rest| ==> rest[i] == ps[i + 1];
      JoinPagesSplitsBack(rest);
      SplitsBackStep(ps[0], rest);
    } else {
      assert !Occurs("", "\n", 0);
      assert IndexOf("", "\n") == None;
      assert Split("", "\n") == [""];
    }
  }

  /** The inductive step of `JoinPagesSplitsBack`: one more page in front. */
  lemma SplitsBackStep(p: PageText, rest: seq<PageText>)
    requires p.Extracted? && !Contains(p.text, "\n")
    requires Split(JoinPages(rest), "\n") == NonEmptyTexts(rest) + [""]
    ensures Split(JoinPages([p] + rest), "\n") == NonEmptyTexts([p] + rest) + [""]
  {
    PeelFirstPage(p, rest);
    var texts := NonEmptyTexts(rest);
    if p.text == "" {
      assert [] + texts == texts;
    } else {
      SplitsBackLine(p.text, JoinPages(rest), texts);
    }
  }

  /** One newline-terminated line in front of text that splits back. */
  lemma SplitsBackLine(t: string, tail: string, texts: seq<string>)
    requires !Contains(t, "\n")
    requires Split(tail, "\n") == texts + [""]
    ensures Split(t + "\n" + tail, "\n") == ([t] + texts) + [""]
  {
    NewlineFirstAfter(t, tail);
    SplitAfterHead(t, "\n", tail);
    assert [t] + (texts + [""]) == ([t] + texts) + [""];
  }

  /** The first page's share of the joined text and of the non-empty texts. */
  lemma PeelFirstPage(p: PageText, rest: seq<PageText>)
    requires p.Extracted?
    ensures p.text == "" ==> JoinPages([p] + rest) == JoinPages(rest)
    ensures p.text != "" ==> JoinPages([p] + rest) == p.text + "\n" + JoinPages(rest)
    ensures NonEmptyTexts([p] + rest) == (if p.text == "" then [] else [p.text]) + NonEmptyTexts(rest)
  {
    JoinPagesCons(p, rest);
    assert ([p] + rest)[1..] == rest;
  }

  lemma JoinPagesCons(p: PageText, rest: seq<PageText>)
    ensures JoinPages([p] + rest) == Contribution(p) + JoinPages(rest)
  {
    JoinPagesAppend([p], rest);
    JoinPagesSingle(p);
  }

  lemma JoinPagesSingle(p: PageText)
    ensures JoinPages([p]) == Contribution(p)
  {
    assert [p][..0] == [];
  }

  /** In `t + "\n" + rest` with no newline in `t`, the first newline is the one
      right after `t`. */
  lemma NewlineFirstAfter(t: string, rest: string)
    requires !Contains(t, "\n")
    ensures IndexOf(t + "\n" + rest, "\n") == Some(|t|)
  {
    var s := t + "\n" + rest;
    assert s[|t|..|t| + 1] == "\n";
    assert Occurs(s, "\n", |t|);
    forall j | 0 <= j < |t|
      ensures !Occurs(s, "\n", j)
    {
      assert s[j..j + 1] == t[j..j + 1];
      assert !Occurs(t, "\n", j);
    }
  }

  /** Pages after the first `max_pages` are never read: appending pages to a
      document that already has at least `maxPages` of them changes nothing. */
  lemma ExtractIgnoresLaterPages(ps: seq<PageText>, extra: seq<PageText>, maxPages: int)
    requires maxPages <= |ps|
    ensures ExtractedText(Pages(ps + extra), maxPages) == ExtractedText(Pages(ps), maxPages)
  {
    var k := PagesToProcess(|ps|, maxPages);
    assert PagesToProcess(|ps + extra|, maxPages) == k;
    assert (ps + extra)[..k] == ps[..k];
  }

  /** A budget larger than the document reads the whole document, no more. */
  lemma ExtractWholeDocument(ps: seq<PageText>, maxPages: int)
    requires maxPages >= |ps|
    ensures ExtractedText(Pages(ps), maxPages) == ExtractedText(Pages(ps), |ps|)
    ensures ExtractedText(Pages(ps), maxPages) == (if NoFailure(ps) then JoinPages(ps) else "")
  {
    assert ps[..|ps|] == ps;
  }
}
