/** The audit button: checks that both files were uploaded, extracts the
    paper, summarises the dataset, loads the prompts, sends the audit to the
    model only when the paper yielded text, and shows the report with the
    integrity score scraped out of it. The page is replaced by a description
    of what ends up on it; the stats dictionary is shown to the model through
    its printed form, which is a parameter. */
module AuditRun {
  import opened Wrappers
  import opened Text
  import opened Prompts
  import opened PdfText
  import opened DataSummary
  import opened AuditClient

  /** At most this many characters of the paper go into the prompt. */
  const PaperLimit := 8000
  const StatsLabel := "\n\n[DATA STATS]: "
  const PaperLabel := "\n\n[PAPER TEXT]: "
  const ScoreMarker := "Integrity Score:"

  /** `paper_content[:8000]`. */
  function Excerpt(paper: string): (e: string)
    ensures |e| == if |paper| < PaperLimit then |paper| else PaperLimit
    ensures e == paper[..|e|]
  {
    if |paper| <= PaperLimit then paper else paper[..PaperLimit]
  }

  /** The prompt: the audit logic, the printed stats and the start of the
      paper, each after its label. */
  function AssemblePrompt(auditLogic: string, stats: string, paper: string): (p: string)
    ensures |p| == |auditLogic| + |StatsLabel| + |stats| + |PaperLabel| + |Excerpt(paper)|
    ensures |p| <= |auditLogic| + |StatsLabel| + |stats| + |PaperLabel| + PaperLimit
    ensures p[..|auditLogic|] == auditLogic
    ensures p[|auditLogic|..|auditLogic| + |StatsLabel|] == StatsLabel
    ensures p[|auditLogic| + |StatsLabel|..|auditLogic| + |StatsLabel| + |stats|] == stats
    ensures p[|p| - |Excerpt(paper)| - |PaperLabel|..|p| - |Excerpt(paper)|] == PaperLabel
    ensures p[|p| - |Excerpt(paper)|..] == paper[..|Excerpt(paper)|]
  {
    var e := Excerpt(paper);
    var head := auditLogic + StatsLabel + stats;
    var p := head + PaperLabel + e;
    assert head[..|auditLogic|] == auditLogic;
    assert head[|auditLogic|..|auditLogic| + |StatsLabel|] == StatsLabel;
    assert head[|auditLogic| + |StatsLabel|..] == stats;
    assert p[..|head|] == head;
    assert p[|head|..|head| + |PaperLabel|] == PaperLabel;
    assert p[|p| - |e|..] == e;
    p
  }

  /** Text past the first 8000 characters of the paper never reaches the model. */
  lemma PromptIgnoresTextBeyondLimit(auditLogic: string, stats: string, paper: string, more: string)
    requires |paper| >= PaperLimit
    ensures AssemblePrompt(auditLogic, stats, paper + more) == AssemblePrompt(auditLogic, stats, paper)
  {
    assert (paper + more)[..PaperLimit] == paper[..PaperLimit];
  }

  /** The score shown above the report: the digits, in order, of the text
      after the first `Integrity Score:` (up to a second one), stripped and
      cut at its first `/`. No score is shown when the marker is missing,
      since the failing lookup is swallowed. Stripping never matters to the
      digits: whitespace is neither a digit nor a slash. */
  function ScrapeScore(report: string): (score: Option<string>)
    ensures score.None? <==> !Contains(report, ScoreMarker)
    ensures score.Some? ==> forall k :: 0 <= k < |score.value| ==> IsDigit(score.value[k])
    ensures score.Some? ==>
              score.value == Digits(Before(Before(After(report, ScoreMarker), ScoreMarker), "/"))
  {
    if Contains(report, ScoreMarker) then
      var segment := Split(report, ScoreMarker)[1];
      var raw := Strip(segment);
      StripKeepsScoreDigits(segment);
      Some(Digits(Split(raw, "/")[0]))
    else
      None
  }

  /** The digits before the first slash are the same with or without the
      surrounding whitespace. */
  lemma StripKeepsScoreDigits(seg: string)
    ensures Digits(Before(Strip(seg), "/")) == Digits(Before(seg, "/"))
  {
    var r := Strip(seg);
    if Contains(r, "/") {
      DigitsWithSlashInCore(seg, r, LeadingSpace(seg));
    } else {
      DigitsWithNoSlash(seg, r, LeadingSpace(seg));
    }
  }

  lemma DigitsWithSlashInCore(seg: string, r: string, i: int)
    requires StrippedAt(seg, r, i) && Contains(r, "/")
    ensures Digits(Before(r, "/")) == Digits(Before(seg, "/"))
  {
    SlashInCore(seg, r, i);
    SpaceHasNoDigits(seg[..i]);
    DigitsAppend(seg[..i], Before(r, "/"));
    assert [] + Digits(Before(r, "/")) == Digits(Before(r, "/"));
  }

  lemma DigitsWithNoSlash(seg: string, r: string, i: int)
    requires StrippedAt(seg, r, i) && !Contains(r, "/")
    ensures Digits(Before(r, "/")) == Digits(Before(seg, "/"))
  {
    var j := i + |r|;
    var lead, trail := seg[..i], seg[j..];
    NoSlashAroundCore(seg, r, i);
    SpaceHasNoDigits(lead);
    SpaceHasNoDigits(trail);
    SliceInThree(seg, i, j);
    DigitsAppend(lead, r + trail);
    DigitsAppend(r, trail);
    calc {
      Digits(Before(seg, "/"));
      Digits(seg);
      Digits(lead + (r + trail));
      Digits(lead) + (Digits(r) + Digits(trail));
      [] + (Digits(r) + []);
      Digits(r);
      Digits(Before(r, "/"));
    }
  }

  /** Whitespace holds no digit. */
  lemma SpaceHasNoDigits(s: string)
    requires AllSpace(s)
    ensures Digits(s) == []
  {
    ScoreCharsNotSpace();
  }

  /** A slash occurs exactly where the text has a `/`. */
  lemma SlashAt(s: string, q: int)
    ensures Occurs(s, "/", q) <==> 0 <= q < |s| && s[q] == '/'
  {
    if 0 <= q < |s| {
      assert s[q..q + 1] == [s[q]];
    }
  }

  /** No slash in the whitespace around the stripped text, nor where the
      stripped text has none. */
  lemma NoSlashAt(seg: string, r: string, i: int, q: int)
    requires StrippedAt(seg, r, i) && 0 <= q < |seg|
    requires i <= q < i + |r| ==> !Occurs(r, "/", q - i)
    ensures !Occurs(seg, "/", q)
  {
    ScoreCharsNotSpace();
    SlashAt(seg, q);
    var j := i + |r|;
    if q < i {
      assert seg[q] == seg[..i][q];
    } else if q < j {
      SlashAt(r, q - i);
      assert seg[q] == r[q - i];
    } else {
      assert seg[q] == seg[j..][q - j];
    }
  }

  /** When the stripped text holds a slash, the first slash of the whole text
      is that one, after the leading whitespace. */
  lemma SlashInCore(seg: string, r: string, i: int)
    requires StrippedAt(seg, r, i) && Contains(r, "/")
    ensures Before(seg, "/") == seg[..i] + Before(r, "/")
  {
    var p := |Before(r, "/")|;
    assert Occurs(r, "/", p);
    SlashAt(r, p);
    SlashAt(seg, i + p);
    assert seg[i + p] == r[p];
    forall q | 0 <= q < i + p
      ensures !Occurs(seg, "/", q)
    {
      NoSlashAt(seg, r, i, q);
    }
    BeforeLeftmost(seg, "/", i + p);
    PrefixThroughSlice(seg, i, i + |r|, p);
  }

  /** A string is its prefix, a middle slice and the rest. */
  lemma SliceInThree(s: string, i: int, j: int)
    requires 0 <= i <= j <= |s|
    ensures s == s[..i] + (s[i..j] + s[j..])
  {
  }

  /** A prefix reaching into the slice `s[i..j]` is `s[..i]` followed by the
      start of that slice. */
  lemma PrefixThroughSlice(s: string, i: int, j: int, p: int)
    requires 0 <= i <= j <= |s| && 0 <= p <= j - i
    ensures s[..i + p] == s[..i] + s[i..j][..p]
  {
  }

  /** When the stripped text holds no slash, neither does the whole text. */
  lemma NoSlashAroundCore(seg: string, r: string, i: int)
    requires StrippedAt(seg, r, i) && !Contains(r, "/")
    ensures !Contains(seg, "/")
  {
    forall q | 0 <= q < |seg|
      ensures !Occurs(seg, "/", q)
    {
      NoSlashAt(seg, r, i, q);
    }
  }

  /** A report that states its score as `Integrity Score: 87/100` shows
      exactly those digits, whatever comes before (without the marker) and
      after. */
  lemma ScoreOfStatedLine(before: string, w: string, d: string, after: string)
    requires !Contains(before, ScoreMarker)
    requires AllSpace(w) && (forall k :: 0 <= k < |d| ==> IsDigit(d[k]))
    ensures ScrapeScore(before + ScoreMarker + w + d + "/" + after) == Some(d)
  {
    var t := w + d + "/" + after;
    var report := before + ScoreMarker + w + d + "/" + after;
    assert report == before + ScoreMarker + t;
    SegmentAfterMarker(before, t);
    ScoreLineCut(w, d, after);
    DigitsAppend(w, d);
    SpaceHasNoDigits(w);
    assert [] + d == d;
  }

  /** On a stated score line the text cut out for the score is the
      whitespace and the digits. */
  lemma ScoreLineCut(w: string, d: string, after: string)
    requires AllSpace(w) && (forall k :: 0 <= k < |d| ==> IsDigit(d[k]))
    ensures Before(Before(w + d + "/" + after, ScoreMarker), "/") == w + d
  {
    var t := w + d + "/" + after;
    var n := |w| + |d|;
    NoMarkerBeforeSlash(w, d, after);
    var seg := Before(t, ScoreMarker);
    assert n < |seg|;
    assert seg[..n + 1] == t[..n + 1] == w + d + "/";
    SlashAfterScore(seg, w, d);
  }

  /** Text that starts with whitespace, digits and a slash is cut at that
      slash. */
  lemma SlashAfterScore(seg: string, w: string, d: string)
    requires AllSpace(w) && (forall k :: 0 <= k < |d| ==> IsDigit(d[k]))
    requires |w| + |d| < |seg| && seg[..|w| + |d| + 1] == w + d + "/"
    ensures Before(seg, "/") == w + d
  {
    var n := |w| + |d|;
    assert seg[..n] == seg[..n + 1][..n] == w + d;
    forall q | 0 <= q < n
      ensures !Occurs(seg, "/", q)
    {
      NoSlashInScore(seg, w, d, q);
    }
    SlashAt(seg, n);
    assert seg[n] == seg[..n + 1][n];
    BeforeLeftmost(seg, "/", n);
  }

  /** Neither the whitespace nor the digits of a score line are a slash. */
  lemma NoSlashInScore(seg: string, w: string, d: string, q: int)
    requires AllSpace(w) && (forall k :: 0 <= k < |d| ==> IsDigit(d[k]))
    requires 0 <= q < |w| + |d| < |seg| && seg[..|w| + |d|] == w + d
    ensures !Occurs(seg, "/", q)
  {
    ScoreCharsNotSpace();
    SlashAt(seg, q);
    assert seg[q] == (w + d)[q];
  }

  /** The letter the marker starts with, the slash and the digits are not
      whitespace. */
  lemma ScoreCharsNotSpace()
    ensures !IsSpace(ScoreMarker[0]) && !IsSpace('/')
    ensures forall c :: IsDigit(c) ==> !IsSpace(c)
  {
  }

  /** No marker starts inside `w + d + "/"`: its first letter is none of those. */
  lemma NoMarkerBeforeSlash(w: string, d: string, after: string)
    requires AllSpace(w) && (forall k :: 0 <= k < |d| ==> IsDigit(d[k]))
    ensures forall q :: 0 <= q <= |w| + |d| ==> !Occurs(w + d + "/" + after, ScoreMarker, q)
  {
    var t := w + d + "/" + after;
    ScoreCharsNotSpace();
    forall q | 0 <= q <= |w| + |d|
      ensures !Occurs(t, ScoreMarker, q)
    {
      if q < |w| {
        assert t[q] == w[q] && IsSpace(w[q]);
      } else if q < |w| + |d| {
        assert t[q] == d[q - |w|] && IsDigit(d[q - |w|]);
      } else {
        assert t[q] == '/';
      }
      assert t[q] != ScoreMarker[0];
    }
  }

  /** The text between the first marker and the next one, when no marker
      comes before the first. */
  lemma SegmentAfterMarker(before: string, t: string)
    requires !Contains(before, ScoreMarker)
    ensures Contains(before + ScoreMarker + t, ScoreMarker)
    ensures Split(before + ScoreMarker + t, ScoreMarker)[1] == Before(t, ScoreMarker)
  {
    var report := before + ScoreMarker + t;
    assert ColonTerminated(ScoreMarker);
    FirstAfterColonFreeHead(before, ScoreMarker, t);
    BeforeLeftmost(report, ScoreMarker, |before|);
    assert report[..|before|] == before;
    assert After(report, ScoreMarker) == t by {
      assert report == before + ScoreMarker + After(report, ScoreMarker);
    }
  }

  /** A score line whose cut-out text has no digits shows an empty score,
      not an error: `Integrity Score: N/A/100` shows "". */
  lemma ScoreWithoutDigits(before: string, t: string)
    requires !Contains(before, ScoreMarker)
    requires var cut := Before(Before(t, ScoreMarker), "/");
             forall k :: 0 <= k < |cut| ==> !IsDigit(cut[k])
    ensures ScrapeScore(before + ScoreMarker + t) == Some("")
  {
    SegmentAfterMarker(before, t);
  }

  /** What the page shows after the button is pressed. */
  datatype Screen =
    | UploadWarning                       // one of the two files is missing
    | NothingShown                        // no paper text, or no response
    | ReportShown(score: Option<string>, report: string, chart: seq<ValueCount>)
    | ErrorShown(message: string)         // an exception escaped the handler

  /** How the outcome of the call is displayed: the scraped score (when
      there is one), the report, and the value counts of the target column. */
  function Display(result: AuditResult, t: Table): (s: Screen)
    requires WellFormed(t)
    ensures result.Answered? <==> s.ReportShown?
    ensures result.Answered? ==> s.report == result.response.text
                                 && s.score == ScrapeScore(result.response.text)
                                 && s.chart == ValueCounts(LastColumn(t))
                                 && SumCounts(s.chart) == |t.rows|
    ensures result.NoResponse? ==> s == NothingShown
    ensures result.Raised? ==> s == ErrorShown(result.message)
  {
    match result
    case Answered(r) =>
      ValueCountsTotal(LastColumn(t));
      ReportShown(ScrapeScore(r.text), r.text, ValueCounts(LastColumn(t)))
    case NoResponse => NothingShown
    case Raised(m) => ErrorShown(m)
  }

  /** The request the audit sends for a paper, a dataset and a prompt file. */
  function AuditRequest(paper: string, t: Table, prompts: PromptFile, render: Summary -> string): (req: Request)
    requires WellFormed(t)
    ensures req.model == ModelId && req.system == LoadPrompts(prompts).system
    ensures req.prompt == AssemblePrompt(LoadPrompts(prompts).auditLogic, render(Summarize(t)), paper)
  {
    var loaded := LoadPrompts(prompts);
    Request(ModelId, loaded.system, AssemblePrompt(loaded.auditLogic, render(Summarize(t)), paper))
  }

  /** The button handler. The model is consulted only when both files are
      there and the paper yielded some text; then the request carries the
      loaded system instruction and the assembled prompt, and the page shows
      what the retry loop ended in. */
  method ExecuteForensicAudit(pdf: Option<Pdf>, csv: Option<Table>, prompts: PromptFile,
                              render: Summary -> string, remote: Remote)
    returns (screen: Screen, sent: Option<Request>, calls: nat, waits: seq<nat>)
    requires csv.Some? ==> WellFormed(csv.value)
    ensures screen == UploadWarning <==> pdf.None? || csv.None?
    ensures sent.None? ==> calls == 0 && waits == []
    ensures sent.Some? <==> pdf.Some? && csv.Some? && ExtractedText(pdf.value, DefaultMaxPages) != ""
    ensures pdf.Some? && csv.Some? && ExtractedText(pdf.value, DefaultMaxPages) == "" ==> screen == NothingShown
    ensures sent.Some? ==>
              sent.value == AuditRequest(ExtractedText(pdf.value, DefaultMaxPages), csv.value, prompts, render)
              && Run(sent.value, remote, 0).calls == calls && Run(sent.value, remote, 0).waits == waits
              && screen == Display(Run(sent.value, remote, 0).result, csv.value)
  {
    sent, calls, waits := None, 0, [];
    if pdf.None? || csv.None? {
      return UploadWarning, sent, calls, waits;
    }
    var paper, _ := ExtractPdfText(pdf.value, DefaultMaxPages);
    var t := csv.value;
    var stats := Summarize(t);
    var loaded := LoadPrompts(prompts);
    if paper == "" {
      return NothingShown, sent, calls, waits;
    }
    var prompt := AssemblePrompt(loaded.auditLogic, render(stats), paper);
    var result;
    result, calls, waits := SafeAuditCall(loaded.system, prompt, remote);
    sent := Some(Request(ModelId, loaded.system, prompt));
    screen := Display(result, t);
  }
}
