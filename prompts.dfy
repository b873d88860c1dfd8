/** The prompt loader: reads the two labelled sections of the prompt file
    (`SYSTEM_INSTRUCTION:` and `AUDIT_LOGIC:`) and falls back to fixed
    defaults when the file is missing, unreadable or lacks a marker.
    The file system is replaced by the outcome of the read. */
module Prompts {
  import opened Text

  const SystemMarker := "SYSTEM_INSTRUCTION:"
  const AuditMarker := "AUDIT_LOGIC:"

  const DefaultSystem := "You are a Research Auditor."
  /** Audit logic used when the prompt file does not exist. */
  const MissingFileLogic := "Identify discrepancies."
  /** Audit logic used when opening or decoding the prompt file raises. */
  const ReadFailureLogic := "Analyze the data."

  /** What reading `prompts.txt` produced. */
  datatype PromptFile = Missing | Unreadable | Readable(content: string)

  datatype Prompts = Prompts(system: string, auditLogic: string)

  /** `load_prompts`: never fails; the markers are searched for as substrings
      and the sections are cut with Python's `split` and trimmed. */
  function LoadPrompts(file: PromptFile): (r: Prompts)
    ensures file.Missing? ==> r == Prompts(DefaultSystem, MissingFileLogic)
    ensures file.Unreadable? ==> r == Prompts(DefaultSystem, ReadFailureLogic)
    ensures file.Readable? && !(Contains(file.content, SystemMarker) && Contains(file.content, AuditMarker))
            ==> r == Prompts(DefaultSystem, file.content)
    ensures file.Readable? && Contains(file.content, SystemMarker) && Contains(file.content, AuditMarker)
            ==> r.system == Strip(Before(Before(After(file.content, SystemMarker), SystemMarker), AuditMarker))
                && r.auditLogic == Strip(Before(After(file.content, AuditMarker), AuditMarker))
    ensures file.Readable? && Contains(file.content, SystemMarker) && Contains(file.content, AuditMarker)
            ==> !Contains(r.system, SystemMarker) && !Contains(r.system, AuditMarker)
                && !Contains(r.auditLogic, AuditMarker)
  {
    match file
    case Missing => Prompts(DefaultSystem, MissingFileLogic)
    case Unreadable => Prompts(DefaultSystem, ReadFailureLogic)
    case Readable(content) =>
      if Contains(content, SystemMarker) && Contains(content, AuditMarker) then
        var section := Split(content, SystemMarker)[1];
        var cut := Split(section, AuditMarker)[0];
        var sys := Strip(cut);
        assert !Contains(section, SystemMarker);
        NotContainsSlice(section, SystemMarker, 0, |cut|);
        assert section[..|cut|] == cut;
        var logic := Strip(Split(content, AuditMarker)[1]);
        StripKeepsAbsence(cut, SystemMarker);
        StripKeepsAbsence(cut, AuditMarker);
        StripKeepsAbsence(Split(content, AuditMarker)[1], AuditMarker);
        Prompts(sys, logic)
      else
        Prompts(DefaultSystem, content)
  }

  /** Trimming cannot create a marker: `Strip(s)` is a slice of `s`. */
  lemma StripKeepsAbsence(s: string, sep: string)
    requires !Contains(s, sep)
    ensures !Contains(Strip(s), sep)
  {
    var i := LeadingSpace(s);
    var r := Strip(s);
    assert r == s[i..i + |r|];
    NotContainsSlice(s, sep, i, i + |r|);
  }

  /** Both markers end in their only colon and neither ends the other. */
  lemma MarkersAreColonTerminated()
    ensures ColonTerminated(SystemMarker) && ColonTerminated(AuditMarker)
    ensures SystemMarker[|SystemMarker| - |AuditMarker|..] != AuditMarker
  {
    assert SystemMarker[|SystemMarker| - |AuditMarker|..][0] != AuditMarker[0];
  }

  /** In the layout `SYSTEM_INSTRUCTION:` x `AUDIT_LOGIC:` y, the system
      section is cut out as exactly x. */
  lemma SystemSectionOfLayout(x: string, y: string)
    requires !Contains(x, SystemMarker) && !Contains(x, AuditMarker)
    ensures Contains(SystemMarker + x + AuditMarker + y, SystemMarker)
    ensures Before(Before(After(SystemMarker + x + AuditMarker + y, SystemMarker), SystemMarker), AuditMarker) == x
  {
    MarkersAreColonTerminated();
    var rest := x + AuditMarker + y;
    // the text after the first SYSTEM_INSTRUCTION: is everything else
    SystemMarkerFirst(rest);
    assert SystemMarker + x + AuditMarker + y == "" + SystemMarker + rest;
    // ... cut at the next SYSTEM_INSTRUCTION:, which cannot come before y
    NoOccurrenceBeforeMarkerEnd(x, AuditMarker, y, SystemMarker);
    var p := Before(rest, SystemMarker);
    var y' := p[|x| + |AuditMarker|..];
    LongPrefix(x, AuditMarker, y, p);
    // ... and then at the first AUDIT_LOGIC:, which ends x
    FirstAfterColonFreeHead(x, AuditMarker, y');
    CutAtFirst(x, AuditMarker, y');
  }

  /** A file that starts with `SYSTEM_INSTRUCTION:` is cut right after it. */
  lemma SystemMarkerFirst(rest: string)
    ensures Contains("" + SystemMarker + rest, SystemMarker)
    ensures After("" + SystemMarker + rest, SystemMarker) == rest
  {
    MarkersAreColonTerminated();
    assert !Occurs("", SystemMarker, 0);
    FirstAfterColonFreeHead("", SystemMarker, rest);
    CutAtFirst("", SystemMarker, rest);
  }

  /** A prefix of `x + m + y` at least as long as `x + m` extends it. */
  lemma LongPrefix(x: string, m: string, y: string, p: string)
    requires |x| + |m| <= |p| <= |x + m + y| && p == (x + m + y)[..|p|]
    ensures p == x + m + p[|x| + |m|..]
  {
    assert p[..|x| + |m|] == x + m;
  }

  /** In the same layout the audit section is cut out as exactly y. */
  lemma AuditSectionOfLayout(x: string, y: string)
    requires !Contains(x, AuditMarker) && !Contains(y, AuditMarker)
    ensures Contains(SystemMarker + x + AuditMarker + y, AuditMarker)
    ensures Before(After(SystemMarker + x + AuditMarker + y, AuditMarker), AuditMarker) == y
  {
    MarkersAreColonTerminated();
    var head := SystemMarker + x;
    AuditMarkerNotInHead(x);
    FirstAfterColonFreeHead(head, AuditMarker, y);
    CutAtFirst(head, AuditMarker, y);
  }

  /** `AUDIT_LOGIC:` cannot straddle the end of `SYSTEM_INSTRUCTION:`. */
  lemma AuditMarkerNotInHead(x: string)
    requires !Contains(x, AuditMarker)
    ensures !Contains(SystemMarker + x, AuditMarker)
  {
    MarkersAreColonTerminated();
    NoOccurrenceBeforeMarkerEnd("", SystemMarker, x, AuditMarker);
    assert "" + SystemMarker + x == SystemMarker + x;
    forall j | |SystemMarker| <= j
      ensures !Occurs(SystemMarker + x, AuditMarker, j)
    {
      OccursShift(SystemMarker, x, AuditMarker, j - |SystemMarker|);
    }
  }

  /** A prompt file written in the intended layout,
      `SYSTEM_INSTRUCTION:` x `AUDIT_LOGIC:` y, parses back into its two
      sections, trimmed, as long as x mentions neither marker and y does not
      repeat `AUDIT_LOGIC:`. */
  lemma LayoutRoundTrip(x: string, y: string)
    requires !Contains(x, SystemMarker) && !Contains(x, AuditMarker)
    requires !Contains(y, AuditMarker)
    ensures LoadPrompts(Readable(SystemMarker + x + AuditMarker + y)) == Prompts(Strip(x), Strip(y))
  {
    SystemSectionOfLayout(x, y);
    AuditSectionOfLayout(x, y);
  }
}
