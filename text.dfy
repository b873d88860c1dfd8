/** The handful of Python `str` operations the auditor is built from:
    substring search (`sep in s`, `s.find(sep)`), `s.split(sep)` with an
    explicit separator, `s.strip()` with no argument, and the filter that
    keeps the decimal digits of a string. */
module Text {
  import opened Wrappers

  /** `sep` occurs in `s` starting at index `i`. */
  predicate Occurs(s: string, sep: string, i: int)
  {
    0 <= i && i + |sep| <= |s| && s[i..i + |sep|] == sep
  }

  /** Leftmost occurrence of `sep` in `s` at or after `from`. */
  function IndexFrom(s: string, sep: string, from: nat): (r: Option<nat>)
    decreases |s| - from
    ensures r.Some? ==> from <= r.value && Occurs(s, sep, r.value)
    ensures r.Some? ==> forall j :: from <= j < r.value ==> !Occurs(s, sep, j)
    ensures r.None? ==> forall j :: from <= j ==> !Occurs(s, sep, j)
  {
    if from + |sep| > |s| then None
    else if s[from..from + |sep|] == sep then Some(from)
    else IndexFrom(s, sep, from + 1)
  }

  /** Python's `s.find(sep)`: the leftmost occurrence, if any. */
  function IndexOf(s: string, sep: string): (r: Option<nat>)
    ensures r.Some? ==> Occurs(s, sep, r.value)
    ensures r.Some? ==> forall j :: 0 <= j < r.value ==> !Occurs(s, sep, j)
    ensures r.None? ==> forall j :: !Occurs(s, sep, j)
  {
    IndexFrom(s, sep, 0)
  }

  /** Python's `sep in s`. */
  function Contains(s: string, sep: string): (b: bool)
    ensures b <==> exists i :: Occurs(s, sep, i)
  {
    IndexOf(s, sep).Some?
  }

  /** An occurrence inside a slice of `s` is an occurrence in `s`. */
  lemma OccursInSlice(s: string, sep: string, lo: nat, hi: nat, j: int)
    requires lo <= hi <= |s|
    requires Occurs(s[lo..hi], sep, j)
    ensures Occurs(s, sep, lo + j)
  {
    forall k | 0 <= k < |sep|
      ensures s[lo + j..lo + j + |sep|][k] == sep[k]
    {
      assert s[lo..hi][j..j + |sep|][k] == sep[k];
    }
  }

  /** A slice of a string free of `sep` is free of `sep`. */
  lemma NotContainsSlice(s: string, sep: string, lo: nat, hi: nat)
    requires lo <= hi <= |s|
    requires !Contains(s, sep)
    ensures !Contains(s[lo..hi], sep)
  {
    if Contains(s[lo..hi], sep) {
      var j :| Occurs(s[lo..hi], sep, j);
      OccursInSlice(s, sep, lo, hi, j);
    }
  }

  /** The text of `s` before the first `sep`, or all of `s` when there is none:
      Python's `s.split(sep)[0]`. */
  function Before(s: string, sep: string): (r: string)
    requires |sep| > 0
    ensures |r| <= |s| && r == s[..|r|]
    ensures !Contains(r, sep)
    ensures forall j :: 0 <= j < |r| ==> !Occurs(s, sep, j)
    ensures r == s || Occurs(s, sep, |r|)
    ensures r == s <==> !Contains(s, sep)
  {
    match IndexOf(s, sep)
    case None => s
    case Some(i) =>
      var r := s[..i];
      assert !Contains(r, sep) by {
        if Contains(r, sep) {
          var j :| Occurs(r, sep, j);
          OccursInSlice(s, sep, 0, i, j);
        }
      }
      r
  }

  /** The text of `s` after the first `sep`. */
  function After(s: string, sep: string): (r: string)
    requires |sep| > 0 && Contains(s, sep)
    ensures s == Before(s, sep) + sep + r
  {
    var i := IndexOf(s, sep).value;
    assert s == s[..i] + s[i..i + |sep|] + s[i + |sep|..];
    s[i + |sep|..]
  }

  /** Python's `s.split(sep)` for a non-empty separator (Python raises
      ValueError on an empty one): the pieces between successive leftmost,
      non-overlapping occurrences of `sep`. */
  function Split(s: string, sep: string): (r: seq<string>)
    requires |sep| > 0
    decreases |s|
    ensures |r| >= 1 && r[0] == Before(s, sep)
    ensures |r| >= 2 <==> Contains(s, sep)
    ensures Contains(s, sep) ==> r[1] == Before(After(s, sep), sep)
    ensures forall k :: 0 <= k < |r| ==> !Contains(r[k], sep)
  {
    match IndexOf(s, sep)
    case None => [s]
    case Some(i) => [s[..i]] + Split(s[i + |sep|..], sep)
  }

  /** Python's `sep.join(parts)`. */
  function Join(parts: seq<string>, sep: string): string
  {
    if |parts| == 0 then ""
    else if |parts| == 1 then parts[0]
    else parts[0] + sep + Join(parts[1..], sep)
  }

  /** Splitting loses nothing: joining the pieces with the separator gives
      back the original string. */
  lemma {:induction false} JoinSplit(s: string, sep: string)
    requires |sep| > 0
    decreases |s|
    ensures Join(Split(s, sep), sep) == s
  {
    match IndexOf(s, sep)
    case None =>
    case Some(i) =>
      var rest := s[i + |sep|..];
      JoinSplit(rest, sep);
      var tail := Split(rest, sep);
      assert Split(s, sep) == [s[..i]] + tail;
      assert Join(Split(s, sep), sep) == s[..i] + sep + Join(tail, sep);
      assert s == s[..i] + s[i..i + |sep|] + rest;
  }

  /** Splitting a string in which the first occurrence of `sep` sits right after
      `head` gives `head` followed by the pieces of the rest. */
  lemma SplitAfterHead(head: string, sep: string, rest: string)
    requires |sep| > 0 && !Contains(head, sep)
    requires IndexOf(head + sep + rest, sep) == Some(|head|)
    ensures Split(head + sep + rest, sep) == [head] + Split(rest, sep)
  {
    var s := head + sep + rest;
    assert s[..|head|] == head;
    assert s[|head| + |sep|..] == rest;
  }

  /** Moving past a prefix `p` shifts every occurrence by `|p|`. */
  lemma OccursShift(p: string, t: string, sep: string, j: nat)
    ensures Occurs(p + t, sep, |p| + j) <==> Occurs(t, sep, j)
  {
    if j + |sep| <= |t| {
      assert (p + t)[|p| + j..|p| + j + |sep|] == t[j..j + |sep|];
    }
  }

  /** `Before` is determined by the leftmost occurrence. */
  lemma BeforeLeftmost(s: string, sep: string, i: nat)
    requires |sep| > 0 && Occurs(s, sep, i)
    requires forall j :: 0 <= j < i ==> !Occurs(s, sep, j)
    ensures Before(s, sep) == s[..i]
  {
    var r := Before(s, sep);
    assert !(i < |r|);
    assert |r| <= i;
    assert r != s ==> Occurs(s, sep, |r|);
    assert |r| == i;
  }

  /** When the first `sep` in `head + sep + tail` is the one after `head`,
      the text before it is `head` and the text after it is `tail`. */
  lemma CutAtFirst(head: string, sep: string, tail: string)
    requires |sep| > 0 && IndexOf(head + sep + tail, sep) == Some(|head|)
    ensures Contains(head + sep + tail, sep)
    ensures Before(head + sep + tail, sep) == head
    ensures After(head + sep + tail, sep) == tail
  {
    var s := head + sep + tail;
    BeforeLeftmost(s, sep, |head|);
    assert s[..|head|] == head;
    assert s == head + sep + After(s, sep);
    assert s[|head| + |sep|..] == tail;
  }

  /** `sep` ends in a colon and holds no other: true of every marker the
      auditor searches for, and what keeps two adjacent markers from forming a
      third across their boundary. */
  predicate ColonTerminated(m: string)
  {
    |m| > 0 && m[|m| - 1] == ':' && forall k :: 0 <= k < |m| - 1 ==> m[k] != ':'
  }

  /** If `sep` ends in a colon and holds no other colon, the first occurrence of
      `sep` in `head + sep + tail` is the one right after `head` whenever `head`
      does not contain it: no occurrence can start inside `head` and run into
      the copy of `sep`. */
  lemma FirstAfterColonFreeHead(head: string, sep: string, tail: string)
    requires ColonTerminated(sep)
    requires !Contains(head, sep)
    ensures IndexOf(head + sep + tail, sep) == Some(|head|)
  {
    var s := head + sep + tail;
    assert s[|head|..|head| + |sep|] == sep;
    assert Occurs(s, sep, |head|);
    forall j | 0 <= j < |head|
      ensures !Occurs(s, sep, j)
    {
      if j + |sep| <= |head| {
        assert s[j..j + |sep|] == head[j..j + |sep|];
        assert !Occurs(head, sep, j);
      } else {
        var e := j + |sep| - 1;
        assert s[e] == sep[e - |head|];
        assert s[j..j + |sep|][|sep| - 1] == s[e];
        assert s[e] != ':';
      }
    }
  }

  /** No occurrence of a colon-terminated `sep` starts inside `x + m` in
      `x + m + y`, when `x` is free of `sep`, `m` is another colon-terminated
      marker, neither of the two markers ends the other. */
  lemma NoOccurrenceBeforeMarkerEnd(x: string, m: string, y: string, sep: string)
    requires ColonTerminated(sep) && ColonTerminated(m)
    requires !Contains(x, sep)
    requires |sep| >= |m| ==> sep[|sep| - |m|..] != m
    requires |m| >= |sep| ==> m[|m| - |sep|..] != sep
    ensures forall q :: 0 <= q < |x| + |m| ==> !Occurs(x + m + y, sep, q)
  {
    var s := x + m + y;
    var c := |x| + |m| - 1;  // where the colon of m sits in s
    assert s[c] == ':';
    forall q | 0 <= q < |x| + |m|
      ensures !Occurs(s, sep, q)
    {
      var e := q + |sep| - 1;
      if e < |x| {
        assert s[q..q + |sep|] == x[q..q + |sep|];
        assert !Occurs(x, sep, q);
      } else if e < c {
        assert s[e] == m[e - |x|];
        assert s[q..q + |sep|][|sep| - 1] == s[e];
      } else if e == c {
        if q <= |x| {
          assert s[q..q + |sep|][|sep| - |m|..] == m;
        } else {
          assert s[q..q + |sep|] == m[|m| - |sep|..];
        }
      } else if e < |s| {
        assert s[q..q + |sep|][c - q] == s[c];
      }
    }
  }

  /** The characters Python's `str.isspace` accepts, which `strip()` with no
      argument removes: the ASCII controls `\t` to `\r` and `\x1c` to
      `\x1f`, the space, NEL, NO-BREAK SPACE and the Unicode space and
      separator characters. */
  const Whitespace: set<char> := {
    '\t', '\n', '\U{0B}', '\U{0C}', '\r', '\U{1C}', '\U{1D}', '\U{1E}', '\U{1F}', ' ',
    '\U{85}', '\U{A0}', '\U{1680}',
    '\U{2000}', '\U{2001}', '\U{2002}', '\U{2003}', '\U{2004}', '\U{2005}',
    '\U{2006}', '\U{2007}', '\U{2008}', '\U{2009}', '\U{200A}',
    '\U{2028}', '\U{2029}', '\U{202F}', '\U{205F}', '\U{3000}'
  }

  /** Python's `str.isspace` on one character. */
  predicate IsSpace(c: char)
  {
    c in Whitespace
  }

  predicate AllSpace(s: string)
  {
    forall k :: 0 <= k < |s| ==> IsSpace(s[k])
  }

  /** The number of whitespace characters `s` starts with. */
  function LeadingSpace(s: string): (n: nat)
    ensures n <= |s| && AllSpace(s[..n]) && (n == |s| || !IsSpace(s[n]))
  {
    if s != [] && IsSpace(s[0]) then
      var m := LeadingSpace(s[1..]);
      SpacePrefixGrows(s, m);
      m + 1
    else 0
  }

  /** A whitespace first character followed by whitespace is whitespace. */
  lemma SpacePrefixGrows(s: string, n: nat)
    requires n < |s| && IsSpace(s[0]) && AllSpace(s[1..][..n])
    requires n == |s| - 1 || !IsSpace(s[1..][n])
    ensures AllSpace(s[..n + 1]) && (n + 1 == |s| || !IsSpace(s[n + 1]))
  {
    assert s[..n + 1] == [s[0]] + s[1..][..n];
  }

  /** Python's `s.lstrip()`. */
  function TrimLeft(s: string): (r: string)
    ensures |r| <= |s| && r == s[|s| - |r|..]
    ensures AllSpace(s[..|s| - |r|])
    ensures r == [] || !IsSpace(r[0])
  {
    s[LeadingSpace(s)..]
  }

  /** Python's `s.rstrip()`. */
  function TrimRight(s: string): (r: string)
    ensures |r| <= |s| && r == s[..|r|]
    ensures AllSpace(s[|r|..])
    ensures r == [] || !IsSpace(r[|r| - 1])
  {
    if s != [] && IsSpace(s[|s| - 1]) then
      var r := TrimRight(s[..|s| - 1]);
      SpaceSuffixGrows(s, |r|);
      r
    else s
  }

  /** Whitespace followed by a whitespace last character is whitespace. */
  lemma SpaceSuffixGrows(s: string, n: nat)
    requires n < |s| && IsSpace(s[|s| - 1]) && AllSpace(s[..|s| - 1][n..])
    ensures AllSpace(s[n..]) && s[..|s| - 1][..n] == s[..n]
  {
    assert forall k :: 0 <= k < |s| - 1 - n ==> s[n..][k] == s[..|s| - 1][n..][k];
  }

  /** `r` is `s` with the whitespace prefix `s[..i]` and a whitespace suffix removed. */
  predicate StrippedAt(s: string, r: string, i: int)
  {
    0 <= i <= |s| - |r| && r == s[i..i + |r|] && AllSpace(s[..i]) && AllSpace(s[i + |r|..])
  }

  /** Python's `s.strip()`: `s` without its leading and trailing whitespace. */
  function Strip(s: string): (r: string)
    ensures r == [] || (!IsSpace(r[0]) && !IsSpace(r[|r| - 1]))
    ensures StrippedAt(s, r, LeadingSpace(s))
  {
    var i := LeadingSpace(s);
    var r := TrimRight(s[i..]);
    TrimmedBothEnds(s, i, r);
    r
  }

  /** The shape `Strip` has: the whitespace prefix dropped, then what
      `rstrip` leaves of the rest. */
  lemma TrimmedBothEnds(s: string, i: nat, r: string)
    requires i <= |s| && AllSpace(s[..i]) && (i == |s| || !IsSpace(s[i]))
    requires |r| <= |s| - i && r == s[i..][..|r|] && AllSpace(s[i..][|r|..])
    requires r == [] || !IsSpace(r[|r| - 1])
    ensures r == [] || (!IsSpace(r[0]) && !IsSpace(r[|r| - 1]))
    ensures StrippedAt(s, r, i)
  {
    assert s[i..i + |r|] == r;
    assert s[i + |r|..] == s[i..][|r|..];
  }

  /** Whitespace followed by a non-space character or nothing: `lstrip`
      removes exactly the whitespace. */
  lemma TrimLeftPastSpace(lead: string, t: string)
    requires AllSpace(lead) && (t == [] || !IsSpace(t[0]))
    ensures TrimLeft(lead + t) == t
  {
    LeadingSpacePast(lead, t);
    assert (lead + t)[|lead|..] == t;
  }

  lemma {:induction false} LeadingSpacePast(lead: string, t: string)
    requires AllSpace(lead) && (t == [] || !IsSpace(t[0]))
    ensures LeadingSpace(lead + t) == |lead|
  {
    if lead == [] {
      assert lead + t == t;
    } else {
      assert (lead + t)[0] == lead[0];
      assert (lead + t)[1..] == lead[1..] + t;
      LeadingSpacePast(lead[1..], t);
    }
  }

  lemma {:induction false} TrimRightPastSpace(t: string, trail: string)
    requires AllSpace(trail) && (t == [] || !IsSpace(t[|t| - 1]))
    ensures TrimRight(t + trail) == t
  {
    if trail == [] {
      assert t + trail == t;
    } else {
      var n := |trail| - 1;
      assert (t + trail)[|t + trail| - 1] == trail[n];
      assert (t + trail)[..|t + trail| - 1] == t + trail[..n];
      TrimRightPastSpace(t, trail[..n]);
    }
  }

  /** The characterisation of `Strip` pins it down: any string laid out as
      whitespace, then `core`, then whitespace, strips to `core` when `core`
      neither starts nor ends with whitespace. */
  lemma StripUnique(lead: string, core: string, trail: string)
    requires AllSpace(lead) && AllSpace(trail)
    requires core == [] || (!IsSpace(core[0]) && !IsSpace(core[|core| - 1]))
    ensures Strip(lead + core + trail) == core
  {
    assert lead + core + trail == lead + (core + trail);
    if core == [] {
      assert core + trail == trail;
      assert lead + trail == (lead + trail) + [];
      TrimLeftPastSpace(lead + trail, []);
    } else {
      TrimLeftPastSpace(lead, core + trail);
      TrimRightPastSpace(core, trail);
    }
  }

  /** Python's `str.isdigit`, restricted to the ASCII digits. */
  predicate IsDigit(c: char)
  {
    '0' <= c <= '9'
  }

  /** `"".join(filter(str.isdigit, s))`: the digits of `s`, in order. */
  function Digits(s: string): (r: string)
    ensures |r| <= |s|
    ensures forall k :: 0 <= k < |r| ==> IsDigit(r[k])
    ensures (forall k :: 0 <= k < |s| ==> IsDigit(s[k])) ==> r == s
    ensures (forall k :: 0 <= k < |s| ==> !IsDigit(s[k])) ==> r == []
  {
    if s == [] then []
    else (if IsDigit(s[0]) then [s[0]] else []) + Digits(s[1..])
  }

  /** Filtering digits distributes over concatenation. */
  lemma {:induction false} DigitsAppend(a: string, b: string)
    ensures Digits(a + b) == Digits(a) + Digits(b)
  {
    if a == [] {
      assert a + b == b;
    } else {
      var h := if IsDigit(a[0]) then [a[0]] else [];
      assert (a + b)[0] == a[0];
      assert (a + b)[1..] == a[1..] + b;
      DigitsAppend(a[1..], b);
      calc {
        Digits(a + b);
        h + Digits(a[1..] + b);
        h + (Digits(a[1..]) + Digits(b));
        (h + Digits(a[1..])) + Digits(b);
      }
    }
  }
}
