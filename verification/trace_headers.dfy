/** The parsers of `analyze_video.py` that read the text ffmpeg's
    `trace_headers` filter prints: `parse_sps_parameters` and
    `parse_pps_parameters` (the `name = value` lines of one kind of
    parameter-set section, the last value of a name winning) and
    `parse_slice_headers` (the first five slice headers, each the
    `name = value` lines up to the next header).

    Strings are sequences of characters; the parts of Python's string
    library the parsers use (`split('\n')`, `split('=')`, `strip()`,
    `split()`, `in`) are defined here with Python's meaning. A dictionary is
    a map (the order of its keys is not modelled). */
module TraceHeaders {
  import opened Common

  const SPS_MARK: string := "Sequence Parameter Set"
  const PPS_MARK: string := "Picture Parameter Set"
  const SLICE_MARK: string := "Slice Header"

  /** The slice-header parser stops after this many headers. */
  const MAX_SLICE_HEADERS: nat := 5

  // ---------------------------------------------------------------------
  // Python string operations.

  /** `pat in line`. */
  predicate Contains(line: string, pat: string)
  {
    exists i: nat | i <= |line| :: MatchAt(line, pat, i)
  }

  /** `pat` occurs in `line` from index `i`. */
  predicate MatchAt(line: string, pat: string, i: nat)
  {
    i + |pat| <= |line| && line[i..i + |pat|] == pat
  }

  /** The characters `str.isspace()` accepts. */
  predicate IsSpace(c: char)
  {
    || c == ' ' || '\t' <= c <= '\r' || '\U{001C}' <= c <= '\U{001F}'
    || c == '\U{0085}' || c == '\U{00A0}' || c == '\U{1680}' || '\U{2000}' <= c <= '\U{200A}'
    || c == '\U{2028}' || c == '\U{2029}' || c == '\U{202F}' || c == '\U{205F}' || c == '\U{3000}'
  }

  /** The first separator at or after `i`, or the end of the text. */
  function NextSep(s: string, sep: char, i: nat): (j: nat)
    requires i <= |s|
    ensures i <= j <= |s| && (j < |s| ==> s[j] == sep)
    ensures forall k | i <= k < j :: s[k] != sep
    decreases |s| - i
  {
    if i == |s| || s[i] == sep then i else NextSep(s, sep, i + 1)
  }

  /** The pieces of `s[i..]` between separators. */
  function SplitFrom(s: string, sep: char, i: nat): (parts: seq<string>)
    requires i <= |s|
    ensures |parts| >= 1
    ensures forall k | 0 <= k < |parts| :: sep !in parts[k]
    decreases |s| - i
  {
    var j := NextSep(s, sep, i);
    assert forall k | 0 <= k < j - i :: s[i..j][k] == s[i + k];
    if j == |s| then [s[i..]] else [s[i..j]] + SplitFrom(s, sep, j + 1)
  }

  /** `s.split(sep)`: the pieces between the separators, at least one,
      none containing the separator. */
  function SplitOn(s: string, sep: char): (parts: seq<string>)
    ensures |parts| >= 1
    ensures forall k | 0 <= k < |parts| :: sep !in parts[k]
  {
    SplitFrom(s, sep, 0)
  }

  /** `sep.join(parts)`. */
  function Join(parts: seq<string>, sep: char): string
    requires |parts| >= 1
    decreases |parts|
  {
    if |parts| == 1 then parts[0] else parts[0] + [sep] + Join(parts[1..], sep)
  }

  lemma {:induction false} JoinSplitFrom(s: string, sep: char, i: nat)
    requires i <= |s|
    ensures Join(SplitFrom(s, sep, i), sep) == s[i..]
    decreases |s| - i
  {
    var j := NextSep(s, sep, i);
    SplitStep(s, sep, i);
    if j < |s| {
      JoinSplitFrom(s, sep, j + 1);
      JoinAround(s, sep, i, j, SplitFrom(s, sep, j + 1));
    } else {
      assert SplitFrom(s, sep, i) == [s[i..]];
    }
  }

  /** Joining the piece before a separator at `j` with the pieces after it
      gives the text from `i`, once those pieces join to the text after
      `j`. */
  lemma JoinAround(s: string, sep: char, i: nat, j: nat, rest: seq<string>)
    requires i <= j < |s| && s[j] == sep
    requires |rest| >= 1 && Join(rest, sep) == s[j + 1..]
    ensures Join([s[i..j]] + rest, sep) == s[i..]
  {
    calc {
      Join([s[i..j]] + rest, sep);
      { JoinCons(s[i..j], rest, sep); }
      s[i..j] + [sep] + Join(rest, sep);
      s[i..j] + [sep] + s[j + 1..];
      { SliceAround(s, sep, i, j); }
      s[i..];
    }
  }

  /** A text from `i` on is the part before a separator at `j`, the
      separator and the part after it. */
  lemma SliceAround(s: string, sep: char, i: nat, j: nat)
    requires i <= j < |s| && s[j] == sep
    ensures s[i..] == s[i..j] + [sep] + s[j + 1..]
  {
  }

  /** One piece off the front of a split. */
  lemma SplitStep(s: string, sep: char, i: nat)
    requires i <= |s|
    ensures var j := NextSep(s, sep, i);
            SplitFrom(s, sep, i) == if j == |s| then [s[i..]] else [s[i..j]] + SplitFrom(s, sep, j + 1)
  {
  }

  /** Joining a piece in front of at least one more puts a separator
      between them. */
  lemma JoinCons(a: string, rest: seq<string>, sep: char)
    requires |rest| >= 1
    ensures Join([a] + rest, sep) == a + [sep] + Join(rest, sep)
  {
    assert ([a] + rest)[1..] == rest;
  }

  /** Splitting loses nothing: joining the pieces gives the text back. */
  lemma JoinSplit(s: string, sep: char)
    ensures Join(SplitOn(s, sep), sep) == s
  {
    JoinSplitFrom(s, sep, 0);
    assert s[0..] == s;
  }

  /** A text with exactly one separator splits into the text before it and
      the text after it. */
  lemma SplitOnce(a: string, b: string, sep: char)
    requires sep !in a && sep !in b
    ensures SplitOn(a + [sep] + b, sep) == [a, b]
  {
    var s := a + [sep] + b;
    assert forall k | 0 <= k < |a| :: s[k] == a[k];
    assert forall k | |a| < k < |s| :: s[k] == b[k - |a| - 1];
    NextSepAt(s, sep, 0, |a|);
    NextSepAt(s, sep, |a| + 1, |s|);
    assert s[0..|a|] == a && s[|a| + 1..] == b;
    assert SplitFrom(s, sep, |a| + 1) == [b];
    assert SplitFrom(s, sep, 0) == [a] + [b];
  }

  /** When no separator lies in `s[i..j]` and `j` is a separator or the
      end, the next separator from `i` is `j`. */
  lemma {:induction false} NextSepAt(s: string, sep: char, i: nat, j: nat)
    requires i <= j <= |s|
    requires forall k | i <= k < j :: s[k] != sep
    requires j < |s| ==> s[j] == sep
    ensures NextSep(s, sep, i) == j
    decreases j - i
  {
    if i < j {
      NextSepAt(s, sep, i + 1, j);
    }
  }

  /** `s.lstrip()`: the longest suffix that does not start with a space. */
  function StripLeft(s: string): (r: string)
    ensures |r| <= |s| && r == s[|s| - |r|..]
    ensures |r| > 0 ==> !IsSpace(r[0])
    ensures forall k | 0 <= k < |s| - |r| :: IsSpace(s[k])
    decreases |s|
  {
    if |s| > 0 && IsSpace(s[0]) then StripLeft(s[1..]) else s
  }

  /** `s.rstrip()`: the longest prefix that does not end with a space. */
  function StripRight(s: string): (r: string)
    ensures |r| <= |s| && r == s[..|r|]
    ensures |r| > 0 ==> !IsSpace(r[|r| - 1])
    ensures forall k | |r| <= k < |s| :: IsSpace(s[k])
    decreases |s|
  {
    if |s| > 0 && IsSpace(s[|s| - 1]) then StripRight(s[..|s| - 1]) else s
  }

  /** `s.strip()`. */
  function Strip(s: string): string
  {
    StripRight(StripLeft(s))
  }

  /** The length of the word `s` starts with: the characters up to the
      first space. */
  function WordLength(s: string): (n: nat)
    ensures n <= |s|
    ensures forall j | 0 <= j < n :: !IsSpace(s[j])
    ensures n < |s| ==> IsSpace(s[n])
    decreases |s|
  {
    if |s| == 0 || IsSpace(s[0]) then 0 else 1 + WordLength(s[1..])
  }

  /** A non-empty run of non-space characters. */
  predicate IsRun(w: string)
  {
    |w| > 0 && forall j | 0 <= j < |w| :: !IsSpace(w[j])
  }

  /** `s.split()`: the maximal runs of non-space characters, in order. */
  function Words(s: string): (ws: seq<string>)
    ensures forall k | 0 <= k < |ws| :: IsRun(ws[k])
    decreases |s|
  {
    if |s| == 0 then []
    else if IsSpace(s[0]) then Words(s[1..])
    else
      var n := WordLength(s);
      [s[..n]] + Words(s[n..])
  }

  // ---------------------------------------------------------------------
  // One `name = value` line.

  /** The parameter of a trace line as the parsers read it: a line with
      exactly one `=`, the last word before it as the name and the
      stripped text after it as the value. */
  function ParamOf(line: string): (r: Option<(string, string)>)
    ensures r.Some? ==> '=' in line && |r.value.0| > 0
    ensures r.Some? ==> forall j | 0 <= j < |r.value.0| :: !IsSpace(r.value.0[j]) && r.value.0[j] != '='
  {
    var parts := SplitOn(line, '=');
    if |parts| != 2 then None
    else
      var words := Words(Strip(parts[0]));
      if |words| == 0 then None
      else
        assert '=' in line by {
          JoinSplit(line, '=');
          assert line == parts[0] + ['='] + parts[1];
          assert line[|parts[0]|] == '=';
        }
        WordsInside(Strip(parts[0]), '=');
        Some((words[|words| - 1], Strip(parts[1])))
  }

  /** The words of a text are made of its characters. */
  lemma {:induction false} WordsInside(s: string, c: char)
    requires c !in s
    ensures forall k, j | 0 <= k < |Words(s)| && 0 <= j < |Words(s)[k]| :: Words(s)[k][j] != c
    decreases |s|
  {
    if |s| > 0 {
      if IsSpace(s[0]) {
        assert c !in s[1..];
        WordsInside(s[1..], c);
      } else {
        var n := WordLength(s);
        assert c !in s[n..];
        WordsInside(s[n..], c);
        assert forall j | 0 <= j < n :: s[..n][j] == s[j];
      }
    }
  }

  /** A trace line as `trace_headers` prints a syntax element: its name,
      its bits, an `=` and its value. */
  function TraceLine(name: string, bits: string, value: string): string
  {
    name + " " + bits + " = " + value
  }

  /** A word: non-empty, with neither spaces nor `=`. */
  predicate IsWord(s: string)
  {
    |s| > 0 && forall j | 0 <= j < |s| :: !IsSpace(s[j]) && s[j] != '='
  }

  /** As written, the key the parsers file a syntax element under is its
      bit string, not its name. */
  lemma TraceLineAsWritten(name: string, bits: string, value: string)
    requires IsWord(name) && IsWord(bits) && IsWord(value)
    ensures ParamOf(TraceLine(name, bits, value)) == Some((bits, value))
  {
    TraceLineParts(name, bits, value);
  }

  /** The example line the parser's own comment shows is filed under
      `01100100`. */
  lemma ProfileLineAsWritten()
    ensures ParamOf("profile_idc 01100100 = 100") == Some(("01100100", "100"))
  {
    assert TraceLine("profile_idc", "01100100", "100") == "profile_idc 01100100 = 100";
    TraceLineAsWritten("profile_idc", "01100100", "100");
  }

  /** The line parser evidently intended: the name is the word before the
      bit string (or the only word, when a line has no bits). */
  function NamedParamOf(line: string): (r: Option<(string, string)>)
    ensures r.Some? <==> ParamOf(line).Some?
    ensures r.Some? ==> r.value.1 == ParamOf(line).value.1
  {
    var parts := SplitOn(line, '=');
    if |parts| != 2 then None
    else
      var words := Words(Strip(parts[0]));
      if |words| == 0 then None
      else if |words| == 1 then Some((words[0], Strip(parts[1])))
      else Some((words[|words| - 2], Strip(parts[1])))
  }

  /** The intended parser reads a syntax element's own name and value. */
  lemma TraceLineNamed(name: string, bits: string, value: string)
    requires IsWord(name) && IsWord(bits) && IsWord(value)
    ensures NamedParamOf(TraceLine(name, bits, value)) == Some((name, value))
  {
    TraceLineParts(name, bits, value);
  }

  /** How a trace line falls apart: at its one `=`, into two words before
      it and the value after it. */
  lemma TraceLineParts(name: string, bits: string, value: string)
    requires IsWord(name) && IsWord(bits) && IsWord(value)
    ensures SplitOn(TraceLine(name, bits, value), '=') == [name + " " + bits + " ", " " + value]
    ensures Strip(" " + value) == value
    ensures Words(Strip(name + " " + bits + " ")) == [name, bits]
  {
    var before := name + " " + bits + " ";
    var after := " " + value;
    assert '=' !in before by {
      forall j | 0 <= j < |before| ensures before[j] != '=' {
        if j < |name| { assert before[j] == name[j]; }
        else if j == |name| { }
        else if j < |name| + 1 + |bits| { assert before[j] == bits[j - |name| - 1]; }
      }
    }
    assert '=' !in after by {
      forall j | 0 <= j < |after| ensures after[j] != '=' {
        if j > 0 { assert after[j] == value[j - 1]; }
      }
    }
    assert TraceLine(name, bits, value) == before + ['='] + after;
    SplitOnce(before, after, '=');
    assert after[1..] == value;
    NoSpaceEnds(value);
    assert StripLeft(after) == StripLeft(value);
    assert (name + " " + bits + " ")[..|before| - 1] == name + " " + bits;
    NoSpaceEnds(name);
    NoSpaceEnds(name + " " + bits);
    assert StripRight(before) == StripRight(name + " " + bits);
    TwoWords(name, bits);
  }

  /** A text that neither starts nor ends with a space strips to itself. */
  lemma NoSpaceEnds(s: string)
    requires |s| > 0 && !IsSpace(s[0]) && !IsSpace(s[|s| - 1])
    ensures StripLeft(s) == s && StripRight(s) == s && Strip(s) == s
  {
  }

  /** Two words with a space between them split into those two words. */
  lemma TwoWords(a: string, b: string)
    requires IsWord(a) && IsWord(b)
    ensures Words(a + " " + b) == [a, b]
  {
    var rest := " " + b;
    assert a + " " + b == a + rest;
    WordThen(a, rest);
    SpaceThen(b);
    OneWord(b);
    calc {
      Words(a + " " + b);
      Words(a + rest);
      [a] + Words(rest);
      [a] + Words(b);
      [a] + [b];
    }
  }

  /** A word followed by a space-led text is that word, then the text's
      words. */
  lemma WordThen(a: string, rest: string)
    requires IsWord(a) && |rest| > 0 && IsSpace(rest[0])
    ensures Words(a + rest) == [a] + Words(rest)
  {
    var s := a + rest;
    OneWordFirst(a, rest);
    assert s[..|a|] == a && s[|a|..] == rest;
  }

  /** A leading space does not change the words. */
  lemma SpaceThen(b: string)
    ensures Words(" " + b) == Words(b)
  {
    assert (" " + b)[1..] == b;
  }

  /** A word alone is one word. */
  lemma OneWord(b: string)
    requires IsWord(b)
    ensures Words(b) == [b]
  {
    OneWordFirst(b, "");
    assert b + "" == b;
    assert b[..|b|] == b;
    assert b[|b|..] == "";
  }

  /** A word followed by nothing or by a space is the first word. */
  lemma {:induction false} OneWordFirst(a: string, rest: string)
    requires IsWord(a)
    requires |rest| == 0 || IsSpace(rest[0])
    ensures WordLength(a + rest) == |a|
    decreases |a|
  {
    if |a| > 1 {
      assert (a + rest)[1..] == a[1..] + rest;
      OneWordFirst(a[1..], rest);
    } else {
      assert (a + rest)[1..] == rest;
    }
  }

  // ---------------------------------------------------------------------
  // Parameter-set sections.

  /** A kind of section: the header line that opens it and the two header
      lines that close it. */
  datatype Section = Section(opener: string, closerA: string, closerB: string)

  const SPS_SECTION: Section := Section(SPS_MARK, PPS_MARK, SLICE_MARK)
  const PPS_SECTION: Section := Section(PPS_MARK, SLICE_MARK, SPS_MARK)

  /** The line opens or closes a section, and so holds no parameter. */
  predicate IsMarker(line: string, sec: Section)
  {
    Contains(line, sec.opener) || Contains(line, sec.closerA) || Contains(line, sec.closerB)
  }

  /** Whether the parser is inside a section when it reaches line `i`: the
      last marker line before it opened one. */
  function InSection(lines: seq<string>, sec: Section, i: nat): bool
    requires i <= |lines|
  {
    if i == 0 then false
    else if Contains(lines[i - 1], sec.opener) then true
    else if Contains(lines[i - 1], sec.closerA) || Contains(lines[i - 1], sec.closerB) then false
    else InSection(lines, sec, i - 1)
  }

  /** Line `i` is a parameter of the section. */
  predicate ParamAt(lines: seq<string>, sec: Section, param: string -> Option<(string, string)>, i: nat)
  {
    i < |lines| && InSection(lines, sec, i) && !IsMarker(lines[i], sec) && '=' in lines[i] && param(lines[i]).Some?
  }

  /** The parameters of the section among the first `n` lines, read by
      `param`, a later value of a name replacing an earlier one. */
  function Collect(lines: seq<string>, sec: Section, param: string -> Option<(string, string)>, n: nat): map<string, string>
    requires n <= |lines|
  {
    if n == 0 then map[]
    else
      var m := Collect(lines, sec, param, n - 1);
      if ParamAt(lines, sec, param, n - 1) then
        var (name, value) := param(lines[n - 1]).value;
        m[name := value]
      else m
  }

  /** Every name collected comes from a parameter line of the section. */
  lemma {:induction false} CollectedFromLines(lines: seq<string>, sec: Section, param: string -> Option<(string, string)>, n: nat)
    requires n <= |lines|
    ensures forall name | name in Collect(lines, sec, param, n) ::
      exists i | 0 <= i < n :: ParamAt(lines, sec, param, i) && param(lines[i]).value == (name, Collect(lines, sec, param, n)[name])
  {
    if n > 0 {
      CollectedFromLines(lines, sec, param, n - 1);
    }
  }

  /** The value of a name is that of its last parameter line in the
      section. */
  lemma {:induction false} LastValueWins(lines: seq<string>, sec: Section, param: string -> Option<(string, string)>, n: nat, i: nat)
    requires n <= |lines| && i < n && ParamAt(lines, sec, param, i)
    requires forall j | i < j < n :: !(ParamAt(lines, sec, param, j) && param(lines[j]).value.0 == param(lines[i]).value.0)
    ensures param(lines[i]).value.0 in Collect(lines, sec, param, n)
    ensures Collect(lines, sec, param, n)[param(lines[i]).value.0] == param(lines[i]).value.1
  {
    if i < n - 1 {
      LastValueWins(lines, sec, param, n - 1, i);
    }
  }

  /** The parameters of one kind of section in a trace, read by `param`:
      every name comes from a parameter line of such a section, with that
      line's value. */
  function SectionParameters(trace: string, sec: Section, param: string -> Option<(string, string)>): (params: map<string, string>)
    ensures var lines := SplitOn(trace, '\n');
      forall name | name in params ::
        exists i | 0 <= i < |lines| :: ParamAt(lines, sec, param, i) && param(lines[i]).value == (name, params[name])
  {
    var lines := SplitOn(trace, '\n');
    CollectedFromLines(lines, sec, param, |lines|);
    Collect(lines, sec, param, |lines|)
  }

  /** The value a name gets is that of its last parameter line in the
      section. */
  lemma SectionLastWins(trace: string, sec: Section, param: string -> Option<(string, string)>, i: nat)
    requires var lines := SplitOn(trace, '\n');
      && ParamAt(lines, sec, param, i)
      && forall j | i < j < |lines| :: !(ParamAt(lines, sec, param, j) && param(lines[j]).value.0 == param(lines[i]).value.0)
    ensures var lines := SplitOn(trace, '\n');
      && param(lines[i]).value.0 in SectionParameters(trace, sec, param)
      && SectionParameters(trace, sec, param)[param(lines[i]).value.0] == param(lines[i]).value.1
  {
    var lines := SplitOn(trace, '\n');
    LastValueWins(lines, sec, param, |lines|, i);
  }

  /** Line `i` is a parameter of the section whose key no later parameter
      line of the section repeats. */
  predicate LastParamAt(lines: seq<string>, sec: Section, param: string -> Option<(string, string)>, i: nat)
  {
    && ParamAt(lines, sec, param, i)
    && forall j | i < j < |lines| :: !(ParamAt(lines, sec, param, j) && param(lines[j]).value.0 == param(lines[i]).value.0)
  }

  /** What reading a section yields: every entry comes from a parameter
      line of the section, and every parameter line that is the last for
      its key gives that key its value. */
  predicate SectionReading(trace: string, sec: Section, param: string -> Option<(string, string)>, params: map<string, string>)
  {
    var lines := SplitOn(trace, '\n');
    && (forall name | name in params ::
          exists i | 0 <= i < |lines| :: ParamAt(lines, sec, param, i) && param(lines[i]).value == (name, params[name]))
    && (forall i | 0 <= i < |lines| && LastParamAt(lines, sec, param, i) ::
          param(lines[i]).value.0 in params && params[param(lines[i]).value.0] == param(lines[i]).value.1)
  }

  /** The section reader yields exactly the last value of every key its
      section's parameter lines mention. */
  lemma SectionReads(trace: string, sec: Section, param: string -> Option<(string, string)>)
    ensures SectionReading(trace, sec, param, SectionParameters(trace, sec, param))
  {
    var lines := SplitOn(trace, '\n');
    forall i | 0 <= i < |lines| && LastParamAt(lines, sec, param, i)
      ensures var params := SectionParameters(trace, sec, param);
        param(lines[i]).value.0 in params && params[param(lines[i]).value.0] == param(lines[i]).value.1
    {
      SectionLastWins(trace, sec, param, i);
    }
  }

  /** `parse_sps_parameters`, as written. */
  function ParseSpsParameters(trace: string): (params: map<string, string>)
    ensures SectionReading(trace, SPS_SECTION, ParamOf, params)
  {
    SectionReads(trace, SPS_SECTION, ParamOf);
    SectionParameters(trace, SPS_SECTION, ParamOf)
  }

  /** `parse_pps_parameters`, as written. */
  function ParsePpsParameters(trace: string): (params: map<string, string>)
    ensures SectionReading(trace, PPS_SECTION, ParamOf, params)
  {
    SectionReads(trace, PPS_SECTION, ParamOf);
    SectionParameters(trace, PPS_SECTION, ParamOf)
  }

  /** `parse_sps_parameters` with the intended line reader. */
  function ParseSpsParametersNamed(trace: string): map<string, string>
  {
    SectionParameters(trace, SPS_SECTION, NamedParamOf)
  }

  /** `parse_pps_parameters` with the intended line reader. */
  function ParsePpsParametersNamed(trace: string): map<string, string>
  {
    SectionParameters(trace, PPS_SECTION, NamedParamOf)
  }

  /** As written, a syntax element printed as `name bits = value` inside a
      section, and not printed again later in one, is filed under its bit
      string. */
  lemma SectionElementAsWritten(trace: string, sec: Section, i: nat, name: string, bits: string, value: string)
    requires IsWord(name) && IsWord(bits) && IsWord(value)
    requires var lines := SplitOn(trace, '\n');
      && i < |lines| && lines[i] == TraceLine(name, bits, value)
      && InSection(lines, sec, i) && !IsMarker(lines[i], sec)
      && forall j | i < j < |lines| :: !(ParamAt(lines, sec, ParamOf, j) && ParamOf(lines[j]).value.0 == bits)
    ensures bits in SectionParameters(trace, sec, ParamOf)
    ensures SectionParameters(trace, sec, ParamOf)[bits] == value
  {
    TraceLineAsWritten(name, bits, value);
    SectionLastWins(trace, sec, ParamOf, i);
  }

  /** With the intended reader, the same element is found under its own
      name, with its value. */
  lemma SectionElementNamed(trace: string, sec: Section, i: nat, name: string, bits: string, value: string)
    requires IsWord(name) && IsWord(bits) && IsWord(value)
    requires var lines := SplitOn(trace, '\n');
      && i < |lines| && lines[i] == TraceLine(name, bits, value)
      && InSection(lines, sec, i) && !IsMarker(lines[i], sec)
      && forall j | i < j < |lines| :: !(ParamAt(lines, sec, NamedParamOf, j) && NamedParamOf(lines[j]).value.0 == name)
    ensures name in SectionParameters(trace, sec, NamedParamOf)
    ensures SectionParameters(trace, sec, NamedParamOf)[name] == value
  {
    TraceLineNamed(name, bits, value);
    SectionLastWins(trace, sec, NamedParamOf, i);
  }

  // ---------------------------------------------------------------------
  // Slice headers.

  /** The slice-header parser's state: the headers finished so far, the one
      being read and whether lines belong to it. */
  datatype SliceScan = SliceScan(headers: seq<map<string, string>>, current: map<string, string>, inSlice: bool)

  /** One line of the scan, and whether the line reaches the five-header
      check at the end of the loop body (a header line skips it). */
  function SliceStep(s: SliceScan, line: string, param: string -> Option<(string, string)>): (r: (SliceScan, bool))
    ensures r.0.headers == s.headers || r.0.headers == s.headers + [s.current]
    ensures r.0.headers != s.headers ==> s.current != map[] && r.0.current == map[]
    ensures r.1 ==> r.0.headers == s.headers
  {
    if Contains(line, SLICE_MARK) then
      (SliceScan(if s.current != map[] then s.headers + [s.current] else s.headers, map[], true), false)
    else if (Contains(line, PPS_MARK) || Contains(line, SPS_MARK)) && s.current != map[] then
      (SliceScan(s.headers + [s.current], map[], false), false)
    else if s.inSlice && '=' in line && param(line).Some? then
      var (name, value) := param(line).value;
      (SliceScan(s.headers, s.current[name := value], s.inSlice), true)
    else (s, true)
  }

  /** The loop of `parse_slice_headers` from line `i`: it breaks once five
      headers are finished, and a header still open at the end is kept only
      while there are fewer than five. */
  function ScanFrom(lines: seq<string>, i: nat, s: SliceScan, param: string -> Option<(string, string)>): seq<map<string, string>>
    requires i <= |lines|
    decreases |lines| - i
  {
    if i == |lines| then
      if s.current != map[] && |s.headers| < MAX_SLICE_HEADERS then s.headers + [s.current] else s.headers
    else
      var (s', checked) := SliceStep(s, lines[i], param);
      if checked && |s'.headers| >= MAX_SLICE_HEADERS then s'.headers
      else ScanFrom(lines, i + 1, s', param)
  }

  /** Every slice header of the trace, with no limit: the same scan run to
      the end. */
  function AllFrom(lines: seq<string>, i: nat, s: SliceScan, param: string -> Option<(string, string)>): seq<map<string, string>>
    requires i <= |lines|
    decreases |lines| - i
  {
    if i == |lines| then
      if s.current != map[] then s.headers + [s.current] else s.headers
    else AllFrom(lines, i + 1, SliceStep(s, lines[i], param).0, param)
  }

  const START: SliceScan := SliceScan([], map[], false)

  function AllSliceHeaders(trace: string, param: string -> Option<(string, string)>): seq<map<string, string>>
  {
    var lines := SplitOn(trace, '\n');
    AllFrom(lines, 0, START, param)
  }

  /** `parse_slice_headers` (with `param` reading each line): at most five
      headers, and they are the first ones of the trace, in order. */
  function ParseSliceHeaders(trace: string, param: string -> Option<(string, string)>): (hs: seq<map<string, string>>)
    ensures |hs| <= MAX_SLICE_HEADERS
    ensures var all := AllSliceHeaders(trace, param);
      hs == all[..if |all| < MAX_SLICE_HEADERS then |all| else MAX_SLICE_HEADERS]
  {
    var lines := SplitOn(trace, '\n');
    ScanIsPrefix(lines, 0, START, param);
    ScanFrom(lines, 0, START, param)
  }

  /** The scan never holds more than five finished headers, and none while
      a sixth is open. */
  predicate Bounded(s: SliceScan)
  {
    |s.headers| <= MAX_SLICE_HEADERS && (|s.headers| == MAX_SLICE_HEADERS ==> s.current == map[])
  }

  /** Headers once finished stay: the full scan extends the headers of any
      state it passes through. */
  lemma {:induction false} AllExtends(lines: seq<string>, i: nat, s: SliceScan, param: string -> Option<(string, string)>)
    requires i <= |lines|
    ensures |s.headers| <= |AllFrom(lines, i, s, param)|
    ensures AllFrom(lines, i, s, param)[..|s.headers|] == s.headers
    decreases |lines| - i
  {
    if i < |lines| {
      var s' := SliceStep(s, lines[i], param).0;
      AllExtends(lines, i + 1, s', param);
      assert s'.headers[..|s.headers|] == s.headers;
    }
  }

  /** The limited scan is the full scan cut to its first five headers. */
  lemma {:induction false} ScanIsPrefix(lines: seq<string>, i: nat, s: SliceScan, param: string -> Option<(string, string)>)
    requires i <= |lines| && Bounded(s)
    ensures var all := AllFrom(lines, i, s, param);
      ScanFrom(lines, i, s, param) == all[..if |all| < MAX_SLICE_HEADERS then |all| else MAX_SLICE_HEADERS]
    decreases |lines| - i
  {
    var all := AllFrom(lines, i, s, param);
    if i == |lines| {
      assert all[..|all|] == all;
    } else {
      var (s', checked) := SliceStep(s, lines[i], param);
      if checked && |s'.headers| >= MAX_SLICE_HEADERS {
        AllExtends(lines, i + 1, s', param);
      } else {
        ScanIsPrefix(lines, i + 1, s', param);
      }
    }
  }

  /** `parse_slice_headers` as written. */
  function ParseSliceHeadersAsWritten(trace: string): (hs: seq<map<string, string>>)
    ensures |hs| <= MAX_SLICE_HEADERS
    ensures var all := AllSliceHeaders(trace, ParamOf);
      hs == all[..if |all| < MAX_SLICE_HEADERS then |all| else MAX_SLICE_HEADERS]
  {
    ParseSliceHeaders(trace, ParamOf)
  }

  /** `parse_slice_headers` with the intended line reader. */
  function ParseSliceHeadersNamed(trace: string): (hs: seq<map<string, string>>)
    ensures |hs| <= MAX_SLICE_HEADERS
    ensures var all := AllSliceHeaders(trace, NamedParamOf);
      hs == all[..if |all| < MAX_SLICE_HEADERS then |all| else MAX_SLICE_HEADERS]
  {
    ParseSliceHeaders(trace, NamedParamOf)
  }

  /** Every header the scan finishes has at least one parameter. */
  lemma {:induction false} HeadersNotEmpty(lines: seq<string>, i: nat, s: SliceScan, param: string -> Option<(string, string)>)
    requires i <= |lines|
    requires forall k | 0 <= k < |s.headers| :: s.headers[k] != map[]
    ensures forall k | 0 <= k < |AllFrom(lines, i, s, param)| :: AllFrom(lines, i, s, param)[k] != map[]
    decreases |lines| - i
  {
    if i < |lines| {
      HeadersNotEmpty(lines, i + 1, SliceStep(s, lines[i], param).0, param);
    }
  }
}
