/** The PO file pipeline (class Poto): reading, line-break and whitespace sanitising, the
    Last-Translator rewrite, splitting into lines and header, validation of msgid/msgstr pairs,
    sorting and translation through the other modules, the error list, and the layout of the
    file that is written. */
module Pipeline {
  import opened Text
  import opened OrderedMap
  import opened Sorter
  import opened Translation

  // ---------------------------------------------------------------------------------------
  // sanitizeBreak: trim, then replace every run of two or more line breaks by "\n\n".

  predicate IsBreak(c: char) {
    c == '\n' || c == '\r'
  }

  /** A run of line breaks: its length in characters and its number of breaks. */
  datatype Run = Run(length: nat, breaks: nat)

  /** The longest run of line breaks (\r?\n) at the start of s: its length in characters and
      its number of breaks. */
  function BreakRun(s: string): (r: Run)
    ensures r.breaks <= r.length <= |s|
    ensures r.breaks == 0 <==> r.length == 0
    ensures !(r.length < |s| && s[r.length] == '\n')
    ensures !(r.length + 1 < |s| && s[r.length] == '\r' && s[r.length + 1] == '\n')
  {
    if s != [] && s[0] == '\n' then
      var t := BreakRun(s[1..]);
      Run(1 + t.length, 1 + t.breaks)
    else if |s| >= 2 && s[0] == '\r' && s[1] == '\n' then
      var t := BreakRun(s[2..]);
      Run(2 + t.length, 1 + t.breaks)
    else Run(0, 0)
  }

  /** The run holds line-break characters only. */
  lemma {:induction false} BreakRunBreaks(s: string)
    ensures forall i :: 0 <= i < BreakRun(s).length ==> IsBreak(s[i])
    decreases |s|
  {
    if s != [] && s[0] == '\n' {
      BreakRunBreaks(s[1..]);
    } else if |s| >= 2 && s[0] == '\r' && s[1] == '\n' {
      BreakRunBreaks(s[2..]);
    }
  }

  /** preg_replace('/(\r?\n){2,}/', "\n\n", s): the pattern is tried at every position from the
      left and takes the longest run it can. */
  function CollapseBreaks(s: string): string
    decreases |s|
  {
    if s == [] then []
    else
      var r := BreakRun(s);
      if r.breaks >= 2 then "\n\n" + CollapseBreaks(s[r.length..])
      else [s[0]] + CollapseBreaks(s[1..])
  }

  function SanitizeBreak(content: string): string {
    CollapseBreaks(Trim(content))
  }

  /** The text without its line-break characters. */
  function Unbroken(s: string): string {
    if s == [] then []
    else (if IsBreak(s[0]) then [] else [s[0]]) + Unbroken(s[1..])
  }

  lemma {:induction false} UnbrokenAppend(a: string, b: string)
    ensures Unbroken(a + b) == Unbroken(a) + Unbroken(b)
  {
    if a == [] {
      assert a + b == b;
    } else {
      assert (a + b)[0] == a[0];
      assert (a + b)[1..] == a[1..] + b;
      UnbrokenAppend(a[1..], b);
    }
  }

  lemma {:induction false} UnbrokenOfBreaks(s: string)
    requires forall i :: 0 <= i < |s| ==> IsBreak(s[i])
    ensures Unbroken(s) == []
  {
    if s != [] {
      UnbrokenOfBreaks(s[1..]);
    }
  }

  /** Collapsing line breaks changes nothing but line breaks. */
  lemma {:induction false} CollapseBreaksKeepsText(s: string)
    ensures Unbroken(CollapseBreaks(s)) == Unbroken(s)
    decreases |s|
  {
    if s != [] {
      var r := BreakRun(s);
      if r.breaks >= 2 {
        assert s == s[..r.length] + s[r.length..];
        BreakRunBreaks(s);
        UnbrokenAppend(s[..r.length], s[r.length..]);
        UnbrokenOfBreaks(s[..r.length]);
        UnbrokenAppend("\n\n", CollapseBreaks(s[r.length..]));
        CollapseBreaksKeepsText(s[r.length..]);
      } else {
        UnbrokenAppend([s[0]], CollapseBreaks(s[1..]));
        CollapseBreaksKeepsText(s[1..]);
      }
    }
  }

  /** What CollapseBreaks puts first: a character that is not a line break stays first, and a
      line break first comes from a line break first. */
  lemma CollapseBreaksHead(s: string)
    ensures CollapseBreaks(s) == [] <==> s == []
    ensures s != [] && !IsBreak(s[0]) ==> CollapseBreaks(s)[0] == s[0]
    ensures s != [] && CollapseBreaks(s)[0] == '\n' ==> IsBreak(s[0])
  {
  }

  /** A last character that is not a line break stays last. */
  lemma {:induction false} CollapseBreaksLast(s: string)
    requires s != [] && !IsBreak(s[|s| - 1])
    ensures var c := CollapseBreaks(s); c != [] && c[|c| - 1] == s[|s| - 1]
    decreases |s|
  {
    var r := BreakRun(s);
    if r.breaks >= 2 {
      BreakRunBreaks(s);
      assert r.length < |s|;
      CollapseBreaksLast(s[r.length..]);
    } else if |s| > 1 {
      CollapseBreaksLast(s[1..]);
    }
  }

  predicate NoTripleBreak(s: string) {
    forall i :: 0 <= i < |s| - 2 ==> !(s[i] == '\n' && s[i + 1] == '\n' && s[i + 2] == '\n')
  }

  /** Putting a short head without a line break at its end, or before text that does not
      start with one, in front of text without three breaks in a row keeps that property. */
  lemma NoTripleCons(h: string, x: string)
    requires |h| <= 2 && NoTripleBreak(x)
    requires h == "\n\n" ==> x == [] || x[0] != '\n'
    requires h == "\n" ==> |x| < 2 || !(x[0] == '\n' && x[1] == '\n')
    requires |h| == 2 ==> h == "\n\n"
    ensures NoTripleBreak(h + x)
  {
    var c := h + x;
    forall i | 0 <= i < |c| - 2
      ensures !(c[i] == '\n' && c[i + 1] == '\n' && c[i + 2] == '\n')
    {
      if i >= |h| {
        assert c[i] == x[i - |h|] && c[i + 1] == x[i - |h| + 1] && c[i + 2] == x[i - |h| + 2];
      } else if |h| == 2 && i == 1 {
        assert c[i + 1] == x[0];
      } else if |h| == 2 {
        assert c[i + 2] == x[0];
      } else if |h| == 1 {
        assert c[i + 1] == x[0] && c[i + 2] == x[1];
      }
    }
  }

  lemma NoCarriageReturnDrop(s: string, n: nat)
    requires '\r' !in s && n <= |s|
    ensures '\r' !in s[n..]
  {
    forall i | 0 <= i < |s[n..]| ensures s[n..][i] != '\r' {
      assert s[n..][i] == s[n + i];
    }
  }

  /** In text without carriage returns, no three line breaks follow each other any more. */
  lemma {:induction false} CollapseBreaksNoTriple(s: string)
    requires '\r' !in s
    ensures NoTripleBreak(CollapseBreaks(s))
    decreases |s|
  {
    if s != [] {
      var r := BreakRun(s);
      var n := if r.breaks >= 2 then r.length else 1;
      var h := if r.breaks >= 2 then "\n\n" else [s[0]];
      var rest := s[n..];
      NoCarriageReturnDrop(s, n);
      CollapseBreaksNoTriple(rest);
      CollapseBreaksHead(rest);
      CollapseStep(s, n, h, rest);
      var x := CollapseBreaks(rest);
      if h == "\n" {
        assert BreakRun(rest).breaks == 0;
        assert x != [] ==> x[0] != '\n';
      }
      NoTripleCons(h, x);
    }
  }

  /** A run of line breaks written out: each entry is one break, "\r\n" when true and "\n"
      when false. */
  function BreakText(run: seq<bool>): (r: string)
    ensures run != [] ==> r != [] && r[|r| - 1] == '\n'
  {
    if run == [] then [] else (if run[0] then "\r\n" else "\n") + BreakText(run[1..])
  }

  /** The text does not start with a line break (\r?\n). */
  predicate NoLeadingBreak(s: string) {
    !(s != [] && s[0] == '\n') && !(|s| >= 2 && s[0] == '\r' && s[1] == '\n')
  }

  /** a does not end in a line break, and the seam between a and t does not fall inside one. */
  predicate Separate(a: string, t: string) {
    a == [] || (a[|a| - 1] != '\n' && !(a[|a| - 1] == '\r' && t != [] && t[0] == '\n'))
  }

  lemma BreakRunLf(s: string, rest: string)
    requires s != [] && s[0] == '\n' && s[1..] == rest
    ensures BreakRun(s) == Run(1 + BreakRun(rest).length, 1 + BreakRun(rest).breaks)
  {
  }

  lemma BreakRunCrlf(s: string, rest: string)
    requires |s| >= 2 && s[0] == '\r' && s[1] == '\n' && s[2..] == rest
    ensures BreakRun(s) == Run(2 + BreakRun(rest).length, 1 + BreakRun(rest).breaks)
  {
  }

  lemma BreakRunNone(s: string)
    requires NoLeadingBreak(s)
    ensures BreakRun(s) == Run(0, 0)
  {
  }

  lemma SeparateDrop(a: string, t: string, n: nat)
    requires Separate(a, t) && n <= |a|
    ensures Separate(a[n..], t) && (a + t)[n..] == a[n..] + t
  {
    if n < |a| {
      assert a[n..][|a| - n - 1] == a[|a| - 1];
    }
  }

  /** A run of breaks that starts inside a separate piece ends inside it. */
  lemma {:induction false} BreakRunPrefix(a: string, t: string)
    requires a != [] && Separate(a, t)
    ensures BreakRun(a + t) == BreakRun(a) && BreakRun(a).length < |a|
    decreases |a|, 1
  {
    if a[0] == '\n' {
      BreakRunPrefixLf(a, t);
    } else if |a| >= 2 && a[0] == '\r' && a[1] == '\n' {
      BreakRunPrefixCrlf(a, t);
    } else {
      var s := a + t;
      assert NoLeadingBreak(s) by {
        assert s[0] == a[0];
        if |a| >= 2 {
          assert s[1] == a[1];
        } else if t != [] {
          assert s[1] == t[0];
        }
      }
      BreakRunNone(s);
      BreakRunNone(a);
    }
  }

  lemma {:induction false} BreakRunPrefixLf(a: string, t: string)
    requires a != [] && Separate(a, t) && a[0] == '\n'
    ensures BreakRun(a + t) == BreakRun(a) && BreakRun(a).length < |a|
    decreases |a|, 0
  {
    SeparateDrop(a, t, 1);
    assert (a + t)[0] == '\n';
    BreakRunPrefix(a[1..], t);
    BreakRunLf(a + t, a[1..] + t);
    BreakRunLf(a, a[1..]);
  }

  lemma {:induction false} BreakRunPrefixCrlf(a: string, t: string)
    requires |a| >= 2 && Separate(a, t) && a[0] == '\r' && a[1] == '\n'
    ensures BreakRun(a + t) == BreakRun(a) && BreakRun(a).length < |a|
    decreases |a|, 0
  {
    SeparateDrop(a, t, 2);
    assert (a + t)[0] == '\r' && (a + t)[1] == '\n';
    BreakRunPrefix(a[2..], t);
    BreakRunCrlf(a + t, a[2..] + t);
    BreakRunCrlf(a, a[2..]);
  }

  /** One step of the scan: a whole run of two or more breaks, or one character. */
  lemma CollapseStep(s: string, n: nat, h: string, rest: string)
    requires s != [] && n == (if BreakRun(s).breaks >= 2 then BreakRun(s).length else 1)
    requires h == (if BreakRun(s).breaks >= 2 then "\n\n" else [s[0]])
    requires s[n..] == rest
    ensures CollapseBreaks(s) == h + CollapseBreaks(rest)
  {
  }

  lemma AppendAssoc(h: string, x: string, y: string)
    ensures h + (x + y) == (h + x) + y
  {
  }

  /** The replacement works piece by piece wherever the text is cut outside a line break. */
  lemma {:induction false} CollapseBreaksAppend(a: string, t: string)
    requires Separate(a, t)
    ensures CollapseBreaks(a + t) == CollapseBreaks(a) + CollapseBreaks(t)
    decreases |a|
  {
    if a == [] {
      assert a + t == t;
    } else {
      var r := BreakRun(a);
      BreakRunPrefix(a, t);
      var n := if r.breaks >= 2 then r.length else 1;
      var h := if r.breaks >= 2 then "\n\n" else [a[0]];
      SeparateDrop(a, t, n);
      CollapseBreaksAppend(a[n..], t);
      assert (a + t)[0] == a[0];
      CollapseStep(a + t, n, h, a[n..] + t);
      CollapseStep(a, n, h, a[n..]);
      AppendAssoc(h, CollapseBreaks(a[n..]), CollapseBreaks(t));
    }
  }

  lemma BreakTextCons(run: seq<bool>, b: string)
    requires run != []
    ensures BreakText(run) + b == (if run[0] then "\r\n" else "\n") + (BreakText(run[1..]) + b)
  {
  }

  lemma BreakRunLfCons(rest: string)
    ensures BreakRun("\n" + rest) == Run(1 + BreakRun(rest).length, 1 + BreakRun(rest).breaks)
  {
    var s := "\n" + rest;
    assert s[0] == '\n' && s[1..] == rest;
  }

  lemma BreakRunCrlfCons(rest: string)
    ensures BreakRun("\r\n" + rest) == Run(2 + BreakRun(rest).length, 1 + BreakRun(rest).breaks)
  {
    var s := "\r\n" + rest;
    assert s[0] == '\r' && s[1] == '\n' && s[2..] == rest;
  }

  /** A run of breaks followed by text that does not start with one is one whole match. */
  lemma {:induction false} BreakRunOfText(run: seq<bool>, b: string)
    requires NoLeadingBreak(b)
    ensures BreakRun(BreakText(run) + b) == Run(|BreakText(run)|, |run|)
    decreases |run|
  {
    if run == [] {
      assert BreakText(run) + b == b;
      BreakRunNone(b);
    } else {
      var rest := BreakText(run[1..]) + b;
      BreakRunOfText(run[1..], b);
      BreakTextCons(run, b);
      if run[0] {
        BreakRunCrlfCons(rest);
      } else {
        BreakRunLfCons(rest);
      }
    }
  }

  /** Text without a "\n" holds no match and is left as it is. */
  lemma {:induction false} CollapseBreaksNoBreak(s: string)
    requires '\n' !in s
    ensures CollapseBreaks(s) == s
    decreases |s|
  {
    if s != [] {
      assert '\n' !in s[1..] by {
        forall i | 0 <= i < |s[1..]| ensures s[1..][i] != '\n' {
          assert s[1..][i] == s[1 + i];
        }
      }
      assert NoLeadingBreak(s) by {
        if |s| >= 2 {
          assert s[1] in s;
        }
      }
      BreakRunNone(s);
      CollapseBreaksNoBreak(s[1..]);
      CollapseStep(s, 1, [s[0]], s[1..]);
      assert [s[0]] + s[1..] == s;
    }
  }

  /** A single break, "\n" or "\r\n", standing between text that does not run into it, is
      kept as it is. */
  lemma CollapseSingleBreak(a: string, b: string)
    requires NoLeadingBreak(b)
    ensures Separate(a, "\n" + b) ==>
              CollapseBreaks(a + "\n" + b) == CollapseBreaks(a) + "\n" + CollapseBreaks(b)
    ensures Separate(a, "\r\n" + b) ==>
              CollapseBreaks(a + "\r\n" + b) == CollapseBreaks(a) + "\r\n" + CollapseBreaks(b)
  {
    var c := CollapseBreaks(b);
    BreakRunNone(b);
    BreakRunLfCons(b);
    BreakRunCrlfCons(b);
    assert CollapseBreaks("\n" + b) == "\n" + c by {
      CollapseStep("\n" + b, 1, "\n", b);
    }
    assert CollapseBreaks("\r\n" + b) == "\r\n" + c by {
      CollapseStep("\r\n" + b, 1, "\r", "\n" + b);
      AppendAssoc("\r", "\n", b);
      AppendAssoc("\r", "\n", c);
    }
    if Separate(a, "\n" + b) {
      AppendAssoc(a, "\n", b);
      CollapseBreaksAppend(a, "\n" + b);
      AppendAssoc(CollapseBreaks(a), "\n", c);
    }
    if Separate(a, "\r\n" + b) {
      AppendAssoc(a, "\r\n", b);
      CollapseBreaksAppend(a, "\r\n" + b);
      AppendAssoc(CollapseBreaks(a), "\r\n", c);
    }
  }

  /** A run of two or more breaks, each "\n" or "\r\n", standing between text that does not
      run into it, becomes exactly "\n\n". */
  lemma CollapseBreakRun(a: string, run: seq<bool>, b: string)
    requires |run| >= 2 && NoLeadingBreak(b)
    requires Separate(a, BreakText(run) + b)
    ensures CollapseBreaks(a + BreakText(run) + b) == CollapseBreaks(a) + "\n\n" + CollapseBreaks(b)
  {
    var t := BreakText(run) + b;
    BreakRunOfText(run, b);
    assert t[|BreakText(run)|..] == b;
    CollapseStep(t, |BreakText(run)|, "\n\n", b);
    AppendAssoc(a, BreakText(run), b);
    CollapseBreaksAppend(a, t);
    AppendAssoc(CollapseBreaks(a), "\n\n", CollapseBreaks(b));
  }

  /** sanitizeBreak leaves trimmed content that differs from the trimmed input only in line
      breaks; content without a "\n" is only trimmed, and, when the input has no carriage
      return, no three line breaks follow each other. How each run of breaks is rewritten is
      stated by SanitizeBreakRuns. */
  lemma SanitizeBreakShape(content: string)
    ensures var c := SanitizeBreak(content);
            Trim(c) == c && Unbroken(c) == Unbroken(Trim(content)) &&
            ('\n' !in content ==> c == Trim(content)) &&
            ('\r' !in content ==> NoTripleBreak(c))
  {
    var t := Trim(content);
    var c := SanitizeBreak(content);
    TrimShape(content);
    CollapseBreaksKeepsText(t);
    CollapseBreaksHead(t);
    if t != [] {
      CollapseBreaksLast(t);
    }
    TrimIdentity(c);
    if '\r' !in content {
      TrimKeepsAbsent(content, '\r');
      CollapseBreaksNoTriple(t);
    }
    if '\n' !in content {
      TrimKeepsAbsent(content, '\n');
      CollapseBreaksNoBreak(t);
    }
  }

  /** Where the trimmed content has a run of line breaks that the text on either side does not
      run into, sanitizeBreak keeps a single break as it is, "\n" or "\r\n", turns a run of two
      or more into exactly "\n\n", and treats the text on either side on its own. */
  lemma SanitizeBreakRuns(content: string, a: string, run: seq<bool>, b: string)
    requires Trim(content) == a + BreakText(run) + b
    requires run != [] && NoLeadingBreak(b) && Separate(a, BreakText(run) + b)
    ensures SanitizeBreak(content) ==
            CollapseBreaks(a) + (if |run| >= 2 then "\n\n" else BreakText(run)) + CollapseBreaks(b)
  {
    if |run| >= 2 {
      CollapseBreakRun(a, run, b);
    } else {
      assert BreakText(run) == if run[0] then "\r\n" else "\n";
      CollapseSingleBreak(a, b);
    }
  }

  // ---------------------------------------------------------------------------------------
  // sanitizeSpace and setEditor.

  /** sanitizeSpace: trim, then every run of \s becomes one space. */
  function SanitizeSpace(line: string): (r: string)
    ensures OnlyPlainSpaces(r) && NoDoubleSpace(r) && '\n' !in r
  {
    NormalizeShape(line);
    Normalize(line)
  }

  /** A line sanitizeSpace can produce from text without form feeds: single plain spaces and
      nothing trim() removes at either end. */
  predicate Sanitized(line: string) {
    OnlyPlainSpaces(line) && NoDoubleSpace(line) &&
    (line == [] || (!IsTrimmable(line[0]) && !IsTrimmable(line[|line| - 1])))
  }

  /** A sanitised line is left as it is. */
  lemma SanitizeSpaceFixed(line: string)
    requires Sanitized(line)
    ensures SanitizeSpace(line) == line
  {
    TrimIdentity(line);
    CollapseFixed(line);
  }

  /** sanitizeSpace of a line without form feeds is sanitised. */
  lemma SanitizeSpaceSanitized(line: string)
    requires FormFeed !in line
    ensures Sanitized(SanitizeSpace(line))
  {
    NormalizeEnds(line);
  }

  /** The replacement setEditor writes; the backslash and the n are two characters, the PO
      escape of a line break. */
  const EditorLine: string := EditorPrefix + " Poto <jakiboy.github.io/poto/>\\n\""

  const EditorPrefix: string := "\"Last-Translator:"

  /** A line the multiline pattern ^"Last-Translator:.*"$ matches as a whole. */
  predicate IsEditorLine(line: string) {
    |line| >= 18 && StartsWith(line, EditorPrefix) && line[|line| - 1] == '"'
  }

  function EditLine(line: string): string {
    if IsEditorLine(line) then EditorLine else line
  }

  function EditLines(parts: seq<string>): (r: seq<string>)
    ensures |r| == |parts|
    ensures forall i :: 0 <= i < |parts| ==> r[i] == EditLine(parts[i])
  {
    seq(|parts|, i requires 0 <= i < |parts| => EditLine(parts[i]))
  }

  /** setEditor: every Last-Translator line of the content becomes EditorLine. */
  function SetEditorText(content: string): string {
    Join(EditLines(Split(content, '\n')), "\n")
  }

  /** setEditor keeps the line structure: the lines after it are the lines before it, each
      Last-Translator line replaced and every other line unchanged. */
  lemma SetEditorLines(content: string)
    ensures Split(SetEditorText(content), '\n') == EditLines(Split(content, '\n'))
  {
    var parts := EditLines(Split(content, '\n'));
    assert forall i :: 0 <= i < |parts| ==> '\n' !in parts[i];
    SplitJoin(parts, '\n');
  }

  /** Setting the editor twice is setting it once. */
  lemma SetEditorIdempotent(content: string)
    ensures SetEditorText(SetEditorText(content)) == SetEditorText(content)
  {
    SetEditorLines(content);
    var parts := EditLines(Split(content, '\n'));
    assert EditorLine[..|EditorPrefix|] == EditorPrefix;
    assert IsEditorLine(EditorLine);
    assert EditLines(parts) == parts;
  }

  // ---------------------------------------------------------------------------------------
  // parseLines, getHeader and parseHeader.

  /** parseLines: explode on "\n", then sanitizeSpace on every line. */
  function ParsedLines(content: string): (ls: seq<string>)
    ensures |ls| == |Split(content, '\n')|
    ensures forall i :: 0 <= i < |ls| ==> ls[i] == SanitizeSpace(Split(content, '\n')[i])
  {
    var parts := Split(content, '\n');
    seq(|parts|, i requires 0 <= i < |parts| => SanitizeSpace(parts[i]))
  }

  /** The number of header lines: those before the first empty line. */
  function HeaderSize(lines: seq<string>): (n: nat)
    ensures n <= |lines|
    ensures forall j :: 0 <= j < n ==> lines[j] != ""
    ensures n == |lines| || lines[n] == ""
  {
    if lines == [] || lines[0] == "" then 0 else 1 + HeaderSize(lines[1..])
  }

  // ---------------------------------------------------------------------------------------
  // validate.

  const EmptyIdProblem: string := "'msgid' is empty"
  const MissingStrProblem: string := "'msgstr' is missing"

  function LineError(n: nat, problem: string): string {
    "Error at line " + NatToString(n) + ": " + problem
  }

  /** The empty-id pattern ^msgid\s*(""|)$ on a text without the final line break its $
      also accepts. */
  predicate EmptyIdShape(t: string) {
    StartsWith(t, "msgid") &&
    var r := t[5..];
    var rest := r[SpaceRun(r)..];
    rest == "" || rest == "\"\""
  }

  predicate EmptyIdMatch(line: string) {
    EmptyIdShape(line) || (line != [] && line[|line| - 1] == '\n' && EmptyIdShape(line[..|line| - 1]))
  }

  /** ^msgid\s+ */
  predicate SearchIdMatch(line: string) {
    |line| >= 6 && line[..5] == "msgid" && IsSpace(line[5])
  }

  /** ^msgid_plural  */
  predicate PluralIdMatch(line: string) {
    StartsWith(line, "msgid_plural ")
  }

  /** The missing-str pattern ^msgstr\s+"(.*)"$ on a text without the final line break its $
      also accepts: the space run ends at the opening quote, and the captured text has no line
      break. */
  predicate MsgstrShape(t: string) {
    StartsWith(t, "msgstr") &&
    var r := t[6..];
    var k := SpaceRun(r);
    k >= 1 && |r| >= k + 2 && r[k] == '"' && r[|r| - 1] == '"' && '\n' !in r[k + 1..|r| - 1]
  }

  predicate MissingStrMatch(line: string) {
    MsgstrShape(line) || (line != [] && line[|line| - 1] == '\n' && MsgstrShape(line[..|line| - 1]))
  }

  /** Lines validate looks at: not in the header and not a comment. */
  predicate Checked(lines: seq<string>, h: nat, k: nat)
    requires k < |lines|
  {
    k >= h && !StartsWith(lines[k], "#")
  }

  /** The empty-msgid check on line k (0-based; messages count lines from 1). */
  function EmptyIdErrors(lines: seq<string>, k: nat): seq<string>
    requires k < |lines|
  {
    if EmptyIdMatch(lines[k]) && k + 1 < |lines| && !PluralIdMatch(lines[k + 1])
    then [LineError(k + 1, EmptyIdProblem)] else []
  }

  /** The missing-msgstr check on line k, as written: a next line that does not start with
      msgctxt is skipped. */
  function MissingStrErrors(lines: seq<string>, k: nat): seq<string>
    requires k < |lines|
  {
    if SearchIdMatch(lines[k]) && k + 1 < |lines| && StartsWith(lines[k + 1], "msgctxt") &&
       !PluralIdMatch(lines[k + 1]) && !MissingStrMatch(lines[k + 1])
    then [LineError(k + 2, MissingStrProblem)] else []
  }

  /** The errors validate records for line k. */
  function LineErrors(lines: seq<string>, h: nat, k: nat): seq<string>
    requires k < |lines|
  {
    if !Checked(lines, h, k) then [] else EmptyIdErrors(lines, k) + MissingStrErrors(lines, k)
  }

  /** The errors validate records for the first n lines, in order. */
  function Diagnostics(lines: seq<string>, h: nat, n: nat): seq<string>
    requires n <= |lines|
  {
    if n == 0 then [] else Diagnostics(lines, h, n - 1) + LineErrors(lines, h, n - 1)
  }

  lemma DiagnosticsStep(errors: seq<string>, lines: seq<string>, h: nat, k: nat)
    requires k < |lines|
    ensures errors + Diagnostics(lines, h, k + 1) == errors + Diagnostics(lines, h, k) + LineErrors(lines, h, k)
  {
  }

  /** An empty msgid at line k is reported when the next line is not a plural id. */
  predicate EmptyIdAt(lines: seq<string>, h: nat, k: nat)
    requires k < |lines|
  {
    Checked(lines, h, k) && EmptyIdMatch(lines[k]) && k + 1 < |lines| && !PluralIdMatch(lines[k + 1])
  }

  /** A msgid at line k is reported as lacking its msgstr exactly when the next line starts
      with msgctxt: the check is inverted, a line starting with msgctxt never matches the
      plural-id or the msgstr pattern, and any other next line is skipped. */
  predicate MissingStrAt(lines: seq<string>, h: nat, k: nat)
    requires k < |lines|
  {
    Checked(lines, h, k) && SearchIdMatch(lines[k]) && k + 1 < |lines| && StartsWith(lines[k + 1], "msgctxt")
  }

  lemma DigitsPrefix(d1: string, r1: string, d2: string, r2: string)
    requires forall i :: 0 <= i < |d1| ==> '0' <= d1[i] <= '9'
    requires forall i :: 0 <= i < |d2| ==> '0' <= d2[i] <= '9'
    requires r1 != [] && r2 != [] && r1[0] == ':' && r2[0] == ':'
    requires d1 + r1 == d2 + r2
    ensures d1 == d2 && r1 == r2
  {
    var s := d1 + r1;
    assert s[|d1|] == ':';
    assert s[|d2|] == ':';
    assert |d1| == |d2|;
    assert d1 == s[..|d1|] && d2 == s[..|d2|];
    assert r1 == s[|d1|..] && r2 == s[|d2|..];
  }

  /** An error message gives back its line number and its problem. */
  lemma LineErrorInjective(a: nat, p: string, b: nat, q: string)
    requires LineError(a, p) == LineError(b, q)
    ensures a == b && p == q
  {
    var prefix := "Error at line ";
    var ra := ": " + p;
    var rb := ": " + q;
    assert LineError(a, p) == prefix + (NatToString(a) + ra);
    assert LineError(b, q) == prefix + (NatToString(b) + rb);
    assert NatToString(a) + ra == LineError(a, p)[|prefix|..];
    assert NatToString(b) + rb == LineError(b, q)[|prefix|..];
    DigitsPrefix(NatToString(a), ra, NatToString(b), rb);
    NatToStringRoundTrip(a);
    NatToStringRoundTrip(b);
    assert p == ra[2..] && q == rb[2..];
  }

  /** A line starting with msgctxt matches neither the plural-id nor the msgstr pattern. */
  lemma MsgctxtNeverMatches(next: string)
    requires StartsWith(next, "msgctxt")
    ensures !PluralIdMatch(next) && !MissingStrMatch(next)
  {
    assert next[3] == 'c';
    if next[|next| - 1] == '\n' {
      assert next[..|next| - 1][3] == 'c';
    }
  }

  lemma LineErrorsCases(lines: seq<string>, h: nat, k: nat, j: nat, p: string)
    requires k < |lines|
    requires LineError(j, p) in LineErrors(lines, h, k)
    ensures (j == k + 1 && p == EmptyIdProblem && EmptyIdAt(lines, h, k)) ||
            (j == k + 2 && p == MissingStrProblem && MissingStrAt(lines, h, k))
  {
    var line := lines[k];
    if EmptyIdAt(lines, h, k) && LineError(j, p) == LineError(k + 1, EmptyIdProblem) {
      LineErrorInjective(j, p, k + 1, EmptyIdProblem);
    } else {
      assert LineError(j, p) == LineError(k + 2, MissingStrProblem);
      LineErrorInjective(j, p, k + 2, MissingStrProblem);
    }
  }

  /** The two messages that can name line k + 1 or k + 2 come from line k only. */
  lemma LineErrorsOf(lines: seq<string>, h: nat, j: nat, k: nat)
    requires j < |lines| && k < |lines|
    ensures LineError(k + 1, EmptyIdProblem) in LineErrors(lines, h, j) <==> j == k && EmptyIdAt(lines, h, k)
    ensures LineError(k + 2, MissingStrProblem) in LineErrors(lines, h, j) <==> j == k && MissingStrAt(lines, h, k)
  {
    if LineError(k + 1, EmptyIdProblem) in LineErrors(lines, h, j) {
      LineErrorsCases(lines, h, j, k + 1, EmptyIdProblem);
    }
    if LineError(k + 2, MissingStrProblem) in LineErrors(lines, h, j) {
      LineErrorsCases(lines, h, j, k + 2, MissingStrProblem);
    }
    if j == k && MissingStrAt(lines, h, k) {
      MsgctxtNeverMatches(lines[k + 1]);
    }
  }

  /** validate reports an empty msgid on line k exactly when EmptyIdAt holds, and a missing
      msgstr after line k exactly when MissingStrAt holds. */
  lemma {:induction false} DiagnosticsComplete(lines: seq<string>, h: nat, n: nat, k: nat)
    requires n <= |lines| && k < |lines|
    ensures LineError(k + 1, EmptyIdProblem) in Diagnostics(lines, h, n) <==> k < n && EmptyIdAt(lines, h, k)
    ensures LineError(k + 2, MissingStrProblem) in Diagnostics(lines, h, n) <==> k < n && MissingStrAt(lines, h, k)
  {
    if n > 0 {
      DiagnosticsComplete(lines, h, n - 1, k);
      LineErrorsOf(lines, h, n - 1, k);
      assert Diagnostics(lines, h, n) == Diagnostics(lines, h, n - 1) + LineErrors(lines, h, n - 1);
    }
  }

  /** Every error validate records is one of the two kinds, for a line that qualifies. */
  lemma {:induction false} DiagnosticsSound(lines: seq<string>, h: nat, n: nat, e: string)
    requires n <= |lines|
    requires e in Diagnostics(lines, h, n)
    ensures exists k :: 0 <= k < n &&
              ((e == LineError(k + 1, EmptyIdProblem) && EmptyIdAt(lines, h, k)) ||
               (e == LineError(k + 2, MissingStrProblem) && MissingStrAt(lines, h, k)))
  {
    var k := n - 1;
    if e in Diagnostics(lines, h, k) {
      DiagnosticsSound(lines, h, k, e);
    } else {
      var line := lines[k];
      if EmptyIdAt(lines, h, k) && e == LineError(k + 1, EmptyIdProblem) {
      } else {
        assert e == LineError(k + 2, MissingStrProblem);
      }
    }
  }

  // ---------------------------------------------------------------------------------------
  // write.

  /** The lines write appends, each followed by a line break. */
  function Body(lines: seq<string>): string {
    if lines == [] then "" else Body(lines[..|lines| - 1]) + lines[|lines| - 1] + "\n"
  }

  /** The file write produces: the header lines joined by line breaks, a line break, then
      every line followed by a line break. */
  function Layout(header: seq<string>, lines: seq<string>): string {
    Join(header, "\n") + "\n" + Body(lines)
  }

  /** The header as it reads back: no header reads back as one empty line. */
  function Lead(header: seq<string>): (r: seq<string>)
    ensures r != []
  {
    if header == [] then [""] else header
  }

  lemma {:induction false} JoinSnoc(parts: seq<string>, x: string, sep: string)
    requires parts != []
    ensures Join(parts + [x], sep) == Join(parts, sep) + sep + x
    decreases |parts|
  {
    if |parts| > 1 {
      assert (parts + [x])[1..] == parts[1..] + [x];
      JoinSnoc(parts[1..], x, sep);
    }
  }

  lemma {:induction false} LayoutJoin(header: seq<string>, lines: seq<string>)
    ensures Layout(header, lines) == Join(Lead(header) + lines + [""], "\n")
    decreases |lines|
  {
    var lead := Lead(header);
    assert Join(header, "\n") == Join(lead, "\n");
    if lines == [] {
      JoinSnoc(lead, "", "\n");
      assert lead + lines == lead;
    } else {
      var init := lines[..|lines| - 1];
      var last := lines[|lines| - 1];
      assert lead + init + [last] == lead + lines;
      assert Body(lines) == Body(init) + last + "\n";
      assert Layout(header, lines) == Layout(header, init) + last + "\n";
      LayoutJoin(header, init);
      JoinSnoc(lead + init, "", "\n");
      assert Layout(header, init) == Join(lead + init, "\n") + "\n";
      JoinSnoc(lead + init, last, "\n");
      JoinSnoc(lead + lines, "", "\n");
    }
  }

  /** Reading a written file back as lines gives the header, the lines and the empty line
      after the last line break, provided no line holds a line break itself. */
  lemma LayoutRoundTrip(header: seq<string>, lines: seq<string>)
    requires forall i :: 0 <= i < |header| ==> '\n' !in header[i]
    requires forall i :: 0 <= i < |lines| ==> '\n' !in lines[i]
    ensures Split(Layout(header, lines), '\n') == Lead(header) + lines + [""]
  {
    LayoutJoin(header, lines);
    var parts := Lead(header) + lines + [""];
    assert forall i :: 0 <= i < |parts| ==> '\n' !in parts[i] by {
      forall i | 0 <= i < |parts| ensures '\n' !in parts[i] {
        if i < |Lead(header)| {
        } else if i < |Lead(header)| + |lines| {
          assert parts[i] == lines[i - |Lead(header)|];
        }
      }
    }
    SplitJoin(parts, '\n');
  }

  /** Parsing a written file again gives back sanitised header and lines. */
  lemma ParseWritten(header: seq<string>, lines: seq<string>)
    requires forall i :: 0 <= i < |header| ==> Sanitized(header[i])
    requires forall i :: 0 <= i < |lines| ==> Sanitized(lines[i])
    ensures ParsedLines(Layout(header, lines)) == Lead(header) + lines + [""]
  {
    var parts := Lead(header) + lines + [""];
    forall i | 0 <= i < |parts| ensures Sanitized(parts[i]) && '\n' !in parts[i] {
      if i < |Lead(header)| {
      } else if i < |Lead(header)| + |lines| {
        assert parts[i] == lines[i - |Lead(header)|];
      }
      assert IsSpace('\n');
    }
    LayoutRoundTrip(header, lines);
    forall i | 0 <= i < |parts| ensures SanitizeSpace(parts[i]) == parts[i] {
      SanitizeSpaceFixed(parts[i]);
    }
  }

  // ---------------------------------------------------------------------------------------
  // process.

  /** The constructor's arguments after array_merge with the defaults. */
  datatype Options = Options(editor: bool, sort: bool, format: bool, repair: bool, throw: bool,
                             translate: bool, override: bool, charset: string, from: string, to: string)

  const Defaults: Options :=
    Options(true, true, true, false, false, false, false, DefaultCharset, DefaultFrom, DefaultTo)

  /** The exceptions the pipeline raises. */
  datatype Fault =
    | IoFault(message: string)
    | TranslateFault(message: string)
      /** array_combine's ValueError when an answer has the wrong number of segments. */
    | CombineFault

  /** How process ends: it returns early on empty content, after logging an invalid file or a
      translation without sorting and formatting, writes a file, or raises. */
  datatype Outcome =
    | Skipped
    | Invalid
    | Misconfigured
    | Written(file: string, text: string)
    | Raised(fault: Fault)

  const InvalidMessage: string := "PO file is invalid"
  const MisconfiguredMessage: string := "Translation requires sort format"

  function WriteTarget(file: string, override: bool): string {
    if override then file else "processed-" + file
  }

  /** The content process parses: breaks sanitised, the editor set, the msgids repaired. */
  function Prepared(o: Options, content: string, repair: string -> string): string {
    var c := SanitizeBreak(content);
    var c' := if o.editor then SetEditorText(c) else c;
    if o.repair then repair(c') else c'
  }

  /** The lines process writes after the header: sorted, then translated; None when the
      translation fails. */
  function Output(o: Options, body: seq<string>, endpoint: Request -> seq<string>,
                  stripTags: string -> string): Option<seq<string>>
  {
    var sorted := if o.sort then SortedLines(body, o.format) else body;
    if o.translate then
      TranslatedUnits(Grouped(sorted, true), Selector(DefaultMax, DefaultExclude, stripTags),
                      Asker(endpoint, o.from, o.to, o.charset), DefaultExclude)
    else Some(sorted)
  }

  /** What process does once the parsed lines are valid: split off the header, sort,
      translate, write. */
  function Completed(o: Options, lines: seq<string>, header: seq<string>, file: string,
                     endpoint: Request -> seq<string>, stripTags: string -> string): (r: Outcome)
    ensures r != Skipped && r != Invalid
    ensures r.Written? ==> !o.throw && (o.translate ==> o.sort && o.format)
  {
    var h := HeaderSize(lines);
    if o.translate && (!o.format || !o.sort) then
      if o.throw then Raised(TranslateFault(MisconfiguredMessage)) else Misconfigured
    else
      match Output(o, lines[h..], endpoint, stripTags)
      case None => Raised(CombineFault)
      case Some(out) =>
        var target := WriteTarget(file, o.override);
        if o.throw then Raised(IoFault("Unable to write PO file: " + target))
        else Written(target, Layout(header + lines[..h], out))
  }

  /** What process does, from the settings and the state before it. */
  function Processed(o: Options, content: string, header: seq<string>, errors: seq<string>, file: string,
                     endpoint: Request -> seq<string>, stripTags: string -> string,
                     repair: string -> string): Outcome
  {
    if IsFalsy(content) then Skipped
    else
      var lines := ParsedLines(Prepared(o, content, repair));
      if errors + Diagnostics(lines, HeaderSize(lines), |lines|) != [] then
        if o.throw then Raised(IoFault(InvalidMessage)) else Invalid
      else Completed(o, lines, header, file, endpoint, stripTags)
  }

  /** Where process goes after validation. */
  lemma ProcessedStages(o: Options, content: string, header: seq<string>, errors: seq<string>, file: string,
                        endpoint: Request -> seq<string>, stripTags: string -> string,
                        repair: string -> string, lines: seq<string>)
    requires !IsFalsy(content) && lines == ParsedLines(Prepared(o, content, repair))
    ensures var p := Processed(o, content, header, errors, file, endpoint, stripTags, repair);
            if errors + Diagnostics(lines, HeaderSize(lines), |lines|) != []
            then p == (if o.throw then Raised(IoFault(InvalidMessage)) else Invalid)
            else p == Completed(o, lines, header, file, endpoint, stripTags)
  {
  }

  /** process writes only a valid file: no earlier error and no diagnostic. */
  lemma WrittenOnlyValid(o: Options, content: string, header: seq<string>, errors: seq<string>, file: string,
                         endpoint: Request -> seq<string>, stripTags: string -> string,
                         repair: string -> string)
    requires Processed(o, content, header, errors, file, endpoint, stripTags, repair).Written?
    ensures !IsFalsy(content) && errors == [] && !o.throw
    ensures var lines := ParsedLines(Prepared(o, content, repair));
            Diagnostics(lines, HeaderSize(lines), |lines|) == []
    ensures o.translate ==> o.sort && o.format
  {
    var lines := ParsedLines(Prepared(o, content, repair));
    ProcessedStages(o, content, header, errors, file, endpoint, stripTags, repair, lines);
  }

  /** In throw mode nothing is written: writeFile with no content writes zero bytes, which
      PHP reads as a failure, so write always raises. */
  lemma ThrowNeverWrites(o: Options, content: string, header: seq<string>, errors: seq<string>, file: string,
                         endpoint: Request -> seq<string>, stripTags: string -> string,
                         repair: string -> string)
    requires o.throw
    ensures !Processed(o, content, header, errors, file, endpoint, stripTags, repair).Written?
  {
    if !IsFalsy(content) {
      var lines := ParsedLines(Prepared(o, content, repair));
      ProcessedStages(o, content, header, errors, file, endpoint, stripTags, repair, lines);
    }
  }

  /** The file written from a header, the parsed lines and the header size reads back as the
      header, the parsed lines and the empty line after the last break. */
  lemma LayoutReadsBack(header: seq<string>, lines: seq<string>, h: nat)
    requires h <= |lines|
    requires forall i :: 0 <= i < |header| ==> '\n' !in header[i]
    requires forall i :: 0 <= i < |lines| ==> '\n' !in lines[i]
    ensures Split(Layout(header + lines[..h], lines[h..]), '\n') == Lead(header + lines[..h]) + lines[h..] + [""]
  {
    var hd := header + lines[..h];
    forall i | 0 <= i < |hd| ensures '\n' !in hd[i] {
      if i >= |header| {
        assert hd[i] == lines[i - |header|];
      }
    }
    forall i | 0 <= i < |lines[h..]| ensures '\n' !in lines[h..][i] {
      assert lines[h..][i] == lines[h + i];
    }
    LayoutRoundTrip(hd, lines[h..]);
  }

  /** Without sorting and translation, a written file reads back as the old header and the
      parsed lines, in order, then the empty line after the last break (and an empty first
      line when there is no header line at all). */
  lemma WrittenReadsBack(o: Options, content: string, header: seq<string>, errors: seq<string>, file: string,
                         endpoint: Request -> seq<string>, stripTags: string -> string,
                         repair: string -> string)
    requires Processed(o, content, header, errors, file, endpoint, stripTags, repair).Written?
    requires forall i :: 0 <= i < |header| ==> '\n' !in header[i]
    requires !o.translate && !o.sort
    ensures var lines := ParsedLines(Prepared(o, content, repair));
            var h := HeaderSize(lines);
            var text := Processed(o, content, header, errors, file, endpoint, stripTags, repair).text;
            Split(text, '\n') == Lead(header + lines[..h]) + lines[h..] + [""]
  {
    var lines := ParsedLines(Prepared(o, content, repair));
    var h := HeaderSize(lines);
    assert Output(o, lines[h..], endpoint, stripTags) == Some(lines[h..]);
    assert Processed(o, content, header, errors, file, endpoint, stripTags, repair).text
        == Layout(header + lines[..h], lines[h..]);
    LayoutReadsBack(header, lines, h);
  }

  // ---------------------------------------------------------------------------------------
  // The class.

  class Poto {
    var lines: seq<string>
    var header: seq<string>
    var error: seq<string>
    /** The PO text; "" also stands for PHP's null and false, which every test treats alike. */
    var content: string
    var file: string
    /** What the last log() call wrote to log.txt. */
    var logged: string

    const hasRepair: bool
    const hasEditor: bool
    const sort: bool
    const format: bool
    const throw: bool
    const translate: bool
    const override: bool
    const charset: string
    const from: string
    const to: string

    constructor(args: Options)
      ensures hasRepair == args.repair && hasEditor == args.editor && throw == args.throw
      ensures override == args.override && sort == args.sort && format == args.format
      ensures translate == args.translate && charset == args.charset && from == args.from && to == args.to
      ensures lines == [] && header == [] && error == [] && content == "" && file == "" && logged == ""
    {
      hasRepair := args.repair;
      hasEditor := args.editor;
      throw := args.throw;
      override := args.override;
      sort := args.sort;
      format := args.format;
      translate := args.translate;
      charset := args.charset;
      from := args.from;
      to := args.to;
      lines := [];
      header := [];
      error := [];
      content := "";
      file := "";
      logged := "";
    }

    function Settings(): Options {
      Options(hasEditor, sort, format, hasRepair, throw, translate, override, charset, from, to)
    }

    method Set(c: string)
      modifies this`content
      ensures content == c
    {
      content := c;
    }

    /** error() */
    predicate HasError()
      reads this
    {
      |error| > 0
    }

    method SetError(e: string) returns (r: string)
      modifies this`error
      ensures error == old(error) + [e] && r == e
    {
      error := error + [e];
      r := e;
    }

    /** The errors in insertion order, joined by the separator; split on a one-character
        separator none of them holds, the text gives the list back. */
    function GetError(sep: string): (r: string)
      reads this
      ensures error == [] ==> r == ""
      ensures |sep| == 1 && error != [] && (forall i :: 0 <= i < |error| ==> sep[0] !in error[i]) ==>
                Split(r, sep[0]) == error
    {
      if |sep| == 1 && error != [] && (forall i :: 0 <= i < |error| ==> sep[0] !in error[i]) then
        assert sep == [sep[0]];
        SplitJoin(error, sep[0]);
        Join(error, sep)
      else Join(error, sep)
    }

    /** The error list; it is non-empty exactly when error() holds. */
    function GetArrayError(): (r: seq<string>)
      reads this
      ensures r != [] <==> HasError()
    {
      error
    }

    /** log(): a truthy message is recorded and written to the log file; otherwise the whole
        error list is written. */
    method Log(message: string)
      modifies this`error, this`logged
      ensures !IsFalsy(message) ==> error == old(error) + [message] && logged == message
      ensures IsFalsy(message) ==> error == old(error) && logged == Join(error, "\n")
    {
      if !IsFalsy(message) {
        var e := SetError(message);
        logged := e;
      } else {
        logged := GetError("\n");
      }
    }

    /** read(): whether the file exists, whether it is readable and what file_get_contents
        returned are parameters. Without throw, every problem is logged and reading goes on. */
    method Read(path: string, found: bool, readable: bool, data: string) returns (fault: Option<Fault>)
      modifies this`file, this`content, this`error, this`logged
      ensures file == ReplaceChar(path, '\\', '/')
      ensures var access := if !found then ["File not found: " + file]
                            else if !readable then ["File not readable: " + file] else [];
              var empty := if IsFalsy(data) then ["File empty or invalid: " + file] else [];
              (throw && access != [] ==>
                fault == Some(IoFault(access[0])) && content == old(content) &&
                error == old(error) && logged == old(logged)) &&
              (throw && access == [] ==>
                content == data && error == old(error) && logged == old(logged) &&
                fault == (if empty != [] then Some(IoFault(empty[0])) else None)) &&
              (!throw ==>
                fault == None && content == data && error == old(error) + access + empty &&
                logged == (if empty != [] then empty[0] else if access != [] then access[0] else old(logged)))
    {
      file := ReplaceChar(path, '\\', '/');
      if !found {
        var e := "File not found: " + file;
        if throw {
          return Some(IoFault(e));
        }
        Log(e);
      } else if !readable {
        var e := "File not readable: " + file;
        if throw {
          return Some(IoFault(e));
        }
        Log(e);
      }
      content := data;
      if IsFalsy(content) {
        var e := "File empty or invalid: " + file;
        if throw {
          return Some(IoFault(e));
        }
        Log(e);
      }
      fault := None;
    }

    method SanitizeBreakContent()
      modifies this`content
      ensures content == SanitizeBreak(old(content))
    {
      content := SanitizeBreak(content);
    }

    method SetEditor()
      modifies this`content
      ensures content == SetEditorText(old(content))
    {
      content := SetEditorText(content);
    }

    method ParseLines()
      modifies this`lines
      ensures lines == ParsedLines(content)
    {
      var parts := Split(content, '\n');
      lines := seq(|parts|, i requires 0 <= i < |parts| => SanitizeSpace(parts[i]));
    }

    method GetHeader() returns (h: seq<string>)
      ensures h == lines[..HeaderSize(lines)]
    {
      h := [];
      for i := 0 to |lines|
        invariant h == lines[..i]
        invariant forall j :: 0 <= j < i ==> lines[j] != ""
      {
        if lines[i] == "" {
          return;
        }
        h := h + [lines[i]];
      }
    }

    /** parseHeader: the lines before the first empty one move to the header. */
    method ParseHeader()
      modifies this`lines, this`header
      ensures header == old(header) + old(lines)[..HeaderSize(old(lines))]
      ensures lines == old(lines)[HeaderSize(old(lines))..]
    {
      var original := lines;
      for i := 0 to |original|
        invariant header == old(header) + original[..i]
        invariant lines == original[i..]
        invariant forall j :: 0 <= j < i ==> original[j] != ""
      {
        if original[i] == "" {
          return;
        }
        header := header + [lines[0]];
        lines := lines[1..];
      }
    }

    /** The body of validate's loop for line k; h is the size of the header it skips. */
    method CheckLine(k: nat, h: nat)
      requires k < |lines|
      modifies this`error
      ensures error == old(error) + LineErrors(lines, h, k)
    {
      var num := k + 1;
      if k < h {
        return;
      }
      var line := lines[k];
      if StartsWith(line, "#") {
        return;
      }
      if EmptyIdMatch(line) {
        if k + 1 < |lines| {
          var next := lines[k + 1];
          if !PluralIdMatch(next) {
            var _ := SetError(LineError(num, EmptyIdProblem));
          }
        }
      }
      assert error == old(error) + EmptyIdErrors(lines, k);
      ghost var middle := error;
      if SearchIdMatch(line) {
        if k + 1 < |lines| {
          var next := lines[k + 1];
          if !StartsWith(next, "msgctxt") {
            return;
          }
          if !PluralIdMatch(next) {
            if !MissingStrMatch(next) {
              var _ := SetError(LineError(num + 1, MissingStrProblem));
            }
          }
        }
      }
      assert error == middle + MissingStrErrors(lines, k);
    }

    /** validate(): every line after the header is checked; the result is true when the error
        list, including errors recorded before, is empty. */
    method Validate() returns (valid: bool)
      modifies this`error
      ensures error == old(error) + Diagnostics(lines, HeaderSize(lines), |lines|)
      ensures valid <==> error == []
    {
      var h := GetHeader();
      assert |h| == HeaderSize(lines);
      for k := 0 to |lines|
        invariant error == old(error) + Diagnostics(lines, |h|, k)
      {
        DiagnosticsStep(old(error), lines, |h|, k);
        CheckLine(k, |h|);
      }
      valid := !HasError();
    }

    method Write() returns (outcome: Outcome)
      modifies this`file
      ensures file == WriteTarget(old(file), override)
      ensures outcome == if throw then Raised(IoFault("Unable to write PO file: " + file))
                         else Written(file, Layout(header, lines))
    {
      if !override {
        file := "processed-" + file;
      }
      // writeFile($file) writes no content: zero bytes, which PHP's truthiness reads as failure.
      if throw {
        return Raised(IoFault("Unable to write PO file: " + file));
      }
      var text := Join(header, "\n") + "\n";
      for i := 0 to |lines|
        invariant text == Join(header, "\n") + "\n" + Body(lines[..i])
      {
        assert lines[..i + 1][..i] == lines[..i];
        if lines[i] == "" {
          text := text + "\n";
        } else {
          text := text + lines[i] + "\n";
        }
      }
      assert lines[..|lines|] == lines;
      outcome := Written(file, text);
    }

    /** The stages of process() before validation; the msgid repair is a parameter. */
    method Prepare(repair: string -> string)
      modifies this`content, this`lines
      ensures content == Prepared(Settings(), old(content), repair)
      ensures lines == ParsedLines(content)
    {
      SanitizeBreakContent();
      if hasEditor {
        SetEditor();
      }
      if hasRepair {
        content := repair(content);
      }
      ParseLines();
    }

    /** The stages of process() up to validation. */
    method Check(repair: string -> string) returns (valid: bool)
      modifies this`content, this`lines, this`error
      ensures content == Prepared(Settings(), old(content), repair)
      ensures lines == ParsedLines(content)
      ensures error == old(error) + Diagnostics(lines, HeaderSize(lines), |lines|)
      ensures valid <==> error == []
    {
      Prepare(repair);
      valid := Validate();
    }

    /** The stages of process() after validation succeeded. */
    method Complete(endpoint: Request -> seq<string>, stripTags: string -> string) returns (outcome: Outcome)
      modifies this`lines, this`header, this`file, this`error, this`logged
      ensures outcome == Completed(Settings(), old(lines), old(header), old(file), endpoint, stripTags)
      ensures outcome == Misconfigured ==> error == old(error) + [MisconfiguredMessage] &&
                                           logged == MisconfiguredMessage
      ensures outcome != Misconfigured ==> error == old(error) && logged == old(logged)
    {
      ParseHeader();
      if sort {
        lines := Sort(lines, format);
      }
      if translate {
        if !format || !sort {
          if throw {
            return Raised(TranslateFault(MisconfiguredMessage));
          }
          Log(MisconfiguredMessage);
          return Misconfigured;
        }
        var translator := new Translator(lines, from, to, charset, endpoint, stripTags);
        var translated := translator.Translate();
        if translated.None? {
          return Raised(CombineFault);
        }
        lines := translated.value;
      }
      outcome := Write();
    }

    /** process(): the stage sequence; the translation endpoint, strip_tags and the msgid
        repair are parameters. */
    method Process(endpoint: Request -> seq<string>, stripTags: string -> string,
                   repair: string -> string) returns (outcome: Outcome)
      modifies this
      ensures outcome == Processed(Settings(), old(content), old(header), old(error), old(file),
                                   endpoint, stripTags, repair)
      ensures IsFalsy(old(content)) ==> unchanged(this)
      ensures !IsFalsy(old(content)) ==>
                content == Prepared(Settings(), old(content), repair) &&
                var parsed := ParsedLines(content);
                error == old(error) + Diagnostics(parsed, HeaderSize(parsed), |parsed|) +
                         (if outcome == Misconfigured then [MisconfiguredMessage] else [])
      ensures logged == if outcome == Invalid then Join(error, "\n")
                        else if outcome == Misconfigured then MisconfiguredMessage
                        else old(logged)
    {
      if IsFalsy(content) {
        return Skipped;
      }
      outcome := ProcessContent(endpoint, stripTags, repair);
    }

    /** process() on content that is not empty. */
    method ProcessContent(endpoint: Request -> seq<string>, stripTags: string -> string,
                          repair: string -> string) returns (outcome: Outcome)
      requires !IsFalsy(content)
      modifies this
      ensures outcome == Processed(Settings(), old(content), old(header), old(error), old(file),
                                   endpoint, stripTags, repair)
      ensures content == Prepared(Settings(), old(content), repair)
      ensures var parsed := ParsedLines(content);
              error == old(error) + Diagnostics(parsed, HeaderSize(parsed), |parsed|) +
                       (if outcome == Misconfigured then [MisconfiguredMessage] else [])
      ensures logged == if outcome == Invalid then Join(error, "\n")
                        else if outcome == Misconfigured then MisconfiguredMessage
                        else old(logged)
    {
      var valid := Check(repair);
      ProcessedStages(Settings(), old(content), old(header), old(error), old(file), endpoint, stripTags, repair, lines);
      if !valid {
        if throw {
          return Raised(IoFault(InvalidMessage));
        }
        Log("");
        return Invalid;
      }
      outcome := Complete(endpoint, stripTags);
    }
  }
}
