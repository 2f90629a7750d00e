/** Block grouping and canonical sorting of PO lines (class Sorter). */
module Sorter {
  import opened Text
  import opened OrderedMap

  datatype Option<T> = None | Some(value: T)

  const IdPrefix: string := "msgid \""
  const StringPrefix: string := "msgstr \""
  const PluralIdPrefix: string := "msgid_plural \""
  const PluralStringPrefix: string := "msgstr["

  /** An identifier line: starts with `msgid "`. */
  predicate IsId(line: string) {
    StartsWith(line, IdPrefix)
  }

  /** A translation line: starts with `msgstr "`. */
  predicate IsString(line: string) {
    StartsWith(line, StringPrefix)
  }

  /** A plural line: starts with `msgid_plural "` or `msgstr[`. */
  predicate IsPluralString(line: string) {
    StartsWith(line, PluralIdPrefix) || StartsWith(line, PluralStringPrefix)
  }

  /** No line is of two kinds. */
  lemma ClassifiersDisjoint(line: string)
    ensures !(IsId(line) && IsString(line))
    ensures !(IsId(line) && IsPluralString(line))
    ensures !(IsString(line) && IsPluralString(line))
  {
    if IsId(line) {
      assert line[..7][3] == 'i' && line[..7][5] == ' ';
    }
    if IsString(line) {
      assert line[..8][3] == 's' && line[..8][6] == ' ';
    }
    if StartsWith(line, PluralIdPrefix) {
      assert line[..14][3] == 'i' && line[..14][5] == '_';
    }
    if StartsWith(line, PluralStringPrefix) {
      assert line[..7][3] == 's' && line[..7][6] == '[';
    }
  }

  // ---------------------------------------------------------------------------------------
  // The capture of /<keyword> "(.*)"/: the match starts at the leftmost occurrence of the
  // keyword that is followed, on the same line, by a quote; `.*` is greedy and stops at '\n'.

  /** Index of the first '\n' at or after i, or |s|. */
  function LineEnd(s: string, i: nat): (e: nat)
    requires i <= |s|
    ensures i <= e <= |s|
    decreases |s| - i
  {
    if i == |s| || s[i] == '\n' then i else LineEnd(s, i + 1)
  }

  lemma {:induction false} LineEndShape(s: string, i: nat)
    requires i <= |s|
    ensures var e := LineEnd(s, i);
            (e == |s| || s[e] == '\n') && forall j :: i <= j < e ==> s[j] != '\n'
    decreases |s| - i
  {
    if i < |s| && s[i] != '\n' {
      LineEndShape(s, i + 1);
    }
  }

  /** Index of the last '"' in s[i..j], if any. */
  function LastQuote(s: string, i: nat, j: nat): (q: Option<nat>)
    requires i <= j <= |s|
    ensures q.Some? ==> i <= q.value < j
    decreases j
  {
    if j == i then None else if s[j - 1] == '"' then Some(j - 1) else LastQuote(s, i, j - 1)
  }

  lemma {:induction false} LastQuoteShape(s: string, i: nat, j: nat)
    requires i <= j <= |s|
    ensures var q := LastQuote(s, i, j);
            (q.Some? ==> s[q.value] == '"' && forall t :: q.value < t < j ==> s[t] != '"') &&
            (q.None? ==> forall t :: i <= t < j ==> s[t] != '"')
    decreases j
  {
    if j > i && s[j - 1] != '"' {
      LastQuoteShape(s, i, j - 1);
    }
  }

  /** The capture group of preg_match('/' . key . '(.*)"/', s), searching from position p. */
  function Capture(s: string, key: string, p: nat): Option<string>
    requires p <= |s|
    decreases |s| - p
  {
    var start := p + |key|;
    if start <= |s| && s[p..start] == key && LastQuote(s, start, LineEnd(s, start)).Some? then
      Some(s[start..LastQuote(s, start, LineEnd(s, start)).value])
    else if p == |s| then None
    else Capture(s, key, p + 1)
  }

  /** A capture is a piece of the searched text. */
  lemma {:induction false} CaptureOccurs(s: string, key: string, p: nat)
    requires p <= |s|
    ensures Capture(s, key, p).Some? ==> exists lo :: OccursAt(s, Capture(s, key, p).value, lo)
    decreases |s| - p
  {
    var start := p + |key|;
    if start <= |s| && s[p..start] == key && LastQuote(s, start, LineEnd(s, start)).Some? {
      assert OccursAt(s, Capture(s, key, p).value, start);
    } else if p < |s| {
      CaptureOccurs(s, key, p + 1);
    }
  }

  /** A line that is key, then text without line breaks, then a quote, captures that text. */
  lemma CaptureWrapped(key: string, e: string)
    requires '\n' !in e
    ensures Capture(key + e + "\"", key, 0) == Some(e)
  {
    var s := key + e + "\"";
    assert s[0..|key|] == key;
    assert forall j :: |key| <= j < |s| ==> s[j] != '\n' by {
      forall j | |key| <= j < |s| ensures s[j] != '\n' {
        if j < |s| - 1 {
          assert s[j] == e[j - |key|];
        }
      }
    }
    LineEndShape(s, |key|);
    assert LineEnd(s, |key|) == |s|;
    assert LastQuote(s, |key|, |s|) == Some(|s| - 1);
    assert s[|key|..|s| - 1] == e;
  }

  /** The pattern matches at q: the keyword stands at q and a quote follows it on the same
      line. */
  predicate MatchAt(s: string, key: string, q: nat) {
    q + |key| <= |s| && s[q..q + |key|] == key &&
    exists t :: q + |key| <= t < |s| && s[t] == '"' && '\n' !in s[q + |key|..t]
  }

  /** v is what the greedy `(.*)"` takes from position start: text without a line break, a
      quote right after it, and no later quote before the line ends. */
  predicate GreedyCapture(s: string, start: nat, v: string) {
    var e := start + |v|;
    e < |s| && s[start..e] == v && s[e] == '"' && '\n' !in v &&
    forall t :: e < t < |s| && s[t] == '"' ==> '\n' in s[e..t]
  }

  lemma SliceHas(s: string, i: nat, j: nat, c: char)
    requires i <= j <= |s|
    ensures c in s[i..j] <==> exists k :: i <= k < j && s[k] == c
  {
    if c in s[i..j] {
      var n :| 0 <= n < j - i && s[i..j][n] == c;
      assert s[i + n] == c;
    }
    if exists k :: i <= k < j && s[k] == c {
      var k :| i <= k < j && s[k] == c;
      assert s[i..j][k - i] == c;
    }
  }

  /** At a position where the keyword stands, the line-end and last-quote search finds a quote
      exactly when the pattern matches there, and what it cuts out is the greedy capture. */
  lemma CaptureAt(s: string, key: string, q: nat)
    requires q + |key| <= |s| && s[q..q + |key|] == key
    ensures var start := q + |key|;
            var lq := LastQuote(s, start, LineEnd(s, start));
            (lq.Some? <==> MatchAt(s, key, q)) &&
            (lq.Some? ==> GreedyCapture(s, start, s[start..lq.value]))
  {
    if LastQuote(s, q + |key|, LineEnd(s, q + |key|)).Some? {
      MatchFound(s, key, q);
    } else {
      MatchMissed(s, key, q);
    }
  }

  lemma MatchFound(s: string, key: string, q: nat)
    requires q + |key| <= |s| && s[q..q + |key|] == key
    requires LastQuote(s, q + |key|, LineEnd(s, q + |key|)).Some?
    ensures MatchAt(s, key, q)
    ensures GreedyCapture(s, q + |key|, s[q + |key|..LastQuote(s, q + |key|, LineEnd(s, q + |key|)).value])
  {
    QuoteFound(s, q + |key|);
  }

  lemma MatchMissed(s: string, key: string, q: nat)
    requires q + |key| <= |s| && LastQuote(s, q + |key|, LineEnd(s, q + |key|)).None?
    ensures !MatchAt(s, key, q)
  {
    var start := q + |key|;
    if MatchAt(s, key, q) {
      var t :| start <= t < |s| && s[t] == '"' && '\n' !in s[start..t];
      QuoteMissed(s, start, t);
    }
  }

  /** A quote found before the line ends gives the greedy capture. */
  lemma QuoteFound(s: string, start: nat)
    requires start <= |s| && LastQuote(s, start, LineEnd(s, start)).Some?
    ensures var e := LastQuote(s, start, LineEnd(s, start)).value;
            start <= e < |s| && s[e] == '"' && '\n' !in s[start..e] &&
            GreedyCapture(s, start, s[start..e])
  {
    var le := LineEnd(s, start);
    var e := LastQuote(s, start, le).value;
    LineEndShape(s, start);
    LastQuoteShape(s, start, le);
    SliceHas(s, start, e, '\n');
    forall t | e < t < |s| && s[t] == '"' ensures '\n' in s[e..t] {
      assert le < t && s[le] == '\n';
      SliceHas(s, e, t, '\n');
    }
  }

  /** A quote on the same line is never missed. */
  lemma QuoteMissed(s: string, start: nat, t: nat)
    requires start <= t < |s| && s[t] == '"' && '\n' !in s[start..t]
    ensures LastQuote(s, start, LineEnd(s, start)).Some?
  {
    var le := LineEnd(s, start);
    LineEndShape(s, start);
    LastQuoteShape(s, start, le);
    if le <= t {
      assert le < t && s[le] == '\n';
      SliceHas(s, start, t, '\n');
    }
  }

  /** The pattern matches nowhere in [p, q). */
  predicate NoMatchBetween(s: string, key: string, p: nat, q: nat) {
    forall k :: p <= k < q ==> !MatchAt(s, key, k)
  }

  /** q is the leftmost position from p on where the pattern matches. */
  predicate LeftmostMatch(s: string, key: string, p: nat, q: nat) {
    p <= q <= |s| && MatchAt(s, key, q) && NoMatchBetween(s, key, p, q)
  }

  /** The capture of /<keyword> "(.*)"/ from position p: none exactly when the pattern matches
      nowhere from p on; otherwise the greedy capture at the leftmost position that matches. */
  lemma {:induction false} CaptureLeftmost(s: string, key: string, p: nat)
    requires p <= |s|
    ensures Capture(s, key, p).None? <==> NoMatchBetween(s, key, p, |s| + 1)
    ensures Capture(s, key, p).Some? ==>
              exists q: nat :: LeftmostMatch(s, key, p, q) && GreedyCapture(s, q + |key|, Capture(s, key, p).value)
    decreases |s| - p, 1
  {
    var start := p + |key|;
    if start <= |s| && s[p..start] == key && LastQuote(s, start, LineEnd(s, start)).Some? {
      CaptureAt(s, key, p);
      assert LeftmostMatch(s, key, p, p);
    } else {
      CaptureMissed(s, key, p);
    }
  }

  lemma {:induction false} CaptureMissed(s: string, key: string, p: nat)
    requires p <= |s|
    requires var start := p + |key|;
             !(start <= |s| && s[p..start] == key && LastQuote(s, start, LineEnd(s, start)).Some?)
    ensures Capture(s, key, p).None? <==> NoMatchBetween(s, key, p, |s| + 1)
    ensures Capture(s, key, p).Some? ==>
              exists q: nat :: LeftmostMatch(s, key, p, q) && GreedyCapture(s, q + |key|, Capture(s, key, p).value)
    decreases |s| - p, 0
  {
    var start := p + |key|;
    if start <= |s| && s[p..start] == key {
      CaptureAt(s, key, p);
    }
    assert !MatchAt(s, key, p);
    if p < |s| {
      CaptureLeftmost(s, key, p + 1);
      assert Capture(s, key, p) == Capture(s, key, p + 1);
      if Capture(s, key, p).Some? {
        var q: nat :| LeftmostMatch(s, key, p + 1, q) && GreedyCapture(s, q + |key|, Capture(s, key, p).value);
        assert LeftmostMatch(s, key, p, q);
      }
    }
  }

  lemma SliceKeepsAbsent(s: string, r: string, lo: int, c: char)
    requires OccursAt(s, r, lo) && c !in s
    ensures c !in r
  {
    forall i | 0 <= i < |r| ensures r[i] != c {
      assert r[i] == s[lo + i];
    }
  }

  /** The text of an identifier line: the quoted text when there is one, else the whole line,
      trimmed and with whitespace runs collapsed. */
  function ExtractId(line: string): string {
    Normalize(match Capture(line, IdPrefix, 0) case Some(c) => c case None => line)
  }

  /** The text of a translation line, by the same rule for `msgstr "`. */
  function ExtractString(line: string): string {
    Normalize(match Capture(line, StringPrefix, 0) case Some(c) => c case None => line)
  }

  /** Extracted texts hold single plain spaces only and no line break. */
  lemma ExtractShape(line: string)
    ensures var id := ExtractId(line); OnlyPlainSpaces(id) && NoDoubleSpace(id) && '\n' !in id
    ensures var t := ExtractString(line); OnlyPlainSpaces(t) && NoDoubleSpace(t) && '\n' !in t
  {
    NormalizeShape(match Capture(line, IdPrefix, 0) case Some(c) => c case None => line);
    NormalizeShape(match Capture(line, StringPrefix, 0) case Some(c) => c case None => line);
  }

  /** The canonical identifier line: `msgid "<extracted id>"`. */
  function FormatId(line: string): (r: string)
    ensures IsId(r)
  {
    IdPrefix + ExtractId(line) + "\""
  }

  /** The canonical translation line: `msgstr "<extracted text>"`, whatever kind the line was. */
  function FormatString(line: string): (r: string)
    ensures IsString(r)
  {
    StringPrefix + ExtractString(line) + "\""
  }

  lemma NormalizeNoFormFeed(line: string, key: string)
    requires FormFeed !in line
    ensures FormFeed !in (match Capture(line, key, 0) case Some(c) => c case None => line)
  {
    CaptureOccurs(line, key, 0);
    match Capture(line, key, 0)
    case Some(c) =>
      var lo :| OccursAt(line, c, lo);
      SliceKeepsAbsent(line, c, lo, FormFeed);
    case None =>
  }

  /** Extracting from the canonical identifier line gives back the identifier
      (for lines without form feeds, where trim and \s agree on the ends). */
  lemma ExtractFormatId(line: string)
    requires FormFeed !in line
    ensures ExtractId(FormatId(line)) == ExtractId(line)
  {
    var id := ExtractId(line);
    ExtractShape(line);
    CaptureWrapped(IdPrefix, id);
    NormalizeNoFormFeed(line, IdPrefix);
    NormalizeIdempotent(match Capture(line, IdPrefix, 0) case Some(c) => c case None => line);
  }

  /** Formatting an identifier line twice is formatting it once. */
  lemma FormatIdIdempotent(line: string)
    requires FormFeed !in line
    ensures FormatId(FormatId(line)) == FormatId(line)
  {
    ExtractFormatId(line);
  }

  /** Extracting from the canonical translation line gives back the text. */
  lemma ExtractFormatString(line: string)
    requires FormFeed !in line
    ensures ExtractString(FormatString(line)) == ExtractString(line)
  {
    var text := ExtractString(line);
    ExtractShape(line);
    CaptureWrapped(StringPrefix, text);
    NormalizeNoFormFeed(line, StringPrefix);
    NormalizeIdempotent(match Capture(line, StringPrefix, 0) case Some(c) => c case None => line);
  }

  /** Formatting a translation line twice is formatting it once. */
  lemma FormatStringIdempotent(line: string)
    requires FormFeed !in line
    ensures FormatString(FormatString(line)) == FormatString(line)
  {
    ExtractFormatString(line);
  }

  // ---------------------------------------------------------------------------------------
  // Grouping: a two-position reducer over the lines.

  /** One translation unit: its identifier line and the lines before and after it. */
  datatype Unit = Unit(msgid: string, before: seq<string>, after: seq<string>)

  const EmptyUnit: Unit := Unit("", [], [])

  datatype Position = Before | After

  datatype GroupState = GroupState(grouped: seq<Entry<Unit>>, current: Unit, position: Position)

  const Start: GroupState := GroupState([], EmptyUnit, Before)

  /** Insert the finished unit under its extracted identifier and start an empty one. */
  function Close(grouped: seq<Entry<Unit>>, u: Unit): GroupState {
    GroupState(Put(grouped, ExtractId(u.msgid), u), EmptyUnit, Before)
  }

  /** What one line does to the grouping state. */
  function Step(st: GroupState, line: string, format: bool): GroupState {
    var u := st.current;
    if IsId(line) then
      GroupState(st.grouped, u.(msgid := if format then FormatId(line) else line), After)
    else if IsPluralString(line) || IsString(line) then
      var u' := u.(after := u.after + [if format then FormatString(line) else line]);
      if IsString(line) then Close(st.grouped, u') else GroupState(st.grouped, u', st.position)
    else if line == "" then
      if st.position == After then Close(st.grouped, u.(after := u.after + [line]))
      else GroupState(st.grouped, u.(before := u.before + [line]), Before)
    else if st.position == Before then
      GroupState(st.grouped, u.(before := u.before + [line]), Before)
    else
      GroupState(st.grouped, u.(after := u.after + [line]), After)
  }

  /** The state after feeding the lines, in order, to Step. */
  function GroupFrom(st: GroupState, lines: seq<string>, format: bool): GroupState
    decreases |lines|
  {
    if lines == [] then st
    else Step(GroupFrom(st, lines[..|lines| - 1], format), lines[|lines| - 1], format)
  }

  /** The grouped units of a line sequence; a unit still open at the end is dropped. */
  function Grouped(lines: seq<string>, format: bool): seq<Entry<Unit>> {
    GroupFrom(Start, lines, format).grouped
  }

  /** Sorter::group. */
  method Group(lines: seq<string>, format: bool) returns (grouped: seq<Entry<Unit>>)
    ensures grouped == Grouped(lines, format)
  {
    grouped := [];
    var current := EmptyUnit;
    var position := Before;
    for i := 0 to |lines|
      invariant GroupState(grouped, current, position) == GroupFrom(Start, lines[..i], format)
    {
      var line := lines[i];
      assert lines[..i + 1][..i] == lines[..i];
      if IsId(line) {
        var msgid := if format then FormatId(line) else line;
        current := current.(msgid := msgid);
        position := After;
      } else if IsPluralString(line) || IsString(line) {
        var formattedLine := if format then FormatString(line) else line;
        current := current.(after := current.after + [formattedLine]);
        if IsString(line) {
          var msgid := ExtractId(current.msgid);
          grouped := Put(grouped, msgid, current);
          current := EmptyUnit;
          position := Before;
        }
      } else if line == "" {
        if position == After {
          current := current.(after := current.after + [line]);
          var msgid := ExtractId(current.msgid);
          grouped := Put(grouped, msgid, current);
          current := EmptyUnit;
          position := Before;
        } else {
          current := current.(before := current.before + [line]);
        }
      } else if position == Before {
        current := current.(before := current.before + [line]);
      } else {
        current := current.(after := current.after + [line]);
      }
    }
    assert lines[..|lines|] == lines;
  }

  /** Feeding two line sequences one after the other is feeding their concatenation. */
  lemma {:induction false} GroupFromConcat(st: GroupState, xs: seq<string>, ys: seq<string>, format: bool)
    ensures GroupFrom(st, xs + ys, format) == GroupFrom(GroupFrom(st, xs, format), ys, format)
    decreases |ys|
  {
    if ys == [] {
      assert xs + ys == xs;
    } else {
      var n := |ys| - 1;
      GroupFromConcat(st, xs, ys[..n], format);
      assert (xs + ys)[..|xs + ys| - 1] == xs + ys[..n];
      assert (xs + ys)[|xs + ys| - 1] == ys[n];
    }
  }

  /** A unit that has been inserted: it is closed by a translation line or a blank line. */
  predicate Closed(u: Unit) {
    u.after != [] && (u.after[|u.after| - 1] == "" || IsString(u.after[|u.after| - 1]))
  }

  /** A stored unit sits under the extracted identifier of its own identifier line, and is closed. */
  predicate EntryOk(e: Entry<Unit>) {
    e.key == ExtractId(e.value.msgid) && Closed(e.value)
  }

  /** Every stored unit is EntryOk and no key is stored twice. */
  predicate WellGrouped(m: seq<Entry<Unit>>) {
    UniqueKeys(m) && forall e :: e in m ==> EntryOk(e)
  }

  lemma CloseWellGrouped(m: seq<Entry<Unit>>, u: Unit)
    requires WellGrouped(m) && Closed(u)
    ensures WellGrouped(Close(m, u).grouped)
  {
    PutUnique(m, ExtractId(u.msgid), u);
    PutEntries(m, ExtractId(u.msgid), u);
  }

  lemma StepWellGrouped(st: GroupState, line: string, format: bool)
    requires WellGrouped(st.grouped)
    ensures WellGrouped(Step(st, line, format).grouped)
  {
    var u := st.current;
    if IsId(line) {
    } else if IsPluralString(line) || IsString(line) {
      if IsString(line) {
        CloseWellGrouped(st.grouped, u.(after := u.after + [if format then FormatString(line) else line]));
      }
    } else if line == "" && st.position == After {
      CloseWellGrouped(st.grouped, u.(after := u.after + [line]));
    }
  }

  lemma {:induction false} GroupFromWellGrouped(st: GroupState, lines: seq<string>, format: bool)
    requires WellGrouped(st.grouped)
    ensures WellGrouped(GroupFrom(st, lines, format).grouped)
    decreases |lines|
  {
    if lines != [] {
      GroupFromWellGrouped(st, lines[..|lines| - 1], format);
      StepWellGrouped(GroupFrom(st, lines[..|lines| - 1], format), lines[|lines| - 1], format);
    }
  }

  /** Grouping stores every unit under its own extracted identifier, each closed by a
      translation line or a blank line, with no key twice. */
  lemma GroupedIsWellGrouped(lines: seq<string>, format: bool)
    ensures WellGrouped(Grouped(lines, format))
  {
    GroupFromWellGrouped(Start, lines, format);
  }

  /** Lines that neither translate nor are blank never close a unit: a unit still open when
      the input ends is not inserted. */
  lemma {:induction false} OpenTailDropped(st: GroupState, ys: seq<string>, format: bool)
    requires forall j :: 0 <= j < |ys| ==> !IsString(ys[j]) && ys[j] != ""
    ensures GroupFrom(st, ys, format).grouped == st.grouped
    decreases |ys|
  {
    if ys != [] {
      OpenTailDropped(st, ys[..|ys| - 1], format);
    }
  }

  /** Corollary for whole inputs: appending lines that never close a unit changes nothing. */
  lemma UnclosedUnitDiscarded(xs: seq<string>, ys: seq<string>, format: bool)
    requires forall j :: 0 <= j < |ys| ==> !IsString(ys[j]) && ys[j] != ""
    ensures Grouped(xs + ys, format) == Grouped(xs, format)
  {
    GroupFromConcat(Start, xs, ys, format);
    OpenTailDropped(GroupFrom(Start, xs, format), ys, format);
  }

  lemma MapUnionUpdate<K, V>(a: map<K, V>, b: map<K, V>, k: K, v: V)
    ensures (a + b)[k := v] == a + b[k := v]
  {
  }

  /** Closing the same unit on two stored arrays keeps "first array's view, overridden by the
      second's" in step. */
  lemma CloseStored(g: seq<Entry<Unit>>, a: seq<Entry<Unit>>, b: seq<Entry<Unit>>, u: Unit)
    requires AsMap(a) == AsMap(g) + AsMap(b)
    ensures AsMap(Close(a, u).grouped) == AsMap(g) + AsMap(Close(b, u).grouped)
  {
    var k := ExtractId(u.msgid);
    PutAsMap(a, k, u);
    PutAsMap(b, k, u);
    MapUnionUpdate(AsMap(g), AsMap(b), k, u);
  }

  /** Grouping from a reset state with units already stored behaves like grouping from the
      start, except that the stored units stay in the key-value view unless overwritten. */
  lemma {:induction false} GroupFromStored(g: seq<Entry<Unit>>, ys: seq<string>, format: bool)
    ensures var a := GroupFrom(GroupState(g, EmptyUnit, Before), ys, format);
            var b := GroupFrom(Start, ys, format);
            a.current == b.current && a.position == b.position &&
            AsMap(a.grouped) == AsMap(g) + AsMap(b.grouped)
    decreases |ys|
  {
    if ys == [] {
      assert AsMap(g) + map[] == AsMap(g);
    } else {
      var n := |ys| - 1;
      GroupFromStored(g, ys[..n], format);
      var a := GroupFrom(GroupState(g, EmptyUnit, Before), ys[..n], format);
      var b := GroupFrom(Start, ys[..n], format);
      var line := ys[n];
      var u := a.current;
      if IsId(line) {
      } else if IsPluralString(line) || IsString(line) {
        if IsString(line) {
          CloseStored(g, a.grouped, b.grouped,
            u.(after := u.after + [if format then FormatString(line) else line]));
        }
      } else if line == "" && a.position == After {
        CloseStored(g, a.grouped, b.grouped, u.(after := u.after + [line]));
      }
    }
  }

  /** Duplicate identifiers: when the lines xs leave no unit open, grouping xs + ys stores,
      for every key, the unit ys stored under it if ys stored one, and otherwise the unit xs
      stored under it; each key is stored once. */
  lemma LaterUnitWins(xs: seq<string>, ys: seq<string>, format: bool)
    requires GroupFrom(Start, xs, format).current == EmptyUnit
    requires GroupFrom(Start, xs, format).position == Before
    ensures AsMap(Grouped(xs + ys, format)) == AsMap(Grouped(xs, format)) + AsMap(Grouped(ys, format))
    ensures UniqueKeys(Grouped(xs + ys, format))
  {
    GroupFromConcat(Start, xs, ys, format);
    GroupFromStored(Grouped(xs, format), ys, format);
    GroupedIsWellGrouped(xs + ys, format);
  }

  // ---------------------------------------------------------------------------------------
  // Merging and ordering.

  /** The lines of one stored unit: before, identifier line, after. */
  function Block(e: Entry<Unit>): seq<string> {
    e.value.before + [e.value.msgid] + e.value.after
  }

  /** The lines of all stored units, in map order. */
  function Flatten(m: seq<Entry<Unit>>): seq<string>
    decreases |m|
  {
    if m == [] then [] else Flatten(m[..|m| - 1]) + Block(m[|m| - 1])
  }

  /** Sorter::merge. */
  method Merge(grouped: seq<Entry<Unit>>) returns (merged: seq<string>)
    ensures merged == Flatten(grouped)
  {
    merged := [];
    for i := 0 to |grouped|
      invariant merged == Flatten(grouped[..i])
    {
      var group := grouped[i];
      assert grouped[..i + 1][..i] == grouped[..i];
      merged := merged + group.value.before + [group.value.msgid] + group.value.after;
    }
    assert grouped[..|grouped|] == grouped;
  }

  function BlockSizes(m: seq<Entry<Unit>>): nat
    decreases |m|
  {
    if m == [] then 0
    else BlockSizes(m[..|m| - 1]) + |m[|m| - 1].value.before| + 1 + |m[|m| - 1].value.after|
  }

  lemma FlattenSnoc(m: seq<Entry<Unit>>, e: Entry<Unit>)
    ensures Flatten(m + [e]) == Flatten(m) + Block(e)
  {
    assert (m + [e])[..|m|] == m;
  }

  /** Merging concatenates: the lines of m1 + m2 are those of m1 then those of m2. */
  lemma {:induction false} FlattenConcat(m1: seq<Entry<Unit>>, m2: seq<Entry<Unit>>)
    ensures Flatten(m1 + m2) == Flatten(m1) + Flatten(m2)
    decreases |m2|
  {
    if m2 == [] {
      assert m1 + m2 == m1;
    } else {
      var init, last := m2[..|m2| - 1], m2[|m2| - 1];
      assert m2 == init + [last];
      assert m1 + m2 == (m1 + init) + [last];
      FlattenSnoc(m1 + init, last);
      FlattenSnoc(init, last);
      FlattenConcat(m1, init);
    }
  }

  /** The merged output has |before| + 1 + |after| lines per unit. */
  lemma {:induction false} FlattenLength(m: seq<Entry<Unit>>)
    ensures |Flatten(m)| == BlockSizes(m)
    decreases |m|
  {
    if m != [] {
      FlattenLength(m[..|m| - 1]);
    }
  }

  /** Byte-wise string order (strcmp < 0). Comparing Unicode scalars is comparing their UTF-8
      encodings byte by byte. */
  predicate Less(a: string, b: string)
    decreases |a|
  {
    if a == [] then b != []
    else if b == [] then false
    else if a[0] != b[0] then a[0] < b[0]
    else Less(a[1..], b[1..])
  }

  lemma {:induction false} LessIrreflexive(a: string)
    ensures !Less(a, a)
    decreases |a|
  {
    if a != [] {
      LessIrreflexive(a[1..]);
    }
  }

  lemma {:induction false} LessAsymmetric(a: string, b: string)
    requires Less(a, b)
    ensures !Less(b, a)
    decreases |a|
  {
    if a != [] && b != [] && a[0] == b[0] {
      LessAsymmetric(a[1..], b[1..]);
    }
  }

  lemma {:induction false} LessTotal(a: string, b: string)
    requires a != b
    ensures Less(a, b) || Less(b, a)
    decreases |a|
  {
    if a != [] && b != [] && a[0] == b[0] {
      assert a[1..] != b[1..] by {
        assert a == [a[0]] + a[1..] && b == [b[0]] + b[1..];
      }
      LessTotal(a[1..], b[1..]);
    }
  }

  lemma {:induction false} LessTransitive(a: string, b: string, c: string)
    requires Less(a, b) && Less(b, c)
    ensures Less(a, c)
    decreases |a|
  {
    if a != [] && b != [] && c != [] && a[0] == b[0] && b[0] == c[0] {
      LessTransitive(a[1..], b[1..], c[1..]);
    }
  }

  /** Keys strictly ascend from each entry to the next. */
  predicate SortedByKey(m: seq<Entry<Unit>>) {
    forall i :: 0 <= i < |m| - 1 ==> Less(m[i].key, m[i + 1].key)
  }

  /** Insert an entry into a key-sorted array before the first key that is not smaller. */
  function InsertByKey(e: Entry<Unit>, m: seq<Entry<Unit>>): (r: seq<Entry<Unit>>)
    ensures multiset(r) == multiset(m) + multiset{e}
    ensures |r| == |m| + 1
    ensures r[0] == e || (m != [] && r[0] == m[0])
    decreases |m|
  {
    if m == [] || !Less(m[0].key, e.key) then [e] + m
    else
      var rest := InsertByKey(e, m[1..]);
      assert m == [m[0]] + m[1..];
      [m[0]] + rest
  }

  /** ksort on the insertion-ordered array. */
  function KSort(m: seq<Entry<Unit>>): (r: seq<Entry<Unit>>)
    ensures multiset(r) == multiset(m) && |r| == |m|
    decreases |m|
  {
    if m == [] then []
    else
      assert m == [m[0]] + m[1..];
      InsertByKey(m[0], KSort(m[1..]))
  }

  lemma {:induction false} InsertByKeySorted(e: Entry<Unit>, m: seq<Entry<Unit>>)
    requires SortedByKey(m)
    requires forall i :: 0 <= i < |m| ==> m[i].key != e.key
    ensures SortedByKey(InsertByKey(e, m))
    decreases |m|
  {
    if m == [] || !Less(m[0].key, e.key) {
      if m != [] {
        LessTotal(m[0].key, e.key);
      }
    } else {
      InsertByKeySorted(e, m[1..]);
      var rest := InsertByKey(e, m[1..]);
      assert Less(m[0].key, rest[0].key);
    }
  }

  /** ksort yields keys in strictly ascending byte-wise order when the keys are unique. */
  lemma {:induction false} KSortSorted(m: seq<Entry<Unit>>)
    requires UniqueKeys(m)
    ensures SortedByKey(KSort(m))
    decreases |m|
  {
    if m != [] {
      KSortSorted(m[1..]);
      var r := KSort(m[1..]);
      forall i | 0 <= i < |r| ensures r[i].key != m[0].key {
        assert r[i] in multiset(r);
        assert r[i] in multiset(m[1..]);
        var j :| 0 <= j < |m[1..]| && m[1..][j] == r[i];
        assert m[j + 1] == r[i];
      }
      InsertByKeySorted(m[0], r);
    }
  }

  /** ksort leaves an already sorted array as it is. */
  lemma {:induction false} KSortOfSorted(m: seq<Entry<Unit>>)
    requires SortedByKey(m)
    ensures KSort(m) == m
    decreases |m|
  {
    if m != [] {
      KSortOfSorted(m[1..]);
      if |m| > 1 {
        LessAsymmetric(m[0].key, m[1].key);
      }
      assert [m[0]] + m[1..] == m;
    }
  }

  /** The lines Sorter::sort produces: group, ksort, merge. */
  function SortedLines(lines: seq<string>, format: bool): seq<string> {
    Flatten(KSort(Grouped(lines, format)))
  }

  /** Sorter::sort: the constructor's lines and format flag are the parameters. */
  method Sort(lines: seq<string>, format: bool) returns (sorted: seq<string>)
    ensures sorted == SortedLines(lines, format)
  {
    var groupedLines := Group(lines, format);
    groupedLines := KSort(groupedLines);
    sorted := Merge(groupedLines);
  }

  /** The sorted output is the merge of an array holding exactly the grouped units, with keys
      in strictly ascending byte-wise order. */
  lemma SortOrder(lines: seq<string>, format: bool)
    ensures var m := KSort(Grouped(lines, format));
            SortedLines(lines, format) == Flatten(m) && SortedByKey(m) &&
            multiset(m) == multiset(Grouped(lines, format))
  {
    GroupedIsWellGrouped(lines, format);
    KSortSorted(Grouped(lines, format));
  }

  // ---------------------------------------------------------------------------------------
  // Sorting twice is sorting once.

  /** A line the grouping puts wherever the position says: not blank and of no known kind. */
  predicate Plain(line: string) {
    line != "" && !IsId(line) && !IsString(line) && !IsPluralString(line)
  }

  /** A line that may stand between the identifier line and the closing line of a unit when the
      sorted output is grouped again: with formatting on, plural lines would be rewritten into
      closing translation lines, so only plain lines qualify. */
  predicate Middle(line: string, format: bool) {
    line != "" && !IsId(line) && !IsString(line) && (format ==> !IsPluralString(line))
  }

  /** An identifier line that grouping keeps as it is. */
  predicate StableId(msgid: string, format: bool) {
    IsId(msgid) && (format ==> FormatId(msgid) == msgid)
  }

  /** A closing line that grouping keeps as it is. */
  predicate StableCloser(line: string, format: bool) {
    line == "" || (IsString(line) && (format ==> FormatString(line) == line))
  }

  predicate BeforeLines(ls: seq<string>) {
    forall j :: 0 <= j < |ls| ==> ls[j] == "" || Plain(ls[j])
  }

  predicate MiddleLines(ls: seq<string>, format: bool) {
    forall j :: 0 <= j < |ls| ==> Middle(ls[j], format)
  }

  /** A stored unit whose lines group back into exactly this unit under this key. */
  predicate Canonical(e: Entry<Unit>, format: bool) {
    var u := e.value;
    StableId(u.msgid, format) && e.key == ExtractId(u.msgid) &&
    BeforeLines(u.before) && u.after != [] &&
    MiddleLines(u.after[..|u.after| - 1], format) &&
    StableCloser(u.after[|u.after| - 1], format)
  }

  lemma {:induction false} GroupBeforeLines(st: GroupState, ls: seq<string>, format: bool)
    requires st.position == Before && BeforeLines(ls)
    ensures GroupFrom(st, ls, format) ==
            st.(current := st.current.(before := st.current.before + ls))
    decreases |ls|
  {
    if ls == [] {
      assert st.current.before + ls == st.current.before;
    } else {
      var n := |ls| - 1;
      GroupBeforeLines(st, ls[..n], format);
      assert st.current.before + ls[..n] + [ls[n]] == st.current.before + ls;
    }
  }

  lemma {:induction false} GroupMiddleLines(st: GroupState, ls: seq<string>, format: bool)
    requires st.position == After && MiddleLines(ls, format)
    ensures GroupFrom(st, ls, format) ==
            st.(current := st.current.(after := st.current.after + ls))
    decreases |ls|
  {
    if ls == [] {
      assert st.current.after + ls == st.current.after;
    } else {
      var n := |ls| - 1;
      GroupMiddleLines(st, ls[..n], format);
      assert st.current.after + ls[..n] + [ls[n]] == st.current.after + ls;
      ClassifiersDisjoint(ls[n]);
    }
  }

  lemma GroupFromOne(st: GroupState, line: string, format: bool)
    ensures GroupFrom(st, [line], format) == Step(st, line, format)
  {
    assert [line][..0] == [];
  }

  lemma StepStableId(st: GroupState, msgid: string, format: bool)
    requires StableId(msgid, format)
    ensures Step(st, msgid, format) == GroupState(st.grouped, st.current.(msgid := msgid), After)
  {
  }

  lemma StepStableCloser(st: GroupState, closer: string, format: bool)
    requires st.position == After && StableCloser(closer, format)
    ensures Step(st, closer, format) ==
            Close(st.grouped, st.current.(after := st.current.after + [closer]))
  {
    ClassifiersDisjoint(closer);
    if closer == "" {
      assert !IsId(closer) && !IsString(closer) && !IsPluralString(closer);
    } else {
      assert IsString(closer) && !IsId(closer);
      assert (if format then FormatString(closer) else closer) == closer;
    }
  }

  lemma RegroupHead(g: seq<Entry<Unit>>, before: seq<string>, msgid: string, format: bool)
    requires BeforeLines(before) && StableId(msgid, format)
    ensures GroupFrom(GroupState(g, EmptyUnit, Before), before + [msgid], format) ==
            GroupState(g, Unit(msgid, before, []), After)
  {
    var st := GroupState(g, EmptyUnit, Before);
    GroupBeforeLines(st, before, format);
    var s1 := GroupState(g, Unit("", before, []), Before);
    assert GroupFrom(st, before, format) == s1;
    GroupFromConcat(st, before, [msgid], format);
    GroupFromOne(s1, msgid, format);
    StepStableId(s1, msgid, format);
  }

  lemma RegroupTail(g: seq<Entry<Unit>>, u: Unit, format: bool)
    requires u.after != [] && MiddleLines(u.after[..|u.after| - 1], format)
    requires StableCloser(u.after[|u.after| - 1], format)
    ensures GroupFrom(GroupState(g, u.(after := []), After), u.after, format) == Close(g, u)
  {
    var n := |u.after| - 1;
    var mid := u.after[..n];
    var closer := u.after[n];
    assert mid + [closer] == u.after;
    var s2 := GroupState(g, u.(after := []), After);
    GroupMiddleLines(s2, mid, format);
    var s3 := GroupState(g, u.(after := mid), After);
    assert GroupFrom(s2, mid, format) == s3 by {
      assert [] + mid == mid;
    }
    GroupFromConcat(s2, mid, [closer], format);
    GroupFromOne(s3, closer, format);
    StepStableCloser(s3, closer, format);
  }

  /** The lines of a canonical unit, grouped after a reset, close exactly that unit. */
  lemma BlockRegroups(g: seq<Entry<Unit>>, e: Entry<Unit>, format: bool)
    requires Canonical(e, format)
    ensures GroupFrom(GroupState(g, EmptyUnit, Before), Block(e), format) == Close(g, e.value)
  {
    var u := e.value;
    var st := GroupState(g, EmptyUnit, Before);
    RegroupHead(g, u.before, u.msgid, format);
    GroupFromConcat(st, u.before + [u.msgid], u.after, format);
    RegroupTail(g, u, format);
  }

  lemma CloseAppends(g: seq<Entry<Unit>>, e: Entry<Unit>)
    requires e.key == ExtractId(e.value.msgid) && e.key !in Keys(g)
    ensures Close(g, e.value) == GroupState(g + [e], EmptyUnit, Before)
  {
  }

  /** Dropping the last entry keeps keys unique, and the dropped key is not among the rest. */
  lemma DropLastUnique(m: seq<Entry<Unit>>)
    requires UniqueKeys(m) && m != []
    ensures UniqueKeys(m[..|m| - 1]) && m[|m| - 1].key !in Keys(m[..|m| - 1])
  {
    var init := m[..|m| - 1];
    forall j | 0 <= j < |init| ensures Keys(init)[j] != m[|m| - 1].key {
      assert init[j] == m[j];
    }
  }

  /** An array of canonical units with unique keys, merged and grouped again, is that same array. */
  lemma {:induction false} RegroupFlatten(m: seq<Entry<Unit>>, format: bool)
    requires UniqueKeys(m)
    requires forall e :: e in m ==> Canonical(e, format)
    ensures GroupFrom(Start, Flatten(m), format) == GroupState(m, EmptyUnit, Before)
    decreases |m|
  {
    if m != [] {
      var n := |m| - 1;
      var init := m[..n];
      var last := m[n];
      assert init + [last] == m;
      assert last in m;
      assert forall e :: e in init ==> e in m;
      DropLastUnique(m);
      RegroupFlatten(init, format);
      GroupFromConcat(Start, Flatten(init), Block(last), format);
      BlockRegroups(init, last, format);
      CloseAppends(init, last);
    }
  }

  /** Every stored unit that had an identifier line is canonical. */
  predicate StoredCanonical(m: seq<Entry<Unit>>, format: bool) {
    forall e :: e in m ==> e.value.msgid == "" || Canonical(e, format)
  }

  /** The part of a grouping state that the first pass guarantees when every line is free of
      form feeds and, with formatting on, no line is a plural line. */
  predicate FirstPass(st: GroupState, format: bool) {
    StoredCanonical(st.grouped, format) &&
    BeforeLines(st.current.before) &&
    (st.current.msgid == "" || StableId(st.current.msgid, format)) &&
    MiddleLines(st.current.after, format)
  }

  predicate Sortable(line: string, format: bool) {
    FormFeed !in line && (format ==> !IsPluralString(line))
  }

  lemma ClosedCanonical(u: Unit, closer: string, format: bool)
    requires u.msgid == "" || StableId(u.msgid, format)
    requires BeforeLines(u.before) && MiddleLines(u.after, format) && StableCloser(closer, format)
    ensures var u' := u.(after := u.after + [closer]);
            u'.msgid == "" || Canonical(Entry(ExtractId(u'.msgid), u'), format)
  {
    assert (u.after + [closer])[..|u.after|] == u.after;
  }

  lemma PutStoredCanonical(m: seq<Entry<Unit>>, k: string, u: Unit, format: bool)
    requires StoredCanonical(m, format)
    requires u.msgid == "" || Canonical(Entry(k, u), format)
    ensures StoredCanonical(Put(m, k, u), format)
  {
    PutEntries(m, k, u);
  }

  lemma ResetFirstPass(g: seq<Entry<Unit>>, format: bool)
    requires StoredCanonical(g, format)
    ensures FirstPass(GroupState(g, EmptyUnit, Before), format)
  {
  }

  lemma CloseFirstPass(st: GroupState, u: Unit, closer: string, format: bool)
    requires FirstPass(st, format) && u == st.current
    requires StableCloser(closer, format)
    ensures FirstPass(Close(st.grouped, u.(after := u.after + [closer])), format)
  {
    var u' := u.(after := u.after + [closer]);
    var k := ExtractId(u'.msgid);
    ClosedCanonical(u, closer, format);
    PutStoredCanonical(st.grouped, k, u', format);
    ResetFirstPass(Put(st.grouped, k, u'), format);
  }

  lemma StepFirstPass(st: GroupState, line: string, format: bool)
    requires FirstPass(st, format) && Sortable(line, format)
    ensures FirstPass(Step(st, line, format), format)
  {
    var u := st.current;
    ClassifiersDisjoint(line);
    if IsId(line) {
      if format {
        FormatIdIdempotent(line);
      }
    } else if IsPluralString(line) || IsString(line) {
      if IsString(line) {
        if format {
          FormatStringIdempotent(line);
        }
        CloseFirstPass(st, u, if format then FormatString(line) else line, format);
      } else {
        assert line[0] == 'm';
        assert u.(after := u.after + [line]).after == u.after + [line];
      }
    } else if line == "" {
      if st.position == After {
        CloseFirstPass(st, u, line, format);
      }
    }
  }

  lemma {:induction false} GroupFirstPass(lines: seq<string>, format: bool)
    requires forall j :: 0 <= j < |lines| ==> Sortable(lines[j], format)
    ensures FirstPass(GroupFrom(Start, lines, format), format)
    decreases |lines|
  {
    if lines != [] {
      var n := |lines| - 1;
      GroupFirstPass(lines[..n], format);
      StepFirstPass(GroupFrom(Start, lines[..n], format), lines[n], format);
    }
  }

  lemma {:induction false} SortedUnique(m: seq<Entry<Unit>>)
    requires SortedByKey(m)
    ensures UniqueKeys(m)
    decreases |m|
  {
    if |m| > 1 {
      SortedUnique(m[1..]);
      forall j | 1 <= j < |m| ensures Less(m[0].key, m[j].key) {
        SortedFirstLess(m, j);
      }
      forall j | 1 <= j < |m| ensures m[0].key != m[j].key {
        LessIrreflexive(m[0].key);
      }
      forall i, j | 0 <= i < j < |m| ensures m[i].key != m[j].key {
        if i > 0 {
          assert m[1..][i - 1] == m[i] && m[1..][j - 1] == m[j];
        }
      }
    }
  }

  lemma {:induction false} SortedFirstLess(m: seq<Entry<Unit>>, j: nat)
    requires SortedByKey(m) && 1 <= j < |m|
    ensures Less(m[0].key, m[j].key)
    decreases j
  {
    if j > 1 {
      SortedFirstLess(m, j - 1);
      LessTransitive(m[0].key, m[j - 1].key, m[j].key);
    }
  }

  lemma KSortMembers(m: seq<Entry<Unit>>)
    ensures forall e :: e in KSort(m) ==> e in m
  {
    forall e | e in KSort(m) ensures e in m {
      assert e in multiset(KSort(m));
    }
  }

  /** After a first pass over sortable lines, every stored unit that had an identifier line
      is canonical. */
  lemma GroupedCanonical(lines: seq<string>, format: bool)
    requires forall j :: 0 <= j < |lines| ==> Sortable(lines[j], format)
    requires forall e :: e in Grouped(lines, format) ==> e.value.msgid != ""
    ensures forall e :: e in Grouped(lines, format) ==> Canonical(e, format)
  {
    GroupFirstPass(lines, format);
  }

  /** Sorting already sorted output changes nothing, provided no line holds a form feed, no line
      is a plural line when formatting is on, and every unit the first grouping stores had an
      identifier line. */
  lemma SortIdempotent(lines: seq<string>, format: bool)
    requires forall j :: 0 <= j < |lines| ==> Sortable(lines[j], format)
    requires forall e :: e in Grouped(lines, format) ==> e.value.msgid != ""
    ensures SortedLines(SortedLines(lines, format), format) == SortedLines(lines, format)
  {
    var g := Grouped(lines, format);
    var k := KSort(g);
    GroupedCanonical(lines, format);
    GroupedIsWellGrouped(lines, format);
    KSortSorted(g);
    SortedUnique(k);
    KSortMembers(g);
    RegroupFlatten(k, format);
    KSortOfSorted(k);
  }

  lemma GroupFromSnoc(st: GroupState, xs: seq<string>, x: string, format: bool)
    ensures GroupFrom(st, xs + [x], format) == Step(GroupFrom(st, xs, format), x, format)
  {
    assert (xs + [x])[..|xs|] == xs;
  }

  lemma AdvanceBlankFirst(lines: seq<string>, k: nat, u: Unit)
    requires k < |lines| && lines[k] == "" && GroupFrom(Start, lines[..k], true) == GroupState([], u, After)
    ensures var g := GroupFrom(Start, lines[..k + 1], true).grouped;
            |g| == 1 && g[0].value == u.(after := u.after + [""])
  {
    AdvanceBlank(lines, k, GroupState([], u, After));
    PutEmpty(ExtractId(u.msgid), u.(after := u.after + [""]));
  }

  lemma AdvanceBlankBefore(lines: seq<string>, k: nat, st: GroupState)
    requires k < |lines| && lines[k] == "" && GroupFrom(Start, lines[..k], true) == st
    requires st.position == Before
    ensures GroupFrom(Start, lines[..k + 1], true).grouped == st.grouped
  {
    Advance(lines, k);
  }

  lemma GroupedWhole(lines: seq<string>, k: nat, st: GroupState)
    requires k == |lines| && GroupFrom(Start, lines[..k], true) == st
    ensures Grouped(lines, true) == st.grouped
  {
    assert lines[..k] == lines;
  }

  lemma PutEmpty(k: string, v: Unit)
    ensures Put([], k, v) == [Entry(k, v)]
  {
    assert Keys<Unit>([]) == [];
  }

  /** Feeding the line at index k of `lines` to the state reached after the first k lines. */
  lemma Advance(lines: seq<string>, k: nat)
    requires k < |lines|
    ensures GroupFrom(Start, lines[..k + 1], true) == Step(GroupFrom(Start, lines[..k], true), lines[k], true)
  {
    assert lines[..k + 1][..k] == lines[..k];
  }

  lemma AdvanceId(lines: seq<string>, k: nat, st: GroupState)
    requires k < |lines| && IsId(lines[k]) && GroupFrom(Start, lines[..k], true) == st
    ensures GroupFrom(Start, lines[..k + 1], true) ==
            GroupState(st.grouped, st.current.(msgid := FormatId(lines[k])), After)
  {
    Advance(lines, k);
  }

  lemma AdvancePlural(lines: seq<string>, k: nat, st: GroupState)
    requires k < |lines| && IsPluralString(lines[k]) && GroupFrom(Start, lines[..k], true) == st
    ensures GroupFrom(Start, lines[..k + 1], true) ==
            GroupState(st.grouped, st.current.(after := st.current.after + [FormatString(lines[k])]), st.position)
  {
    Advance(lines, k);
    ClassifiersDisjoint(lines[k]);
  }

  lemma AdvanceString(lines: seq<string>, k: nat, st: GroupState)
    requires k < |lines| && IsString(lines[k]) && GroupFrom(Start, lines[..k], true) == st
    ensures GroupFrom(Start, lines[..k + 1], true) ==
            GroupState(Put(st.grouped, ExtractId(st.current.msgid),
                           st.current.(after := st.current.after + [FormatString(lines[k])])),
                       EmptyUnit, Before)
  {
    Advance(lines, k);
    ClassifiersDisjoint(lines[k]);
  }

  lemma AdvanceBlank(lines: seq<string>, k: nat, st: GroupState)
    requires k < |lines| && lines[k] == "" && GroupFrom(Start, lines[..k], true) == st
    requires st.position == After
    ensures GroupFrom(Start, lines[..k + 1], true) ==
            GroupState(Put(st.grouped, ExtractId(st.current.msgid), st.current.(after := st.current.after + [""])),
                       EmptyUnit, Before)
  {
    Advance(lines, k);
  }

  /** With formatting on, sort turns every line of a plural entry (an identifier line, then
      plural lines, then a blank line) into a `msgstr "` line after the identifier line. */
  lemma SortPluralEntry(id: string, p1: string, p2: string, p3: string)
    requires IsId(id) && IsPluralString(p1) && IsPluralString(p2) && IsPluralString(p3)
    ensures SortedLines([id, p1, p2, p3, ""], true) ==
            [FormatId(id), FormatString(p1), FormatString(p2), FormatString(p3), ""]
  {
    SortPluralLines([id, p1, p2, p3, ""]);
  }

  lemma SortPluralLines(lines: seq<string>)
    requires |lines| == 5 && IsId(lines[0]) && lines[4] == ""
    requires IsPluralString(lines[1]) && IsPluralString(lines[2]) && IsPluralString(lines[3])
    ensures SortedLines(lines, true) ==
            [FormatId(lines[0]), FormatString(lines[1]), FormatString(lines[2]), FormatString(lines[3]), ""]
  {
    SortPluralGrouped(lines);
    var g := Grouped(lines, true);
    assert KSort(g) == g by {
      KSortOfSorted(g);
    }
    assert Flatten(g) == Block(g[0]) by {
      FlattenSnoc([], g[0]);
      assert [] + [g[0]] == g;
    }
  }

  lemma SortPluralGrouped(lines: seq<string>)
    requires |lines| == 5 && IsId(lines[0]) && lines[4] == ""
    requires IsPluralString(lines[1]) && IsPluralString(lines[2]) && IsPluralString(lines[3])
    ensures var g := Grouped(lines, true);
            |g| == 1 &&
            g[0].value == Unit(FormatId(lines[0]), [],
                               [FormatString(lines[1]), FormatString(lines[2]), FormatString(lines[3]), ""])
  {
    SortPluralOpen(lines);
    AdvanceBlankFirst(lines, 4, Unit(FormatId(lines[0]), [],
                                     [FormatString(lines[1]), FormatString(lines[2]), FormatString(lines[3])]));
    assert lines[..5] == lines;
  }

  /** The identifier line and the three plural lines leave one open unit holding them. */
  lemma SortPluralOpen(lines: seq<string>)
    requires |lines| == 5 && IsId(lines[0])
    requires IsPluralString(lines[1]) && IsPluralString(lines[2]) && IsPluralString(lines[3])
    ensures GroupFrom(Start, lines[..4], true) ==
            GroupState([], Unit(FormatId(lines[0]), [],
                                [FormatString(lines[1]), FormatString(lines[2]), FormatString(lines[3])]), After)
  {
    var a1 := [FormatString(lines[1])];
    var a2 := a1 + [FormatString(lines[2])];
    SortPluralFirst(lines);
    AdvancePlural(lines, 2, GroupState([], Unit(FormatId(lines[0]), [], a1), After));
    AdvancePlural(lines, 3, GroupState([], Unit(FormatId(lines[0]), [], a2), After));
  }

  lemma SortPluralFirst(lines: seq<string>)
    requires |lines| >= 2 && IsId(lines[0]) && IsPluralString(lines[1])
    ensures GroupFrom(Start, lines[..2], true) ==
            GroupState([], Unit(FormatId(lines[0]), [], [FormatString(lines[1])]), After)
  {
    assert lines[..0] == [];
    AdvanceId(lines, 0, Start);
    assert [] + [FormatString(lines[1])] == [FormatString(lines[1])];
    AdvancePlural(lines, 1, GroupState([], EmptyUnit.(msgid := FormatId(lines[0])), After));
  }

  /** Grouping that output again, as translate does: every `msgstr "` line closes a unit of its
      own, the units after the first have the empty identifier and replace each other, and the
      blank line opens a unit that is never closed. Five lines come back as four, with an empty
      identifier line that was not there. */
  lemma RegroupPluralEntry(id: string, p1: string, p2: string, p3: string)
    requires IsId(id) && FormFeed !in id && ExtractId(id) != ""
    requires IsPluralString(p1) && IsPluralString(p2) && IsPluralString(p3)
    ensures var g := Grouped(SortedLines([id, p1, p2, p3, ""], true), true);
            g == [Entry(ExtractId(id), Unit(FormatId(id), [], [FormatString(FormatString(p1))])),
                  Entry("", Unit("", [], [FormatString(FormatString(p3))]))] &&
            |Flatten(g)| == 4
  {
    SortPluralEntry(id, p1, p2, p3);
    FormatIdIdempotent(id);
    ExtractFormatId(id);
    RegroupClosedLines([FormatId(id), FormatString(p1), FormatString(p2), FormatString(p3), ""]);
  }

  lemma ExtractIdEmpty()
    ensures ExtractId("") == ""
  {
    assert Capture("", IdPrefix, 0) == None;
    assert Normalize("") == "";
  }

  lemma FlattenPair(e0: Entry<Unit>, e1: Entry<Unit>)
    ensures Flatten([e0, e1]) == Block(e0) + Block(e1)
  {
    FlattenSnoc([], e0);
    FlattenSnoc([e0], e1);
    assert [] + [e0] == [e0] && [e0] + [e1] == [e0, e1];
  }

  /** The identifier line and the first `msgstr "` line close the first unit under its identifier. */
  lemma RegroupFirst(lines: seq<string>)
    requires |lines| >= 2 && IsId(lines[0]) && IsString(lines[1]) && FormatId(lines[0]) == lines[0]
    ensures GroupFrom(Start, lines[..2], true) ==
            GroupState([Entry(ExtractId(lines[0]), Unit(lines[0], [], [FormatString(lines[1])]))], EmptyUnit, Before)
  {
    var u := EmptyUnit.(msgid := lines[0]);
    assert lines[..0] == [];
    AdvanceId(lines, 0, Start);
    AdvanceString(lines, 1, GroupState([], u, After));
    assert [] + [FormatString(lines[1])] == [FormatString(lines[1])];
    PutEmpty(ExtractId(lines[0]), u.(after := [FormatString(lines[1])]));
  }

  /** A further `msgstr "` line closes a unit with no identifier line, stored under "". */
  lemma RegroupLoose(lines: seq<string>, k: nat, e0: Entry<Unit>, rest: seq<Entry<Unit>>)
    requires k < |lines| && IsString(lines[k]) && e0.key != "" && |rest| <= 1
    requires forall i :: 0 <= i < |rest| ==> rest[i].key == ""
    requires GroupFrom(Start, lines[..k], true) == GroupState([e0] + rest, EmptyUnit, Before)
    ensures GroupFrom(Start, lines[..k + 1], true) ==
            GroupState([e0, Entry("", Unit("", [], [FormatString(lines[k])]))], EmptyUnit, Before)
  {
    var v := Unit("", [], [FormatString(lines[k])]);
    AdvanceString(lines, k, GroupState([e0] + rest, EmptyUnit, Before));
    ExtractIdEmpty();
    assert EmptyUnit.(after := [] + [FormatString(lines[k])]) == v;
    if rest == [] {
      assert Keys([e0]) == [e0.key];
      assert Put([e0] + rest, "", v) == [e0, Entry("", v)];
    } else {
      assert Find([e0] + rest, "") == 1;
      assert Put([e0] + rest, "", v) == [e0, Entry("", v)];
    }
  }

  /** An identifier line, three translation lines and a blank line, grouped with formatting on. */
  lemma RegroupClosedLines(lines: seq<string>)
    requires |lines| == 5 && IsId(lines[0]) && IsString(lines[1]) && IsString(lines[2]) && IsString(lines[3])
    requires lines[4] == "" && FormatId(lines[0]) == lines[0] && ExtractId(lines[0]) != ""
    ensures var g := Grouped(lines, true);
            g == [Entry(ExtractId(lines[0]), Unit(lines[0], [], [FormatString(lines[1])])),
                  Entry("", Unit("", [], [FormatString(lines[3])]))] &&
            |Flatten(g)| == 4
  {
    var e0 := Entry(ExtractId(lines[0]), Unit(lines[0], [], [FormatString(lines[1])]));
    var e2 := Entry("", Unit("", [], [FormatString(lines[3])]));
    RegroupClosedUnits(lines);
    AdvanceBlankBefore(lines, 4, GroupState([e0, e2], EmptyUnit, Before));
    GroupedWhole(lines, 5, GroupFrom(Start, lines[..5], true));
    FlattenPair(e0, e2);
  }

  /** After the fourth line two units are stored: the identified one and one under "". */
  lemma RegroupClosedUnits(lines: seq<string>)
    requires |lines| == 5 && IsId(lines[0]) && IsString(lines[1]) && IsString(lines[2]) && IsString(lines[3])
    requires FormatId(lines[0]) == lines[0] && ExtractId(lines[0]) != ""
    ensures GroupFrom(Start, lines[..4], true) ==
            GroupState([Entry(ExtractId(lines[0]), Unit(lines[0], [], [FormatString(lines[1])])),
                        Entry("", Unit("", [], [FormatString(lines[3])]))], EmptyUnit, Before)
  {
    var e0 := Entry(ExtractId(lines[0]), Unit(lines[0], [], [FormatString(lines[1])]));
    var e1 := Entry("", Unit("", [], [FormatString(lines[2])]));
    RegroupFirst(lines);
    RegroupLoose(lines, 2, e0, []);
    assert [e0] + [] == [e0];
    RegroupLoose(lines, 3, e0, [e1]);
    assert [e0] + [e1] == [e0, e1];
  }
}
