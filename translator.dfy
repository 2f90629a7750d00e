/** Selection of untranslated units, batching, the query sent to the translation endpoint,
    post-processing of its answer and rewriting of the msgstr lines (class Translator). */
module Translation {
  import opened Text
  import opened OrderedMap
  import opened Sorter

  const DefaultCharset: string := "UTF-8"
  const DefaultFrom: string := "en-US"
  const DefaultTo: string := "fr-FR"

  /** The identifiers containing one of these are never sent for translation. */
  const DefaultExclude: seq<string> :=
    [" | ", "|", "\"", "%d", "%s", "$d", "$s", "$t", "$v", "<", ">", "«", "»", "“", "”", "‘", "’"]

  const DefaultMax: int := 32
  const MaxCeiling: int := 64
  const BatchSize: nat := 10

  /** What the endpoint is asked: the language pair, the charset and the query text. */
  datatype Request = Request(from: string, to: string, charset: string, query: string)

  // ---------------------------------------------------------------------------------------
  // Which units ask for a translation.

  predicate Excluded(id: string, exclude: seq<string>) {
    exists i :: 0 <= i < |exclude| && Contains(id, exclude[i])
  }

  /** An after line that asks for a translation: not a plural line, and its extracted text is
      empty in PHP's sense ("" or "0"). */
  predicate Wants(line: string) {
    !IsPluralString(line) && IsFalsy(ExtractString(line))
  }

  /** A unit whose identifier is short enough (in UTF-8 bytes) and not excluded. */
  predicate Eligible(id: string, max: int, exclude: seq<string>) {
    Utf8Length(id) <= max && !Excluded(id, exclude)
  }

  /** The four tests groupLines applies: how the identifier is read from the msgid line, which
      identifiers are eligible, which after lines ask for a translation, and the tag stripping
      applied to the identifier that is sent. */
  datatype Selection = Selection(idOf: string -> string, eligible: string -> bool,
                                 wants: string -> bool, strip: string -> string)

  /** groupLines' own tests, for a length limit, an exclusion list and a tag stripper. */
  function Selector(max: int, exclude: seq<string>, strip: string -> string): Selection {
    Selection(ExtractId, id => Eligible(id, max, exclude), Wants, strip)
  }

  /** One (key, text) pair for every after line that asks for a translation. */
  function UnitHits(key: string, text: string, after: seq<string>, wants: string -> bool)
    : (hs: seq<Entry<string>>)
    ensures |hs| <= |after|
    ensures forall h :: h in hs ==> h == Entry(key, text)
    decreases |after|
  {
    if after == [] then []
    else
      var n := |after| - 1;
      UnitHits(key, text, after[..n], wants) + (if wants(after[n]) then [Entry(key, text)] else [])
  }

  /** The pairs groupLines feeds to its batches, in map order. */
  function Hits(lines: seq<Entry<Unit>>, sel: Selection): seq<Entry<string>>
    decreases |lines|
  {
    if lines == [] then []
    else
      var n := |lines| - 1;
      var id := sel.idOf(lines[n].value.msgid);
      Hits(lines[..n], sel) +
      (if sel.eligible(id) then UnitHits(lines[n].key, sel.strip(id), lines[n].value.after, sel.wants) else [])
  }

  // ---------------------------------------------------------------------------------------
  // Cutting the pairs into batches.

  /** groupLines' loop variables: finished batches, the open batch and the hit counter. */
  datatype Batcher = Batcher(group: seq<seq<Entry<string>>>, pointer: seq<Entry<string>>, counter: nat)

  const NoBatch: Batcher := Batcher([], [], 0)

  /** $pointer[$key] = text; $counter++; and a flush when the counter reaches 10. */
  function Feed(b: Batcher, h: Entry<string>): Batcher {
    var p := Put(b.pointer, h.key, h.value);
    if b.counter + 1 == BatchSize then Batcher(b.group + [p], [], 0)
    else Batcher(b.group, p, b.counter + 1)
  }

  function FeedAll(b: Batcher, hs: seq<Entry<string>>): Batcher
    decreases |hs|
  {
    if hs == [] then b else Feed(FeedAll(b, hs[..|hs| - 1]), hs[|hs| - 1])
  }

  /** The batches: the flushed ones, then the open one if it is not empty. */
  function Batches(hs: seq<Entry<string>>): seq<seq<Entry<string>>> {
    var b := FeedAll(NoBatch, hs);
    if b.pointer != [] then b.group + [b.pointer] else b.group
  }

  lemma FeedAllSnoc(b: Batcher, hs: seq<Entry<string>>, h: Entry<string>)
    ensures FeedAll(b, hs + [h]) == Feed(FeedAll(b, hs), h)
  {
    assert (hs + [h])[..|hs|] == hs;
  }

  /** The counting part of groupLines' loop invariant after n hits. */
  predicate CountOk(b: Batcher, n: nat) {
    b.counter == n % BatchSize && |b.group| == n / BatchSize &&
    |b.pointer| <= b.counter && (b.counter > 0 ==> b.pointer != []) &&
    forall g :: g in b.group ==> 1 <= |g| <= BatchSize
  }

  /** Every stored pair is one of the hits. */
  predicate MembersOk(b: Batcher, hs: seq<Entry<string>>) {
    (forall e :: e in b.pointer ==> e in hs) &&
    (forall g, e :: g in b.group && e in g ==> e in hs)
  }

  /** Every hit's key is in the open batch or in a finished one. */
  predicate CoverOk(b: Batcher, hs: seq<Entry<string>>) {
    forall h :: h in hs ==> h.key in Keys(b.pointer) || exists g :: g in b.group && h.key in Keys(g)
  }

  lemma NextDivMod(n: nat)
    ensures (n + 1) % BatchSize == if n % BatchSize == BatchSize - 1 then 0 else n % BatchSize + 1
    ensures (n + 1) / BatchSize == if n % BatchSize == BatchSize - 1 then n / BatchSize + 1 else n / BatchSize
  {
    var q, r := n / BatchSize, n % BatchSize;
    assert n == BatchSize * q + r;
    if r == BatchSize - 1 {
      assert n + 1 == BatchSize * (q + 1);
    } else {
      assert n + 1 == BatchSize * q + (r + 1);
    }
  }

  lemma FeedCount(b: Batcher, n: nat, h: Entry<string>)
    requires CountOk(b, n)
    ensures CountOk(Feed(b, h), n + 1)
  {
    NextDivMod(n);
    var p := Put(b.pointer, h.key, h.value);
    assert |p| <= b.counter + 1;
    if b.counter + 1 == BatchSize {
      assert forall g :: g in b.group + [p] ==> g in b.group || g == p;
    }
  }

  lemma FeedMembers(b: Batcher, hs: seq<Entry<string>>, h: Entry<string>)
    requires MembersOk(b, hs)
    ensures MembersOk(Feed(b, h), hs + [h])
  {
    var p := Put(b.pointer, h.key, h.value);
    PutEntries(b.pointer, h.key, h.value);
    assert forall e :: e in p ==> e in hs + [h];
    assert forall g :: g in b.group + [p] ==> g in b.group || g == p;
  }

  /** Assignment keeps the existing keys as a prefix of the new key list and adds k. */
  lemma PutCovers(m: seq<Entry<string>>, k: string, v: string)
    ensures Keys(m) <= Keys(Put(m, k, v)) && k in Keys(Put(m, k, v))
  {
  }

  lemma FeedCover(b: Batcher, hs: seq<Entry<string>>, h: Entry<string>)
    requires CoverOk(b, hs)
    ensures CoverOk(Feed(b, h), hs + [h])
  {
    var p := Put(b.pointer, h.key, h.value);
    PutCovers(b.pointer, h.key, h.value);
    assert forall x :: x in hs + [h] ==> x.key in Keys(p) || exists g :: g in b.group && x.key in Keys(g);
    if b.counter + 1 == BatchSize {
      var gs := b.group + [p];
      assert p in gs;
      assert forall g :: g in b.group ==> g in gs;
    }
  }

  lemma {:induction false} FeedAllOk(hs: seq<Entry<string>>)
    ensures var b := FeedAll(NoBatch, hs); CountOk(b, |hs|) && MembersOk(b, hs) && CoverOk(b, hs)
    decreases |hs|
  {
    if hs != [] {
      var n := |hs| - 1;
      assert hs[..n] + [hs[n]] == hs;
      FeedAllOk(hs[..n]);
      var b := FeedAll(NoBatch, hs[..n]);
      FeedCount(b, n, hs[n]);
      FeedMembers(b, hs[..n], hs[n]);
      FeedCover(b, hs[..n], hs[n]);
    }
  }

  /** Every batch holds between 1 and 10 entries, and there are ceil(n / 10) batches for n hits:
      the counter counts hits, so a flush happens after exactly every tenth one. */
  lemma BatchSizes(hs: seq<Entry<string>>)
    ensures forall g :: g in Batches(hs) ==> 1 <= |g| <= BatchSize
    ensures |Batches(hs)| == (|hs| + BatchSize - 1) / BatchSize
  {
    FeedAllOk(hs);
  }

  /** Batching loses no key and invents none: an entry of a batch is one of the hits, and the
      key of every hit is in some batch. */
  lemma BatchKeys(hs: seq<Entry<string>>)
    ensures forall g, e :: g in Batches(hs) && e in g ==> e in hs
    ensures forall h :: h in hs ==> exists g :: g in Batches(hs) && h.key in Keys(g)
  {
    FeedAllOk(hs);
    var b := FeedAll(NoBatch, hs);
    var r := Batches(hs);
    assert forall g :: g in b.group ==> g in r;
    if b.pointer != [] {
      assert b.pointer in r;
    }
  }

  function Concat<T>(gs: seq<seq<T>>): seq<T>
    decreases |gs|
  {
    if gs == [] then [] else Concat(gs[..|gs| - 1]) + gs[|gs| - 1]
  }

  lemma ConcatSnoc<T>(gs: seq<seq<T>>, g: seq<T>)
    ensures Concat(gs + [g]) == Concat(gs) + g
  {
    assert (gs + [g])[..|gs|] == gs;
  }

  /** With no key twice, the open batch is exactly the hits since the last flush. */
  predicate BatcherExact(b: Batcher, hs: seq<Entry<string>>) {
    Concat(b.group) + b.pointer == hs
  }

  lemma FeedExact(b: Batcher, hs: seq<Entry<string>>, h: Entry<string>)
    requires BatcherExact(b, hs) && h.key !in Keys(b.pointer)
    ensures BatcherExact(Feed(b, h), hs + [h])
  {
    var p := Put(b.pointer, h.key, h.value);
    assert p == b.pointer + [h];
    if b.counter + 1 == BatchSize {
      ConcatSnoc(b.group, p);
    }
  }

  lemma {:induction false} FeedAllExact(hs: seq<Entry<string>>)
    requires UniqueKeys(hs)
    ensures BatcherExact(FeedAll(NoBatch, hs), hs)
    decreases |hs|
  {
    if hs != [] {
      var n := |hs| - 1;
      var init := hs[..n];
      assert init + [hs[n]] == hs;
      assert UniqueKeys(init);
      FeedAllExact(init);
      FeedAllOk(init);
      var b := FeedAll(NoBatch, init);
      assert forall e :: e in init ==> e.key != hs[n].key;
      FeedExact(b, init, hs[n]);
    }
  }

  /** When no key comes twice, the batches are the hits cut into consecutive pieces, in order. */
  lemma BatchesConcat(hs: seq<Entry<string>>)
    requires UniqueKeys(hs)
    ensures Concat(Batches(hs)) == hs
  {
    FeedAllExact(hs);
    var b := FeedAll(NoBatch, hs);
    if b.pointer != [] {
      ConcatSnoc(b.group, b.pointer);
    }
  }

  // ---------------------------------------------------------------------------------------
  // Properties of the selection.

  /** How many of the lines ask for a translation. */
  function WantCount(after: seq<string>, wants: string -> bool): nat
    decreases |after|
  {
    if after == [] then 0
    else WantCount(after[..|after| - 1], wants) + (if wants(after[|after| - 1]) then 1 else 0)
  }

  lemma {:induction false} UnitHitsCount(key: string, text: string, after: seq<string>, wants: string -> bool)
    ensures |UnitHits(key, text, after, wants)| == WantCount(after, wants)
    decreases |after|
  {
    if after != [] {
      UnitHitsCount(key, text, after[..|after| - 1], wants);
    }
  }

  lemma {:induction false} UnitHitsNonEmpty(key: string, text: string, after: seq<string>, wants: string -> bool)
    ensures UnitHits(key, text, after, wants) != [] <==> exists j :: 0 <= j < |after| && wants(after[j])
    decreases |after|
  {
    if after != [] {
      var n := |after| - 1;
      UnitHitsNonEmpty(key, text, after[..n], wants);
      assert forall j :: 0 <= j < n ==> after[..n][j] == after[j];
    }
  }

  /** A unit that groupLines sends: an eligible identifier and a line asking for a translation. */
  predicate Selected(e: Entry<Unit>, sel: Selection) {
    sel.eligible(sel.idOf(e.value.msgid)) &&
    exists j :: 0 <= j < |e.value.after| && sel.wants(e.value.after[j])
  }

  /** The pair a selected unit contributes: its key and its tag-stripped identifier. */
  function Sent(e: Entry<Unit>, sel: Selection): Entry<string> {
    Entry(e.key, sel.strip(sel.idOf(e.value.msgid)))
  }

  /** The hits come from exactly the selected units; each carries its unit's key and the
      tag-stripped identifier. */
  lemma {:induction false} HitsSelected(lines: seq<Entry<Unit>>, sel: Selection)
    ensures forall h :: h in Hits(lines, sel) ==>
              exists i :: 0 <= i < |lines| && Selected(lines[i], sel) && h == Sent(lines[i], sel)
    ensures forall i :: 0 <= i < |lines| && Selected(lines[i], sel) ==> Sent(lines[i], sel) in Hits(lines, sel)
    decreases |lines|
  {
    if lines != [] {
      var n := |lines| - 1;
      var init := lines[..n];
      assert forall i :: 0 <= i < n ==> init[i] == lines[i];
      HitsSelected(init, sel);
      var e := lines[n];
      var id := sel.idOf(e.value.msgid);
      var u := UnitHits(e.key, sel.strip(id), e.value.after, sel.wants);
      UnitHitsNonEmpty(e.key, sel.strip(id), e.value.after, sel.wants);
      var hs := Hits(lines, sel);
      assert hs == Hits(init, sel) + (if sel.eligible(id) then u else []);
      forall h | h in hs
        ensures exists i :: 0 <= i < |lines| && Selected(lines[i], sel) && h == Sent(lines[i], sel)
      {
        if h !in Hits(init, sel) {
          assert Selected(lines[n], sel) && h == Sent(lines[n], sel);
        }
      }
      forall i | 0 <= i < |lines| && Selected(lines[i], sel)
        ensures Sent(lines[i], sel) in hs
      {
        if i == n {
          assert u[0] in u;
        }
      }
    }
  }

  /** groupLines selects a unit exactly when its identifier is short enough, not excluded, and
      one of its after lines asks for a translation; every batch entry is such a unit's key with
      its tag-stripped identifier; each batch has 1 to 10 entries. */
  lemma GroupedBatches(lines: seq<Entry<Unit>>, sel: Selection)
    ensures var bs := Batches(Hits(lines, sel));
            (forall g :: g in bs ==> 1 <= |g| <= BatchSize) &&
            (forall g, e :: g in bs && e in g ==>
               exists i :: 0 <= i < |lines| && Selected(lines[i], sel) && e == Sent(lines[i], sel)) &&
            (forall i :: 0 <= i < |lines| && Selected(lines[i], sel) ==>
               exists g :: g in bs && lines[i].key in Keys(g))
  {
    var hs := Hits(lines, sel);
    HitsSelected(lines, sel);
    BatchSizes(hs);
    BatchKeys(hs);
    forall i | 0 <= i < |lines| && Selected(lines[i], sel)
      ensures exists g :: g in Batches(hs) && lines[i].key in Keys(g)
    {
      assert Sent(lines[i], sel) in hs;
    }
  }

  /** A unit with exactly one line asking for a translation. */
  predicate OneHit(e: Entry<Unit>, wants: string -> bool) {
    WantCount(e.value.after, wants) == 1
  }

  /** The selected units in map order, as (key, tag-stripped identifier) pairs. */
  function SelectedUnits(lines: seq<Entry<Unit>>, sel: Selection): seq<Entry<string>>
    decreases |lines|
  {
    if lines == [] then []
    else
      var n := |lines| - 1;
      SelectedUnits(lines[..n], sel) + (if Selected(lines[n], sel) then [Sent(lines[n], sel)] else [])
  }

  lemma {:induction false} SelectedUnitsKeys(lines: seq<Entry<Unit>>, sel: Selection)
    ensures forall h :: h in SelectedUnits(lines, sel) ==> h.key in Keys(lines)
    decreases |lines|
  {
    if lines != [] {
      var n := |lines| - 1;
      SelectedUnitsKeys(lines[..n], sel);
      forall h | h in SelectedUnits(lines, sel) ensures h.key in Keys(lines) {
        if h in SelectedUnits(lines[..n], sel) {
          var j :| 0 <= j < n && Keys(lines[..n])[j] == h.key;
          assert Keys(lines)[j] == h.key;
        } else {
          assert Keys(lines)[n] == h.key;
        }
      }
    }
  }

  lemma {:induction false} SelectedUnitsUnique(lines: seq<Entry<Unit>>, sel: Selection)
    requires UniqueKeys(lines)
    ensures UniqueKeys(SelectedUnits(lines, sel))
    decreases |lines|
  {
    if lines != [] {
      var n := |lines| - 1;
      assert UniqueKeys(lines[..n]);
      SelectedUnitsUnique(lines[..n], sel);
      SelectedUnitsKeys(lines[..n], sel);
      var s := SelectedUnits(lines[..n], sel);
      if Selected(lines[n], sel) {
        forall i | 0 <= i < |s| ensures s[i].key != lines[n].key {
          assert s[i] in s;
          var j :| 0 <= j < n && Keys(lines[..n])[j] == s[i].key;
          assert lines[j].key == s[i].key;
        }
      }
    }
  }

  /** With one line asking for a translation in every eligible unit, the hits are the selected
      units in map order. */
  lemma {:induction false} OneHitEach(lines: seq<Entry<Unit>>, sel: Selection)
    requires forall i :: 0 <= i < |lines| && sel.eligible(sel.idOf(lines[i].value.msgid)) ==>
               OneHit(lines[i], sel.wants)
    ensures Hits(lines, sel) == SelectedUnits(lines, sel)
    decreases |lines|
  {
    if lines != [] {
      var n := |lines| - 1;
      var e := lines[n];
      var id := sel.idOf(e.value.msgid);
      OneHitEach(lines[..n], sel);
      if sel.eligible(id) {
        var u := UnitHits(e.key, sel.strip(id), e.value.after, sel.wants);
        UnitHitsCount(e.key, sel.strip(id), e.value.after, sel.wants);
        UnitHitsNonEmpty(e.key, sel.strip(id), e.value.after, sel.wants);
        assert u[0] in u;
        assert u == [Sent(e, sel)];
      }
    }
  }

  /** The batching promise for the common case: when every eligible unit has exactly one line
      asking for a translation and keys are unique, the batches are the selected units in map
      order, cut into ceil(n / 10) consecutive batches of at most 10. */
  lemma BatchesOfSelected(lines: seq<Entry<Unit>>, sel: Selection)
    requires UniqueKeys(lines)
    requires forall i :: 0 <= i < |lines| && sel.eligible(sel.idOf(lines[i].value.msgid)) ==>
               OneHit(lines[i], sel.wants)
    ensures var s := SelectedUnits(lines, sel);
            var bs := Batches(Hits(lines, sel));
            Concat(bs) == s && |bs| == (|s| + BatchSize - 1) / BatchSize &&
            forall g :: g in bs ==> 1 <= |g| <= BatchSize
  {
    OneHitEach(lines, sel);
    SelectedUnitsUnique(lines, sel);
    var s := SelectedUnits(lines, sel);
    BatchesConcat(s);
    BatchSizes(s);
  }

  // ---------------------------------------------------------------------------------------
  // The query and the post-processing of the answer.

  /** array_values of a batch: the tag-stripped identifiers, in batch order. */
  function Values(b: seq<Entry<string>>): (vs: seq<string>)
    ensures |vs| == |b|
    ensures forall j :: 0 <= j < |b| ==> vs[j] == b[j].value
  {
    seq(|b|, j requires 0 <= j < |b| => b[j].value)
  }

  /** The text sent for a batch: every value in double quotes, separated by " | ". */
  function Query(values: seq<string>): string {
    "\"" + Join(values, "\" | \"") + "\""
  }

  /** The quoted values of a query, read back: every other piece between two quotes. */
  function Unquote(pieces: seq<string>): seq<string>
    decreases |pieces|
  {
    if |pieces| < 3 then [] else [pieces[1]] + Unquote(pieces[2..])
  }

  /** The pieces of the query text after its opening quote: each value, then the separator or
      (after the last value) the empty rest. */
  function Weave(values: seq<string>): seq<string>
    decreases |values|
  {
    if values == [] then []
    else if |values| == 1 then [values[0], ""]
    else [values[0], " | "] + Weave(values[1..])
  }

  lemma {:induction false} SplitWeave(values: seq<string>)
    requires values != []
    requires forall j :: 0 <= j < |values| ==> '"' !in values[j]
    ensures Split(Join(values, "\" | \"") + "\"", '"') == Weave(values)
    decreases |values|
  {
    var v := values[0];
    if |values| == 1 {
      assert Join(values, "\" | \"") + "\"" == v + ['"'] + "";
      SplitAfter(v, "", '"');
    } else {
      var rest := Join(values[1..], "\" | \"") + "\"";
      assert Join(values, "\" | \"") + "\"" == v + ['"'] + (" | " + ['"'] + rest);
      assert Weave(values) == [v, " | "] + Weave(values[1..]);
      SplitWeave(values[1..]);
      SplitAfter(" | ", rest, '"');
      SplitAfter(v, " | " + ['"'] + rest, '"');
    }
  }

  lemma {:induction false} UnquoteWeave(x: string, values: seq<string>)
    ensures Unquote([x] + Weave(values)) == values
    decreases |values|
  {
    if |values| == 1 {
      assert [x] + Weave(values) == [x, values[0], ""];
      assert Unquote([""]) == [];
    } else if |values| > 1 {
      UnquoteWeave(" | ", values[1..]);
      assert ([x] + Weave(values))[2..] == [" | "] + Weave(values[1..]);
      assert [values[0]] + values[1..] == values;
    }
  }

  /** A batch's query gives its values back when none of them holds a double quote (the
      default exclusion list keeps such identifiers out of the batches). */
  lemma QueryRoundTrip(values: seq<string>)
    requires values != []
    requires forall j :: 0 <= j < |values| ==> '"' !in values[j]
    ensures Unquote(Split(Query(values), '"')) == values
  {
    var tail := Join(values, "\" | \"") + "\"";
    SplitWeave(values);
    SplitAfter("", tail, '"');
    assert Query(values) == "" + ['"'] + tail;
    UnquoteWeave("", values);
  }

  /** str_replace($exclude, '', t): the exclusion terms are removed one after the other, each
      from the result of the previous ones. */
  function RemoveEach(t: string, exclude: seq<string>): (r: string)
    ensures |r| <= |t|
    decreases |exclude|
  {
    if exclude == [] then t
    else RemoveAll(RemoveEach(t, exclude[..|exclude| - 1]), exclude[|exclude| - 1])
  }

  lemma {:induction false} RemoveEachClean(t: string, exclude: seq<string>)
    requires forall i :: 0 <= i < |exclude| ==> !Contains(t, exclude[i])
    ensures RemoveEach(t, exclude) == t
    decreases |exclude|
  {
    if exclude != [] {
      RemoveEachClean(t, exclude[..|exclude| - 1]);
    }
  }

  /** A segment after removal of the exclusion terms and trimming. */
  function Cleanup(t: string, exclude: seq<string>): string {
    Trim(RemoveEach(t, exclude))
  }

  /** What fetchTranslations keeps of the endpoint's segments: the cleaned ones that are not
      empty in PHP's sense, in order. */
  function Cleaned(data: seq<string>, exclude: seq<string>): seq<string>
    decreases |data|
  {
    if data == [] then []
    else
      var n := |data| - 1;
      var t := Cleanup(data[n], exclude);
      Cleaned(data[..n], exclude) + (if IsFalsy(t) then [] else [t])
  }

  lemma TrimTwice(s: string)
    ensures Trim(Trim(s)) == Trim(s)
  {
    TrimShape(s);
    TrimIdentity(Trim(s));
  }

  /** No more segments come out than went in; each kept one is non-empty, not "0", and has
      nothing left to trim. */
  lemma {:induction false} CleanedShape(data: seq<string>, exclude: seq<string>)
    ensures |Cleaned(data, exclude)| <= |data|
    ensures forall c :: c in Cleaned(data, exclude) ==> !IsFalsy(c) && Trim(c) == c
    decreases |data|
  {
    if data != [] {
      var n := |data| - 1;
      CleanedShape(data[..n], exclude);
      TrimTwice(RemoveEach(data[n], exclude));
    }
  }

  /** Post-processing works segment by segment: it keeps their order. */
  lemma {:induction false} CleanedAppend(a: seq<string>, b: seq<string>, exclude: seq<string>)
    ensures Cleaned(a + b, exclude) == Cleaned(a, exclude) + Cleaned(b, exclude)
    decreases |b|
  {
    if b == [] {
      assert a + b == a;
    } else {
      var n := |b| - 1;
      assert (a + b)[..|a| + n] == a + b[..n];
      CleanedAppend(a, b[..n], exclude);
    }
  }

  /** A segment post-processing keeps as it is: not empty in PHP's sense, nothing to trim and
      no exclusion term in it. */
  predicate CleanSegment(t: string, exclude: seq<string>) {
    !IsFalsy(t) && Trim(t) == t && forall i :: 0 <= i < |exclude| ==> !Contains(t, exclude[i])
  }

  /** Segments that are already clean come through unchanged. */
  lemma {:induction false} CleanedClean(data: seq<string>, exclude: seq<string>)
    requires forall k :: 0 <= k < |data| ==> CleanSegment(data[k], exclude)
    ensures Cleaned(data, exclude) == data
    decreases |data|
  {
    if data != [] {
      var n := |data| - 1;
      var init := data[..n];
      assert forall k :: 0 <= k < n ==> init[k] == data[k];
      CleanedClean(init, exclude);
      assert CleanSegment(data[n], exclude);
      RemoveEachClean(data[n], exclude);
      assert init + [data[n]] == data;
    }
  }

  // ---------------------------------------------------------------------------------------
  // Pairing the answers with the keys, and rewriting the msgstr lines.

  /** The endpoint as seen from one translator: the segments it answers for a query. */
  function Asker(endpoint: Request -> seq<string>, from: string, to: string, charset: string)
    : string -> seq<string>
  {
    q => endpoint(Request(from, to, charset, q))
  }

  /** The post-processed answer for every batch, in batch order. */
  function Answers(bs: seq<seq<Entry<string>>>, ask: string -> seq<string>, exclude: seq<string>)
    : (ans: seq<seq<string>>)
    ensures |ans| == |bs|
  {
    seq(|bs|, i requires 0 <= i < |bs| => Cleaned(ask(Query(Values(bs[i]))), exclude))
  }

  /** array_combine(keys, values). */
  function Zip(keys: seq<string>, values: seq<string>): seq<Entry<string>>
    requires |keys| == |values|
  {
    seq(|keys|, j requires 0 <= j < |keys| => Entry(keys[j], values[j]))
  }

  /** All batches zipped with their answers, or None when some answer has a different number
      of segments than its batch has keys (array_combine raises a ValueError). */
  function Paired(bs: seq<seq<Entry<string>>>, ans: seq<seq<string>>): Option<seq<seq<Entry<string>>>>
    requires |ans| == |bs|
  {
    if forall i :: 0 <= i < |bs| ==> |Keys(bs[i])| == |ans[i]| then
      Some(seq(|bs|, i requires 0 <= i < |bs| && |Keys(bs[i])| == |ans[i]| => Zip(Keys(bs[i]), ans[i])))
    else None
  }

  /** What preTranslate returns for the grouped units. */
  function PreTranslated(sorted: seq<Entry<Unit>>, sel: Selection, ask: string -> seq<string>,
                         exclude: seq<string>): Option<seq<seq<Entry<string>>>>
  {
    var bs := Batches(Hits(sorted, sel));
    Paired(bs, Answers(bs, ask, exclude))
  }

  /** The pairing fails exactly when an answer's segment count differs from its batch's key
      count; otherwise the j-th key of the i-th batch gets the j-th kept segment of the i-th
      answer. */
  lemma PairedPositions(bs: seq<seq<Entry<string>>>, ans: seq<seq<string>>)
    requires |ans| == |bs|
    ensures Paired(bs, ans).None? <==> exists i :: 0 <= i < |bs| && |bs[i]| != |ans[i]|
    ensures Paired(bs, ans).Some? ==>
              var ps := Paired(bs, ans).value;
              |ps| == |bs| &&
              forall i :: 0 <= i < |bs| ==>
                |ps[i]| == |bs[i]| &&
                forall j :: 0 <= j < |bs[i]| ==> ps[i][j] == Entry(bs[i][j].key, ans[i][j])
  {
  }

  /** The rewritten translation line. */
  function Msgstr(t: string): string {
    StringPrefix + t + "\""
  }

  /** Every `msgstr "` line of an after list replaced by the translation line. */
  function RewriteAfter(after: seq<string>, t: string): seq<string> {
    seq(|after|, n requires 0 <= n < |after| => if IsString(after[n]) then Msgstr(t) else after[n])
  }

  /** A rewritten line is itself a translation line, so a later rewrite replaces it again:
      the last translation given to a key wins. */
  lemma RewriteTwice(after: seq<string>, t1: string, t2: string)
    ensures RewriteAfter(RewriteAfter(after, t1), t2) == RewriteAfter(after, t2)
  {
    assert IsString(Msgstr(t1)) by {
      assert Msgstr(t1)[..|StringPrefix|] == StringPrefix;
    }
  }

  /** $sortedLines[$key]['after'] rewritten with one translation; a key that is not stored
      changes nothing. */
  function ApplyPair(m: seq<Entry<Unit>>, k: string, t: string): seq<Entry<Unit>> {
    var p := Find(m, k);
    if p < |m| then m[p := Entry(k, m[p].value.(after := RewriteAfter(m[p].value.after, t)))] else m
  }

  /** The translations applied one after the other, in the order of the pairs. */
  function ApplyAll(m: seq<Entry<Unit>>, pairs: seq<Entry<string>>): seq<Entry<Unit>>
    decreases |pairs|
  {
    if pairs == [] then m
    else ApplyPair(ApplyAll(m, pairs[..|pairs| - 1]), pairs[|pairs| - 1].key, pairs[|pairs| - 1].value)
  }

  lemma ApplyAllSnoc(m: seq<Entry<Unit>>, pairs: seq<Entry<string>>, h: Entry<string>)
    ensures ApplyAll(m, pairs + [h]) == ApplyPair(ApplyAll(m, pairs), h.key, h.value)
  {
    assert (pairs + [h])[..|pairs|] == pairs;
  }

  /** The translation given last to a key, if any. */
  function LastValue(pairs: seq<Entry<string>>, k: string): Option<string>
    decreases |pairs|
  {
    if pairs == [] then None
    else if pairs[|pairs| - 1].key == k then Some(pairs[|pairs| - 1].value)
    else LastValue(pairs[..|pairs| - 1], k)
  }

  /** A unit after the translations: its msgstr lines carry the last translation of its key. */
  function Translated(u: Unit, t: Option<string>): Unit {
    match t
    case None => u
    case Some(s) => u.(after := RewriteAfter(u.after, s))
  }

  lemma ApplyPairUnits(m: seq<Entry<Unit>>, k: string, t: string)
    requires UniqueKeys(m)
    ensures var r := ApplyPair(m, k, t);
            |r| == |m| &&
            forall i :: 0 <= i < |m| ==>
              r[i].key == m[i].key &&
              r[i].value == if m[i].key == k then Translated(m[i].value, Some(t)) else m[i].value
  {
  }

  lemma {:induction false} ApplyAllUnits(m: seq<Entry<Unit>>, pairs: seq<Entry<string>>)
    requires UniqueKeys(m)
    ensures var r := ApplyAll(m, pairs);
            |r| == |m| &&
            forall i :: 0 <= i < |m| ==>
              r[i].key == m[i].key &&
              r[i].value == Translated(m[i].value, LastValue(pairs, m[i].key))
    decreases |pairs|
  {
    if pairs != [] {
      var n := |pairs| - 1;
      ApplyAllUnits(m, pairs[..n]);
      var r0 := ApplyAll(m, pairs[..n]);
      assert UniqueKeys(r0);
      ApplyPairUnits(r0, pairs[n].key, pairs[n].value);
      forall i | 0 <= i < |m| && m[i].key == pairs[n].key
        ensures Translated(Translated(m[i].value, LastValue(pairs[..n], m[i].key)), Some(pairs[n].value)) ==
                Translated(m[i].value, Some(pairs[n].value))
      {
        match LastValue(pairs[..n], m[i].key)
        case None =>
        case Some(s) => RewriteTwice(m[i].value.after, s, pairs[n].value);
      }
    }
  }

  /** What a translation does to the lines of one unit. */
  lemma TranslatedLinesOf(u: Unit, t: Option<string>)
    ensures var v := Translated(u, t);
            v.before == u.before && v.msgid == u.msgid && |v.after| == |u.after| &&
            forall n :: 0 <= n < |u.after| ==>
              v.after[n] ==
                match t
                case Some(s) => if IsString(u.after[n]) then Msgstr(s) else u.after[n]
                case None => u.after[n]
  {
  }

  /** translate after its grouping step: pre-translate the grouped units, rewrite, merge in
      map order. */
  function TranslatedUnits(g: seq<Entry<Unit>>, sel: Selection, ask: string -> seq<string>,
                           exclude: seq<string>): Option<seq<string>>
  {
    match PreTranslated(g, sel, ask, exclude)
    case None => None
    case Some(ps) => Some(Flatten(ApplyAll(g, Concat(ps))))
  }

  /** translate fails exactly when some answer's segment count differs from its batch's key
      count. */
  lemma TranslateFails(g: seq<Entry<Unit>>, sel: Selection, ask: string -> seq<string>, exclude: seq<string>)
    ensures var bs := Batches(Hits(g, sel));
            var ans := Answers(bs, ask, exclude);
            TranslatedUnits(g, sel, ask, exclude).None? <==> exists i :: 0 <= i < |bs| && |bs[i]| != |ans[i]|
  {
    var bs := Batches(Hits(g, sel));
    var ans := Answers(bs, ask, exclude);
    PairedPositions(bs, ans);
    assert PreTranslated(g, sel, ask, exclude) == Paired(bs, ans);
    if Paired(bs, ans).None? {
      assert TranslatedUnits(g, sel, ask, exclude) == None;
      var i :| 0 <= i < |bs| && |bs[i]| != |ans[i]|;
      assert |Batches(Hits(g, sel))[i]| != |Answers(Batches(Hits(g, sel)), ask, exclude)[i]|;
    } else {
      assert TranslatedUnits(g, sel, ask, exclude).Some?;
    }
  }

  /** Otherwise translate keeps the grouped units in map order (no re-sort), and each unit
      becomes its translation by the last answer paired with its key (see TranslatedLinesOf):
      units of unpaired keys stay as they are. */
  lemma TranslateRewrites(g: seq<Entry<Unit>>, sel: Selection, ask: string -> seq<string>, exclude: seq<string>,
                          out: seq<string>)
    requires UniqueKeys(g)
    requires TranslatedUnits(g, sel, ask, exclude) == Some(out)
    ensures var bs := Batches(Hits(g, sel));
            var pairs := Concat(Paired(bs, Answers(bs, ask, exclude)).value);
            var r := ApplyAll(g, pairs);
            out == Flatten(r) && |r| == |g| &&
            forall i :: 0 <= i < |g| ==>
              r[i].key == g[i].key && r[i].value == Translated(g[i].value, LastValue(pairs, g[i].key))
  {
    var bs := Batches(Hits(g, sel));
    ApplyAllUnits(g, Concat(Paired(bs, Answers(bs, ask, exclude)).value));
  }

  /** translate regroups lines that sort has already formatted, in which a plural entry's
      lines all read `msgstr "`. Each of them closes a unit, those after the first are stored
      under the empty identifier and replace one another, and their empty identifier becomes a
      line of its own: a five-line plural entry comes out as four lines, the third of them an
      empty identifier. */
  lemma TranslatePluralEntry(id: string, p1: string, p2: string, p3: string, sel: Selection,
                             ask: string -> seq<string>, exclude: seq<string>, out: seq<string>)
    requires IsId(id) && FormFeed !in id && ExtractId(id) != ""
    requires IsPluralString(p1) && IsPluralString(p2) && IsPluralString(p3)
    requires TranslatedUnits(Grouped(SortedLines([id, p1, p2, p3, ""], true), true), sel, ask, exclude) == Some(out)
    ensures |out| == 4 && out[0] == FormatId(id) && out[2] == ""
  {
    RegroupPluralEntry(id, p1, p2, p3);
    TranslateTwoUnits(Grouped(SortedLines([id, p1, p2, p3, ""], true), true), sel, ask, exclude, out);
  }

  /** Translating two units of one line after the identifier line each, with nothing before
      it, keeps every line in place. */
  lemma TranslateTwoUnits(g: seq<Entry<Unit>>, sel: Selection, ask: string -> seq<string>,
                          exclude: seq<string>, out: seq<string>)
    requires |g| == 2 && g[0].key != g[1].key && g[0].value.before == [] && g[1].value.before == []
    requires |g[0].value.after| == 1 && |g[1].value.after| == 1
    requires TranslatedUnits(g, sel, ask, exclude) == Some(out)
    ensures |out| == 4 && out[0] == g[0].value.msgid && out[2] == g[1].value.msgid
  {
    var bs := Batches(Hits(g, sel));
    var pairs := Concat(Paired(bs, Answers(bs, ask, exclude)).value);
    var r := ApplyAll(g, pairs);
    assert out == Flatten(r) && |r| == 2 &&
           r[0].value == Translated(g[0].value, LastValue(pairs, g[0].key)) &&
           r[1].value == Translated(g[1].value, LastValue(pairs, g[1].key)) by {
      TranslateRewrites(g, sel, ask, exclude, out);
    }
    TranslatedPairShape(g, r, LastValue(pairs, g[0].key), LastValue(pairs, g[1].key));
  }

  lemma TranslatedPairShape(g: seq<Entry<Unit>>, r: seq<Entry<Unit>>, t0: Option<string>, t1: Option<string>)
    requires |g| == 2 == |r| && g[0].value.before == [] && g[1].value.before == []
    requires |g[0].value.after| == 1 && |g[1].value.after| == 1
    requires r[0].value == Translated(g[0].value, t0) && r[1].value == Translated(g[1].value, t1)
    ensures var f := Flatten(r); |f| == 4 && f[0] == g[0].value.msgid && f[2] == g[1].value.msgid
  {
    TranslatedLinesOf(g[0].value, t0);
    TranslatedLinesOf(g[1].value, t1);
    assert r == [r[0], r[1]];
    FlattenPair(r[0], r[1]);
  }

  // ---------------------------------------------------------------------------------------
  // One loop step at a time: the facts the translator's loops advance by.

  lemma HitsStep(sorted: seq<Entry<Unit>>, i: nat, sel: Selection)
    requires i < |sorted|
    ensures var id := sel.idOf(sorted[i].value.msgid);
            Hits(sorted[..i + 1], sel) ==
            Hits(sorted[..i], sel) +
            (if sel.eligible(id) then UnitHits(sorted[i].key, sel.strip(id), sorted[i].value.after, sel.wants) else [])
  {
    assert sorted[..i + 1][..i] == sorted[..i];
  }

  lemma UnitHitsStep(key: string, text: string, after: seq<string>, j: nat, wants: string -> bool)
    requires j < |after|
    ensures UnitHits(key, text, after[..j + 1], wants) ==
            UnitHits(key, text, after[..j], wants) + (if wants(after[j]) then [Entry(key, text)] else [])
  {
    assert after[..j + 1][..j] == after[..j];
  }

  /** One after line of an eligible unit: a wanted line feeds one more pair. */
  lemma FeedLine(done: seq<Entry<string>>, hs: seq<Entry<string>>, b: Batcher, key: string, text: string,
                 after: seq<string>, j: nat, wants: string -> bool)
    requires j < |after|
    requires hs == done + UnitHits(key, text, after[..j], wants) && b == FeedAll(NoBatch, hs)
    ensures wants(after[j]) ==>
              hs + [Entry(key, text)] == done + UnitHits(key, text, after[..j + 1], wants) &&
              Feed(b, Entry(key, text)) == FeedAll(NoBatch, hs + [Entry(key, text)])
    ensures !wants(after[j]) ==> hs == done + UnitHits(key, text, after[..j + 1], wants)
  {
    UnitHitsStep(key, text, after, j, wants);
    var u := UnitHits(key, text, after[..j], wants);
    assert (done + u) + [Entry(key, text)] == done + (u + [Entry(key, text)]);
    FeedAllSnoc(NoBatch, hs, Entry(key, text));
  }

  /** One unit of groupLines' outer loop, with its own tests spelled out. */
  lemma UnitStep(sorted: seq<Entry<Unit>>, i: nat, max: int, exclude: seq<string>, strip: string -> string)
    requires i < |sorted|
    ensures var sel := Selector(max, exclude, strip);
            var id := ExtractId(sorted[i].value.msgid);
            Hits(sorted[..i + 1], sel) ==
            Hits(sorted[..i], sel) +
            (if Utf8Length(id) <= max && !Excluded(id, exclude)
             then UnitHits(sorted[i].key, strip(id), sorted[i].value.after, Wants) else [])
  {
    HitsStep(sorted, i, Selector(max, exclude, strip));
  }

  lemma AnswersStep(bs: seq<seq<Entry<string>>>, i: nat, ask: string -> seq<string>, exclude: seq<string>)
    requires i < |bs|
    ensures Answers(bs[..i + 1], ask, exclude) ==
            Answers(bs[..i], ask, exclude) + [Cleaned(ask("\"" + Join(Values(bs[i]), "\" | \"") + "\""), exclude)]
  {
    var l := Answers(bs[..i + 1], ask, exclude);
    var r := Answers(bs[..i], ask, exclude) + [Cleaned(ask(Query(Values(bs[i]))), exclude)];
    forall k | 0 <= k <= i ensures l[k] == r[k] {
      assert bs[..i + 1][k] == bs[k];
    }
  }

  /** The pairing succeeds when every batch matches its answer. */
  lemma PairedAll(bs: seq<seq<Entry<string>>>, ans: seq<seq<string>>, zs: seq<seq<Entry<string>>>)
    requires |ans| == |bs| && |zs| == |bs|
    requires forall k :: 0 <= k < |bs| ==> |Keys(bs[k])| == |ans[k]| && zs[k] == Zip(Keys(bs[k]), ans[k])
    ensures Paired(bs, ans) == Some(zs)
  {
    assert Paired(bs, ans).Some?;
    var s := Paired(bs, ans).value;
    assert |s| == |zs|;
    assert forall k :: 0 <= k < |bs| ==> s[k] == zs[k];
    assert s == zs;
  }

  /** A single batch that does not match its answer makes the pairing fail. */
  lemma PairedFails(bs: seq<seq<Entry<string>>>, ans: seq<seq<string>>, i: nat)
    requires |ans| == |bs| && i < |bs| && |Keys(bs[i])| != |ans[i]|
    ensures Paired(bs, ans) == None
  {
  }

  lemma ConcatNext(ps: seq<seq<Entry<string>>>, i: nat)
    requires i < |ps|
    ensures Concat(ps[..i + 1]) == Concat(ps[..i]) + ps[i]
  {
    assert ps[..i + 1][..i] == ps[..i];
  }

  /** groupLines' inner loop for one eligible unit: every after line asking for a translation
      stores the unit's pair in the open batch and counts it; the tenth count closes the batch. */
  method FeedUnit(group: seq<seq<Entry<string>>>, pointer: seq<Entry<string>>, counter: nat,
                  ghost done: seq<Entry<string>>, key: string, text: string, after: seq<string>)
    returns (group': seq<seq<Entry<string>>>, pointer': seq<Entry<string>>, counter': nat)
    requires Batcher(group, pointer, counter) == FeedAll(NoBatch, done)
    ensures Batcher(group', pointer', counter') == FeedAll(NoBatch, done + UnitHits(key, text, after, Wants))
  {
    group', pointer', counter' := group, pointer, counter;
    ghost var hs := done;
    for j := 0 to |after|
      invariant hs == done + UnitHits(key, text, after[..j], Wants)
      invariant Batcher(group', pointer', counter') == FeedAll(NoBatch, hs)
    {
      var line := after[j];
      FeedLine(done, hs, Batcher(group', pointer', counter'), key, text, after, j, Wants);
      if !IsPluralString(line) {
        var msgstr := ExtractString(line);
        if IsFalsy(msgstr) {
          hs := hs + [Entry(key, text)];
          pointer' := Put(pointer', key, text);
          counter' := counter' + 1;
          if counter' == BatchSize {
            group' := group' + [pointer'];
            pointer' := [];
            counter' := 0;
          }
        }
      }
    }
    assert after[..|after|] == after;
  }

  /** preTranslate's second loop: every batch becomes array_combine of its keys and its
      answer, or the whole pairing fails at the first batch whose counts differ. */
  method Combine(groupedLines: seq<seq<Entry<string>>>, translations: seq<seq<string>>)
    returns (r: Option<seq<seq<Entry<string>>>>)
    requires |translations| == |groupedLines|
    ensures r == Paired(groupedLines, translations)
  {
    var combined := groupedLines;
    for i := 0 to |combined|
      invariant |combined| == |groupedLines|
      invariant forall k :: 0 <= k < i ==>
                  |Keys(groupedLines[k])| == |translations[k]| &&
                  combined[k] == Zip(Keys(groupedLines[k]), translations[k])
      invariant forall k :: i <= k < |combined| ==> combined[k] == groupedLines[k]
    {
      var temp := translations[i];
      var keys := Keys(combined[i]);
      if |keys| != |temp| {
        PairedFails(groupedLines, translations, i);
        return None;
      }
      combined := combined[i := Zip(keys, temp)];
    }
    PairedAll(groupedLines, translations, combined);
    return Some(combined);
  }

  /** translate's innermost loop: every `msgstr "` line of one unit rewritten. */
  method RewriteLines(after: seq<string>, translation: string) returns (rewritten: seq<string>)
    ensures rewritten == RewriteAfter(after, translation)
  {
    rewritten := after;
    for n := 0 to |after|
      invariant |rewritten| == |after|
      invariant forall m :: 0 <= m < n ==> rewritten[m] == RewriteAfter(after, translation)[m]
      invariant forall m :: n <= m < |after| ==> rewritten[m] == after[m]
    {
      if IsString(rewritten[n]) {
        rewritten := rewritten[n := StringPrefix + translation + "\""];
      }
    }
  }

  lemma ApplyAllNext(g: seq<Entry<Unit>>, pairs: seq<Entry<string>>, sub: seq<Entry<string>>, j: nat)
    requires j < |sub|
    ensures ApplyAll(g, pairs + sub[..j + 1]) == ApplyPair(ApplyAll(g, pairs + sub[..j]), sub[j].key, sub[j].value)
  {
    assert pairs + sub[..j + 1] == (pairs + sub[..j]) + [sub[j]];
    ApplyAllSnoc(g, pairs + sub[..j], sub[j]);
  }

  /** translate's middle loop: the pairs of one batch applied in order to the grouped units. */
  method ApplyBatch(units: seq<Entry<Unit>>, ghost g: seq<Entry<Unit>>, ghost pairs: seq<Entry<string>>,
                    sub: seq<Entry<string>>) returns (units': seq<Entry<Unit>>)
    requires units == ApplyAll(g, pairs)
    ensures units' == ApplyAll(g, pairs + sub)
  {
    units' := units;
    assert pairs + sub[..0] == pairs;
    for j := 0 to |sub|
      invariant units' == ApplyAll(g, pairs + sub[..j])
    {
      ghost var previous := units';
      var key := sub[j].key;
      var translation := sub[j].value;
      var p := Find(units', key);
      if p < |units'| {
        var after := RewriteLines(units'[p].value.after, translation);
        units' := units'[p := Entry(key, units'[p].value.(after := after))];
      }
      assert units' == ApplyPair(previous, key, translation);
      ApplyAllNext(g, pairs, sub, j);
    }
    assert sub[..|sub|] == sub;
  }

  // ---------------------------------------------------------------------------------------
  // The translator object.

  class Translator {
    /** The PO lines to translate, and the language pair and charset of the requests. */
    const lines: seq<string>
    const from: string
    const to: string
    const charset: string
    /** The translation endpoint: for a request, the first element of every segment of its
        decoded JSON answer (no segments when the request fails). */
    const endpoint: Request -> seq<string>
    /** strip_tags. */
    const stripTags: string -> string

    var exclude: seq<string>
    var max: int

    constructor(lines: seq<string>, from: string, to: string, charset: string,
                endpoint: Request -> seq<string>, stripTags: string -> string)
      ensures this.lines == lines && this.from == from && this.to == to && this.charset == charset
      ensures this.endpoint == endpoint && this.stripTags == stripTags
      ensures exclude == DefaultExclude && max == DefaultMax
    {
      this.lines := lines;
      this.from := from;
      this.to := to;
      this.charset := charset;
      this.endpoint := endpoint;
      this.stripTags := stripTags;
      exclude := DefaultExclude;
      max := DefaultMax;
    }

    /** The tests groupLines applies with the current settings. */
    function Selection(): Selection
      reads this
    {
      Selector(max, exclude, stripTags)
    }

    /** The endpoint asked with this translator's language pair and charset. */
    function Ask(): string -> seq<string> {
      Asker(endpoint, from, to, charset)
    }

    /** The limit is capped at 64 and has no lower bound. */
    method SetMax(m: int)
      modifies this
      ensures max == if m <= MaxCeiling then m else MaxCeiling
      ensures max <= MaxCeiling && (m <= MaxCeiling ==> max == m)
      ensures exclude == old(exclude)
    {
      max := if m <= MaxCeiling then m else MaxCeiling;
    }

    method SetExclude(e: seq<string>)
      modifies this
      ensures exclude == e && max == old(max)
    {
      exclude := e;
    }

    /** An identifier is excluded when one of the terms occurs in it. */
    method IsExcluded(msgid: string) returns (r: bool)
      ensures r <==> Excluded(msgid, exclude)
    {
      for i := 0 to |exclude|
        invariant forall k :: 0 <= k < i ==> !Contains(msgid, exclude[k])
      {
        if Contains(msgid, exclude[i]) {
          return true;
        }
      }
      return false;
    }

    /** The batches of (key, tag-stripped identifier) pairs to translate. */
    method GroupLines(sorted: seq<Entry<Unit>>) returns (group: seq<seq<Entry<string>>>)
      ensures group == Batches(Hits(sorted, Selection()))
    {
      ghost var sel := Selector(max, exclude, stripTags);
      ghost var hs: seq<Entry<string>> := [];
      group := [];
      var pointer: seq<Entry<string>> := [];
      var counter: nat := 0;
      for i := 0 to |sorted|
        invariant hs == Hits(sorted[..i], sel)
        invariant Batcher(group, pointer, counter) == FeedAll(NoBatch, hs)
      {
        var key := sorted[i].key;
        var part := sorted[i].value;
        var msgid := ExtractId(part.msgid);
        UnitStep(sorted, i, max, exclude, stripTags);
        if Utf8Length(msgid) > max {
          continue;
        }
        var excluded := IsExcluded(msgid);
        if excluded {
          continue;
        }
        var text := stripTags(msgid);
        group, pointer, counter := FeedUnit(group, pointer, counter, hs, key, text, part.after);
        hs := hs + UnitHits(key, text, part.after, Wants);
      }
      assert sorted[..|sorted|] == sorted;
      if pointer != [] {
        group := group + [pointer];
      }
    }

    /** The kept segments of the endpoint's answer to a query. */
    method FetchTranslations(query: string) returns (translations: seq<string>)
      ensures translations == Cleaned(Ask()(query), exclude)
    {
      var data := endpoint(Request(from, to, charset, query));
      translations := [];
      for i := 0 to |data|
        invariant translations == Cleaned(data[..i], exclude)
      {
        assert data[..i + 1][..i] == data[..i];
        var translation := Trim(RemoveEach(data[i], exclude));
        if !IsFalsy(translation) {
          translations := translations + [translation];
        }
      }
      assert data[..|data|] == data;
    }

    /** preTranslate's first loop: the kept segments of the answer to every batch's query. */
    method FetchAll(groupedLines: seq<seq<Entry<string>>>) returns (translations: seq<seq<string>>)
      ensures translations == Answers(groupedLines, Ask(), exclude)
    {
      translations := [];
      for i := 0 to |groupedLines|
        invariant translations == Answers(groupedLines[..i], Ask(), exclude)
      {
        AnswersStep(groupedLines, i, Ask(), exclude);
        var values := Join(Values(groupedLines[i]), "\" | \"");
        var t := FetchTranslations("\"" + values + "\"");
        translations := translations + [t];
      }
      assert groupedLines[..|groupedLines|] == groupedLines;
    }

    /** The batches with each key paired with its segment, or None when array_combine raises. */
    method PreTranslate(sorted: seq<Entry<Unit>>) returns (r: Option<seq<seq<Entry<string>>>>)
      ensures r == PreTranslated(sorted, Selection(), Ask(), exclude)
    {
      var groupedLines := GroupLines(sorted);
      var translations := FetchAll(groupedLines);
      r := Combine(groupedLines, translations);
    }

    /** translate: the lines with the fetched translations written into their msgstr lines,
        or None when the pairing raises. */
    method Translate() returns (r: Option<seq<string>>)
      ensures r == TranslatedUnits(Grouped(lines, true), Selection(), Ask(), exclude)
    {
      var sortedLines := Group(lines, true);
      ghost var g := sortedLines;
      var preTranslated := PreTranslate(sortedLines);
      if preTranslated.None? {
        return None;
      }
      var ps := preTranslated.value;
      ghost var pairs: seq<Entry<string>> := [];
      for i := 0 to |ps|
        invariant pairs == Concat(ps[..i])
        invariant sortedLines == ApplyAll(g, pairs)
      {
        sortedLines := ApplyBatch(sortedLines, g, pairs, ps[i]);
        ConcatNext(ps, i);
        pairs := pairs + ps[i];
      }
      assert ps[..|ps|] == ps;
      var merged := Merge(sortedLines);
      return Some(merged);
    }
  }
}
