# Poto: a model of the PO file processor

Poto reads a gettext PO catalog and runs it through a fixed sequence of stages:
- line-break sanitising;
- the `Last-Translator` rewrite;
- splitting into lines, with whitespace collapsed in every line;
- validation of `msgid`/`msgstr` pairs, with an accumulated error list;
- splitting off the header (the lines before the first empty line);
- grouping the translation units and sorting them by identifier;
- optionally, machine translation of the units whose `msgstr` is empty;
- writing the result.

This project models the three classes that hold that logic and proves what they promise.

| file | module | models |
|---|---|---|
| `text.dfy` | `Text` | The PHP and PCRE text primitives the classes use: `trim` and its character set, the `\s` class, `preg_replace('/\s+/', ' ', …)`, `strpos`, `str_replace`, `explode`/`implode`, the decimal rendering of line numbers, `strlen` on UTF-8. |
| `ordered_map.dfy` | `OrderedMap` | A PHP array with string keys: an insertion-ordered association list where assigning to a present key replaces the value where it stands. |
| `sorter.dfy` | `Sorter` | `Sorter`: the line classifiers, id/string extraction and formatting, `group` (a two-position reducer), `merge`, `ksort` and `sort`. |
| `translator.dfy` | `Translation` | `Translator`: the length limit and exclusion list, `isExcluded`, `groupLines` (selection and batches of 10), `preTranslate` (query text and positional pairing), the post-processing in `fetchTranslations`, and `translate` (rewriting the `msgstr` lines). |
| `poto.dfy` | `Pipeline` | `Poto`: `read`, the error list, `sanitizeBreak`, `sanitizeSpace`, `setEditor`, `parseLines`, `getHeader`, `parseHeader`, `validate`, `write`, `log` and the stage gating of `process`. |

## How the model is built

**Imperative parts.** Where the PHP updates state step by step, the model does too:
- `Sorter.Group`, `Sorter.Merge`, `Translator.GroupLines`, `Translator.PreTranslate`, `Translator.Translate`, `Poto.Validate`, `Poto.ParseHeader` and `Poto.Write` are loops.
- Each such method is proved equal to a specification function (`Grouped`, `Flatten`, `Batches(Hits(…))`, `PreTranslated`, `TranslatedUnits`, `Diagnostics`, `Layout`).
- The lemmas about those functions carry the properties.

**Classes.** `Poto` and `Translator` are classes:
- fields the PHP never reassigns are `const`;
- the rest are `var`s, and each method names the fields it may change.

**Outside code.** Things the classes call but cannot see are parameters:
- file-system results;
- the translation endpoint;
- `strip_tags`;
- `repairMessageId`.

**Strings** are sequences of Unicode scalar values:
- `strlen` is the UTF-8 byte count (`Text.Utf8Length`);
- comparing scalars is comparing their UTF-8 encodings byte by byte, so `ksort`'s byte order is the character order `Sorter.Less`.

**Whitespace.** PHP's `trim` set (space, `\t`, `\n`, `\r`, `\0`, `\v`) and PCRE's `\s` (space, `\t`, `\n`, `\v`, `\f`, `\r`) are kept apart, exactly as the code has them. The round-trip and idempotence results therefore assume text without form feeds: that is where the two sets disagree at the ends of a string.

**Where the code is followed rather than the intended design:**
- `array_combine` raises a `ValueError` in PHP 8 when the endpoint returns a different number of segments than there are keys (src/inc/Translator.php:225). The model makes the whole translation fail (`None`, then `Raised(CombineFault)` from `process`); it does not skip the batch.
- The missing-`msgstr` check is inverted (src/Poto.php:443-445). It reports an error only when the line after a `msgid` starts with `msgctxt`, and such a line always yields the error.
- In throw mode `process` never writes. `writeFile($file)` with no content writes zero bytes, which PHP reads as failure, so `write` always raises (src/Poto.php:476-479).
- With no header line, the written file starts with an empty line, because `implode` of no lines is `""` and a line break follows it (src/Poto.php:483-484).
- `groupLines` counts hits, not units. A unit with two `after` lines asking for a translation counts twice toward the batch size, although the batch holds its key once (src/inc/Translator.php:184-185).
- With formatting on, plural lines also go through `formatString`. A `msgid_plural "x"` line becomes a `msgstr "…"` line, and grouping the output again closes the unit there (src/inc/Sorter.php:88-90). `SortIdempotent` therefore excludes plural lines when formatting is on.
- `translate` groups again, with formatting on, the lines that sort has already formatted (src/inc/Translator.php:124). In those lines every plural line of an entry reads `msgstr "…"`, so each one closes a unit of its own. The units after the first have the empty id; they are stored under one key `""` and replace each other (src/inc/Sorter.php:92-95), and each contributes its empty `msgid` line when merged. So translation drops plural lines and inserts an empty line: `Translation.TranslatePluralEntry` shows a five-line plural entry coming out as four lines, the third of them empty.

## Model

| member | source | states |
|---|---|---|
| Text.TrimLeftShape | src/inc/Sorter.php:155 | the left half of `trim` removes a prefix made only of trimmable characters and stops at a character it keeps |
| Text.TrimRightShape | src/inc/Sorter.php:155 | the right half of `trim` removes a suffix made only of trimmable characters and stops at a character it keeps |
| Text.TrimShape | src/inc/Sorter.php:155 | `trim` returns a contiguous slice of its input that begins and ends with characters outside PHP's trim set |
| Text.TrimIdentity | src/Poto.php:299 | `trim` leaves a string unchanged when neither end is a trimmable character |
| Text.TrimKeepsAbsent | src/Poto.php:299 | `trim` introduces no character that was absent from its input |
| Text.CollapseShape | src/Poto.php:314 | `preg_replace('/\s+/', ' ')` leaves only plain spaces as whitespace, never two adjacent, starts with whitespace exactly when the input does, and keeps a first or last character that is not whitespace |
| Text.CollapseFixed | src/Poto.php:314 | text already made of single plain spaces is left unchanged by the collapse |
| Text.NormalizeShape | src/inc/Sorter.php:155 | trim-then-collapse yields single plain spaces only and no line break |
| Text.NormalizeEnds | src/Poto.php:310-315 | for text without form feeds, trim-then-collapse leaves no trimmable character at either end |
| Text.NormalizeIdempotent | src/inc/Sorter.php:155 | trim-then-collapse applied twice equals applying it once (text without form feeds) |
| Text.Contains | src/inc/Translator.php:296 | `strpos(s, sub) !== false` holds exactly when `sub` occurs at some index of `s` (the empty needle occurs everywhere) |
| Text.RemoveAll | src/inc/Translator.php:248 | removing a term never lengthens the text and changes nothing when the term does not occur |
| Text.Split | src/Poto.php:389 | `explode` yields at least one piece and no piece contains the separator |
| Text.JoinSplit | src/Poto.php:389 | joining the pieces of `explode` with the separator gives the text back |
| Text.SplitJoin | src/Poto.php:483 | `explode` of an `implode` over pieces free of the separator gives the pieces back |
| Text.NatToString | src/Poto.php:427 | the decimal rendering of a line number is non-empty, all digits, with no leading zero |
| Text.NatToStringRoundTrip | src/Poto.php:427 | the decimal rendering reads back as the same number |
| Text.Utf8Length | src/inc/Translator.php:162 | `strlen` of the UTF-8 encoding lies between the number of characters and four times it |
| Text.ReplaceChar | src/Poto.php:133 | `str_replace('\\', '/', …)` keeps the length and replaces exactly the backslashes |
| OrderedMap.Find | src/inc/Sorter.php:94 | the position of a key is its first occurrence, or the length when the key is absent |
| OrderedMap.Put | src/inc/Sorter.php:94 | `$m[$k] = $v` overwrites a present key in place and appends an absent one at the end; other entries are untouched |
| OrderedMap.PutEntries | src/inc/Sorter.php:94 | after an assignment every entry is the assigned one or was already there |
| OrderedMap.PutUnique | src/inc/Sorter.php:94 | assignment never stores a key twice |
| OrderedMap.PutAsMap | src/inc/Sorter.php:94 | the key-value view after `$m[$k] = $v` is the old view updated at `k` only |
| OrderedMap.AsMapAt | src/inc/Sorter.php:94 | with unique keys, the key-value view gives the value stored at each position |
| Sorter.ClassifiersDisjoint | src/inc/Sorter.php:179-208 | `isId`, `isString` and `isPluralString` never hold together on one line |
| Sorter.CaptureLeftmost | src/inc/Sorter.php:153 | `/msgid "(.*)"/` matches exactly when some `msgid "` has a quote later on its line; the capture starts after the leftmost such `msgid "` and ends at the last quote before the line end |
| Sorter.CaptureWrapped | src/inc/Sorter.php:153 | a line that is the keyword, a text without line break, and a closing quote captures exactly that text |
| Sorter.ExtractShape | src/inc/Sorter.php:151-170 | an extracted id or string holds single plain spaces only and no line break |
| Sorter.FormatId | src/inc/Sorter.php:125-129 | the formatted line is an identifier line |
| Sorter.FormatString | src/inc/Sorter.php:138-142 | the formatted line is a translation line, whatever kind of line went in |
| Sorter.ExtractFormatId | src/inc/Sorter.php:125-156 | `extractId(formatId(l)) == extractId(l)` for lines without form feeds |
| Sorter.FormatIdIdempotent | src/inc/Sorter.php:125-129 | `formatId` applied twice equals applying it once (lines without form feeds) |
| Sorter.ExtractFormatString | src/inc/Sorter.php:138-170 | `extractString(formatString(l)) == extractString(l)` for lines without form feeds |
| Sorter.FormatStringIdempotent | src/inc/Sorter.php:138-142 | `formatString` applied twice equals applying it once (lines without form feeds) |
| Sorter.Group | src/inc/Sorter.php:76-116 | the loop computes `Grouped`, the fold of the per-line step over the lines from the empty unit in `before` position |
| Sorter.GroupFromConcat | src/inc/Sorter.php:82-113 | grouping `xs + ys` is grouping `ys` from the state `xs` left |
| Sorter.GroupedIsWellGrouped | src/inc/Sorter.php:92-105 | every stored unit sits under the extracted id of its own `msgid` line; it ends with a `msgstr "` line or a blank line; no key is stored twice |
| Sorter.UnclosedUnitDiscarded | src/inc/Sorter.php:115 | lines that are neither `msgstr "` nor blank never close a unit, so an open unit at the end of input is dropped |
| Sorter.LaterUnitWins | src/inc/Sorter.php:93-94 | for a repeated id, the unit grouped later replaces the earlier one in the key-value view; each key is stored once |
| Sorter.Merge | src/inc/Sorter.php:54-66 | the loop computes `Flatten`: for each entry in map order, `before`, the msgid line, then `after` |
| Sorter.FlattenConcat | src/inc/Sorter.php:57-64 | merging `m1 + m2` gives the lines of `m1` followed by those of `m2` |
| Sorter.FlattenLength | src/inc/Sorter.php:54-66 | the merged output has `|before| + 1 + |after|` lines per entry |
| Sorter.LessIrreflexive | src/inc/Sorter.php:43 | the byte-wise key order is irreflexive |
| Sorter.LessAsymmetric | src/inc/Sorter.php:43 | the byte-wise key order is asymmetric |
| Sorter.LessTotal | src/inc/Sorter.php:43 | any two distinct keys are ordered one way or the other |
| Sorter.LessTransitive | src/inc/Sorter.php:43 | the byte-wise key order is transitive |
| Sorter.InsertByKey | src/inc/Sorter.php:43 | insertion adds exactly one entry and keeps all others (multiset) |
| Sorter.KSort | src/inc/Sorter.php:43 | `ksort` permutes the entries (same multiset, same length) |
| Sorter.InsertByKeySorted | src/inc/Sorter.php:43 | inserting a new key into a sorted array keeps it sorted |
| Sorter.KSortSorted | src/inc/Sorter.php:43 | with unique keys, `ksort` yields strictly ascending keys |
| Sorter.KSortOfSorted | src/inc/Sorter.php:43 | `ksort` leaves an already sorted array unchanged |
| Sorter.Sort | src/inc/Sorter.php:40-45 | `sort` is group, then ksort, then merge |
| Sorter.SortOrder | src/inc/Sorter.php:40-45 | the output merges a permutation of the grouped units whose keys strictly ascend |
| Sorter.RegroupFlatten | src/inc/Sorter.php:54-116 | merging canonical units with unique keys and grouping the lines again gives back exactly those units |
| Sorter.GroupedCanonical | src/inc/Sorter.php:76-116 | if every line is sortable and every stored unit had an id line, every stored unit is canonical |
| Sorter.SortPluralEntry | src/inc/Sorter.php:82-116 | with formatting on, a plural entry (id line, plural lines, blank line) sorts to its formatted id line, every plural line turned into a `msgstr "` line, and the blank line |
| Sorter.RegroupPluralEntry | src/inc/Sorter.php:82-116 | grouping that sorted entry again stores two units, not one: the id with the first `msgstr "` line, and under `""` only the last one; the merge has four lines where there were five |
| Sorter.SortIdempotent | src/inc/Sorter.php:40-116 | `sort(sort(x)) == sort(x)` holds when three conditions are met: no line has a form feed; with formatting on, no line is a plural line; every unit has a `msgid "` line |
| Translation.Translator.constructor | src/inc/Translator.php:44-87 | the lines, language pair and charset are stored; the exclusion list and the 32-byte limit take their defaults |
| Translation.Translator.SetMax | src/inc/Translator.php:96-101 | the limit becomes `min(m, 64)`, with no lower bound; the exclusion list is unchanged |
| Translation.Translator.SetExclude | src/inc/Translator.php:110-114 | the exclusion list is replaced; the limit is unchanged |
| Translation.Translator.IsExcluded | src/inc/Translator.php:293-301 | true exactly when some exclusion term is a substring of the id |
| Translation.UnitHits | src/inc/Translator.php:176-194 | a unit contributes at most one pair per `after` line, each its key with its tag-stripped id |
| Translation.UnitHitsCount | src/inc/Translator.php:176-194 | a unit contributes exactly as many pairs as it has `after` lines asking for a translation |
| Translation.UnitHitsNonEmpty | src/inc/Translator.php:176-194 | a unit contributes a pair exactly when some `after` line asks for a translation |
| Translation.HitsSelected | src/inc/Translator.php:156-194 | every pair fed to the batches comes from a selected unit and carries its key and tag-stripped id |
| Translation.FeedUnit | src/inc/Translator.php:176-194 | the inner loop over one unit's `after` lines leaves the batch variables as feeding that unit's pairs to the batcher would |
| Translation.Translator.GroupLines | src/inc/Translator.php:150-203 | the loop computes the batches of the selected units' pairs, fed in map order |
| Translation.BatchSizes | src/inc/Translator.php:184-200 | every batch has 1 to 10 entries; n pairs give `ceil(n / 10)` batches |
| Translation.BatchKeys | src/inc/Translator.php:184-200 | batching invents no entry, and every pair's key lands in some batch |
| Translation.GroupedBatches | src/inc/Translator.php:159-193 | a unit is sent exactly when its id is within the byte limit, not excluded, and some non-plural `after` line has an empty (`""` or `"0"`) extracted string; batches hold 1 to 10 entries |
| Translation.BatchesOfSelected | src/inc/Translator.php:150-203 | with unique keys and one empty `after` line per eligible unit, the batches are the selected units in map order, cut into consecutive batches of at most 10 |
| Translation.Values | src/inc/Translator.php:218 | `array_values` of a batch lists its values in batch order |
| Translation.QueryRoundTrip | src/inc/Translator.php:218-219 | the query `"v1" \| "v2" …` reads back as the batch values when no value holds a double quote |
| Translation.RemoveEach | src/inc/Translator.php:248 | removing the exclusion terms one after the other never lengthens a segment |
| Translation.RemoveEachClean | src/inc/Translator.php:248 | a segment holding no exclusion term is left unchanged |
| Translation.Translator.FetchTranslations | src/inc/Translator.php:238-256 | the loop keeps, in order, each segment after term removal and trimming, when it is not empty in PHP's sense |
| Translation.CleanedShape | src/inc/Translator.php:246-252 | post-processing never yields more segments than it was given; each kept one is non-empty, not `"0"`, and already trimmed |
| Translation.CleanedAppend | src/inc/Translator.php:247-252 | post-processing works segment by segment and keeps their order |
| Translation.CleanedClean | src/inc/Translator.php:247-252 | segments that are already clean come through unchanged |
| Translation.Answers | src/inc/Translator.php:217-220 | there is one post-processed answer per batch, in batch order |
| Translation.Translator.FetchAll | src/inc/Translator.php:217-220 | the first loop fetches, for every batch in order, the kept segments of the answer to its query |
| Translation.PairedPositions | src/inc/Translator.php:222-226 | pairing fails exactly when some answer's segment count differs from its batch's key count; otherwise the j-th key of batch i gets the j-th segment of answer i |
| Translation.Combine | src/inc/Translator.php:222-226 | the second loop zips every batch's keys with its answer, and fails as soon as one count differs |
| Translation.Translator.PreTranslate | src/inc/Translator.php:212-229 | the loops query each batch and zip it with its answer, or fail as `array_combine` does |
| Translation.RewriteTwice | src/inc/Translator.php:130-134 | a rewritten `msgstr` line is again a `msgstr "` line, so the last translation given to a key wins |
| Translation.RewriteLines | src/inc/Translator.php:130-134 | the innermost loop rewrites exactly the `msgstr "` lines of a unit |
| Translation.ApplyBatch | src/inc/Translator.php:128-136 | the middle loop applies a batch's pairs in order, each to the unit under its key |
| Translation.ApplyPairUnits | src/inc/Translator.php:128-136 | one translation changes the unit under its key only, keeping every key in place |
| Translation.ApplyAllUnits | src/inc/Translator.php:127-138 | after all translations, each unit carries the last translation paired with its key; units of unpaired keys are unchanged |
| Translation.TranslatedLinesOf | src/inc/Translator.php:130-134 | a translated unit keeps `before`, the msgid line and every non-`msgstr "` line; each `msgstr "` line becomes `msgstr "<t>"` |
| Translation.TranslateFails | src/inc/Translator.php:222-226 | `translate` fails exactly when some answer's segment count differs from its batch's key count |
| Translation.TranslateRewrites | src/inc/Translator.php:122-141 | otherwise the output merges the grouped units in map order with no re-sort, each translated by the last answer paired with its key |
| Translation.TranslatePluralEntry | src/inc/Translator.php:122-141 | when `translate` succeeds on a sorted five-line plural entry, its output has four lines: the formatted id line, one translation line, an empty line, one translation line |
| Translation.Translator.Translate | src/inc/Translator.php:122-141 | the nested loops rewrite the `msgstr` lines and merge, matching `TranslatedUnits` of the grouped lines |
| Pipeline.BreakRun | src/Poto.php:26 | the leading run of `\r?\n` breaks is maximal and holds only break characters |
| Pipeline.CollapseBreaksKeepsText | src/Poto.php:300 | collapsing break runs changes only line-break characters |
| Pipeline.CollapseBreaksHead | src/Poto.php:300 | the result is empty exactly when the input is; a first character that is not a break stays first |
| Pipeline.CollapseBreaksLast | src/Poto.php:300 | a last character that is not a break stays last |
| Pipeline.CollapseBreaksNoTriple | src/Poto.php:300 | in text without `\r`, no three line breaks follow each other after the collapse |
| Pipeline.CollapseBreaksNoBreak | src/Poto.php:300 | text without `\n` has no break run and is left unchanged |
| Pipeline.CollapseBreaksAppend | src/Poto.php:26 | the collapse works piece by piece: when no break run crosses the seam, the collapse of `a + t` is the collapses of `a` and `t` joined |
| Pipeline.CollapseSingleBreak | src/Poto.php:26 | a lone `\n` or `\r\n` between texts that do not touch it with another break is kept as it is |
| Pipeline.CollapseBreakRun | src/Poto.php:26 | a run of two or more `\r?\n` breaks between such texts becomes exactly `"\n\n"` |
| Pipeline.SanitizeBreakShape | src/Poto.php:296-301 | `sanitizeBreak` leaves trimmed content that differs from the trimmed input only in line breaks; without `\n` it is the trimmed input; with no `\r` it has no triple break |
| Pipeline.SanitizeBreakRuns | src/Poto.php:296-301 | where the trimmed input is `a`, a break run and `b`, the result is the sanitised `a`, then `"\n\n"` for a run of two or more breaks or the single break as it was, then the sanitised `b` |
| Pipeline.Poto.SanitizeBreakContent | src/Poto.php:296-301 | the content becomes its sanitised form |
| Pipeline.SanitizeSpace | src/Poto.php:310-315 | the result has only plain spaces, no two adjacent, and no line break |
| Pipeline.SanitizeSpaceFixed | src/Poto.php:310-315 | a sanitised line is left unchanged |
| Pipeline.SanitizeSpaceSanitized | src/Poto.php:310-315 | a line without form feeds comes out sanitised, with no trimmable character at either end |
| Pipeline.EditLines | src/Poto.php:325-327 | every `"Last-Translator:…"` line becomes the Poto editor line, and every other line is kept |
| Pipeline.SetEditorLines | src/Poto.php:323-328 | `setEditor` keeps the line structure: the lines after it are the edited lines before it |
| Pipeline.SetEditorIdempotent | src/Poto.php:323-328 | setting the editor twice equals setting it once |
| Pipeline.Poto.SetEditor | src/Poto.php:323-328 | the content becomes its edited form |
| Pipeline.ParsedLines | src/Poto.php:387-393 | one line per `explode` piece, each passed through `sanitizeSpace` |
| Pipeline.Poto.ParseLines | src/Poto.php:387-393 | the lines become the parsed content |
| Pipeline.HeaderSize | src/Poto.php:352-362 | the header is the longest prefix with no empty line; it ends at the end of input or at an empty line |
| Pipeline.Poto.GetHeader | src/Poto.php:352-362 | the loop returns exactly that prefix |
| Pipeline.Poto.ParseHeader | src/Poto.php:370-379 | the header gains that prefix and the lines keep the rest, so `header ++ remaining == original` and `remaining` is empty or starts with `""` |
| Pipeline.LineErrorInjective | src/Poto.php:427-451 | an error message determines its line number and its problem |
| Pipeline.MsgctxtNeverMatches | src/Poto.php:443-449 | a line starting with `msgctxt` matches neither the plural-id nor the missing-str pattern |
| Pipeline.LineErrorsCases | src/Poto.php:419-458 | each message recorded for a line is the empty-id one for that line or the missing-str one for the line after it |
| Pipeline.LineErrorsOf | src/Poto.php:419-458 | each message naming line k+1 or k+2 is recorded for line k only, exactly when its check holds there |
| Pipeline.Poto.CheckLine | src/Poto.php:407-458 | one iteration appends, in order, the empty-id and the missing-str messages for that line, or nothing for header and comment lines |
| Pipeline.Poto.Validate | src/Poto.php:401-462 | the error list grows by the diagnostics of every line in order, and the result is true iff the whole list is empty |
| Pipeline.DiagnosticsComplete | src/Poto.php:410-458 | `Error at line k+1: 'msgid' is empty` is reported iff line k is checked, matches `^msgid\s*(""\|)$`, and has a next line that is not a plural id; `Error at line k+2: 'msgstr' is missing` is reported iff line k is checked, matches `^msgid\s+`, and the next line starts with `msgctxt` |
| Pipeline.DiagnosticsSound | src/Poto.php:410-458 | every recorded error is one of those two messages, for a line whose check holds |
| Pipeline.Poto.SetError | src/Poto.php:261-265 | the error is appended to the list and returned |
| Pipeline.Poto.GetError | src/Poto.php:274-277 | the errors joined in insertion order; split on the separator they give the list back |
| Pipeline.Poto.GetArrayError | src/Poto.php:285-288 | the list is non-empty exactly when `error()` holds |
| Pipeline.Poto.Log | src/Poto.php:502-510 | a truthy message is appended and logged; otherwise the joined error list is logged |
| Pipeline.Lead | src/Poto.php:483-484 | the header as it reads back is never empty: no header reads back as one empty line |
| Pipeline.JoinSnoc | src/Poto.php:483 | joining one more piece appends the separator and the piece |
| Pipeline.LayoutJoin | src/Poto.php:482-493 | the written text is the header lines, the body lines and a final empty piece, joined by line breaks |
| Pipeline.LayoutRoundTrip | src/Poto.php:482-493 | splitting the written text on line breaks gives the header, the lines in order, and the empty piece after the last break |
| Pipeline.ParseWritten | src/Poto.php:482-493 | parsing a written file of sanitised lines gives them back |
| Pipeline.Poto.Write | src/Poto.php:470-494 | the target is `processed-<file>` unless `override`; throw mode raises; otherwise the text is the layout of header and lines |
| Pipeline.Poto.constructor | src/Poto.php:81-109 | every setting is stored from the arguments, and the lists and texts start empty |
| Pipeline.Poto.Set | src/Poto.php:118-122 | the content is replaced |
| Pipeline.Poto.Read | src/Poto.php:131-169 | the path's backslashes become slashes. A missing or unreadable file, or empty content: raised at once in throw mode, otherwise logged while reading goes on |
| Pipeline.Poto.Prepare | src/Poto.php:183-197 | content sanitised, editor set and msgids repaired as configured, then parsed into lines |
| Pipeline.Poto.Check | src/Poto.php:183-206 | the preparation followed by validation |
| Pipeline.Completed | src/Poto.php:208-241 | after validation `process` never skips; it writes only outside throw mode and, when translating, only with both sort and format on |
| Pipeline.Poto.Complete | src/Poto.php:208-240 | header split, sort, translation gate, translation and write; only a misconfigured translation logs |
| Pipeline.ProcessedStages | src/Poto.php:199-206 | a non-empty error list after validation raises or logs and stops; otherwise the completion stages decide |
| Pipeline.Poto.Process | src/Poto.php:177-241 | the stage sequence: empty content changes nothing; otherwise the outcome, content, error list and log follow `Processed` |
| Pipeline.Poto.ProcessContent | src/Poto.php:183-241 | the same for content that is not empty |
| Pipeline.WrittenOnlyValid | src/Poto.php:179-230 | a file is written only from non-empty content with no earlier or new error, outside throw mode, and never for a translation without sort and format |
| Pipeline.ThrowNeverWrites | src/Poto.php:476-479 | in throw mode `process` never writes |
| Pipeline.LayoutReadsBack | src/Poto.php:482-493 | the file written from the split header and lines reads back as header, lines and the final empty piece |
| Pipeline.WrittenReadsBack | src/Poto.php:177-241 | without sorting and translation, a written file reads back as the old header plus the new header lines, then the parsed body in order |

## Left out

- Files and the clock: the results of `file_exists`, `is_readable` and `file_get_contents` are parameters of `Poto.Read`. A `false` or `null` content is the empty string, which every test in the code treats alike.
- Writing files: `writeFile` and the appends in `write` are not modelled. `Poto.Write` returns the text the appends would produce, and `Poto.logged` holds what `log` last wrote to the log file (it overwrites, it does not append).
- The raise in `log` when the log file cannot be written is not modelled: `log` is only called outside throw mode, where it cannot raise.
- `fetchTranslations`' HTTP request, `sleep(1)`, `json_decode` and `buildApiUrl` (URL encoding with `http_build_query`) are not modelled. The endpoint is a function from a request (language pair, charset, query) to the first element of each answer segment; a failed request answers no segments.
- `strip_tags` is an uninterpreted function parameter of the translator.
- `repairMessageId` (a lazy multi-line regular expression) is an uninterpreted `repair` parameter of `Poto.Process`; only where it runs in the stage sequence is modelled.
- Exceptions are modelled as the `Raised` outcome or an `Option` result, not as control transfer.
- PHP array key coercion and PHP 8's mixed key comparison are not modelled: integer-like ids such as `"10"` become integer keys, and `ksort` compares numeric strings, integer-like or not (`"9.5"` before `"10.5"`), as numbers; the model keeps every key a string compared byte-wise.
- The PCRE engine is not modelled: each pattern in `Poto::REGEX` and in the sorter is encoded as an explicit prefix or shape predicate.
- The WinForms interface and the demo script are not part of this model.
- Pipeline.Poto.Process: does not state the final `lines`, `header` and `file` fields, only the outcome (which carries the written text and target), the content, the error list and the log.
- Sorter.SortIdempotent: proved only for lines without form feeds, without plural lines when formatting is on, and with every unit having a `msgid "` line, because the sort is not idempotent outside these conditions.
- Sorter.ExtractFormatId, Sorter.ExtractFormatString, Sorter.FormatIdIdempotent, Sorter.FormatStringIdempotent: stated only for lines without form feeds, where `trim` and `\s` agree.
- Translation.BatchesOfSelected: the exact batch contents are stated only when every eligible unit has one `after` line asking for a translation; otherwise `BatchSizes` and `GroupedBatches` give the bounds and the membership.
- Translation.QueryRoundTrip: stated only for values without double quotes (the default exclusion list keeps such ids out of the batches).
- Text.RemoveAll: states the length bound and the no-occurrence case, not the exact text left after the removal.
- Pipeline.CollapseBreaksNoTriple: the absence of triple breaks is stated only for text without `\r`, because the proof follows `\n` characters only.
- Pipeline.WrittenReadsBack: the read-back is stated only without sorting and translation; with them, the body is `SortedLines` or `TranslatedUnits` of the parsed lines, as `Completed` states.
