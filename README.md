# Investor-relations demo: verified model of its core logic

This project models the logic at the core of a small investor-relations
dashboard for a Turkish real-estate investment trust. It has a React
front end and a FastAPI back end. Four pieces are modelled, and each is
proved against its own specification:

- **Keyword highlighter** (`Highlighter.dfy`). The assistant panel marks
  the words "pendorya", "özkaynak", "nav", "portföy", "kira" and "değer"
  in an answer, as follows:
  - It lower-cases the text.
  - It collects every non-overlapping occurrence of each keyword.
  - It sorts the spans by start in place.
  - It merges spans that overlap or touch.
  - It cuts the text into alternating plain and marked pieces.

  The model proves several facts about this:
  - The pieces spell the original text.
  - Plain and marked pieces alternate and none is empty.
  - A character is marked exactly when some keyword hit covers it.
  - The first character of every occurrence of a keyword is marked.
  - The text comes back unchanged exactly when it contains no keyword.
- **CSV export** (`CsvExport.dfy`). The document behind a CSV download is
  built as follows:
  - The first record's keys form an unquoted header line.
  - Each record gives one line of quoted cells, in header order.
  - Each cell doubles the double quotes inside it.
  - Lines are joined by LF.

  The model proves several facts about this:
  - Escaping round-trips.
  - A data line reads back, under the quoted-field rules of RFC 4180
    (section 2, rules 5-7), as the record's values.
  - The whole document has one line per record plus the header.
  - A missing key gives an empty cell, and extra keys are dropped.
- **Settings loader** (`Settings.dfy`). This is the fallback used when
  pydantic-settings is absent. It works in two steps:
  - A line-oriented `.env` reader, built on Python's `splitlines` and
    `strip` and splitting each line at its first `=`.
  - The precedence rule: a declared field takes its value from the
    environment first and from the file second.

  The model proves several facts about this:
  - Stored keys and values are stripped.
  - The last line assigning a key wins.
  - A line is skipped exactly when it is blank, a `#` comment or holds no `=`.
  - A line `key=value` stores the stripped key and value, split at the first `=`; the key may be empty, so `=abc` stores `"abc"` under `""`.
  - `splitlines` undoes writing the lines each followed by LF, and undoes
    joining them with LF when the last line is not empty.
  - `load` fills exactly the declared fields that either source provides,
    with the environment first.
- **Demo assistant** (`DemoAssistant.dfy`). A question is handled as
  follows:
  - It is normalised.
  - It is routed to the first of five keyword rules that matches: the
    portfolio total, Pendorya shopping mall, Divan Adana hotel, city
    count and equity.
  - It is answered from the rows those rules' queries return, or with
    the fallback text.

  The model proves several facts about this:
  - The first matching rule is chosen.
  - An empty or missing question gets the fallback.
  - Only Pendorya answers carry KAP notifications as sources.
  - Each rule's not-found answer is given exactly when its data is
    missing.
  - Because the external engine never answers, `ask_assistant` always
    answers with the demo rules.

`Strings.dfy` holds the string operations both languages provide:
- JavaScript's `indexOf` and one-character `split`;
- Python's `strip`, with its whitespace set written out;
- `str.index` and `join`;
- case mapping, as a per-character function parameter.

`Wrappers.dfy` holds the `Option` type, which stands for Python's
`None`.

## Model

| member | source | states |
|---|---|---|
| Strings.IndexOf | components/Assistant.tsx:23-26 | `indexOf(w, from)` is the first index at or after `from` where `w` occurs, or -1 when there is none |
| Strings.Strip | backend/settings.py:23 | `strip()` removes exactly the leading and trailing Python whitespace: the result is a slice of the input with no whitespace at either end and only whitespace outside it |
| Strings.SplitJoin | utils/export.ts:15-26 | splitting at a one-character separator undoes joining with it when no piece holds the separator |
| Highlighter.RenderHighlightedText | components/Assistant.tsx:18-67 | the rendering spells the input text; it is the bare text exactly when the lower-cased text holds no keyword; otherwise the pieces alternate between plain and marked, and a character is marked exactly when a keyword hit covers it |
| Highlighter.AppendHits | components/Assistant.tsx:23-27 | the `indexOf` loop appends exactly the keyword's successive non-overlapping hits, scanning from the start |
| Highlighter.CollectHits | components/Assistant.tsx:20-28 | the collected spans are the hits of every keyword, keyword by keyword in the configured order |
| Highlighter.HitsAreMatches | components/Assistant.tsx:23-27 | every hit is an occurrence of the keyword, and the hits are in increasing order without overlap |
| Highlighter.HitsCover | components/Assistant.tsx:23-27 | every occurrence of the keyword starts inside some hit, even where the non-overlapping search skips it |
| Highlighter.AllHitsAreMatches | components/Assistant.tsx:22-28 | every collected span is an occurrence of one of the keywords |
| Highlighter.AllHitsCover | components/Assistant.tsx:22-28 | every occurrence of every keyword starts inside a collected span |
| Highlighter.AllHitsEmpty | components/Assistant.tsx:22-30 | no span is collected exactly when no keyword occurs, which is when the text is returned unchanged |
| Highlighter.SortByStart | components/Assistant.tsx:33 | sorting in place leaves the spans ordered by start and is a permutation of them |
| Highlighter.CoversSameSpans | components/Assistant.tsx:33 | reordering the spans does not change which positions they cover |
| Highlighter.MergeStepCovers | components/Assistant.tsx:35-41 | one merge step (push a span, or extend the last one) keeps the merged spans separated and covers exactly what they covered plus the new span |
| Highlighter.MergeSpans | components/Assistant.tsx:34-42 | merging sorted spans yields spans that are non-empty, ordered and apart, and that cover exactly the positions the input covers; there are no more of them, and none only when the input is empty |
| Highlighter.EmitNext | components/Assistant.tsx:47-60 | emitting one merged span (a plain gap, then the marked span) extends the pieces by exactly the text up to the span's end, with the right marks |
| Highlighter.Segments | components/Assistant.tsx:44-66 | the pieces spell the text, alternate between plain and marked with none empty, and mark exactly the positions the merged spans cover |
| CsvExport.Get | utils/export.ts:20 | `row[header]` is the value of the record's own field with that key, or undefined when the record has no such own field |
| CsvExport.EscapeValue | utils/export.ts:1-7 | null and undefined give an empty body; strings and JSON text have their quotes doubled and read back unchanged; dates and numbers pass through |
| CsvExport.EscapeRoundTrip | utils/export.ts:5-6 | reading each `""` back as `"` recovers the text whose quotes were doubled |
| CsvExport.EscapedQuotesDoubled | utils/export.ts:5-6 | after escaping, every double quote is one of an adjacent pair |
| CsvExport.EscapeKeepsOthers | utils/export.ts:5-6 | escaping adds and removes no character other than `"` |
| CsvExport.EscapeValueEscapesText | utils/export.ts:1-7 | null and undefined give an empty cell; strings and JSON text have their quotes doubled; ISO dates and locale numbers pass through, which is the same as doubling when they hold no quote |
| CsvExport.CsvContent | utils/export.ts:9-26 | there is no document exactly when there are no rows or the first row has no keys |
| CsvExport.DataLineRoundTrip | utils/export.ts:17-24 | a data line reads back, field by field, as the texts of the record's values under the header keys, commas and quotes inside values included |
| CsvExport.DataLineSingleLine | utils/export.ts:17-24 | a data line holds no LF when no value's text does |
| CsvExport.CsvStructure | utils/export.ts:12-26 | with keys free of `,` and LF and value texts free of LF, the document has one line more than there are records; its first line splits into the first record's keys; and line `i + 1` reads back as record `i` |
| CsvExport.MissingKeyEmptyCell | utils/export.ts:19-22 | a header key the record lacks gives the empty quoted cell `""` |
| CsvExport.ExtraKeyDropped | utils/export.ts:17-24 | a record field whose key is not a header key does not change the record's line, wherever it sits in the record |
| Settings.SplitLines | backend/settings.py:22 | `splitlines()` yields lines that hold no line boundary and are no more numerous than the characters |
| Settings.SplitLinesJoin | backend/settings.py:22 | `splitlines()` undoes joining with LF when no line holds a boundary and the last line is not empty |
| Settings.SplitLinesAfterCrLf | backend/settings.py:22 | `splitlines` ends a line at CR LF as one terminator, adding no empty line between CR and LF |
| Settings.SplitLinesJoinTerminated | backend/settings.py:22 | `splitlines()` undoes writing lines without boundaries each followed by LF; the final terminator adds no empty line |
| Settings.LineEntry | backend/settings.py:23-27 | a line is skipped exactly when, stripped, it is empty, starts with `#` or holds no `=`; a kept line gives a stripped key that holds no `=` and a stripped value |
| Settings.LineEntryStrips | backend/settings.py:23-27 | a line reads exactly as its stripped form, so with `AssignmentLine` every kept line, blanks around it or not, is characterised |
| Settings.AssignmentLine | backend/settings.py:23-27 | a line `k=v` (key possibly empty, else starting with neither whitespace nor `#`, without `=`; value not ending in whitespace) stores the stripped `k` and `v`: only the first `=` splits, so `v` may hold `=` |
| Settings.ReadEnv | backend/settings.py:16-28 | a missing file gives the empty map; otherwise the map is the file's lines folded in order, each kept line overwriting its key |
| Settings.ParseEnv | backend/settings.py:22-27 | every key and value the lines give has no surrounding whitespace, and no key holds `=` |
| Settings.FileValues | backend/settings.py:19-28 | a missing file gives the empty map; every stored key and value is stripped and no key holds `=` |
| Settings.LastLineWins | backend/settings.py:22-27 | a key is stored exactly when some line assigns it, and its value is the one the last such line gives |
| Settings.Load | backend/settings.py:30-39 | the result holds exactly the declared fields that the environment or the file provides; the environment's value wins; keys that are not fields are ignored |
| Strings.Lower | components/Assistant.tsx:19 | lower-casing maps each character by the case map and keeps the length |
| DemoAssistant.Normalize | backend/main.py:72 | the normalised question is the lower-cased question (`""` for none) with exactly its surrounding Python whitespace removed |
| DemoAssistant.Matches | backend/main.py:77-197 | the five rule tests; the fallback always applies, and no other rule applies to a question shorter than three characters |
| DemoAssistant.Classify | backend/main.py:77-197 | the rule chosen is the first in the fixed order (portfolio total, Pendorya, Divan, city count, equity) whose test the question passes; the fallback is chosen exactly when none passes |
| DemoAssistant.AnswerWithDemoRules | backend/main.py:71-223 | each intent gets its own rule's answer: portfolio-total the portfolio answer, Pendorya the Pendorya answer, Divan the hotel answer, city-count the city-count answer, equity the equity answer, and the fallback the fixed fallback text; only a Pendorya answer carries sources, and it carries them exactly when notifications were found |
| DemoAssistant.EmptyQuestionFallsBack | backend/main.py:72-223 | a missing or empty question gets the fallback answer |
| DemoAssistant.PortfolioRuleComesFirst | backend/main.py:77-99 | every question that passes both the portfolio-total and the Pendorya test is answered by the portfolio-total rule |
| DemoAssistant.PortfolioRuleExample | backend/main.py:77-99 | the question "pendorya portföy değeri" is answered by the portfolio-total rule |
| DemoAssistant.DivanTestSimplifies | backend/main.py:154 | the Divan test is the same as `"divan" in q or "adana otel" in q`, since "adana oteli" contains "adana otel" |
| DemoAssistant.TotalValuation | backend/main.py:90 | the total counts a missing valuation as 0, so it is non-negative when the valuations are |
| DemoAssistant.PortfolioAnswer | backend/main.py:85-96 | the not-found text is given exactly when the portfolio table is empty |
| DemoAssistant.PendoryaAnswer | backend/main.py:129-149 | a Pendorya row gives the fixed opening, the first row's details (`PendoryaDetails`) and a full stop; otherwise notifications give the listing note; the not-found text is given exactly when neither exists |
| DemoAssistant.BuildPendoryaDetails | backend/main.py:131-144 | appending the truthy valuation, gross area and lettable area texts in that order and joining them with `, ` gives the details text, or the default text when there is none |
| DemoAssistant.DefaultDetailsIffNothing | backend/main.py:131-144 | the default details text is given exactly when none of the three values is truthy |
| DemoAssistant.HotelAnswer | backend/main.py:164-176 | the not-found text is given exactly when there is no row; a found hotel's answer opens with its name |
| DemoAssistant.CityCountAnswer | backend/main.py:189-193 | the not-found text is given exactly when the count is missing or zero |
| DemoAssistant.EquityAnswer | backend/main.py:206-214 | the not-found text is given exactly when there is no KPI row or its equity is null; a zero equity is reported |
| DemoAssistant.ExternalAnswer | backend/main.py:226-233 | the production engine is a placeholder that never gives an answer |
| DemoAssistant.AskAssistant | backend/main.py:350-358 | because the external engine (`answer_with_external_ai`, which always returns `None`) never answers, the assistant answers with the demo rules whatever the demo-mode flag |

## Left out

- React rendering is not modelled: the `<mark>` elements and their keys, and the component's state. A marked piece is a `Marked` segment and a plain piece is a `Plain` one.
- Case mapping is not modelled. `toLowerCase` and `lower()` are a per-character function parameter `fold`, so the model assumes case mapping keeps the length. JavaScript's `'İ'.toLowerCase()` adds a character, which would misalign the spans in the original; the model does not capture that.
- `Array.prototype.sort` is modelled by an in-place insertion sort. Its contract promises a sorted permutation. It does not promise the stability of the engine's sort, because the merged spans do not depend on the order among equal starts.
- Highlighter.HitsCover: the search resumes after each hit, so a keyword that overlaps itself would leave part of a second occurrence unmarked. The lemma therefore states that each occurrence's start is covered, not all of its characters. None of the configured keywords overlaps itself.
- The Blob, object URL and link click of the download are browser I/O and are not modelled, and neither is the file name.
- `Date.toISOString`, `toLocaleString('tr-TR')` and `JSON.stringify` are function parameters. Quote-freedom of the first two is a precondition of the round-trip lemmas.
- CsvExport.EscapeValue: the formatters are assumed to return a string. The model does not capture the exceptions that `JSON.stringify` throws on a BigInt or a cycle, or that `toISOString` throws on an invalid Date. It also does not capture `JSON.stringify` returning `undefined` for a function, which makes `.replace` throw.
- CsvExport.Get: a record is its own fields only. The model does not capture JavaScript's prototype lookup. For example, with rows `[{toString: 1}, {}]`, the second row's `row["toString"]` is the inherited method and the export throws; the model writes an empty cell.
- CsvExport.CsvStructure: it is stated only for keys without `,` or LF and values without LF. The header line is not quoted, and a quoted LF is legal CSV, but reading it back needs a reader that is not a line split.
- Python's `{x:,.0f}` and `str(n)` formatting are function parameters. Amounts are exact reals rather than floating point, so rounding and NaN truthiness are not modelled.
- Database access is not modelled: `fetch_all`, the SQL `ORDER BY`, `LIMIT` and `LIKE` filters, and `sync_kap_notifications`. The rows each query returns are an input (`DemoData`).
- The FastAPI endpoints, CORS setup and pydantic response validation are not modelled.
- The filesystem is not modelled: `Path.exists` and `read_text` become an optional file text. `read_text`'s newline translation does not change what `splitlines` yields.
- The process environment and the declared field list (`cls.model_fields`) are parameters of `Settings.Load`.
- `cls(**data)` is not modelled: pydantic's conversion of the collected strings to field types, and the class defaults for missing fields. `Settings.Load` returns the collected map.
- The pydantic-settings code path is not modelled.
