# Dish-name ingestion, modelled in Dafny

The backend ships a one-off script, `backend/app/scripts/dishes_names.py`, that fills the `dishes`
catalog from a PDF food list. It reads the text of every page, line by line. It skips header
and label lines (`is_header_line`) and scans every other line for "count name count name ..."
pairs with the regular expression `PAIR_RE`. Each captured name is normalised (`clean_name`)
and dropped when the deny/allow keyword policy says it is not a meal (`deny_by_keywords`). The
survivors are de-duplicated by a case- and whitespace-insensitive key, keeping the first of each.
`main` then inserts them with `INSERT ... ON CONFLICT DO NOTHING` under a unique index on
`lower(name)`, and reports candidates, inserted and skipped.

The project models that script, stage by stage:

| file | module | what it holds |
|---|---|---|
| `wrappers.dfy` | `Wrappers` | `Option`, for text a page may not have |
| `text.dfy` | `Text` | the character classes of `\s`, `\d`, `\b` and `splitlines`; whitespace collapsing; `strip`; `lower`; substring search |
| `keywords.dfy` | `Keywords` | the header, deny and allow vocabularies, the rejected labels and the edge characters, as literal data |
| `classify.dfy` | `Classify` | `is_header_line`, `clean_name`, `deny_by_keywords` as functions whose contracts state each decision as an if-and-only-if |
| `pairscan.dfy` | `PairScan` | `PAIR_RE.finditer` as a deterministic scanner that makes the choices of Python's backtracking matcher, with soundness, leftmost-first and "first choice" proofs |
| `dedup.dfy` | `Deduplicate` | the first-occurrence specification of the de-duplication and the `seen`/`out` loop proved against it |
| `ingest.dfy` | `Ingest` | the page/line/match loops of `extract_names`, the insert counter loop and the control flow of `main` |
| `samples.dfy` | `Samples` | worked cases on concrete text: blank, numeric and label candidates rejected, `"  Beef   Stew "` cleaned to `"Beef Stew"`, and the names read off `"1 Rice 2 Bean Soup 3 Grilled Fish"` |

Loops in the source are methods here, and each is proved equal to a functional specification:
- `extract_names`: `CollectNames` with `AddPageNames`, `AddLineNames` and `AddPairNames`, one per nesting level, then `DedupNames`.
- `main`: `InsertAll`.

The rest of the proofs are about those specifications.

The `\s*` between the count and the name in `PAIR_RE` may match nothing, so a name written
directly after the digits (`1밥`) is captured too. The model does the same.

## Model

| member | source | states |
|---|---|---|
| Text.SplitLines | backend/app/scripts/dishes_names.py:231 | no line holds a line boundary; there are no more lines than characters; a text without boundaries is one line (none when empty) |
| Text.SplitLinesSplits | backend/app/scripts/dishes_names.py:231 | the lines `SplitLines` gives, each followed by the boundary `LineSeps` gives ("\r\n" as one boundary, any other boundary character alone, nothing after an unterminated last line), spell out the text again: no character is lost or added |
| Text.SplitsAsUnique | backend/app/scripts/dishes_names.py:231 | any reading of the text as boundary-free lines, each followed by a whole boundary (only a non-empty last line may go without one), has exactly the lines `SplitLines` gives |
| Text.Collapse | backend/app/scripts/dishes_names.py:210 | the result has only single spaces as whitespace, never two in a row; it is no longer than the input; it starts with whitespace exactly when the input does, and otherwise with the same character |
| Text.CollapseWord | backend/app/scripts/dishes_names.py:210 | a word without whitespace passes through `Collapse` unchanged, in front of the collapse of what follows it |
| Text.CollapseRunInPlace | backend/app/scripts/dishes_names.py:210 | every maximal whitespace run becomes exactly one space at its own place: the text before it and the text after it collapse on their own |
| Text.CollapseConcat | backend/app/scripts/dishes_names.py:210 | a text ending in a non-space collapses independently of what follows it |
| Text.CollapseKeepsVisible | backend/app/scripts/dishes_names.py:210 | collapsing keeps every non-whitespace character, in order |
| Text.CollapseFixesCollapsed | backend/app/scripts/dishes_names.py:210 | a string already in collapsed form is left unchanged |
| Text.CollapseTwoWords | backend/app/scripts/dishes_names.py:210 | two words padded and separated by whitespace runs collapse to the words with one space before, between and after them |
| Text.Strip | backend/app/scripts/dishes_names.py:196 | the result is the input less a prefix and a suffix made only of stripped characters; neither end of the result is a stripped character; it is empty exactly when every character is stripped |
| Text.StripUnique | backend/app/scripts/dishes_names.py:196 | any such trimming whose ends are not stripped characters equals the result of `Strip`, so the contract above determines it |
| Text.StripPadded | backend/app/scripts/dishes_names.py:210 | one stripped character on each side of an unpadded string is all that is removed |
| Text.Lower | backend/app/scripts/dishes_names.py:245 | same length, and each character is its lower-case form |
| Text.LowerKeepsCollapsed | backend/app/scripts/dishes_names.py:245 | lower-casing a collapsed string leaves it collapsed |
| Text.Contains | backend/app/scripts/dishes_names.py:200 | the substring test `kw in s` is true exactly when the keyword occurs at some index of the text |
| Text.ContainsAny | backend/app/scripts/dishes_names.py:221-222 | `any(k in n for k in keys)` is true exactly when some keyword of the list is contained in the text |
| Classify.IsHeaderLine | backend/app/scripts/dishes_names.py:195-205 | skip exactly when the stripped line is empty, or contains a header keyword, or is at most 8 characters and holds "류" or "," |
| Classify.BlankLineIsHeader | backend/app/scripts/dishes_names.py:196-198 | a line that is empty or all whitespace is skipped |
| Classify.LineWithNoIsHeader | backend/app/scripts/dishes_names.py:6-13 | any line whose stripped text contains "No" is skipped whole, because "No" is a header keyword |
| Classify.Normalize | backend/app/scripts/dishes_names.py:210 | the result is the collapsed name less a prefix and a suffix made only of edge characters; it is in collapsed form and neither starts nor ends with an edge character |
| Classify.CleanName | backend/app/scripts/dishes_names.py:208-217 | the result is "" exactly when the normalised name is shorter than 2 characters, all digits, or one of "음식명"/"음식군"/"No"; otherwise it is the normalised name unchanged, which then has no edge character at either end and only single spaces |
| Classify.CleanNameIdempotent | backend/app/scripts/dishes_names.py:208-217 | cleaning a cleaned name changes nothing |
| Classify.CleanNameTwoWords | backend/app/scripts/dishes_names.py:210-217 | two words with whitespace around and between them clean to the words joined by one space |
| Classify.DenyByKeywords | backend/app/scripts/dishes_names.py:220-223 | denied exactly when some deny keyword is a substring and no allow keyword is; an allow match always rescues the name |
| PairScan.LazyEndIsFirstStop | backend/app/scripts/dishes_names.py:192 | the lazy name group ends at the first position where the lookahead holds, over non-digit non-newline characters; if none exists it fails |
| PairScan.TryStartsIsFirst | backend/app/scripts/dishes_names.py:192 | backtracking into `\s*` picks the latest name start that has a name, and fails only when no start has one |
| PairScan.MatchAtSound | backend/app/scripts/dishes_names.py:192 | a match `MatchAt` reports satisfies the pattern: word boundary, digit run, whitespace, non-empty name, lookahead |
| PairScan.MatchAtIsFirstChoice | backend/app/scripts/dishes_names.py:192 | whenever some match starts at a position, `MatchAt` reports one there, and it is the one the backtracking matcher prefers (greedy `\s*`, then lazy name) |
| PairScan.SearchFinds | backend/app/scripts/dishes_names.py:234 | `Search` reports the `MatchAt` attempt where it stops |
| PairScan.SearchIsLeftmost | backend/app/scripts/dishes_names.py:234 | no match starts between the search position and the reported match |
| PairScan.Matches | backend/app/scripts/dishes_names.py:234 | finditer's matches lie after the start position, in order, without overlapping |
| PairScan.MatchesComplete | backend/app/scripts/dishes_names.py:234 | finditer misses no match: every position from the start on where the pattern matches is the start of a reported match or lies inside one |
| PairScan.MatchesSound | backend/app/scripts/dishes_names.py:234 | every match finditer yields satisfies the pattern |
| PairScan.PairsAt | backend/app/scripts/dishes_names.py:234-235 | the j-th name `Pairs` yields is group 2 of the j-th finditer match, which satisfies the pattern |
| PairScan.PairNameShape | backend/app/scripts/dishes_names.py:192 | every captured name is non-empty and holds no digit and no newline |
| PairScan.PairsOfRow | backend/app/scripts/dishes_names.py:234-235 | scanning a rendered "count name count name ..." row gives back exactly its names, in order |
| Deduplicate.KeyOfCollapsed | backend/app/scripts/dishes_names.py:245 | for a name in collapsed form, the dedup key `Key` is its lower-case form |
| Deduplicate.Dedup | backend/app/scripts/dishes_names.py:243-249 | the output is no longer than the input |
| Deduplicate.DedupKeys | backend/app/scripts/dishes_names.py:243-249 | the output has exactly the keys of the input |
| Deduplicate.DedupDistinct | backend/app/scripts/dishes_names.py:243-249 | no two output names share a key |
| Deduplicate.DedupIsFirstOccurrences | backend/app/scripts/dishes_names.py:243-249 | the output is read off strictly increasing input positions; each is the first occurrence of its key, and every first occurrence is among them |
| Deduplicate.DedupSubset | backend/app/scripts/dishes_names.py:243-249 | every output name is an input name |
| Deduplicate.DedupOfDistinct | backend/app/scripts/dishes_names.py:243-249 | a list whose keys are already distinct is returned unchanged |
| Deduplicate.DedupIdempotent | backend/app/scripts/dishes_names.py:243-249 | de-duplicating twice gives the same as once |
| Deduplicate.DedupNames | backend/app/scripts/dishes_names.py:243-249 | the `seen`/`out` loop returns the first-occurrence de-duplication of its input |
| Ingest.AcceptMember | backend/app/scripts/dishes_names.py:235-240 | a pair name contributes (`Accept`) exactly its cleaned form, when that is non-empty and not denied |
| Ingest.ShortLabelAddsNothing | backend/app/scripts/dishes_names.py:203-204 | a short section label (at most 8 characters, holding "류" or ",") contributes no names |
| Ingest.CandidateIff | backend/app/scripts/dishes_names.py:229-240 | a name is a candidate exactly when it is the non-empty cleaning of a pair name on a non-header line of some page and is not denied |
| Ingest.ExtractedNameSound | backend/app/scripts/dishes_names.py:231-240 | every returned name came from a pair on a non-header line, is a non-empty `clean_name` result and is not denied |
| Ingest.ExtractedDistinctLower | backend/app/scripts/dishes_names.py:243-249 | returned names are pairwise distinct in lower case, so none of them conflicts with another under the unique index |
| Ingest.AddPairNames | backend/app/scripts/dishes_names.py:234-240 | the match loop appends the accepted cleaned names of the line's pairs, in order |
| Ingest.AddLineNames | backend/app/scripts/dishes_names.py:232-240 | a header line appends nothing; any other line appends its accepted pair names (`LineNames`) |
| Ingest.AddPageNames | backend/app/scripts/dishes_names.py:230-240 | the line loop appends the names of the page's lines (`PageLines`: its text, or "", split into lines), in order |
| Ingest.CollectNames | backend/app/scripts/dishes_names.py:227-240 | the page loop builds the candidate list in document order |
| Ingest.ExtractNames | backend/app/scripts/dishes_names.py:226-249 | `extract_names` returns the first-occurrence de-duplication of the candidate list |
| Ingest.InsertRun | backend/app/scripts/dishes_names.py:270-274 | no more rows are inserted than there are names |
| Ingest.InsertRunCounts | backend/app/scripts/dishes_names.py:270-274 | afterwards the catalog holds the old rows plus every lower-cased name, and the insert count is exactly how much it grew |
| Ingest.InsertRunPresent | backend/app/scripts/dishes_names.py:270-274 | names already present in lower case insert nothing |
| Ingest.InsertRunIdempotent | backend/app/scripts/dishes_names.py:270-274 | repeating the same inserts adds nothing and leaves the catalog unchanged |
| Ingest.InsertRunAllNew | backend/app/scripts/dishes_names.py:270-274 | names distinct in lower case and new to the catalog are all inserted |
| Ingest.InsertAll | backend/app/scripts/dishes_names.py:271-274 | the `inserted += rowcount` loop computes the insert run: count and resulting catalog |
| Ingest.Ingest | backend/app/scripts/dishes_names.py:252-276 | without a URL nothing happens; with no names nothing is inserted; otherwise it reports the candidates, inserted = rows added and skipped = candidates minus inserted |
| Ingest.IngestFreshThenRepeat | backend/app/scripts/dishes_names.py:259-276 | on an empty catalog every extracted name is inserted; a second run of the same document inserts nothing |
| Samples.CleanNameBlank | backend/app/scripts/dishes_names.py:210-213 | a whitespace-only candidate is rejected |
| Samples.CleanNameDigits | backend/app/scripts/dishes_names.py:212-213 | a bare count "42" is rejected |
| Samples.CleanNameLabel | backend/app/scripts/dishes_names.py:215-216 | the label "No" is rejected |
| Samples.CleanNameBeefStew | backend/app/scripts/dishes_names.py:210 | "  Beef   Stew " cleans to "Beef Stew" |
| Samples.PairsSampleRow | backend/app/scripts/dishes_names.py:192 | the row "1 Rice 2 Bean Soup 3 Grilled Fish" yields "Rice", "Bean Soup", "Grilled Fish" in order |

## Left out

- PDF reading (`pdfplumber.open`, `page.extract_text()`, lines 228-230) is foreign I/O. The document is given as a sequence of pages, each an `Option<string>` (text, or none, which counts as "").
- The database is the set of lower-cased names it holds, which is what the unique index on `lower(name)` decides conflicts by. Engine creation, transactions, the `CREATE UNIQUE INDEX` statement (and its failure on a catalog that already has case-insensitive duplicates) and any store error other than a conflict are not modelled.
- The environment lookup of `DATABASE_URL` is a parameter of `Ingest.Ingest`. The printed messages and `sys.exit(2)` become the `Outcome` values; the message texts are not modelled.
- The command-line argument check (lines 279-283) is process plumbing and is not modelled.
- `backend/controller/dishes.py`, `backend/app/tables.py`, `backend/app/db.py` and `backend/app/main.py` are not part of this model. They are CRUD routes and schema/engine wiring with no logic of their own.
- Text.IsSpace: `\s` and `str.strip()` use Python's whitespace list written out, which is complete for `str.isspace`, so nothing is weakened here.
- Text.IsDigit: `\d` is modelled for the ASCII digits only; Python's `\d` also matches other Unicode decimal digits.
- Text.IsWordChar: the `\b` word characters are the ASCII letters and digits, `_` and the Hangul blocks, not every Unicode letter.
- Text.Lower: `str.lower()` is modelled on ASCII letters only; other scripts (Hangul has no case) are left unchanged, and Unicode case mappings that change length are not modelled.
- Ingest.InsertRun: PostgreSQL's `lower()` is taken to agree with the modelled `Lower`.
