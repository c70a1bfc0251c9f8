# Date evidence, link filtering and name normalisation of an admissions scraper

This project models, in Dafny, the core of a scraper that collects university
admission notices. Its parts are:

- **Date evidence** (`admission_scraper/utils.py`, `admission_scraper/spiders/pages.py`).
  `extract_context` takes the matches of a date pattern in a page's text and
  builds a record for each match. The record holds a window of whitespace-separated
  tokens around the match. Records with the same matched text are then merged
  in dictionary insertion order. The pages spider drops matches that
  `is_likely_phone_number` flags. It also drops matches whose context names
  no admission term. It yields one item for each remaining record.
- **Link filtering** (`admission_scraper/spiders/uni.py`,
  `admission_scraper/utils/generic.py`). It collects the links whose text or
  URL mentions an admission term. Each URL loses one trailing `/`, and a
  repeated URL is kept only once.
- **State resolution** (`db/utils.py`, `db/seed.py`).
  `normalize_state_name` lower-cases a name, strips it, removes punctuation,
  collapses whitespace and expands common abbreviations. `seed_institutes`
  resolves each site's state in three tiers: the exact name, then the
  normalised name, then the first loose substring match. It cuts the
  resolved sites into batches with `split_content`.
- **URL clean-up scripts** (`refine_data.py`, `data/refine_data.py`). They add a
  scheme, strip trailing `/ # ? &` in that order, trim whitespace and the
  state column, and drop rows with a repeated URL, keeping the first.

Code that changes state step by step is modelled as methods with loops. Each
method is proved equal to a specification function:

- `ContextExtraction.TokenOffsets`, `LocateTokens`, `MergeByMatch` and `ExtractContext`;
- `Pages.IsLikelyPhoneNumber` and `EmitItems`;
- `Links.Parse`;
- `Seed.SearchPartial` and `ResolveSites`.

`Seed.ResolveState`, the three-tier lookup of one site, is a method without a
loop that calls `SearchPartial`.

The spider's page counter is a field of the class `Pages.PagesSpider`.
Lemmas prove what the specification functions promise. The pure
transformations of `db/utils.py` and the refine scripts are functions with
lemmas.

Text is ASCII throughout. `Text` models `str.split`, `strip`, `rstrip`,
`lower`, `join` and the substring test. `Patterns` gives hand-written
equivalents of the fixed regular expressions: `\b`, a case-insensitive whole
word, and `\d` runs. `Sequences` holds keep-first deduplication, which serves
as a dict's insertion order, `if x not in list: append` and
`drop_duplicates(keep="first")`.

## Model

| member | source | states |
|---|---|---|
| ContextExtraction.TokenOffsets | admission_scraper/utils.py:22-29 | The positions loop gives each token the summed lengths of the tokens before it, plus one separator each. |
| ContextExtraction.OffsetsIncrease | admission_scraper/utils.py:27-29 | Offsets start at 0 and increase strictly. Each lies past the end of every earlier token. |
| ContextExtraction.JoinedTokenAt | admission_scraper/utils.py:27-29 | On text whose tokens are separated by single spaces, each offset is exactly where its token starts. |
| ContextExtraction.OffsetsDrift | admission_scraper/utils.py:19-36 | After a run of several whitespace characters the offsets fall behind. In `a   b c`, position 4 holds `b`, but the lookup gives the token `c`. |
| ContextExtraction.FloorIndex | admission_scraper/utils.py:32-36 | The token index is the last index whose offset is at most the position. It is 0 when there is none or no token at all. |
| ContextExtraction.LocateTokens | admission_scraper/utils.py:31-36 | The loop finds the floor index of the match's start and of its end. A start at or before the end gives a start token at or before the end token. |
| ContextExtraction.TokenIndexBrackets | admission_scraper/utils.py:31-36 | Over real token offsets, the token found starts at or before the position, and the next token starts after it. |
| ContextExtraction.MatchContext | admission_scraper/utils.py:12-55 | One iteration builds the record of a match: the window's tokens joined by spaces, with the window's bounds. |
| ContextExtraction.ContextWindow | admission_scraper/utils.py:38-46 | The window starts at most `before` tokens ahead of the match and not before token 0. It ends at most `after` tokens past the match and not past the last token. With `after >= 1` it holds both match tokens. Re-splitting the context gives back the window's tokens, and the context has no line break. |
| ContextExtraction.MergeByMatch | admission_scraper/utils.py:57-79 | The dictionary loop yields the merged record of each distinct matched text, in first-occurrence order. |
| ContextExtraction.MergeStateSeen | admission_scraper/utils.py:61-75 | A record whose text is already a key replaces that key's record with the merge of all occurrences so far. The keys and their order stay the same. |
| ContextExtraction.MergeStateNew | admission_scraper/utils.py:76-77 | A record whose text is not yet a key becomes that key's record, with the key added last. |
| ContextExtraction.MergeStateValues | admission_scraper/utils.py:79 | The dictionary's values, in key order, are the merge of all records. |
| ContextExtraction.MergedOnePerMatch | admission_scraper/utils.py:57-79 | There is exactly one record per distinct matched text, no more records than inputs, and texts appear in the order they first occur. |
| ContextExtraction.MergedSpan | admission_scraper/utils.py:61-75 | A merged record's context joins all its occurrences' contexts in order with a blank line. Its start token is the least of theirs and its end token the greatest, and both are attained. |
| ContextExtraction.ExtractContext | admission_scraper/utils.py:5-81 | No matches give `[]`. Otherwise the result is the merge of the per-match records. |
| ContextExtraction.ExtractedOnePerMatch | admission_scraper/utils.py:5-81 | There is one record for each distinct matched text and for no other text, and never more records than matches. The records follow the order in which their texts are first matched. |
| Pages.IsLikelyPhoneNumber | admission_scraper/spiders/pages.py:161-182 | The loop answers true if any of the four phone patterns is found. Otherwise it answers true exactly when the text shows neither a whole-word month abbreviation nor a stand-alone four-digit number. |
| Pages.DashedPhoneSubsumed | admission_scraper/spiders/pages.py:165-166 | Wherever `\d{4}-\d{2,3}-\d{2,4}` matches, `\d+-\d+-\d+` matches too. |
| Pages.PhonePatternOrderIrrelevant | admission_scraper/spiders/pages.py:163-180 | The verdict is the same with the third pattern left out, so the order in which patterns are tried does not matter. |
| Pages.DashSeparatedDigitsArePhone | admission_scraper/spiders/pages.py:163-180 | Any text holding three dash-separated digit runs is judged a phone number, ISO and day-first dates included. |
| Pages.SlashSeparatedDigitsArePhone | admission_scraper/spiders/pages.py:163-180 | Any text holding four slash-separated digit runs is judged a phone number. |
| Pages.LongDigitRunsArePhone | admission_scraper/spiders/pages.py:167-180 | Any text holding ten consecutive digits is judged a phone number. |
| Pages.ThreeLetterWord | admission_scraper/spiders/pages.py:171-174 | A case-insensitive whole-word match of a three-letter abbreviation is a word of exactly three characters, with no word character just before or after it. |
| Pages.FullMonthNameIsPhone | admission_scraper/spiders/pages.py:171-182 | `12 April 25` is judged a phone number: a full month name is not a whole-word abbreviation, and the text has no four-digit year. |
| Pages.AbbreviatedDateIsNotPhone | admission_scraper/spiders/pages.py:161-182 | `12 Apr 2025` is not judged a phone number. |
| Pages.EmitItems | admission_scraper/spiders/pages.py:142-156 | The emit loop yields, in record order, the item of each record that passes the filter. |
| Pages.EmittedItems | admission_scraper/spiders/pages.py:142-156 | An item is yielded exactly for each record whose match is not a likely phone number and whose context names an admission term, singular or plural. Every item carries the slash-stripped page URL and no related dates. |
| Pages.PagesSpider.Parse | admission_scraper/spiders/pages.py:119-156 | The page counter grows by one. A missing body yields nothing. Otherwise the items are those emitted from the `extract_context` records of the date matches, with windows of 50 tokens. |
| Links.RemoveTrailingSlash | admission_scraper/utils/generic.py:4-7 | The result is a prefix of the URL. It is one character shorter exactly when the URL ends with `/`, and otherwise the URL itself. The copy at admission_scraper/spiders/uni.py:13-16 is the same function. |
| Links.RemoveTrailingSlashNotIdempotent | admission_scraper/utils/generic.py:5-6 | `a//` becomes `a/`, and only a second call gives `a`. |
| Links.QualifyingUrlsMembers | admission_scraper/spiders/uni.py:33-41 | A URL is a candidate exactly when it is the slash-stripped URL of a link whose text or URL names an admission term as a whole word. |
| Links.Parse | admission_scraper/spiders/uni.py:24-57 | The yielded site is the response URL. The matched links are the candidates with repeats dropped, keeping the first. |
| Links.MatchedLinksSpec | admission_scraper/spiders/uni.py:33-41 | The matched links hold no duplicates. They are exactly the candidate URLs, in the order each first qualified. |
| DbUtils.SplitContent | db/utils.py:6-7 | There are `ceil(len / max_length)` chunks. |
| DbUtils.SplitContentConcat | db/utils.py:6-7 | Concatenating the chunks gives back the content. |
| DbUtils.SplitContentSizes | db/utils.py:7 | Every chunk is the next slice of the content and holds 1 to `max_length` elements. All chunks but the last hold exactly `max_length`. |
| DbUtils.SplitContentCount | db/utils.py:7 | Empty content gives no chunks. Otherwise the chunk count is the least whose total capacity reaches the length. |
| DbUtils.RemovePunctuation | db/utils.py:19 | Only word characters and whitespace remain, and no upper-case letter appears that was not there. |
| DbUtils.RemovePunctuationKeeps | db/utils.py:19 | A string of word characters and whitespace is unchanged. |
| DbUtils.RemovePunctuationAppend | db/utils.py:19 | Removal on a concatenation is the removal on each part, concatenated. |
| DbUtils.RemovePunctuationAt | db/utils.py:19 | Each character stays in place exactly when it is a word character or whitespace, and is dropped otherwise. |
| DbUtils.CollapseWhitespace | db/utils.py:20 | The only whitespace left is single spaces, never two in a row. The result starts with a space exactly when the input starts with whitespace, and is empty exactly when the input is. |
| DbUtils.CollapseKeepsText | db/utils.py:20 | Collapsing keeps every character that is not whitespace, in order. |
| DbUtils.CollapseKeepsWords | db/utils.py:20 | `str.split()` gives the same words before and after collapsing, so whitespace between two words becomes a space rather than vanishing. |
| DbUtils.CollapseLast | db/utils.py:20 | The result ends with a space exactly when the input ends with whitespace. |
| DbUtils.Cleaned | db/utils.py:16-20 | The cleaned name holds only lower-case word characters and single spaces. |
| DbUtils.NormalizeStateName | db/utils.py:10-38 | A missing or empty name gives `""`. Any result holds only lower-case word characters and single spaces, never two in a row. |
| DbUtils.AbbreviationWholeName | db/utils.py:23-36 | The result differs from the cleaned name exactly when the whole cleaned name is an abbreviation key, and then it is that key's expansion. |
| DbUtils.StripBeforePunctuation | db/utils.py:16-20 | Stripping comes before punctuation removal, so `. AP` becomes ` ap` with a leading space and is not expanded. |
| DbUtils.AbbreviationAfterStrip | db/utils.py:16-36 | ` AP ` is expanded to `andhra pradesh`. |
| DbUtils.NormalizeNotIdempotent | db/utils.py:10-38 | Normalising is not idempotent: `. AP` gives ` ap`, and normalising ` ap` again gives `andhra pradesh`. |
| Seed.Put | db/seed.py:45-49 | Assigning a key keeps an existing key's place and appends a new key. |
| Seed.Get | db/seed.py:59-64 | A lookup misses exactly when the key is absent. |
| Seed.GetPut | db/seed.py:45-49 | Reading a key just assigned gives the value assigned, and other keys are unaffected. |
| Seed.DictFromPairsKeys | db/seed.py:45-49 | A dict built from pairs has each key once, in order of first occurrence. |
| Seed.DictFromPairsMissing | db/seed.py:45-64 | A name that no state has is missing from the table. |
| Seed.DictFromPairsLastWins | db/seed.py:45-49 | With duplicate names, the last state's id wins. |
| Seed.FirstPartial | db/seed.py:69-78 | The loose match is the id of the first table entry, in table order, that contains the site's normalised name or is contained in it, and is longer than 3 characters. It is none when no entry qualifies. |
| Seed.SearchPartial | db/seed.py:69-78 | The loop with `break` finds exactly that first loose match. |
| Seed.ResolveState | db/seed.py:56-78 | The three-tier lookup of one site computes `state_id`. A lookup that finds nothing moves on to the next tier. |
| Seed.ResolveSites | db/seed.py:45-97 | The resolved sites and unmatched names are those of the three-tier rule, and the batches of 100 concatenate back to the resolved sites. |
| Seed.ExactNameWins | db/seed.py:58-61 | A state with the site's exact name and a non-zero id decides, and the last such state wins. |
| Seed.NormalizedNameWins | db/seed.py:61-64 | Without an exact name, the last state whose normalised name equals the site's decides. |
| Seed.PartialMatchLast | db/seed.py:66-78 | With neither name found, the first loose match decides. |
| Seed.EmptyNameMatchesFirstLongKey | db/seed.py:69-74 | A name that normalises to `""` loosely matches the first table entry longer than 3 characters. |
| Seed.ResolvedMembers | db/seed.py:80-83 | Each resolved site is an input site with its non-zero resolved id, and every input site that resolves is among them. |
| Seed.UnmatchedMembers | db/seed.py:84-85 | The unmatched names are exactly the state names of input sites that do not resolve. |
| Seed.ResolvedOrUnmatched | db/seed.py:80-88 | Every site is either resolved or has its state name among the unmatched names, never both. |
| Refine.PrefixScheme | refine_data.py:4-10 | The result always has a scheme. A value with a scheme is unchanged, and one without gets `https://` in front. |
| Refine.StripTrailing | refine_data.py:11-14 | Only trailing `/ # ? &` characters are removed, so the result is a prefix of the value and never ends with `&`. |
| Refine.RefineUrlShape | refine_data.py:4-14 | The refined URL is a prefix of the prefixed value that never ends with `&`. |
| Refine.StripOrderMatters | refine_data.py:11-14 | `https://x/#` keeps its `/`, because `#` is stripped after `/`. |
| Refine.RefineUrlNotIdempotent | refine_data.py:11-14 | `https://a?&` becomes `https://a?`, and only a second pass gives `https://a`. |
| Refine.BareSchemeEroded | refine_data.py:4-11 | `http://` becomes `http:`. |
| Refine.PrefixSchemeTrimmed | data/refine_data.py:4-10 | The result always has a scheme and no whitespace at either end. Both branches trim the value, but the scheme test looks at the untrimmed value. |
| Refine.StripKeepsPrefix | data/refine_data.py:4-10 | Trimming never reaches into a scheme at the front of the value. |
| Refine.RefineUrlsAgree | data/refine_data.py:4-14 | On a value without surrounding whitespace, both scripts refine the URL alike. |
| Refine.LeadingSpaceDoublesScheme | data/refine_data.py:4-10 | ` https://a` becomes `https://https://a`. |
| Refine.StripEnds | data/refine_data.py:15-17 | A trimmed state has no whitespace at either end. |
| Refine.RefineRowsUnique | data/refine_data.py:19 | The output has no duplicate URL and keeps every refined URL. Each row kept is the first with its URL, in input order. |
| Refine.RefineRowsTrimmed | data/refine_data.py:15-19 | Every output row is a refined input row whose state is trimmed. |
| Text.SplitJoin | admission_scraper/utils.py:19-46 | Splitting the single-space join of whitespace-free tokens gives back the tokens. |
| Sequences.KeepFirstByDistinct | data/refine_data.py:19 | Keep-first deduplication leaves no two elements with the same key. |
| Sequences.KeepFirstByFirst | data/refine_data.py:19 | Each element kept is the first element of the input with its key. |
| Sequences.KeepFirstByOrder | data/refine_data.py:19 | Kept elements follow the order in which their keys first occur in the input. |

## Left out

- Regular-expression matching of the date pattern (admission_scraper/spiders/pages.py:125-129): `extract_context` receives the matches as input, each with `start <= end`. The fixed phone, month, year and admission-term patterns are written out as predicates.
- `clean_body_content` (admission_scraper/utils.py:84-96) depends on an HTML parser. `Pages.PagesSpider.Parse` receives the cleaned body.
- `get_site_from_link`, `getUrls` and `start_requests` read files and shuffle at random. The site is a parameter of `Pages.PagesSpider.Parse`, and the requests are not modelled.
- Scrapy's link extractor: `Links.Parse` receives the extracted links.
- The `print` and `logger` calls, the CSV reads and writes, `get_all_states` and every database write in db/seed.py. The state rows and sites are parameters.
- Unicode: `\w`, `\d`, `\s`, `str.isspace` and `str.lower` are modelled on ASCII.
- Negative `before` or `after` in `extract_context`, whose Python slices would count from the end: both are natural numbers here.
- `split_content` with `max_length <= 0`, where Python's `range` raises `ValueError` or yields nothing: `DbUtils.SplitContent` requires a positive length.
- Missing CSV values (pandas NaN), which `str(x)` turns into `"nan"` and on which `normalize_state_name` would raise. Every URL, state and name is a string here.
- `generate_content_hash` (admission_scraper/utils/generic.py:10-12): SHA-256 is not modelled.
- ContextExtraction.ContextWindow: states the window and the re-split tokens, not where the match's characters lie inside the context, because the offsets are exact only for single-space text (see ContextExtraction.OffsetsDrift).
- Seed.ResolvedMembers: states membership, not order. The input order of the resolved sites is fixed by the contract of Seed.ResolveSites through Seed.Resolved, which filters the sites in input order.
- Seed.ResolveSites: with an empty states table the source fails at db/seed.py:45, because `pd.DataFrame([])` has no `name` column and the lookup raises `KeyError`. The model instead returns no resolved sites and every site's state name as unmatched.
- Seed.Truthy: the state ids are UUIDs (db/models.py:39), which Python always treats as true, so only a missing id is false in the source. The model's ids are integers and it also treats `0` as not found, a case with no counterpart in the source.
- Pages.PagesSpider.Parse: returns the yielded items as a list rather than as a generator, and leaves out the final progress `print`.
