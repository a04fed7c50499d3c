# YouTube transcriber core, modelled in Dafny

This project models the analytic core of `youtube-transcriber.py`, part of a
small tool that fetches a YouTube transcript, proofreads it with
LanguageTool and reports its frequent keywords. Three pure pieces are modelled:

- **Keyword analysis** (`analyze_keywords`). The text is lower-cased. Every
  character that is neither a word character nor whitespace is deleted. The
  text is split on whitespace. Stop words and words of at most two
  characters are dropped. The rest are counted with `Counter`, counts below
  `min_occurrences` are dropped, and the rest are sorted by descending count.
  The sort is stable, so equal counts stay in first-occurrence order.
  Modules `Keywords`, `Counter`, `StableSort`, `PyStr`, `Chars`, `Seqs`.
- **Video id extraction** (`extract_video_id`). It dispatches on the host
  and path of an already parsed address (module `VideoId`).
- **Correction splicing** (the loop in `proofread_text`). The grammar
  checker's matches are applied in offset order, with a running offset
  (module `Proofread`).

Python's dict results become sequences of `Counter.Entry(key, count)` in
dict order. Python's exceptions become a `Wrappers.Result` failure.

The docstring and a comment of `analyze_keywords` say "more than"
`min_occurrences`. The code keeps counts equal to it (`>=`), and the model
follows the code. The stop word `"it's"` is kept in the set as written.
It can never match, because apostrophes are deleted first.
`Keywords.ApostropheStopWordUnreachable` proves this.

Two more facts about the program shape the model:

- `analyze_keywords` accepts any integer threshold, including zero and
  negative ones.
- Lower-casing uses `str.lower`, not `str.casefold`.

## Model

| member | source | states |
|---|---|---|
| `Keywords.AnalyzeKeywords` | youtube-transcriber.py:97-128 | the result has no more entries than there are filtered words, its counts do not increase from first to last, and every count reaches the threshold; which words and which counts are stated by `CountsExact`, `SortedByCountThenFirstOccurrence` and `KeysDistinct` |
| `Keywords.Normalize` | youtube-transcriber.py:100-103 | after `lower()` and `re.sub(r'[^\w\s]', '', …)` every character is a lower-case word or whitespace character, and every word or whitespace character of the input survives in lower-case form; `NormalizeAppend` and `NormalizeChar` fix the result exactly |
| `Keywords.NormalizeAppend` | youtube-transcriber.py:100-103 | normalising a concatenation is concatenating the normalised parts, so characters are neither added nor reordered |
| `Keywords.NormalizeChar` | youtube-transcriber.py:100-103 | a single character is kept lower-cased exactly when it is a word or whitespace character, and deleted otherwise |
| `Keywords.Words` | youtube-transcriber.py:106 | `text.split()` of the normalised text; the shape of each word is stated by `Keywords.WordShape`, and which words come out by `Keywords.WordsAtSpace` with `PyStr.SplitAtSpace` and `PyStr.SplitRun` |
| `Keywords.WordsAtSpace` | youtube-transcriber.py:100-106 | a whitespace character in the text separates words: the words of `a + c + b` are the words of `a` followed by the words of `b` |
| `Keywords.FilteredWords` | youtube-transcriber.py:117 | the kept words are exactly the words that are not stop words and are longer than two characters |
| `Keywords.FilteredWordsCount` | youtube-transcriber.py:117 | each kept word occurs in the filtered list exactly as often as in the text's words, and every other word not at all |
| `Keywords.Threshold` | youtube-transcriber.py:123 | the dict comprehension over the counter; its contract is stated by `Keywords.ThresholdExactly` |
| `Keywords.ThresholdExactly` | youtube-transcriber.py:123 | the kept entries are exactly the counter entries whose count reaches the threshold |
| `Keywords.KeysAreCandidates` | youtube-transcriber.py:109-117 | every reported key is a word of the filtered list, longer than two characters and not a stop word |
| `Keywords.KeysAreWords` | youtube-transcriber.py:100-106 | no reported key is empty or holds whitespace, punctuation, a symbol or an upper-case letter |
| `Keywords.WordShape` | youtube-transcriber.py:100-106 | every word of the split text is a non-empty run of lower-case word characters |
| `Keywords.CountsExact` | youtube-transcriber.py:117-123 | each reported count is the number of occurrences of its key in the filtered list and reaches the threshold; conversely every filtered word whose count reaches the threshold is reported |
| `Keywords.SortedByCountThenFirstOccurrence` | youtube-transcriber.py:120-126 | counts do not increase along the result, and keys of equal count appear in the order of their first occurrence in the filtered list |
| `Keywords.TiesInTextOrder` | youtube-transcriber.py:106-126 | keys of equal count appear in the order of their first occurrence among the words of the text itself |
| `Keywords.KeysDistinct` | youtube-transcriber.py:120-128 | no key is reported twice |
| `Keywords.ThresholdMonotone` | youtube-transcriber.py:123-126 | the result for a higher threshold is the result for a lower one with the entries below the higher threshold removed, order and counts unchanged |
| `Keywords.CaseInsensitive` | youtube-transcriber.py:100 | two texts that differ only in the case of their letters ("Cat" and "cat") give the same keywords, counts and order |
| `Keywords.ApostropheStopWordUnreachable` | youtube-transcriber.py:103-113 | no word holds an apostrophe, so the listed stop word "it's" never matches |
| `Counter.Bump` | youtube-transcriber.py:120 | counting one word increments that word's entry, or appends it with count one, and keeps keys distinct |
| `Counter.Count` | youtube-transcriber.py:120 | the counter has no more entries than words and no repeated key |
| `Counter.CountExact` | youtube-transcriber.py:120 | each counter entry is a word of the list with its number of occurrences |
| `Counter.CountComplete` | youtube-transcriber.py:120 | every word of the list has a counter entry |
| `Counter.CountOrder` | youtube-transcriber.py:120 | counter entries are in the order of their keys' first occurrences |
| `StableSort.Sort` | youtube-transcriber.py:126 | the sorted sequence is a permutation of the input and is ordered by key |
| `StableSort.SortKeepsTieOrder` | youtube-transcriber.py:126 | elements of equal key leave the sort in the order they entered it |
| `StableSort.FilterSortCommute` | youtube-transcriber.py:123-126 | filtering and then sorting gives the same sequence as sorting and then filtering |
| `Seqs.FilterMembership` | youtube-transcriber.py:117 | an element survives the list comprehension exactly when it occurs and passes the test |
| `Seqs.FilterKeepsOrder` | youtube-transcriber.py:123 | the dict comprehension keeps the relative order of the surviving items |
| `Seqs.FilterCount` | youtube-transcriber.py:117 | the list comprehension keeps every occurrence of a passing element and none of a failing one |
| `Seqs.FilterFirstIndex` | youtube-transcriber.py:117 | the list comprehension keeps the order of first occurrences: of two kept words, one first occurs before the other in the filtered list exactly when it does in the input |
| `PyStr.SplitWords` | youtube-transcriber.py:106 | the words of `str.split()` are non-empty, hold no whitespace and consist of characters of the text |
| `PyStr.SplitJoinWords` | youtube-transcriber.py:106 | non-empty whitespace-free words joined by single spaces split back into the same words |
| `PyStr.SplitWhere` | youtube-transcriber.py:27 | `path.split('/')` always has a first part; its other facts are stated by `PyStr.SplitWhereParts`, `PyStr.JoinSplit` and `PyStr.SplitWhereAtSeparator` |
| `PyStr.SplitWhereParts` | youtube-transcriber.py:27 | `path.split('/')` has one more part than the path has slashes, and every part is made of characters of the path and holds no slash |
| `PyStr.JoinSplit` | youtube-transcriber.py:27 | joining the parts of a split with the separator restores the string |
| `PyStr.Split` | youtube-transcriber.py:106 | `str.split()`: its contract is stated by `PyStr.SplitWords`, `PyStr.SplitJoinWords`, `PyStr.SplitAtSpace` and `PyStr.SplitRun`, the last two of which fix it on every text |
| `PyStr.SplitWhereAtSeparator` | youtube-transcriber.py:27 | a separator splits the text into the parts before it followed by the parts after it |
| `PyStr.SplitAtSpace` | youtube-transcriber.py:106 | `(a + c + b).split()` is `a.split() + b.split()` for any whitespace character `c`, whatever whitespace `a` and `b` hold |
| `PyStr.SplitRun` | youtube-transcriber.py:106 | a whitespace-free text splits into itself as the only word, or into no word when it is empty |
| `PyStr.Take` | youtube-transcriber.py:78 | `s[:i]`: its contract is stated by `PyStr.SliceBounds` and `PyStr.TakeDrop` |
| `PyStr.Drop` | youtube-transcriber.py:78 | `s[i:]`: its contract is stated by `PyStr.SliceBounds` and `PyStr.TakeDrop` |
| `PyStr.SliceBounds` | youtube-transcriber.py:78 | `s[:i]` is a prefix and `s[i:]` a suffix; in range the prefix has `i` characters; past the end the prefix is everything; a negative bound counts from the end; below `-len(s)` the prefix is empty |
| `PyStr.StartsWith` | youtube-transcriber.py:26-28 | `s.startswith(p)` holds exactly when `s` is `p` followed by something, and then the rest is what follows `p` |
| `PyStr.TakeDrop` | youtube-transcriber.py:78 | `s[:i] + s[i:]` is `s` for every bound, including negative and out-of-range ones |
| `Chars.LowerChar` | youtube-transcriber.py:100 | each capital `A`-`Z` becomes the small letter at the same place of the alphabet table, every other character is left alone, and word and whitespace characters stay in their class |
| `Chars.Lower` | youtube-transcriber.py:100 | `str.lower` keeps the length and lower-cases each character; its partner is `Chars.LowerEqual` |
| `Chars.LowerCharEqual` | youtube-transcriber.py:100 | two characters lower-case to the same character exactly when they are the same letter up to case |
| `Chars.LowerEqual` | youtube-transcriber.py:100 | two texts of equal length lower-case to the same text exactly when they differ at most in letter case |
| `Chars.LowerIdempotent` | youtube-transcriber.py:100 | lower-casing twice is lower-casing once |
| `VideoId.ExtractVideoId` | youtube-transcriber.py:16-32 | a `youtu.be` address always succeeds, its id being the path minus its first character (empty for an empty path); ValueError exactly when the host is not `youtu.be` and no YouTube-host path rule applies; KeyError exactly for a `/watch` address without a non-blank `v` value; no other error; an id from an embed or `/v/` rule holds no slash |
| `VideoId.ParamValues` | youtube-transcriber.py:25 | the values `parse_qs` keeps for a parameter are never blank, and a value is kept exactly when it is non-blank and given for that parameter; there are no more values than pairs |
| `VideoId.ParamValuesAppend` | youtube-transcriber.py:25 | the values of a concatenated query are the values of its first part followed by those of its second, so the list keeps the query's order |
| `VideoId.ShortLinkRoundTrip` | youtube-transcriber.py:20-21 | `youtu.be/<id>` yields `<id>` |
| `VideoId.WatchRoundTrip` | youtube-transcriber.py:23-25 | a `/watch` address on a YouTube host whose first non-blank decoded `v` value is a non-empty `id` yields `id` |
| `VideoId.BlankIdNotRebuilt` | youtube-transcriber.py:20-25 | `youtu.be/` yields the empty id, but a watch address with a blank `v` raises `KeyError`, so the empty id does not survive the round trip through the address built at line 52 |
| `VideoId.ThirdSegment` | youtube-transcriber.py:26-29 | a path starting with `/embed/` or `/v/` has a third slash-separated segment: the first part of what follows the prefix |
| `VideoId.EmbedSegment` | youtube-transcriber.py:26-29 | an embed or `/v/` address yields the longest slash-free stretch of the path after the prefix |
| `VideoId.EmbedRoundTrip` | youtube-transcriber.py:26-27 | `/embed/<id>` followed by nothing or by a slash yields `<id>` |
| `Proofread.ProofreadText` | youtube-transcriber.py:58-95 | the original is returned unchanged; the correction count is the number of matches, or zero when the check fails, in which case the text is not corrected |
| `Proofread.Splice` | youtube-transcriber.py:68-81 | the loop over the sorted matches with its running offset; its contract is stated by `SpliceWithoutReplacements`, `SpliceRebuilds` and `CorrectedIsRebuilt` |
| `Proofread.SpliceWithoutReplacements` | youtube-transcriber.py:68-81 | matches without suggestions leave the text as it is |
| `Proofread.NoSuggestionsNoChange` | youtube-transcriber.py:64-88 | when no match has a suggestion the corrected text is the original, while every match is still counted |
| `Proofread.SpliceRebuilds` | youtube-transcriber.py:64-81 | with disjoint spans the running offset is exact: the loop yields the original with each suggested span replaced, read directly off the original |
| `Proofread.CorrectedIsRebuilt` | youtube-transcriber.py:64-81 | when the sorted matches cover disjoint spans, the corrected text is the original with each suggested span replaced by its first suggestion |

## Left out

- Character classes are ASCII only. Python's `\w`, `\s`, `str.split()` and `str.lower` follow Unicode. Here every non-ASCII character counts as neither a word character nor whitespace, so it is deleted, and lower-casing leaves it alone. Python would keep a letter such as `é`. Python also treats characters such as the no-break space U+00A0 and U+2028 as whitespace: `"so\u00a0we"` gives the words `so` and `we` in Python but the single word `sowe` here.
- `get_transcript` and `get_video_title` (lines 34-56) are left out. They make network calls through `youtube_transcript_api` and `pytube` and turn exceptions into `None` or a placeholder title.
- `language_tool.check` (lines 14 and 61) is an external grammar service. Its outcome is a parameter: a list of matches, or `None` when it raises.
- Proofread.CorrectedIsRebuilt: covers only matches whose sorted spans are disjoint and inside the text. `Splice` also models overlapping or out-of-range matches, including Python's slice clamping, but no reference reading is stated for them.
- Match offsets and lengths are taken to count code points, as Python string indices do. How the checker's offsets are converted is not modelled.
- `urlparse` and `parse_qs` internals are left out. `ExtractVideoId` takes the host, the path and the query as decoded `name=value` pairs. Splitting on `&` and `=` and percent-decoding are not modelled. Dropping blank values is modelled.
- VideoId.WatchRoundTrip: the lemma works on already-decoded query pairs and needs a non-empty id. The address `https://www.youtube.com/watch?v=<id>` built at line 52 gives the id back only when `parse_qs` decodes the query to the same text: an id holding `+`, `%`, `&` or `#` is decoded or cut short by `urlparse` and `parse_qs`, and the empty id is dropped (`VideoId.BlankIdNotRebuilt`).
- VideoId.ExtractVideoId: the `ValueError` message text, which quotes the address, is not modelled; only the kind of error is.
- The text and JSON output of `process_video` (lines 130-183), the `main` command line (lines 185-210) and `app.py` are presentation and I/O.
- Zero or negative `min_occurrences` is accepted, as in the source, and keeps every counted word.
- The default threshold of 3 appears only as the constant `Keywords.DefaultMinOccurrences`.
