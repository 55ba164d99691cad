# CMB echo search: a verified Dafny model

This project models the analysis core of a small Python tool that looks for
"cosmic echoes" in a map of the cosmic microwave background: pairs of
stretches of the temperature map whose values correlate at a quarter, a half
or three quarters of the way around the map. The model covers four parts:

- `read_fits_simple` in `analyze_real_cmb.py`, which reads a FITS file;
- `analyze_cmb_correlations`, the echo search;
- the ranking and summary in that file's `main`;
- `statistical_analysis` in `analyze_discovery.py`, with the colour,
  verdict, conclusion and congratulation the program derives from its
  result.

The modules, in dependency order:

- `wrappers.dfy` (`Wrappers`): `Option` and `Result`.
- `header_text.dfy` (`HeaderText`): the Python text operations the reader
  applies to a header card, with their Python meaning. They are
  `str.strip()`, `str.split(c)[k]` and `int()`, including signs and
  underscores between digits. A decimal renderer is the inverse the parser is
  proved against.
- `fits.dfy` (`Fits`): the reader.
  - The header loop reads 80 bytes at a time. It decodes them as ASCII and
    drops every byte of 128 or more.
  - The keyword loop handles NAXIS, NAXIS1 and BITPIX. The last card that
    sets a keyword wins. A value `int()` rejects makes the whole read fail.
  - The payload starts at the next 2880-byte block boundary.
  - The element type comes from BITPIX.
  - The data is trimmed to NAXIS1 with Python's slice rules.
  - Every exception the source catches becomes a `FitsError`: a bad keyword
    value, a payload that is not a whole number of elements, or an empty
    array. Where the source loops for ever on a file without an END card,
    the model fails with `MissingEnd`.
  - The module also holds the header loop as written and the finding below.
- `fits_roundtrip.dfy` (`FitsRoundTrip`): a FITS file of big-endian 32-bit
  integers, written with the BITPIX, NAXIS, NAXIS1 and END cards, reads back
  as those integers trimmed to NAXIS1.
- `echo.dfy` (`Echo`): the echo search.
  - It keeps the finite values.
  - It gives up below two patches.
  - It samples starts, then tries the three offsets `N // 4`, `N // 2` and
    `3 * N // 4`.
  - The partner start wraps around the map and is clamped to the last full
    patch.
  - It computes the angle `360 * offset / N`.
  - It keeps a pair when the correlation is a number whose size reaches the
    threshold.
  - The search is a method with loops, proved equal to a functional
    specification. Lemmas then state what the specification finds, how the
    threshold selects, and that every match lies in a predicted angle bin.
- `ranking.dfy` (`Ranking`): `matches.sort(key=abs(correlation),
  reverse=True)`, done as an insertion sort in place on an array.
  - The sort is proved to be a permutation, sorted and stable. Together
    these fix the result of Python's stable sort uniquely.
  - The module also holds the top-k slices, the strong matches
    (`|r| > 0.2`), the bin counts, the maximum and the mean.
- `analysis.dfy` (`Analysis`): `main`.
  - It reads the first file, searches it with patch size 2000, 3000
    samples and threshold 0.1, and ranks the matches.
  - It reports the top ten, the strong-match evidence near 90 and 180
    degrees, and the saved results with the top twenty.
  - `RunAnalysis` copies the matches into an array and sorts it in place.
    It is proved equal to `AnalysisSpec`, which the lemmas describe.
- `discovery.dfy` (`Discovery`): `statistical_analysis`.
  - It computes the correlation and separation lists, the three bin counts
    and the t-test on the absolute correlations.
  - The p-value may be NaN, and NaN fails every comparison.
  - The module also holds the red and blue scatter colours, the verdict
    bands, the summary's conclusion and the congratulation.

Four things are parameters of the model, and each is assumed to do only
what its library promises:

- `np.isfinite` is the predicate `finite`. Nothing constrains it, not even
  on 32-bit integer samples, for which `np.isfinite` is always true.
- `np.corrcoef(patch1, patch2)[0, 1]` is the function `corr`. It returns
  `None` for NaN and for an exception; both skip the pair.
- `np.random.choice(m, k, replace=False)` is the function `choose`. The
  predicate `Sampler` requires `k` distinct values below `m`.
- `scipy.stats.ttest_1samp` is the function `ttest`.

A file is the sequence of its bytes. The list of FITS files, in the order
`glob` returns them, is an input.

Details of the code the model keeps:

- Sampled starts lie in `[0, N - P)`, as `np.random.choice(max_start, …)`
  draws them.
- `main` reads only the first file. When that read fails, it stops; it does
  not try the next file.
- A file without an END card makes the header loop run for ever (see
  Findings). The model fails with `MissingEnd` where the source loops.
- `split('=')[1]` stops at a second `=` as well as at `/`.
- NAXIS1 truncates only when it is non-zero (`if naxis1:`). A negative
  NAXIS1 drops elements from the end, as a Python slice does.
- Where the source prints the exception and returns `None`, the model
  returns `Failure` with the kind of error. `main` reports `ReadFailed`.

## Model

| member | source | states |
|---|---|---|
| HeaderText.Strip | analyze_real_cmb.py:44 | `str.strip()`: drops the ASCII whitespace at both ends; `TrimStartSpec`, `TrimEndSpec` and `StripPadded` characterise it |
| HeaderText.UpTo | analyze_real_cmb.py:44 | `s.split(c)[0]`, the text before the first `c`; `UpToSpec`, `UpToAt` and `UpToAbsent` characterise it |
| HeaderText.SecondField | analyze_real_cmb.py:44 | `s.split(c)[1]`, defined when `c` occurs, as the source's index `[1]` needs; `SecondFieldSpec` characterises it |
| HeaderText.ParseInt | analyze_real_cmb.py:44 | `int(text)` on stripped text: an optional sign then well-formed digits, anything else `None`; `WellFormedDigitsShape` and `ParseIntDecimal` characterise it |
| HeaderText.TrimStartSpec | analyze_real_cmb.py:44 | `lstrip` removes a prefix made only of whitespace, and the result does not start with whitespace |
| HeaderText.TrimEndSpec | analyze_real_cmb.py:44 | `rstrip` removes a suffix made only of whitespace, and the result does not end with whitespace |
| HeaderText.StripPadded | analyze_real_cmb.py:44 | `strip()` of a text wrapped in whitespace returns the text, when the text has no whitespace at either end |
| HeaderText.UpToSpec | analyze_real_cmb.py:44 | `split(c)[0]` is a prefix without `c`, followed by `c` whenever it is shorter than the string |
| HeaderText.UpToAt | analyze_real_cmb.py:44 | when `c` first occurs at `i`, `split(c)[0]` is the text before `i` |
| HeaderText.UpToAbsent | analyze_real_cmb.py:44 | without any `c`, `split(c)[0]` is the whole string |
| HeaderText.SecondFieldSpec | analyze_real_cmb.py:44 | `split('=')[1]` starts right after the first `=`, holds no `=`, and runs to the next `=` or the end |
| HeaderText.WellFormedDigitsShape | analyze_real_cmb.py:44 | the digit text `int()` accepts is exactly a text of digits and underscores that starts and ends with a digit and has a digit after every underscore |
| HeaderText.ParseIntDecimal | analyze_real_cmb.py:44 | `int(str(n)) == n` for every integer `n`, negative ones included |
| Fits.DecodeAscii | analyze_real_cmb.py:27 | `decode('ascii', errors='ignore')`: keeps each byte below 128 as its character and drops the rest, so the text is never longer than the bytes |
| Fits.DecodeAsciiOfAscii | analyze_real_cmb.py:27 | `decode('ascii', errors='ignore')` turns all-ASCII bytes into one character each, with the same codes |
| Fits.ReadAt | analyze_real_cmb.py:27 | `f.read(n)` at a position: the bytes there, fewer at the end of the file and none past it |
| Fits.Card | analyze_real_cmb.py:27 | card `k` as the loop sees it: `f.read(80)` after `k` reads, decoded as ASCII with other bytes dropped; `CardPastEnd` shows it is empty past the end |
| Fits.IsEndCard | analyze_real_cmb.py:29 | `card.startswith('END')` |
| Fits.FindEndFrom | analyze_real_cmb.py:26-30 | the header loop's stopping point from card `k` on, stopping at the end of the file where the source does not; `FindEndFromSpec` characterises it |
| Fits.FindEndFromSpec | analyze_real_cmb.py:26-30 | the END search finds the first card inside the file that begins with `END`; None means no card inside the file does |
| Fits.ScanHeader | analyze_real_cmb.py:25-30 | the header loop returns exactly the cards up to and including the first END card, or `MissingEnd` when the file has none |
| Fits.DataOffset | analyze_real_cmb.py:33-35 | the data offset is a multiple of 2880, at or after the end of the cards, and less than one block beyond it |
| Fits.KeywordOf | analyze_real_cmb.py:43-47 | which of the three `startswith` tests a card passes, if any; `KeywordOfIsPrefix` characterises it |
| Fits.ValueText | analyze_real_cmb.py:44 | `card.split('=')[1].split('/')[0].strip()` |
| Fits.CardValue | analyze_real_cmb.py:44 | `int()` of the value text, `None` where `int()` raises |
| Fits.KeywordsOf | analyze_real_cmb.py:38-48 | the keyword loop's result: the last card's value for each keyword, or `BadKeywordValue` when any keyword card's value is rejected; `ParseKeywords`, `KeywordsOfStep`, `LastCardIs` and `AllParsablePrefix` characterise it |
| Fits.KeywordOfIsPrefix | analyze_real_cmb.py:43-47 | a card sets a keyword exactly when it starts with that keyword's prefix, so the order of the elif tests does not matter |
| Fits.LastCardFor | analyze_real_cmb.py:42-48 | the position found is a card that sets the keyword with no later card setting it; None means no card sets it |
| Fits.LastCardIs | analyze_real_cmb.py:42-48 | a card that sets the keyword with none after it is the one whose value is kept |
| Fits.Setting | analyze_real_cmb.py:42-48 | the value a keyword holds after the loop: that of its last card, `None` when no card sets it; `LastCardIs` and `SettingStep` characterise it |
| Fits.NextKeywords | analyze_real_cmb.py:42-48 | one iteration of the keyword loop: a card setting no keyword changes nothing, an unparsable value fails, otherwise its keyword takes the value; `KeywordsOfStep` relates it to `KeywordsOf` |
| Fits.SettingStep | analyze_real_cmb.py:42-48 | one more card changes a keyword's value only when that card sets the keyword |
| Fits.AllParsablePrefix | analyze_real_cmb.py:44-48 | the loop gets past one more card exactly when it got this far and `int()` accepts that card's value |
| Fits.ParseKeywords | analyze_real_cmb.py:38-48 | the keyword loop gives each keyword the value of its last card, or fails as soon as `int()` rejects a value |
| Fits.KeywordsOfStep | analyze_real_cmb.py:42-48 | reading the keywords is a left fold over the cards: a failure stays a failure, otherwise the next card updates at most its own keyword |
| Fits.ElementTypeFor | analyze_real_cmb.py:56-63 | `-64` selects float64, `32` selects int32, and anything else, `-32` and an absent BITPIX included, selects float32 |
| Fits.DecodeInt32 | analyze_real_cmb.py:60-61 | `>i4`: four big-endian bytes as a two's-complement integer, always in the 32-bit range; the two round-trip lemmas characterise it |
| Fits.DecodeEncodeInt32 | analyze_real_cmb.py:60-61 | decoding the four big-endian bytes of a 32-bit integer as `>i4` gives the integer back |
| Fits.EncodeDecodeInt32 | analyze_real_cmb.py:60-61 | every four bytes are the encoding of the integer `>i4` reads from them |
| Fits.DecodeElements | analyze_real_cmb.py:66 | the payload becomes one element per `Width` bytes, each of the chosen type; element `i` is decoded from bytes `[Width * i, Width * (i + 1))` |
| Fits.DecodePayload | analyze_real_cmb.py:66 | `np.frombuffer` fails exactly when the length is not a multiple of the element width; otherwise the elements cover the payload |
| Fits.SliceTo | analyze_real_cmb.py:69 | `s[:k]` is a prefix of `s` of length `min(k, len)`; a negative `k` counts from the end |
| Fits.TrimToNaxis1 | analyze_real_cmb.py:68-69 | an absent or zero NAXIS1 leaves the data alone; a positive one keeps the first `min(NAXIS1, len)` elements |
| Fits.ReadSpec | analyze_real_cmb.py:15-78 | the reader as one function of the file's bytes: `MissingEnd`, a keyword failure, or the data after the header, decoded and trimmed; `ReadSpecOf` and `FitsRoundTrip.ReadInt32File` characterise it |
| Fits.ReadAfterHeader | analyze_real_cmb.py:38-72 | the reader after the header scan: the keyword loop's failure, or the data read at the next block boundary with those keywords; `ReadSpecOf` characterises it |
| Fits.ReadData | analyze_real_cmb.py:53-72 | seek to the data, `np.frombuffer` with the dtype BITPIX selects, the NAXIS1 trim, and `EmptyData` where `np.min` would raise on an empty array; `ReadSpecOf` characterises it |
| Fits.ReadSpecOf | analyze_real_cmb.py:15-78 | once the END card, the keywords and the payload are known, the reader returns the trimmed data, or `EmptyData` when nothing is left |
| Fits.ReadFitsSimple | analyze_real_cmb.py:15-78 | the reader, run as a sequence of steps, returns what the specification `ReadSpec` gives for the file |
| Fits.ScanAsWritten | analyze_real_cmb.py:26-30 | the header loop as written, run for at most `fuel` reads: the number of cards read when it meets an END card, `None` while it has not stopped |
| Fits.CardPastEnd | analyze_real_cmb.py:27 | a read past the end of the file yields an empty card, which is not an END card |
| Fits.AsWrittenNeverStops | analyze_real_cmb.py:26-30 | without an END card, the loop as written has not stopped after any number of reads |
| Fits.AsWrittenStopsAtEnd | analyze_real_cmb.py:26-30 | with an END card, the loop as written stops after exactly the cards `ScanHeader` returns |
| Fits.EmptyFileHasNoEnd | analyze_real_cmb.py:26-30 | on an empty file the loop as written never stops, and the reader fails with `MissingEnd` |
| FitsRoundTrip.DecodeEncodeAscii | analyze_real_cmb.py:27 | ASCII text encoded to bytes decodes back to itself |
| FitsRoundTrip.DecodeInt32s | analyze_real_cmb.py:66 | a payload of encoded 32-bit integers decodes to those integers, in order |
| FitsRoundTrip.KeywordCardValue | analyze_real_cmb.py:43-48 | a card written `KEYWORD = <decimal>` sets that keyword to that integer |
| FitsRoundTrip.EndIsFourthCard | analyze_real_cmb.py:26-30 | three keyword cards and then an END card stop the header scan at the fourth card |
| FitsRoundTrip.Int32FileHeader | analyze_real_cmb.py:25-30 | the header scan of the written file returns its four cards |
| FitsRoundTrip.KeywordsOfFourCards | analyze_real_cmb.py:42-48 | BITPIX, NAXIS and NAXIS1 cards, then a card setting nothing, give exactly those three values |
| FitsRoundTrip.Int32FileKeywords | analyze_real_cmb.py:42-48 | the written header sets BITPIX = 32, NAXIS = 1 and NAXIS1 to the declared length |
| FitsRoundTrip.Int32FilePayload | analyze_real_cmb.py:33-35 | the data of the written file starts at byte 2880 and is the encoded integers |
| FitsRoundTrip.ReadInt32File | analyze_real_cmb.py:15-78 | reading a written int32 file gives back its integers trimmed to NAXIS1, or `EmptyData` when there are none |
| Echo.Finite | analyze_real_cmb.py:91 | `data[np.isfinite(data)]`: no longer than the data, every value kept finite; `FiniteMembers` shows it keeps exactly those |
| Echo.FiniteMembers | analyze_real_cmb.py:91 | the filter keeps exactly the finite values |
| Echo.FiniteOfFinite | analyze_real_cmb.py:91 | on a map whose values are all finite, the filter changes nothing |
| Echo.Separations | analyze_real_cmb.py:124-128 | the three offsets are the floors of a quarter, a half and three quarters of `N`, each below `N` |
| Echo.PartnerStart | analyze_real_cmb.py:131-135 | the second patch lies inside the map: it starts at the wrapped offset when that fits, otherwise at `N - P` |
| Echo.Degrees | analyze_real_cmb.py:145 | the angle times `N` is 360 times the offset |
| Echo.DegreesRange | analyze_real_cmb.py:145 | an offset below `N` is an angle in `[0, 360)` |
| Echo.IsDraw | analyze_real_cmb.py:110 | what `np.random.choice(m, k, replace=False)` returns: `k` distinct values below `m` |
| Echo.Sampler | analyze_real_cmb.py:110 | the sampler parameter returns such a draw for every `k <= m`; `SampleStarts` relies on it |
| Echo.SampleStarts | analyze_real_cmb.py:108-110 | the sampled starts are `min(n_samples, N - P)` distinct values below `N - P`, so every first patch fits |
| Echo.Search | analyze_real_cmb.py:91-96 | below `2 * P` finite values nothing is found; at most three matches come from each sampled start |
| Echo.CompareFromStart | analyze_real_cmb.py:121-156 | the inner loop appends the matches of the three offsets from one start, in order |
| Echo.AnalyzeCorrelations | analyze_real_cmb.py:80-159 | the search, run as nested loops that append to `matches`, returns what the specification `Search` gives |
| Echo.Keep | analyze_real_cmb.py:143 | `not np.isnan(correlation) and abs(correlation) >= min_correlation`, with NaN and a raised error both as `None`; `MatchForRecorded` and `MatchForThreshold` use it |
| Echo.MatchFor | analyze_real_cmb.py:130-154 | one comparison of a start and an offset: the match it records, or `None`; `MatchForRecorded` characterises it |
| Echo.MatchesAt | analyze_real_cmb.py:130-156 | the matches from one start, one per kept offset, in order; `MatchesAtMembers` characterises it |
| Echo.SearchFrom | analyze_real_cmb.py:116-156 | the matches from all sampled starts, at most three per start; `SearchFromMembers` characterises it |
| Echo.MatchForRecorded | analyze_real_cmb.py:130-154 | one comparison yields a match exactly when the record holds the two starts, the correlation at or above the threshold, the offset and its angle |
| Echo.MatchesAtMembers | analyze_real_cmb.py:130-156 | a match comes from one start exactly when it records a kept comparison from that start at one of the offsets |
| Echo.SearchFromMembers | analyze_real_cmb.py:116-156 | a match is found exactly when it records a kept comparison from a sampled start at one of the three offsets |
| Echo.SearchMatches | analyze_real_cmb.py:80-159 | every match found has its first start below `N - P`, both patches inside the map, one of the three offsets, an angle in `[0, 360)` and a kept correlation |
| Echo.SearchThreshold | analyze_real_cmb.py:143 | raising the threshold keeps exactly the matches that reach the new one, in the same order |
| Echo.Near90 | analyze_real_cmb.py:305 | the closed bin `85 <= s <= 95`, also `sep_90` at analyze_discovery.py:42 |
| Echo.Near180 | analyze_real_cmb.py:306 | the closed bin `175 <= s <= 185`, also `sep_180` at analyze_discovery.py:43 |
| Echo.Near270 | analyze_discovery.py:44 | the closed bin `265 <= s <= 275` |
| Echo.AtPredictedAngle | analyze_discovery.py:114 | the red test: in any of the three bins; `BinsDisjoint` shows the bins do not overlap |
| Echo.SeparationAngles | analyze_real_cmb.py:124-145 | on a map of at least 54 values, the three offsets are within five degrees of 90, 180 and 270 |
| Echo.SearchAtPredictedAngles | analyze_real_cmb.py:124-145 | on a map of at least 54 finite values, every match lies in one of the three predicted bins |
| Echo.SmallMapMissesBin | analyze_real_cmb.py:124-145 | the bound of 54 is tight: on 53 values the offsets are 13, 26 and 39, and 39 is 264.9 degrees, outside the 270-degree bin |
| Ranking.SortByStrength | analyze_real_cmb.py:277 | the in-place sort leaves the array holding `SortSpec` of its old contents |
| Ranking.InsertInto | analyze_real_cmb.py:277 | one pass moves `a[i]` down into the sorted prefix, just after the last element at least as strong, and leaves the rest alone |
| Ranking.Strength | analyze_real_cmb.py:277 | the sort key `abs(x['correlation'])` |
| Ranking.Insert | analyze_real_cmb.py:277 | one insertion into a ranked list, placed after every match at least as strong; one longer than the list |
| Ranking.SortSpec | analyze_real_cmb.py:277 | the ranking, of the same length as the input; `SortPermutes`, `SortSorted` and `SortStable` characterise it |
| Ranking.SortPermutes | analyze_real_cmb.py:277 | sorting only reorders the matches: the multiset is unchanged |
| Ranking.SortSorted | analyze_real_cmb.py:277 | the sorted list is strongest first |
| Ranking.SortStable | analyze_real_cmb.py:277 | matches of equal strength keep their original order, as Python's stable sort keeps them |
| Ranking.Top | analyze_real_cmb.py:283 | `matches[:k]` is the prefix of length `min(k, len)` |
| Ranking.TopIsStrongest | analyze_real_cmb.py:283 | in a ranked list, no match left out of the top `k` is stronger than one in it |
| Ranking.IsStrong | analyze_real_cmb.py:290 | `abs(m['correlation']) > 0.2`, strictly |
| Ranking.StrongMatches | analyze_real_cmb.py:290 | the strong list is no longer than the input, and every entry in it has `abs(correlation) > 0.2` |
| Ranking.StrongMembers | analyze_real_cmb.py:290 | a match is in the strong list exactly when it is in the input with `abs(correlation) > 0.2` |
| Ranking.StrongArePrefix | analyze_real_cmb.py:290 | in a ranked list the strong matches are exactly its first ones |
| Ranking.SortKeepsStrongCount | analyze_real_cmb.py:290 | ranking does not change how many matches are strong |
| Ranking.Correlations | analyze_real_cmb.py:289 | the correlation list has one entry per match, in order |
| Ranking.SeparationDegrees | analyze_real_cmb.py:304 | the separation list has one entry per match, in order |
| Ranking.CountInBin | analyze_real_cmb.py:305-306 | how many values lie in the closed bin, never more than there are values |
| Ranking.CountInBinPositive | analyze_real_cmb.py:305-306 | a bin count is positive exactly when some value lies in the closed bin |
| Ranking.MaxStrength | analyze_real_cmb.py:296 | `max(abs(correlations))` bounds every match's strength and is reached by one of them |
| Ranking.Mean | analyze_real_cmb.py:295 | `np.mean`, the exact sum divided by the count; `MeanWithinMax` bounds it |
| Ranking.MeanWithinMax | analyze_real_cmb.py:295-296 | the mean correlation lies between minus and plus the maximum strength |
| Analysis.AnalysisSpec | analyze_real_cmb.py:242-324 | `main`'s outcome: no FITS file, a failed read, no echoes, or an echo report; the `Echo…` lemmas below characterise it |
| Analysis.Summarize | analyze_real_cmb.py:315-324 | the saved results dictionary: data points, match count, strong count, maximum, mean and the top twenty; `EchoCounts`, `EchoTopRanked` and `EchoMeanWithinMax` characterise it |
| Analysis.EvidenceOf | analyze_real_cmb.py:298-311 | the strong-match evidence: none without strong matches, otherwise the counts near 90 and 180 degrees; `EvidenceMeaning` and `SignificantMeaning` characterise it |
| Analysis.Significant | analyze_real_cmb.py:311 | `near_90 > 0 or near_180 > 0`; `SignificantMeaning` characterises it |
| Analysis.RunAnalysis | analyze_real_cmb.py:242-323 | `main`, run with the array sorted in place, produces the report `AnalysisSpec` gives |
| Analysis.NoEchoesWhenSearchEmpty | analyze_real_cmb.py:262-273 | `main` ends without echoes exactly when the file reads and the search finds nothing, as it always does below 4000 finite values |
| Analysis.EchoesOf | analyze_real_cmb.py:273-323 | an echo report shows the first ten of the ranking, the evidence of its strong matches and the summary of it all |
| Analysis.EchoCounts | analyze_real_cmb.py:315-320 | the saved counts: every match found, the strong ones counted in the search's order, and `data_points` covering the whole map, so never zero |
| Analysis.RankedTop | analyze_real_cmb.py:323 | the first `k` of the ranking are the `min(k, len)` strongest matches, ranked, each one a match found |
| Analysis.EchoTopRanked | analyze_real_cmb.py:283-323 | the saved top list has `min(20, len)` entries and is ranked; the ten shown are its first ones |
| Analysis.EchoTopStrongest | analyze_real_cmb.py:277-323 | every saved match was found by the search, and no match left unsaved is stronger than a saved one |
| Analysis.EchoTopAtPredictedAngles | analyze_real_cmb.py:323 | every saved match of an echo report lies in one of the three predicted bins |
| Analysis.EchoMeanWithinMax | analyze_real_cmb.py:321-322 | in the saved results, `-max <= mean <= max`, and `max >= 0.1` |
| Analysis.EvidenceMeaning | analyze_real_cmb.py:298-311 | the separation counts are printed exactly when some match is strong; the significance line appears exactly when a strong match lies near 90 or 180 degrees |
| Analysis.SignificantMeaning | analyze_real_cmb.py:304-311 | when some match is strong, `near_90 > 0 or near_180 > 0` holds exactly when a strong match lies in one of those bins |
| Analysis.EchoEvidence | analyze_real_cmb.py:298-311 | the evidence depends on the search's matches and not on their order: it is present and significant under the conditions above |
| Discovery.StatisticalAnalysis | analyze_discovery.py:18-77 | `statistical_analysis(results)`: the correlation and separation lists, the three bin counts and the t-test on the absolute correlations; `StatsCarryLists` and `RedCountIsBinSum` characterise it |
| Discovery.AbsCorrelations | analyze_discovery.py:54 | `np.abs` gives one non-negative value per match |
| Discovery.StatsCarryLists | analyze_discovery.py:23-77 | the returned lists hold one entry per saved match, in order and unchanged; the p-value and t statistic are those of the t-test on the absolute correlations |
| Discovery.Colours | analyze_discovery.py:114-115 | one colour per separation; `RedAtPredictedAngle` says which are red |
| Discovery.RedAtPredictedAngle | analyze_discovery.py:114-115 | a scatter point is red exactly when its separation lies in one of the three bins |
| Discovery.RedCountIsBinSum | analyze_discovery.py:42-44 | the disjoint bin counts `sep_90 + sep_180 + sep_270` add up to the number of red points |
| Discovery.BinCountsBounded | analyze_discovery.py:42-50 | the three counts never add up to more than the matches listed |
| Discovery.EchoResultsAllPredicted | analyze_discovery.py:42-50 | on the results of an echo report, the total at predicted angles equals the number of saved matches, which is positive |
| Discovery.VerdictOf | analyze_discovery.py:61-67 | the `if p < 0.001 … elif p < 0.05 … else` chain; `VerdictBands` characterises it |
| Discovery.VerdictText | analyze_discovery.py:174 | the three result strings `HIGHLY SIGNIFICANT`, `SIGNIFICANT` and `NOT SIGNIFICANT`, one per verdict |
| Discovery.Conclusion | analyze_discovery.py:174-177 | the summary's conclusion line, chosen by `p < 0.001` |
| Discovery.Congratulates | analyze_discovery.py:257 | the congratulation, printed exactly when `p < 0.001` |
| Discovery.VerdictBands | analyze_discovery.py:61-67 | highly significant exactly below 0.001; significant exactly in `[0.001, 0.05)`; otherwise not significant, NaN included |
| Discovery.VerdictMonotone | analyze_discovery.py:61-67 | a smaller p-value never gets a weaker verdict |
| Discovery.ConclusionMatchesVerdict | analyze_discovery.py:174-177 | the strong conclusion, the `HIGHLY SIGNIFICANT` result line and the congratulation at line 257 all come exactly with `p < 0.001` |
| Discovery.NaNNotSignificant | analyze_discovery.py:61-67 | a NaN p-value is not significant, gets the weaker conclusion and no congratulation |

## Left out

- Echo.Search: with patch size 0 and no finite value, the guard `len(valid_data) < patch_size * 2` lets the empty array through and `np.min(valid_data)` at analyze_real_cmb.py:104 raises `ValueError`, which nothing catches; the model returns no matches instead. `main` always passes patch size 2000, so `Analysis` is not affected.
- Echo.AnalyzeCorrelations: proved equal to `Echo.Search`, so it shares that gap: on patch size 0 with no finite value it returns no matches where the source raises.
- The data of a 32-bit or 64-bit float file is kept as its big-endian bytes. Their IEEE-754 values are not modelled, so no value range or `np.isfinite` result follows from them.
- `np.isfinite`, `np.corrcoef`, `np.random.choice` and `scipy.stats.ttest_1samp` are parameters, as described above. The model does not reproduce the sequence that seed 42 draws; it relies only on the draw being distinct values below `N - P`.
- Floating-point rounding is not modelled. The angle, mean, maximum and bin tests are computed on exact reals, so a value that rounding would push across a bin edge is not captured.
- All printing and plotting are not modelled, and neither are the JSON file written by `main` or read by `load_results`. The results are passed as a value.
- The printed statistics that feed nothing else are not modelled: the map's mean, standard deviation, minimum and maximum (except that `np.min` raising on an empty map is noted above), the progress lines, and the top-20 mean and standard deviation. The detection rate is printed only, but its division can raise: see `Discovery.StatisticalAnalysis` below.
- Errors from opening a file are not modelled. A file is the bytes it holds. The list of FITS files is a parameter in `glob` order.
- The saved results' `analysis_type` and `data_file` text fields are constant or descriptive and are left out of `Results`.
- `Discovery.StatisticalAnalysis` leaves the t statistic's value to the `ttest` parameter. Only the p-value's comparisons are modelled.
- Discovery.StatisticalAnalysis: when the saved `data_points` is 0, the detection rate `matches_found / data_points` at analyze_discovery.py:32 raises `ZeroDivisionError`, which nothing catches; the model returns the statistics instead. On results saved by `main` this cannot happen: `Analysis.EchoCounts` proves `data_points` is at least the map's 4000 finite values. It can only happen on a results file written by other means.
- Whitespace outside ASCII is not modelled: the header decoding drops every byte of 128 or more, so such characters cannot occur in a card.
- `create_discovery_plots` beyond the colour rule and the rest of `generate_research_summary` beyond the result and conclusion lines are not modelled. The explicit-angle offset policy belongs to `loopscan.py`, which is not part of this model.

## Findings

| source | as written | input that shows it | evidently intended | confidence | as-written member | corrected member |
|---|---|---|---|---|---|---|
| analyze_real_cmb.py:26-30 | the header loop stops only on a card starting with `END`; at the end of the file `f.read(80)` returns an empty string on every later read, so the loop never ends | an empty file, or any file without a card starting with `END` (a truncated download) | stop at the end of the file and fail, which the surrounding `try` reports as a failed read | high; not executed | Fits.AsWrittenNeverStops | Fits.ScanHeader |
