# Extraction core of `outputResults`

This project models the extraction engine of a small text-analysis program.
`outputResults(text)` in `program.js` runs five regular expressions over one
text with the `g` flag: emails, URLs, phone numbers, hashtags and currency
amounts. It drops emails that contain `..` and masks the local part of the
rest. It drops URLs that contain `<script>` or `javascript:` in any mix of
cases. It returns a record with five ordered lists of strings.

The model is pure: datatypes, functions and lemmas. Reading the input file
and printing the result are not modelled.

Modules, in the order the program uses them:

- `Chars`: character classes, `\b`, and the greedy run of one class (`RunEnd`).
- `EmailPattern`, `UrlPattern`, `PhonePattern`, `HashtagPattern`,
  `CurrencyPattern`: each pattern anchored at one position. Each one is
  written as the sequence of alternatives a backtracking matcher tries, in
  the same priority order. A greedy `?` takes before it skips; `{m,n}` and
  `+` start from the longest run and give back one character at a time.
  Each pattern module except `PhonePattern` also has a declarative
  description of what fits the pattern, and lemmas that connect the search
  to that description. `PhonePattern` states only which characters a match
  holds and how many digits (see "Left out").
- `GlobalMatch`: `text.match(re) || []` with the `g` flag. It searches left
  to right, records the first match it finds, and resumes at that match's
  end. An independent description (`IsGlobalMatch`) is proved to hold of
  the search, and to admit only one result.
- `PostProcess`: `filter`, `includes`, `toLowerCase`, `split('@')` and the mask.
- `Extractor`: `outputResults` itself and the properties of its five lists.

Points where the program behaves in a way worth spelling out:

- The email pattern has `\b` at both ends, a true word boundary. When the
  local part starts with `.`, `%`, `+` or `-`, the match needs a word
  character right before it. `|` is in the top-level-domain class but is
  not a word character, so when the top-level domain ends in `|` the match
  needs a word character right after it.
- At each leftmost start the search returns the first match in
  backtracking order. For emails and currency amounts that is also the
  longest match (`EmailAtIsLongestFit`, `CurrencyAtLongest`). A URL match
  always runs to the end of the URL characters from its start
  (`UrlAtExact`), so how backtracking splits the body from the domain never
  changes the match.
- The top-level-domain class `[A-Z|a-z]` contains a literal `|`. A source
  comment says this is kept deliberately, and the model keeps it too.
- The URL filter rejects `<script>`. No character class of the URL pattern
  contains `<`, so that test can never remove a match
  (`Extractor.UrlsAreFilteredMatches`). Only the `javascript:` test has any
  effect.

## Model

| member | source | states |
|---|---|---|
| Chars.RunEnd | program.js:76 | a greedy class run from i ends at the first character outside the class or at the end of the text, and every character it covers is in the class |
| Chars.RunEndShift | program.js:62 | a greedy run started anywhere inside a stretch of class characters ends where the run from the stretch's start ends |
| EmailPattern.EmailAt | program.js:48 | a match at p is non-empty and lies inside the text; what fits is stated by EmailAtIsLongestFit |
| EmailPattern.EmailParse | program.js:48 | a match found at p has a non-empty local part, '@', a non-empty domain, '.', a top-level domain of at least two [A-Z\|a-z] characters, and a word boundary at both ends |
| EmailPattern.EmailAtComplete | program.js:48-49 | whenever the email pattern fits at p, the search at p finds a match |
| EmailPattern.EmailAtCharacterised | program.js:48 | the search at p finds a match exactly when some split of the text fits the email pattern at p, and what it finds fits the pattern |
| EmailPattern.TldTryLongest | program.js:48 | the top-level-domain step at z finds a match ending at least as far as any word-boundary end at or before z |
| EmailPattern.DomainTryLongest | program.js:48 | the domain step at y finds a match ending at least as far as any fit whose '.' lies at or before y |
| EmailPattern.LocalTryLongest | program.js:48 | the local-part step at x finds a match ending at least as far as any fit whose '@' lies at or before x |
| EmailPattern.EmailAtLongest | program.js:48 | whenever some split fits the email pattern at p up to e, the search at p finds a match that ends at e or later |
| EmailPattern.EmailAtIsLongestFit | program.js:48 | the search at p ends at e exactly when some split fits up to e and no split fits further |
| EmailPattern.EmailHasOneAt | program.js:48-52 | a matched email contains exactly one '@', with a non-empty local part before it |
| UrlPattern.UrlParse | program.js:62 | a match found at p is "http://" or "https://", an optional "www.", 1 to 256 body characters, '.', 1 to 6 domain characters, a word boundary, and then the longest tail of URL characters |
| UrlPattern.UrlAtComplete | program.js:62-63 | whenever the mandatory part of the URL pattern fits at p, the search at p finds a match |
| UrlPattern.UrlAt | program.js:62 | a match at p is non-empty and lies inside the text; what fits is stated by UrlAtExact |
| UrlPattern.UrlAtCharacterised | program.js:62 | the search at p finds a match exactly when the mandatory part of the pattern fits at p; the match fits and its tail is maximal |
| UrlPattern.UrlFitEnd | program.js:62 | for every way the mandatory part fits at p, the following tail ends where the run of URL characters from p ends |
| UrlPattern.UrlAtExact | program.js:62 | the search at p ends at e exactly when the mandatory part fits at p and e is the end of the run of URL characters from p |
| UrlPattern.UrlMatchChars | program.js:62 | every character of a URL match is an ASCII letter or digit or one of -()@:%_+.~#?&/= |
| PhonePattern.PhoneAt | program.js:72 | a phone match found at p is non-empty and lies within the text |
| PhonePattern.PhoneMatchSound | program.js:72 | a phone match holds only digits, '+', '(', ')', '-', '.' and white space, and 10 to 13 digits; exactly 10 when the optional prefix group is skipped |
| HashtagPattern.HashtagAt | program.js:76 | a match at p is non-empty and lies inside the text; what fits is stated by HashtagAtExact |
| HashtagPattern.HashtagAtExact | program.js:76 | the match at p ends at e exactly when s[p..e] is '#' followed by word characters and no word character follows |
| CurrencyPattern.CurrencyAt | program.js:80 | a match at p is non-empty and lies inside the text; what fits is stated by CurrencyAtLongest |
| CurrencyPattern.CurrencyAtSound | program.js:80 | a currency match is '$', an optional white-space character, 1 to 3 digits, any number of ",ddd" groups and optional ".dd" cents |
| CurrencyPattern.CurrencyShapeBound | program.js:80 | whenever a currency amount fits at p, the search finds a match at p at least as long |
| CurrencyPattern.CurrencyAtLongest | program.js:80 | the match at p ends at e exactly when s[p..e] is the longest currency amount starting at p |
| GlobalMatch.MatchAt | program.js:49-81 | the match of one of the five patterns at p (lines 48, 62, 72, 76, 80), non-empty and inside the text |
| GlobalMatch.Table | program.js:49-81 | the match at every position of the text, each ending after its start and inside the text |
| GlobalMatch.Scan | program.js:49-81 | every match the global search reports lies after the starting point and inside the text; the same search runs at lines 49, 63, 73, 77 and 81 |
| GlobalMatch.Spans | program.js:49-81 | the spans `text.match(re)` reports (lines 49, 63, 73, 77, 81), each non-empty and inside the text; what they are is stated by SpansCharacterised |
| GlobalMatch.Matches | program.js:49-81 | the strings the search returns at lines 49, 63, 73, 77 and 81 are the text slices at the reported spans, one per span |
| GlobalMatch.ScanIsGlobalMatch | program.js:49-81 | each reported span is the match found at its start; the spans ascend without overlapping; no match starts in a gap (lines 49, 63, 73, 77, 81) |
| GlobalMatch.GlobalMatchIsUnique | program.js:49-81 | only one sequence of spans satisfies that description, namely the search's result |
| GlobalMatch.SpansCharacterised | program.js:49-81 | the spans of `text.match` at lines 49, 63, 73, 77 and 81 are exactly the sequence that satisfies the description |
| GlobalMatch.UncoveredDoesNotMatch | program.js:49-81 | no match starts at any position outside the reported matches |
| GlobalMatch.EmptyTextHasNoMatches | program.js:49-81 | `"".match(re) \|\| []` is empty for each of the five patterns (lines 49, 63, 73, 77, 81) |
| PostProcess.Filter | program.js:51-65 | `filter` at lines 51 and 65; its own contract bounds the length, and the filter law is FilterCharacterised and FilterMembers |
| PostProcess.Contains | program.js:51-67 | `includes` at lines 51, 66 and 67; no contract of its own, its use is stated by NoAngleNoScriptTag, EmailsKeptInOrder and UrlsAreFilteredMatches |
| PostProcess.KeepEmail | program.js:51 | the email test, no ".." in the address; no contract of its own, what it keeps is stated by EmailsKeptInOrder |
| PostProcess.KeepUrl | program.js:65-68 | the URL test on the lowercased address; no contract of its own, what it keeps is stated by UrlsAreFilteredMatches |
| PostProcess.FilterCharacterised | program.js:51 | filter's result is a subsequence of its input and keeps each passing element exactly as often as it occurs |
| PostProcess.FilterMembers | program.js:51 | an element appears after filtering exactly when it appeared before and passes |
| PostProcess.AsciiLower | program.js:66 | lowercasing keeps the length and maps each A-Z to a-z, leaving all other characters unchanged |
| PostProcess.NoAngleNoScriptTag | program.js:66-67 | lowercased text without '<' never contains "<script>" |
| PostProcess.IndexOf | program.js:52 | the position of the first occurrence of a character, or the length when it is absent |
| PostProcess.LocalPart | program.js:52 | the first element of `split('@')`; no contract of its own, its value is stated by SplitOneAt |
| PostProcess.DomainPart | program.js:52 | the second element of `split('@')`; no contract of its own, its value is stated by SplitOneAt |
| PostProcess.SplitOneAt | program.js:52 | splitting at '@' a text with a single '@' gives back the two sides |
| PostProcess.Mask | program.js:52-57 | no contract of its own; the masking law is MaskLong and MaskShort |
| PostProcess.MaskLong | program.js:54-55 | local part longer than one character: first character, "***", last character, '@', domain |
| PostProcess.MaskShort | program.js:57 | one-character local part: that character, "***@", domain |
| PostProcess.MaskHidesMiddle | program.js:54-55 | emails whose local parts share first and last characters get the same mask |
| PostProcess.MaskLongExample | program.js:55 | "ann@x.io" is masked to "a***n@x.io" |
| PostProcess.MaskShortExample | program.js:57 | "a@b.co" is masked to "a***@b.co" |
| Extractor.ExtractionResult | program.js:37-43 | the record of five lists the function returns; its contents are stated by the Extractor lemmas below |
| Extractor.MaskAll | program.js:51-58 | `.map` of the mask: as many results as kept emails, the k-th being the mask of the k-th |
| Extractor.MaskedEmails | program.js:51-58 | there are no more emails reported than email matches |
| Extractor.SafeUrls | program.js:65-68 | there are no more URLs reported than URL matches |
| Extractor.OutputResults | program.js:35-84 | the record's five lists: as many phone numbers, hashtags and currency amounts as matches, and no more emails or URLs than matches |
| Extractor.EmailsKeptInOrder | program.js:51 | the emails kept are the email matches without "..", in text order, each as often as it occurs |
| Extractor.EmailsAreMaskedMatches | program.js:51-58 | the k-th reported email is the mask of the k-th kept email, split at its only '@' |
| Extractor.EmailMatchesFitPattern | program.js:48-49 | every email match is the longest email that fits where it starts, and the pattern fits at no position outside the matches |
| Extractor.UrlMatchesAreAscii | program.js:62-67 | every URL match is made of URL characters only and never contains "<script>" once lowercased |
| Extractor.UrlsAreFilteredMatches | program.js:63-68 | the reported URLs are the unmodified URL matches, in text order and each as often as it occurs, that do not contain "javascript:" in any case; none contains either marker |
| Extractor.UrlMatchesFitPattern | program.js:62-63 | every URL match fits the pattern and runs to the end of the URL characters from its start; no URL starts outside the matches |
| Extractor.PhoneNumbersShape | program.js:72-73 | each reported phone number is the text of its match: phone characters only, 10 to 13 digits |
| Extractor.HashtagsAreMaximal | program.js:76-77 | each reported hashtag is '#' and a maximal run of word characters; no hashtag starts outside the matches |
| Extractor.CurrencyAmountsAreLongest | program.js:80-81 | each reported amount is the longest amount at its start; no amount starts outside the matches |
| Extractor.EmptyTextGivesEmptyLists | program.js:37-43 | an empty text gives five empty lists |

## Left out

- `readInput` (program.js:17-25) and `main` (program.js:90-96) are I/O around the core and are not modelled. Together they read `input.txt`, report a read error, skip empty input and print the record as JSON.
- The regular-expression engine in general. Each of the five patterns is modelled as its own search, not through a general engine. Running time and catastrophic backtracking are not modelled.
- Strings are sequences of Unicode scalar values; JavaScript strings are UTF-16 code units. No pattern class contains a character outside the Basic Multilingual Plane, so the two views agree on what matches.
- PostProcess.AsciiLower: lowercases A-Z only, not full Unicode `toLowerCase`. Every URL match is ASCII (`UrlPattern.UrlMatchChars`), so the two agree on every string the filter sees.
- PhonePattern.PhoneMatchSound: states soundness only (allowed characters and digit count). It does not describe the whole phone grammar independently, and it does not prove that the search finds every phone number the grammar allows.
- Extractor.PhoneNumbersShape: inherits that limit, so it does not state that no phone number starts outside the matches.
- EmailPattern.EmailParse: which of several splits into local part, domain and top-level domain backtracking picks is not stated declaratively. Only the end of the match is, by EmailAtIsLongestFit.
- UrlPattern.UrlParse: which split into body and domain backtracking picks is not stated declaratively. Every split gives the same end (UrlFitEnd), so the match itself is fully stated by UrlAtExact.
