# Tweet preprocessing, modelled in Dafny

This project models the preprocessing stage of a COVID-19 tweet analysis
back end. The stage turns a table of hydrated tweets into twelve derived
columns:

- **Location:** whether the tweet is in the USA, its country code, and its state.
- **Date:** the date string, year, month, day and hour.
- **Text:** the cleaned tokens, the hashtags, the non-hashtag words and the hashtag count.

It also models the two pieces of the daily scraper that handle tweet IDs:

- writing a list of IDs to the ID file;
- merging the day's ID lists into one list.

## Modules

- `Outcomes` (outcomes.dfy): `Option`, `Result`, and `Field`. `Field` keeps the "N/A" sentinel apart from a real value in the same column.
- `Seqs` (seqs.dfy): generic list helpers:
  - filtering and counting;
  - flattening a list of lists;
  - `AllSome`, the shape of a loop that appends one value per element and raises at the first failure.
- `PyStrings` (pystrings.dfy): the Python `str` operations the scripts rely on.
  - `split(sep)` and `split()`, `join` and `strip`. The whitespace set is exactly Python's `str.isspace`.
  - ASCII `lower`, substring `in`, and `str(int)` with its inverse `int(...)`.
  - Round-trip lemmas between split and join.
- `Location` (location.dfy): `parse_location` on the value `try_literal_eval` produced.
- `Dates` (dates.dfy): `parse_dates` on an already-decoded timestamp.
- `Normalize` (normalize.dfy): `remove_emoji` and the six steps of `clean_text`.
- `Hashtags` (hashtags.dfy): `parse_hashtags` and `count_hashtags`.
- `Preprocess` (preprocess.dfy): the `__main__` batch.
  - `try_literal_eval` on the "place" column.
  - The location loop, the date loop and the text loop.
  - The twelve columns, or the loop and row index of the error that stops the run.
- `TweetIds` (tweet_ids.dfy): `save_tweet_IDs` and the ID-list merge.

## Library calls as parameters

Four library calls are parameters of the model rather than definitions:

- `emoji.UNICODE_EMOJI` membership: `isEmoji: char -> bool`.
- NLTK's English stop-word list: `stopwords: set<string>`.
- `ast.literal_eval`: `literalEval: string -> Option<Place>`, which is None when it raises.
- `pd.to_datetime` on a timestamp string: `toDatetime: string -> Conversion`. The result is a time, NaT, or `Raised` when the call raises. A missing cell always gives NaT, as pandas does for a missing value. `parse_dates` then gives `"nan-nan-nan"`, "nan" and nan fields, not "N/A".

The properties hold for every choice of these parameters, with two exceptions. Both need every emoji to be a non-ASCII character (`EmojiNonAscii`), as in the emoji library's table:

- the idempotence of `clean_text`;
- the fact that no token of `clean_text` holds an emoji.

## Where the code behaves unexpectedly

- **Bare "#" entries.** A word with k ≥ 2 `#` gives k + 1 hashtags, one per piece of `word.split('#')`. The guard `inner_word != '#'` can never fire, because no piece of that split holds a `#`. So a word that starts with `#` gives a bare `"#"` first: `"#covid#vaccine"` gives `"#"`, `"#covid"` and `"#vaccine"`. The guard on line 179 of app/backend/preprocess_tweets.py and the comment on line 175 suggest that only real hashtag words were meant to be returned. The guard compares with `"#"`, so the empty piece before a leading `#` still gets through as `"#"`. The model keeps it, as the code does (`Hashtags.LeadingBareHash`).
- **The state field.** The state is element 1 of the split on every comma, not "the text after the first comma". `"A, B, C"` gives `"B"` and `"LA,"` gives `""`.
- **"US" place without `full_name`.** Both lookups raise. The `return` inside `finally` then reads the unbound `state`, so the call raises instead of returning a triple.
- **Missing timestamps.** A missing `created_at` does not reach the "N/A" fallback of the date loop. `pd.to_datetime` gives NaT, and `parse_dates` returns `"nan-nan-nan"` with nan fields without raising (`Preprocess.DatesOf`).
- **Text failures.** The only text that makes the text loop raise is a missing cell (pandas NaN). Every string goes through all three text functions.

## Model

| member | source | states |
|---|---|---|
| `Location.ParseLocation` | app/backend/preprocess_tweets.py:20-46 | None gives "N/A" three times; a non-"US" country code gives (False, code, "N/A"); "US" gives (True, "US", state from `full_name`); a value that cannot be indexed, a dictionary without "country_code" and a "US" dictionary without "full_name" raise; "N/A" in the first column only for None |
| `Location.StateOf` | app/backend/preprocess_tweets.py:40-44 | a name without a comma gives the whole name, stripped |
| `Location.StateOfSecondField` | app/backend/preprocess_tweets.py:41 | a name with a comma gives the stripped text between the first comma and the next comma or the end |
| `Location.TrailingComma` | app/backend/preprocess_tweets.py:41 | "LA," gives the empty state |
| `Dates.MonthString` | app/backend/preprocess_tweets.py:68-71 | the month is always two digits, reads back as the month, and starts with "0" exactly for months below 10 |
| `Dates.ParseDates` | app/backend/preprocess_tweets.py:62-75 | year, day and hour pass through unchanged; the month column is the padded month |
| `Dates.DateRoundTrip` | app/backend/preprocess_tweets.py:73 | the date string splits on "-" into exactly three digit fields that read back as year, month and day |
| `Dates.UnpaddedDay` | app/backend/preprocess_tweets.py:66-73 | the day is not padded: 9 February 2021 gives "2021-02-9" |
| `Normalize.RemovePunctuation` | app/backend/preprocess_tweets.py:105-113 | the result holds no punctuation character, only characters of the text, and every non-punctuation character of the text |
| `Normalize.RemovePunctuationPerChar` | app/backend/preprocess_tweets.py:109-113 | the loop handles each character on its own: a concatenation gives the concatenated results, and one character is kept exactly when it is not punctuation |
| `Normalize.DropCarriers` | app/backend/preprocess_tweets.py:90-92 | keeps only words of the input that contain no collected emoji, keeps each word that contains none, and keeps every word when none does |
| `Normalize.DropCarriersIsEmojiFree` | app/backend/preprocess_tweets.py:89-92 | for words taken from the text, dropping the carriers of the collected emoji list is exactly the in-order filter of the words that hold no emoji |
| `Normalize.RemoveEmoji` | app/backend/preprocess_tweets.py:78-93 | the result is the whitespace-separated words of the text that hold no emoji, in order, joined by single spaces; splitting it on whitespace gives those words back |
| `Normalize.RemoveEmojiChars` | app/backend/preprocess_tweets.py:88-93 | the result holds no emoji character and no whitespace character other than the space |
| `Normalize.RemoveNewlinesAndTabs` | app/backend/preprocess_tweets.py:119-120 | no newline or tab is left, and text without them is unchanged |
| `Normalize.RemoveNewlinesAndTabsPerChar` | app/backend/preprocess_tweets.py:119-120 | both substitutions act on each character on its own: a concatenation gives the concatenated results, and one character is kept exactly when it is neither newline nor tab |
| `Normalize.RemoveNonAscii` | app/backend/preprocess_tweets.py:123-131 | only ASCII characters are left, and ASCII text is unchanged |
| `Normalize.RemoveNonAsciiPerChar` | app/backend/preprocess_tweets.py:125-131 | the loop handles each character on its own: a concatenation gives the concatenated results, and one character is kept exactly when it is ASCII |
| `Normalize.SpaceBeforeHashes` | app/backend/preprocess_tweets.py:134 | afterwards no letter or digit is directly followed by `#`, and the first character is kept |
| `Normalize.SpaceBeforeHashesIsReference` | app/backend/preprocess_tweets.py:134 | the left-to-right substitution equals the position-by-position reference: every character kept, and one space after each ASCII letter or digit whose next character is `#` |
| `Normalize.SpaceBeforeHashesOnlyAddsSpaces` | app/backend/preprocess_tweets.py:134 | the substitution only inserts spaces: without spaces, the text before and after is the same |
| `Normalize.SpaceBeforeHashesIdentity` | app/backend/preprocess_tweets.py:134 | text where no letter or digit precedes `#` is left unchanged |
| `Normalize.FilterTokens` | app/backend/preprocess_tweets.py:139-146 | every kept token is lower-case, non-blank, holds no "http" and is not a stop-word; no more tokens than words |
| `Normalize.FilterTokensConcat` | app/backend/preprocess_tweets.py:141-146 | the loop handles each word on its own: two word lists in a row give the two results in a row |
| `Normalize.FilterTokensOne` | app/backend/preprocess_tweets.py:143-146 | one word gives its lower-cased form exactly when that holds no "http", is not blank and is not a stop-word, and nothing otherwise |
| `Normalize.FilterTokensIdempotent` | app/backend/preprocess_tweets.py:141-146 | filtering the filtered tokens again changes nothing |
| `Normalize.Prepare` | app/backend/preprocess_tweets.py:105-134 | before the split the text is ASCII without punctuation, its only whitespace is the space, and no letter or digit touches a following `#` |
| `Normalize.CleanTextNoEmoji` | app/backend/preprocess_tweets.py:96-148 | when every emoji is non-ASCII, no token of `clean_text` holds an emoji |
| `Normalize.CleanText` | app/backend/preprocess_tweets.py:96-148 | every token of `clean_text` is non-empty lower-case ASCII, without punctuation or whitespace, has no letter or digit before `#`, holds no "http" and is not a stop-word |
| `Normalize.CleanTextIdempotent` | app/backend/preprocess_tweets.py:96-148 | when every emoji is non-ASCII, cleaning the tokens joined by spaces gives the same tokens back |
| `Hashtags.WordHashtags` | app/backend/preprocess_tweets.py:168-183 | a word with at most one `#` is its own single entry; a word with k > 1 gives k + 1 entries, "#" plus each piece of its split on `#`, in order |
| `Hashtags.PartitionWords` | app/backend/preprocess_tweets.py:165-188 | every word is either counted as a hashtag word or listed as a non-hashtag word, and the listed ones hold no `#` |
| `Hashtags.ParseHashtags` | app/backend/preprocess_tweets.py:151-188 | the non-hashtag words are the space-separated words without `#`, in order; the hashtags are the entries of the words with `#`, in order, each holding exactly one `#` |
| `Hashtags.TagFragments` | app/backend/preprocess_tweets.py:177-180 | when no piece is "#", every piece gives one entry, "#" followed by the piece |
| `Hashtags.SeveralHashes` | app/backend/preprocess_tweets.py:170-180 | a word with k > 1 `#` gives k + 1 entries, "#" plus each split piece in order, each with exactly one `#`, together spelling "#" plus the word |
| `Hashtags.LeadingBareHash` | app/backend/preprocess_tweets.py:176-180 | a word that starts with `#` and holds several gives a bare "#" as its first entry |
| `Hashtags.OneHash` | app/backend/preprocess_tweets.py:181-183 | a word with at most one `#` is its own single entry |
| `Hashtags.PartitionIsFilter` | app/backend/preprocess_tweets.py:165-188 | the non-hashtag words are exactly the words without `#` in order; the hashtags are the entries of the words with `#` in order |
| `Hashtags.PartitionCounts` | app/backend/preprocess_tweets.py:165-206 | the hashtag count plus the number of non-hashtag words is the number of words, and the count is at most the number of hashtags |
| `Hashtags.CountHashtags` | app/backend/preprocess_tweets.py:199-206 | the count is at most one more than the number of spaces |
| `Hashtags.HashtagsOfText` | app/backend/preprocess_tweets.py:151-206 | both functions on one text: the partition, one `#` per hashtag, `count_hashtags` as the number of words with `#`, and the two counting relations |
| `Preprocess.LocationStep` | app/backend/preprocess_tweets.py:288-308 | the loop raises exactly when `parse_location` raises and the place is not an int; an int place gives "N/A" three times |
| `Preprocess.FatalPlaces` | app/backend/preprocess_tweets.py:288-308 | the places that stop the run are exactly the non-dictionary literals other than None and int, dictionaries without "country_code", and "US" dictionaries without "full_name" |
| `Preprocess.DateStep` | app/backend/preprocess_tweets.py:311-331 | "N/A" in the date column, and likewise in the month column, marks exactly the rows whose conversion raised, which get "N/A" five times; NaT gives "nan-nan-nan" and nan fields, and nan in the year marks exactly NaT; after a real conversion, year, day and hour are the timestamp's and the month is padded |
| `Preprocess.DatesOf` | app/backend/preprocess_tweets.py:62-75 | a missing timestamp cell goes through `parse_dates` as NaT, so it gets "nan-nan-nan" and never "N/A" |
| `Preprocess.TextStep` | app/backend/preprocess_tweets.py:334-356 | a text fails exactly when the cell is missing; otherwise every token is clean, the hashtag count plus the non-hashtag words is one more than the number of spaces, every hashtag holds one `#` and no non-hashtag word holds one |
| `Preprocess.Run` | app/backend/preprocess_tweets.py:288-370 | a finished run gives columns of the row count; a stopped run names a row that exists, and that row's location is fatal or its text missing, according to the loop that stopped |
| `Preprocess.Assemble` | app/backend/preprocess_tweets.py:358-370 | every column has one entry per row, and entry i of every column comes from row i's results |
| `Preprocess.RunSucceeds` | app/backend/preprocess_tweets.py:288-356 | the run finishes exactly when no location is fatal and every text is a string; dates never stop it |
| `Preprocess.RunColumns` | app/backend/preprocess_tweets.py:358-370 | a finished run gives twelve columns of the row count, and entry i of each is what the loops computed for row i |
| `Preprocess.RunLocationAbort` | app/backend/preprocess_tweets.py:288-308 | a run stopped by the location loop reports the first row with a fatal location |
| `Preprocess.RunTextAbort` | app/backend/preprocess_tweets.py:334-356 | a run stopped by the text loop has no fatal location anywhere and reports the first row with a missing text |
| `TweetIds.SaveTweetIds` | app/backend/scrape_tweets_daily.py:112-132 | the file afterwards is the old contents followed by the IDs joined with ", \n"; an empty list leaves it unchanged |
| `TweetIds.RenderIdsNewlines` | app/backend/scrape_tweets_daily.py:123-130 | n IDs are written with exactly n - 1 newlines |
| `TweetIds.RenderThenRead` | app/backend/scrape_tweets_daily.py:123-130 | splitting what one save writes on "," and reading each stripped piece gives the IDs back |
| `TweetIds.AppendedBatchesShareALine` | app/backend/scrape_tweets_daily.py:125-130 | two saves to one file give one newline fewer than one save of both batches |
| `TweetIds.AppendedBatchesGlue` | app/backend/scrape_tweets_daily.py:125-130 | two saves to one file do not read back as both batches: one ID is lost to gluing |
| `TweetIds.AppendIdsReadBack` | app/backend/scrape_tweets_daily.py:125-130 | with a separator between the batches, two saves read back as both batches in order |
| `TweetIds.MergeIds` | app/backend/scrape_tweets_daily.py:214-226 | the merge fails exactly when there are no lists; otherwise it is every ID of every list in order |
| `PyStrings.SplitOn` | app/backend/preprocess_tweets.py:137 | `split(sep)` gives one more piece than there are separators, no piece holds the separator, and the first piece is a prefix |
| `PyStrings.SplitWhitespace` | app/backend/preprocess_tweets.py:91-92 | every piece of `split()` is non-empty and holds no whitespace character |
| `PyStrings.SplitWhitespaceKeepsText` | app/backend/preprocess_tweets.py:91-92 | `split()` loses no non-whitespace character: the words glued together are the text with all whitespace deleted |
| `PyStrings.SplitWhitespaceSkips` | app/backend/preprocess_tweets.py:91-92 | a leading whitespace character of any kind, tab and newline included, adds no word |
| `PyStrings.SplitWhitespaceWord` | app/backend/preprocess_tweets.py:91-92 | a non-empty whitespace-free word followed by the end or by any whitespace character is a word of its own, followed by the words of the rest |
| `PyStrings.Strip` | app/backend/preprocess_tweets.py:145 | `strip` never lengthens, and a non-empty result starts and ends with a non-whitespace character |
| `PyStrings.Lower` | app/backend/preprocess_tweets.py:143 | `lower` keeps the length, maps each character on its own, and leaves no upper-case letter |
| `PyStrings.SplitOnThenJoin` | app/backend/preprocess_tweets.py:137 | joining the pieces of `split(sep)` with `sep` gives the string back |
| `PyStrings.JoinThenSplitOn` | app/backend/preprocess_tweets.py:177 | splitting a join of separator-free parts gives the parts back |
| `PyStrings.JoinThenSplitWhitespace` | app/backend/preprocess_tweets.py:91-92 | `split()` of non-empty whitespace-free words joined by spaces gives the words back |
| `PyStrings.StripIsSlice` | app/backend/preprocess_tweets.py:145 | `strip` removes only leading and trailing whitespace |
| `PyStrings.DecimalRoundTrip` | app/backend/scrape_tweets_daily.py:128 | reading the decimal rendering of a number gives the number |

## Findings

| source | as written | input that shows it | evidently intended | confidence | as-written member | corrected member |
|---|---|---|---|---|---|---|
| app/backend/scrape_tweets_daily.py:125-130 | the ID file has a fixed name (lines 186-189) and is opened for appending, but nothing follows the last ID, so a later save continues on the same line | saving [1] and then [2] to the same file leaves "12", which reads back as the single ID 12 | a separator between the old contents and the new IDs, so the file reads back as every saved ID | medium, not executed | `TweetIds.AppendedBatchesGlue` | `TweetIds.AppendIdsReadBack` |

`TweetIds.SaveTweetIds` keeps the as-written behaviour. `TweetIds.AppendIds` is the corrected save.

## Left out

- Reading and writing CSV files, the AWS transfers, the Selenium scraping, environment variables and printing are left out. The model works on the rows and the text written.
- `ast.literal_eval`, `pd.to_datetime`, the emoji table and the stop-word list are parameters. None of them is implemented.
- Location.Place: only string-valued dictionary entries are modelled. A non-string "country_code" or "full_name" is not represented.
- Preprocess.TextStep: a text cell is a string or missing. Other non-string values, which pandas does not produce for a text column, are not represented.
- Normalize.RemoveEmoji: Dafny characters are Unicode scalar values, so a text with a lone surrogate code point cannot be represented. On such a text the UTF-8 encoding on line 88 raises, and the text loop would stop the run; the model has no such text.
- PyStrings.Lower: only ASCII letters are lower-cased. Lowering runs after non-ASCII characters are removed, so no other letter reaches it.
- TweetIds.SaveTweetIds: the IDs are natural numbers written in decimal, the form pandas reads them in; IDs as arbitrary strings are not modelled.
- TweetIds.MergeIds: the data-frame concatenation that runs beside the ID merge is left out; it is a library call on the frames.
- The rest of the repository is not part of this model: the front end, the AWS helpers, the hydration step and the analysis scripts.
