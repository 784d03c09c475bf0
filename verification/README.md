# Corpus cleaning of the two-sender Markov chat generator

This project models the corpus-preparation core of `markov.py` in Dafny. The core has three parts:

- **Word filter** (`clean_word`). It drops a whole token if the token holds any character of `SYMBOLS_TO_RM` or `NUMBERS_TO_RM`. `SYMBOLS_TO_RM` is Python's `string.punctuation` plus the soft hyphen U+00AD; `NUMBERS_TO_RM` is the ASCII digits. It also drops the empty token. Any other token comes back lowercased.
- **Sentence cleaner** (`clean_set`). It splits each message text on the single space character and always throws away the last segment. The remaining segments go through the word filter, and the survivors are joined with single spaces. A sentence is kept only if the result is non-empty.
- **Corpus assembly** (the pure part of `gen_user_corpus`). It keeps the texts of one sender's records that have content and cleans them. The result is the cleaned sentences, duplicates included, followed by every distinct word of those sentences exactly once.

Modules follow those parts:

- `Wrappers` (`wrappers.dfy`): `Option`, which stands for Python's `None`-or-value returns.
- `Text` (`text.dfy`): `str.split(' ')`, `' '.join(...)` and `str.lower()` on ASCII, with their round-trip laws.
- `WordFilter` (`word_filter.dfy`): the two removal tables, `clean_word` as a function, and `clean_word` as written, as a method with the source's two scanning loops.
- `CorpusBuilder` (`corpus.dfy`): the sender filter, `clean_set` as a function and as the source's nested loops, and the word-set and `extend` steps of `gen_user_corpus`.

Two behaviours of the code worth knowing:

- Sentences are split on the single character `' '`, not on any whitespace. A tab or a newline inside a token does not split it.
- A "cleaned token" is not necessarily a word of letters. `clean_word` rejects only punctuation, the soft hyphen and digits, so tabs, newlines and non-ASCII characters survive. `IsCleanToken` states exactly what survives.

## Model

| member | source | states |
|---|---|---|
| Text.Split | markov.py:41 | `str.split(' ')` yields one more segment than there are spaces, and no segment contains a space |
| Text.Join | markov.py:58 | `' '.join([])` is `''`, and joining one or more space-free parts gives a text with exactly one space fewer than there are parts |
| Text.SplitNoSeparator | markov.py:41 | a text without a space splits into exactly one segment, itself |
| Text.SplitAppend | markov.py:41 | splitting `a + ' ' + b` gives the segments of `a` followed by the segments of `b` |
| Text.SplitJoin | markov.py:58 | joining a non-empty list of space-free parts with `' '` and splitting again gives back the same list |
| Text.JoinSplit | markov.py:41 | splitting a text on `' '` and joining again gives back the text |
| Text.JoinNonEmpty | markov.py:58-59 | joining non-empty parts gives `''` exactly when there are no parts |
| Text.LowerChar | markov.py:33 | an ASCII capital maps to the small letter at the same alphabet position; every other character is unchanged; the result is never a capital |
| Text.Lower | markov.py:33 | `lower()` keeps the length and lowercases each character in place |
| Text.LowerIdempotent | markov.py:33 | lowercasing twice equals lowercasing once |
| Text.LowerFixedPoints | markov.py:33 | `lower()` leaves a text unchanged exactly when it has no capital letter |
| Text.LowerKeepsNonLetter | markov.py:33 | a character that is not a letter occurs after lowercasing exactly when it occurred before |
| WordFilter.PunctuationListed | markov.py:12 | every printable ASCII punctuation character is in `SYMBOLS_TO_RM` |
| WordFilter.ListedIsPunctuation | markov.py:12 | `SYMBOLS_TO_RM` holds only ASCII punctuation and the soft hyphen |
| WordFilter.DigitsListed | markov.py:13 | `NUMBERS_TO_RM` holds exactly the characters `0`-`9` |
| WordFilter.ForbiddenClasses | markov.py:12-13 | the two tables together hold exactly the forbidden characters: ASCII punctuation, the soft hyphen and ASCII digits |
| WordFilter.CleanWord | markov.py:18-35 | an accepted token has the input's length and is a clean token: non-empty, no forbidden character, no capital |
| WordFilter.TablesFindForbidden | markov.py:22-30 | the two scanning loops find a table character in the word exactly when the word has a forbidden character |
| WordFilter.CleanWordScan | markov.py:18-35 | the two flag-and-break loops followed by the length test give the same answer as `CleanWord` on every token |
| WordFilter.CleanWordTables | markov.py:22-35 | a token is accepted exactly when it is non-empty and no character is in `SYMBOLS_TO_RM` or `NUMBERS_TO_RM`; an accepted token comes back lowercased |
| WordFilter.PunctuationRejected | markov.py:22-25 | a token containing any `SYMBOLS_TO_RM` character, wherever it occurs, gives `None`: the token is dropped, not stripped |
| WordFilter.DigitRejected | markov.py:27-30 | a token containing any digit gives `None` |
| WordFilter.CleanWordFixedPoints | markov.py:32-33 | `clean_word` returns a token unchanged exactly when it is a clean token |
| WordFilter.CleanWordIdempotent | markov.py:32-33 | cleaning an accepted token again returns the same token |
| WordFilter.CleanWordSpaceFree | markov.py:33 | an accepted token has no space if its input had none |
| WordFilter.PunctuatedWordDropped | markov.py:22-25 | `ocean!` is rejected; it is not stripped to `ocean` |
| WordFilter.LetterWordKept | markov.py:32-33 | a non-empty token of ASCII letters is kept, lowercased, and cleaning the result changes nothing |
| CorpusBuilder.SenderTexts | markov.py:72-80 | the collected texts are never more than the records |
| CorpusBuilder.SenderTextsMembers | markov.py:72-80 | a text is collected exactly when some record from the sender carries it as content |
| CorpusBuilder.SenderTextsEmpty | markov.py:72-80 | nothing is collected exactly when no record from the sender has content |
| CorpusBuilder.KeptWords | markov.py:44-56 | the kept words are never more than the input words, and each is a clean token |
| CorpusBuilder.KeptWordsMembers | markov.py:44-56 | a word is kept exactly when `clean_word` turns some input word into it |
| CorpusBuilder.LineWords | markov.py:41-56 | a line keeps at most as many words as it has spaces, since `split(' ')[:-1]` has that many segments and `clean_word` only drops them |
| CorpusBuilder.CleanSentence | markov.py:41-58 | a line's sentence is `''` when no word was kept, and otherwise holds one space fewer than there are kept words |
| CorpusBuilder.Sentences | markov.py:40-58 | there is exactly one cleaned sentence per line, empty ones included |
| CorpusBuilder.SentencesAt | markov.py:40-58 | the i-th sentence is the cleaning of line i, so lines are processed in order |
| CorpusBuilder.NonEmpty | markov.py:59-60 | the kept entries are never more than the input entries, and none is empty |
| CorpusBuilder.NonEmptyMembers | markov.py:59-60 | an entry survives exactly when it is non-empty |
| CorpusBuilder.CleanLine | markov.py:41-58 | the loop body for one line gives that line's cleaned sentence, whatever `by_letters` is |
| CorpusBuilder.CleanSet | markov.py:37-62 | `clean_set` returns at most one sentence per input line, and never an empty one |
| CorpusBuilder.CleanSetMembers | markov.py:40-60 | a sentence is in the output exactly when it is non-empty and some line cleans to it |
| CorpusBuilder.CleanSetLoop | markov.py:37-62 | the nested loops give `CleanSet`'s result whatever `by_letters` is |
| CorpusBuilder.CleanSetSnoc | markov.py:40-60 | one more line appends its cleaned sentence to the output exactly when that sentence is non-empty |
| CorpusBuilder.CleanSetAppend | markov.py:40-60 | cleaning two batches of lines one after the other equals cleaning them together, so the relative order of lines is kept |
| CorpusBuilder.CleanSetSingle | markov.py:41-60 | one line contributes its cleaned sentence exactly when that sentence is non-empty |
| CorpusBuilder.LineWordsSpaceFree | markov.py:41-56 | no kept word of a line contains a space |
| CorpusBuilder.SentenceRoundTrip | markov.py:44-58 | a line's sentence is empty exactly when it kept no word; otherwise splitting the sentence on `' '` gives exactly the kept words, in order |
| CorpusBuilder.LastSegmentDiscarded | markov.py:41 | whatever follows a line's last space never reaches the sentence; the words kept are those of the text before that space |
| CorpusBuilder.NoSpaceLineDropped | markov.py:41 | a line with no space contributes nothing, even if it is a valid word |
| CorpusBuilder.WordSet | markov.py:85-89 | the word set is non-empty as soon as there is one sentence, because even `''` splits into one segment that gets added |
| CorpusBuilder.WordSetMembers | markov.py:85-89 | a word is in the word set exactly when it is a `' '`-segment of some sentence |
| CorpusBuilder.CleanedWordsAreTokens | markov.py:82-89 | every word of the cleaned sentences was kept from some line, so it is a clean token without spaces |
| CorpusBuilder.KeptWordsReachWordSet | markov.py:82-89 | every word kept from any line ends up in the word set, so the word section misses no accepted word |
| CorpusBuilder.CollectWords | markov.py:85-89 | the word-set loop ends with exactly the segments of the sentences |
| CorpusBuilder.AppendWords | markov.py:91 | `extend(word_set)` leaves the sentences in front, unchanged, and appends each element of the set exactly once, whatever the set's order |
| CorpusBuilder.GenUserCorpus | markov.py:64-91 | the corpus is the cleaned sentences, duplicates kept, followed by a duplicate-free list of exactly their words, each a space-free clean token; with no content from the sender the corpus is empty |

## Left out

- Globbing for `message_*.json`, JSON parsing and writing the corpus file (markov.py:67-69, 94-96) are I/O. The model starts from a sequence of `Message` records and ends with the sequence of corpus entries. So a round trip of the entries through the file is not modelled; it would fail for a token that contains a newline, because `clean_word` accepts newlines.
- `build_mm_for_user` (markov.py:98-102) is a thin wrapper around the external `markovify` library.
- `gen_valid_sent` (markov.py:104-112) retries without bound on an opaque, randomized external model. Nothing about it can be stated without that library.
- `get_next_sent_subj` (markov.py:114-127) depends on spaCy part-of-speech tagging, stop-word data and `random.choice`.
- The `__main__` driver and its disabled seeded mode (markov.py:130-172) only orchestrate and print.
- Text.LowerChar: maps only the ASCII capitals `A`-`Z`; Python's `str.lower()` also folds non-ASCII capitals such as `É`, which this model leaves unchanged.
- Text.Lower: lowercases only the ASCII capitals `A`-`Z` and leaves every other character unchanged. Python's `str.lower()` also folds non-ASCII letters and can change a string's length.
- WordFilter.CleanWord: for a token with non-ASCII capitals, it inherits the ASCII-only lowercasing of `Text.Lower`. Its accept/reject decision is exact for every character.
- CorpusBuilder.AppendWords: Python's set iteration order is not modelled. The contract fixes only that the word section is duplicate-free and has exactly the right elements, and the choice of the next word is left open.
