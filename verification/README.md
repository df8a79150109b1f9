# BWL word scheduler in Dafny

BWL is a vocabulary-learning bot. Each user has a word list. The user feeds
it words, the bot normalises them through a dictionary lookup, and then asks
the user to review words on a spaced-repetition schedule:

- after a success a word waits `min(INIT * MULT^(successes - 1), MAX)` seconds;
- after a failure it waits `WRONG` seconds;
- new words only fill the working set up to `MIN_AVAILABLE_WORDS`.

This project models the core of `word_tools.py` as pure Dafny functions over
immutable datatypes and proves properties of them:

- the `Word` review history and its queries;
- the `UserWordList` operations: loading words, choosing the next word,
  deleting, the statistics line and adding by hand;
- the memoising lookup `Cash.get`.

The modules follow the structure of the program:

| module | file | models |
|---|---|---|
| `Wrappers` | wrappers.dfy | `Option` (Python's `None` or a value) |
| `Lists` | lists.dfy | list comprehension with `if`, `set(list)` enumeration, `list.remove` |
| `Text` | text.dfy | `str.strip`, `str.split`, `str.join`, ASCII test, `str(int)`, string `<` |
| `Words` | words.dfy | class `Word` |
| `WordLists` | word_lists.dfy | the state of `UserWordList`, `add_word`, `delete_current_word` |
| `Scheduling` | scheduling.dfy | `choose` |
| `Loading` | loading.dfy | `load_new_words` |
| `Stats` | stats.dfy | `get_stat` |
| `Caching` | caching.dfy | `Cash.get` |

How the environment is handled:

- The clock (`int(time.time())`) is a parameter `now: nat`.
- `random.choice` is a parameter `pick: nat`. The chosen candidate is the one
  at position `pick` modulo the number of candidates.
- The dictionary lookup (`api.get_root_form_and_frequency`) is a parameter of
  type `Normaliser`: a total function from a raw string to an optional pair
  of root form and frequency.
- The configuration entries are the naturals of a `Config` value.

Behaviours of the code worth knowing:

- `load_new_words` suppresses duplicates only against the words under review
  and the deleted words. Words held back for low frequency are not consulted,
  so the same root can be held back again on a later load
  (`Loading.RareRootHeldBackAgain`).
- `delete_current_word` does not clear the current word. A second delete
  appends the same word to the deleted words again and then fails in
  `list.remove` (`WordLists.DeleteTwiceDuplicatesBan`).
- `add_word` neither normalises its text nor checks it against known words,
  so it can break uniqueness (`WordLists.AddWordCanDuplicate`).
- Only the first `MIN_AVAILABLE_WORDS - due` new words, in list order, are
  candidates, never the others (`Scheduling.Available`, `Scheduling.AvailableMembership`).

## Model

| member | source | states |
|---|---|---|
| Words.NewWord | word_tools.py:16-22 | a word built without events is new and keeps its text and frequency |
| Words.CreateEvent | word_tools.py:33-34 | recording a review appends exactly one event (`now`, outcome) at the end, leaves the earlier history unchanged and does not touch text or frequency |
| Words.LastIndexOf | word_tools.py:42-50 | the backward scan finds the position of the latest event of the outcome: later events have the other outcome; None exactly when no event has it |
| Words.CountOf | word_tools.py:52-53 | the count is at most the history's length and is zero exactly when no event has the outcome |
| Words.CountIsFilterLength | word_tools.py:52-53 | counting from the end of the history equals the length of the comprehension of matching events built from the start |
| Words.CountsCoverHistory | word_tools.py:13-14 | every event is a success or a failure: the two counts add up to the number of events |
| Words.Trichotomy | word_tools.py:55-64 | every word is exactly one of new, last review succeeded, or reviewed with the last review failed; the latest event of that outcome is the final event |
| Words.Success | word_tools.py:36-37 | after `success` at `now` the history gains one event at the end and keeps the earlier ones; the word is not new, its last review succeeded, its last success time is `now`, it has one more success and its last failure time is unchanged |
| Words.Unsuccess | word_tools.py:39-40 | after `unsuccess` at `now` the history gains one event at the end and keeps the earlier ones; the word is not new, its last review is not a success, its last failure time is `now`, its successes and last success time are unchanged |
| Words.LastSuccessTime | word_tools.py:42-45 | None exactly when there is no success; otherwise the time of a success event after which no event is a success |
| Words.LastUnsuccessTime | word_tools.py:47-50 | None exactly when there is no failure; otherwise the time of a failure event after which no event is a failure |
| Words.NumberOfSuccess | word_tools.py:52-53 | the number of successes is the length of the comprehension of success events, at most the number of events |
| Words.LastIsSuccess | word_tools.py:55-59 | when the final event is a success the word has a success and its last success time is that event's time |
| Words.IsNew | word_tools.py:61-64 | a word is new exactly when it has neither a last success time nor a last failure time |
| WordLists.EmptyList | word_tools.py:68-76 | a new list has no words, no current word, no deleted and no held-back words |
| WordLists.ValuesAppend | word_tools.py:93 | the set of texts of a concatenation is the union of the sets of texts |
| WordLists.AppendFreshKeepsUnique | word_tools.py:99-103 | appending words whose texts are pairwise different and unknown keeps every text unique across review and deleted words |
| WordLists.AddWord | word_tools.py:177-179 | `add_word` appends one new word with the given text and no frequency, changes nothing else, and returns "word <text> was added" |
| WordLists.AddFreshWordKeepsUnique | word_tools.py:177-179 | adding a text that is neither under review nor deleted keeps uniqueness |
| WordLists.AddWordCanDuplicate | word_tools.py:177-179 | for every list, adding a text already under review breaks uniqueness, because no check is made |
| WordLists.DeleteCurrentWord | word_tools.py:160-163 | the current word is appended to the deleted words in every case; the removal succeeds exactly when the word is under review, and then the words lose exactly one copy of it and the message is "<text> was deleted"; and the remaining words are the list with the first copy of it removed, the rest in order; otherwise the words are unchanged; the current word is never cleared |
| WordLists.DeleteKeepsUnique | word_tools.py:160-163 | deleting a word under review keeps uniqueness; its text leaves the review words and joins the deleted words |
| WordLists.DeleteTwiceDuplicatesBan | word_tools.py:160-163 | a second delete without a new choice fails in `list.remove` and leaves the same word twice among the deleted words |
| Lists.Filter | word_tools.py:92 | the comprehension keeps exactly the elements that satisfy the condition and is no longer than its input |
| Lists.FilterAppend | word_tools.py:92 | filtering distributes over concatenation, so the order of the input is kept |
| Lists.FilterKeepsNoDuplicates | word_tools.py:92-93 | filtering a duplicate-free list keeps it duplicate-free |
| Lists.Dedupe | word_tools.py:93 | `set(list)`, enumerated once each: no duplicates and the same members as the list |
| Lists.RemoveFirst | word_tools.py:162 | `list.remove` drops the first equal element: one element shorter, one copy fewer, the rest in order |
| Text.EncodeAscii | word_tools.py:83 | `encode('ascii')` succeeds exactly when every code point is below 128, and then gives one code per character, equal to it |
| Text.IsAscii | word_tools.py:81-86 | a string is ASCII exactly when every code point is below 128 |
| Text.Strip | word_tools.py:89 | `strip` removes only whitespace, from both ends only; a non-empty result neither starts nor ends with whitespace; the result is empty exactly when the line is all whitespace |
| Text.Split | word_tools.py:89 | `split('\n')` gives at least one piece, no piece holds a newline, and joining the pieces with newlines gives back the text |
| Text.SplitFirstPiece | word_tools.py:89 | splitting a piece without newline, a newline and a tail gives the piece followed by the split of the tail |
| Text.SplitJoin | word_tools.py:89 | splitting a newline-join of newline-free pieces gives back the pieces |
| Text.IndexOf | word_tools.py:89 | the position found holds the separator and no earlier position does |
| Text.NatToString | word_tools.py:175 | `str(n)` is a non-empty string of decimal digits without a leading zero |
| Text.ParseNatToString | word_tools.py:175 | reading the decimal text of `n` back gives `n` |
| Scheduling.Interval | word_tools.py:135-138 | the wait after the n-th success is the smaller of `INIT * MULT^(n-1)` and `MAX` |
| Scheduling.PowMonotone | word_tools.py:136-137 | with a base of at least one, a larger exponent gives a power at least as large |
| Scheduling.IntervalMonotone | word_tools.py:135-138 | with MULT at least one, each further success waits at least as long as the one before |
| Scheduling.FirstInterval | word_tools.py:135-138 | the first success waits `min(INIT, MAX)` |
| Scheduling.Due | word_tools.py:133-145 | a reviewed word is due exactly when more than the wait its final review's outcome asks for has passed since that review |
| Scheduling.Partition | word_tools.py:130-145 | a word lands in the due bucket exactly when it has been reviewed and is due, and in the new bucket exactly when it is new |
| Scheduling.PartitionKeepsOrder | word_tools.py:132-145 | both buckets are the word list filtered by their condition, so list order is kept |
| Scheduling.TopUpWith | word_tools.py:147-148 | with enough due words the candidates are the due words; otherwise the due words followed by the first new words, `min(MIN, due + new)` in all |
| Scheduling.Available | word_tools.py:130-148 | the candidates are all due words in list order followed by the first new words in list order; there are as many as the due words when at least MIN are due, otherwise `min(MIN, due + new)` |
| Scheduling.AvailableMembership | word_tools.py:130-148 | candidates come from the list; a reviewed word is a candidate exactly when due; a new word only when fewer than MIN words are due |
| Scheduling.Choose | word_tools.py:126-158 | no words: "need a file", list unchanged; no candidates: "all done", current cleared; otherwise the picked word is a candidate from the list and becomes current; nothing else changes |
| Scheduling.Message | word_tools.py:126-158 | the answer of `choose`: "need a file" with no words, "all done" with no candidates, otherwise the text of the picked word |
| Scheduling.ChoosePicksAt | word_tools.py:155 | a pick below the number of candidates chooses the candidate at that position |
| Scheduling.ChooseCanPickAnyCandidate | word_tools.py:155 | every candidate is returned for some outcome of the random pick |
| Scheduling.FailedWordWaits | word_tools.py:143-145 | a word answered wrongly at `now` is not a candidate at `now` |
| Scheduling.SucceededWordWaits | word_tools.py:133-139 | a word answered correctly at `now` is not a candidate at `now` |
| Scheduling.BackOffExample | word_tools.py:133-139 | with INIT 100 and MULT 4, a word last answered correctly 150 s ago is due after one success and not after two |
| Scheduling.FilterThree | word_tools.py:132-145 | filtering a three-word list keeps each word exactly when it satisfies the condition, in order |
| Scheduling.ExampleBucketsFresh | word_tools.py:130-145 | three new words give no due word and all three as new words, in order |
| Scheduling.TopUpExampleFresh | word_tools.py:140-148 | with MIN 2 and three new words A, B, C the candidates are A and B |
| Scheduling.ExampleBucketsAfterFailure | word_tools.py:130-145 | after A is answered wrongly at `now` there is no due word and the new words are B and C |
| Scheduling.TopUpExampleAfterFailure | word_tools.py:140-148 | once A has been answered wrongly the candidates are B and C |
| Loading.StrippedLines | word_tools.py:89 | one stripped line per piece of `split('\n')`, in order |
| Loading.NonBlank | word_tools.py:89 | keeps exactly the non-empty stripped lines |
| Loading.AsciiOnly | word_tools.py:81-86 | keeps exactly the lines that `encode('ascii')` accepts |
| Loading.UnknownTo | word_tools.py:93 | keeps exactly the strings that are not the text of a word under review or deleted, and keeps them distinct |
| Loading.Candidates | word_tools.py:89-93 | the looked-up strings are distinct and are exactly the non-empty, ASCII stripped lines that are not known texts |
| Loading.CandidateComesFromLine | word_tools.py:89 | every looked-up string is the stripped form of a line of the input |
| Loading.Step | word_tools.py:95-105 | one lookup adds a word exactly when the lookup succeeds with frequency at least one and a root that is not yet known; it holds back exactly the new word of the root when the lookup succeeds with frequency below one and a root that is not yet known, and nothing otherwise |
| Loading.Ingest | word_tools.py:94-105 | the loop appends the added words to the review words; they have distinct texts, each is the normalised form of a looked-up string with frequency at least one and a previously unknown root; held-back words are only appended |
| Loading.IngestHoldsBack | word_tools.py:104-105 | every held-back word is the normalised form of a looked-up string with frequency below one |
| Loading.HeldBackSplits | word_tools.py:104-105 | the words held back over two stretches of the loop are those of the first stretch followed by those of the second |
| Loading.IngestHoldsBackRare | word_tools.py:95-105 | every looked-up string whose root is rare and still unknown after the loop has the new word of that root held back |
| Loading.IngestHoldsBackOncePerRaw | word_tools.py:95-105 | a word is held back at most as many times as there are looked-up strings whose answer it is |
| Loading.IngestComplete | word_tools.py:96-103 | every successful lookup with frequency at least one ends with its root under review or deleted |
| Loading.ComposeDistinct | word_tools.py:99-103 | an added word followed by words that are all unknown after it keeps texts distinct |
| Loading.ComposeAdded | word_tools.py:95-103 | the guarantee on added words carries from one lookup and the rest of the loop to the whole loop |
| Loading.ComposeHeld | word_tools.py:95-105 | the guarantee on held-back words carries from one lookup and the rest of the loop to the whole loop |
| Loading.ComposeComplete | word_tools.py:95-103 | completeness carries from one lookup and the rest of the loop to the whole loop |
| Loading.IngestNothingNew | word_tools.py:96-101 | when every lookup fails, is rare or gives a known root, nothing is added |
| Loading.LoadNewWords | word_tools.py:88-108 | `load_new_words` looks each candidate up once, appends the added words and returns them, holds back every rare root that is still unknown afterwards and each held-back word at most once per looked-up string giving it, leaves the deleted words and the current word alone, and adds every frequent unknown root |
| Loading.LoadKeepsUnique | word_tools.py:88-108 | loading keeps every text unique across review and deleted words |
| Loading.ReloadAddsNothing | word_tools.py:88-108 | loading the same text a second time with the same lookup adds no word |
| Loading.RareRootHeldBackAgain | word_tools.py:88-108 | a rare root that a load holds back and leaves unknown is held back again when the same text is loaded a second time |
| Loading.DeletedWordStaysDeleted | word_tools.py:93-99 | after a word is deleted, a later load neither looks its text up nor puts it back under review |
| Stats.GetStat | word_tools.py:165-175 | the summary is empty exactly when the list has no words; otherwise splitting it at commas gives the formatted counter entries, each after the first preceded by a space |
| Stats.CountCategories | word_tools.py:166-173 | the three counters add up to the number of words, and each is the number of words of its category |
| Stats.StatEntries | word_tools.py:175 | the summary lists exactly the counters that are positive, each with its value, keys in sorted order |
| Stats.KeysWithoutComma | word_tools.py:166-175 | none of the keys "new", "repeat", "to learn" holds a comma |
| Stats.FormatEntry | word_tools.py:175 | an entry is the key, a colon and a space, then decimal digits that read back as the count; it holds a comma exactly when the key does |
| Stats.PiecesStep | word_tools.py:175 | the pieces of several entries are the first formatted entry followed by the pieces of the rest, the first of those now preceded by a space |
| Stats.JoinPrefix | word_tools.py:175 | joining pieces whose first starts with a prefix is that prefix followed by the join without it |
| Stats.JoinPiecesStep | word_tools.py:175 | the first entry, a comma and a space, then the join of the rest, is the comma-join of all the pieces |
| Stats.FormatEntries | word_tools.py:175 | `", ".join` of the entries is empty exactly when there are none, and otherwise the comma-join of the formatted entries, each after the first preceded by a space |
| Stats.SplitPieces | word_tools.py:175 | when no key holds a comma, splitting the comma-join of the pieces at commas gives back the pieces |
| Stats.ExampleCounts | word_tools.py:166-173 | one new word and two words last answered correctly give counts new 1, repeat 2, to learn 0 |
| Stats.ExampleEntries | word_tools.py:175 | the entries new 1 and repeat 2 format as "new: 1" and "repeat: 2" |
| Stats.ExampleFormat | word_tools.py:175 | the entries new 1 and repeat 2 format as "new: 1, repeat: 2" |
| Stats.ExampleStatEntries | word_tools.py:175 | the counters new 1, repeat 2, to learn 0 give the entries new 1 and repeat 2, in that order |
| Stats.StatExample | word_tools.py:165-175 | the summary for one new word and two words last answered correctly is "new: 1, repeat: 2" |
| Caching.Get | word_tools.py:236-242 | a present key returns its stored answer without calling the function and leaves the cache alone; a missing key calls the function once and stores its answer; other entries are kept |
| Caching.GetTwice | word_tools.py:236-242 | a second `get` of a key returns the first answer, whatever the function would now give, without calling it |
| Caching.GetAll | word_tools.py:236-242 | over a sequence of keys, each answer is stored under its key; the cache afterwards holds the entries present at the start and the function's answer for every missing key, and nothing else; the function is called exactly for the keys missing at the start, once each |
| Caching.GetAllAnswers | word_tools.py:236-242 | the answer for a key present at the start is its stored answer, for a missing key the function's answer; entries present at the start are kept and the cache gains exactly the keys looked up |
| Caching.NoDuplicatesCard | word_tools.py:236-242 | a duplicate-free sequence of keys has as many elements as its set |
| Caching.CalledAreMissing | word_tools.py:236-242 | the keys the function is called for are exactly the distinct keys missing at the start |
| Caching.OneCallPerMissingKey | word_tools.py:236-242 | the function is called exactly as many times as there are distinct missing keys, so at most once per distinct key |

## Left out

- `main.py` and the chat-bot front end: message handling, vocabulary tokens and the persistence of the cache are not part of this model.
- `OxfordApi` (word_tools.py:182-220) is an HTTP client. The model replaces it with the `Normaliser` parameter. Its own cache use, `get(word, _get_root_form_and_frequency)`, is an instance of `Caching.Get`.
- `Cash.__init__` and `Cash.save` only read and write a JSON file (file I/O).
- `UserWordList.save_to_file` and `load_from_file` only serialise the list and `eval` it back (file I/O).
- `UserWordList.__len__` is `|l.words|`.
- `Word.__str__` is the `value` field. `__repr__` only feeds persistence.
- Logging (`self.logger.info`) is not modelled.
- `time.time()` is the parameter `now`. The truncation `int(...)` of a non-negative clock is the natural number itself.
- `random.choice` is the parameter `pick`. The model shows that every candidate can be picked, not that the pick is uniform.
- The four `TIME_BEFORE_REPEAT_*` settings are `eval`-ed from text in the source; `MIN_AVAILABLE_WORDS` is used as given. Here all five are naturals of a record, so negative or fractional settings are not modelled.
- The frequency is a float in the source and an `int` here. `frequency >= 1` is compared on that integer.
- A raw line enters the lookup at most once, in order of first occurrence in the text. Python leaves the enumeration order of `set(new_words)` unspecified. The lemmas about the loop hold for every order of distinct candidates.
- Words are compared by identity in Python and structurally here. `list.remove` therefore removes the first structurally equal word, which is the same word whenever texts are unique.
- Aliasing of the current word: in the source `current_word` is the very object held in `words` (and, after a delete, in `banned_words`), so `success()` or `unsuccess()` on it would also change that entry. Here `current` is an independent copy of the word. No code in `word_tools.py` or `main.py` calls `success` or `unsuccess`; the model gives `Words.Success` and `Words.Unsuccess` on words only and no operation that records a review through `current`.
- `get_stat`'s `period` argument is unused in the source and is not modelled.
- WordLists.DeleteCurrentWord: requires a current word. With none, the source appends `None` to the deleted words and then raises in `list.remove`, a state a list of words cannot hold.
