# DomainChecker core, modelled in Dafny

DomainChecker asks a domain registrar's availability API about many candidate
domain names. This project models the two parts of it that carry the logic:

- **Candidate generation.** Labels are strings over the 37-symbol alphabet
  `a`–`z`, `0`–`9`, `-` (`possible_vals`). Each label has a base-37 ordinal
  (`get_general_value`). `set_general_bounds` reads the two boundary labels of a
  length from the configuration and takes their ordinals as bounds. The
  generators `create_gen_root_2/3/4` and `create_gen_root_5_end4(fchar)` then
  enumerate the labels of that length with nested loops. They keep the ones that
  pass the validity filter (`is_valid_domain`) and lie within the bounds, and
  return at the first label above the upper bound.
- **Querying.** `get_status` classifies the registrar's JSON reply. It retries
  after transport failures: five-second pauses for the first five, then an
  operator prompt. It also retries after rate limiting, sleeping
  `retryAfterSec` and restarting the throttle window. `get_data` asks about
  every root/TLD pair. Every `calls_per_min` requests it sleeps out the rest of
  a sixty-second window.

Files:

- `alphabet.dfy`: the alphabet, `Index` (Python's `str.index`).
- `validity.dfy`: `is_valid_domain` over Python's `find`, negative indexing and
  substring test.
- `ordinal.dfy`: the ordinal, as a recursive function and as the source's
  accumulator loop, and its order, injectivity and round-trip lemmas. Also the
  bounds.
- `generator.dfy`: the four generators as imperative nested loops. Each one is
  proved to return, in ascending order, exactly the labels it is meant to
  produce. That includes the early return, which is shown to drop nothing.
- `query.dfy`: the JSON classification, a recursive specification `Run` of
  `get_status`, and the class `Checker`. `Checker` holds the global counters
  `net_attempt_counts` and `cpm_t0`, the clock, the pauses taken and the
  operator prompts. Its `GetStatus` (a loop in place of the self-call on each
  retry), `Throttle` and `GetData` change that state and are proved against
  `Run` and the rate bound.
- `wrappers.dfy`: the `Option` and `Result` types.

Behaviour of the code worth knowing:

- After each of the first five consecutive transport failures the code sleeps
  5 seconds. The `20*(count+1)`
  seconds it logs are announced but never slept (`PauseNotAsAnnounced`).
- The operator is prompted on the sixth consecutive failure, not after the
  fifth. Five failures take the count from 0 to 5, and only a failure seen with
  the count at 5 prompts. The count then stays at 5, so every later failure
  prompts again (`FailureStreak`, `PromptOnSixthFailure`).
- The throttle gives a fixed-window bound: request `q` is issued no earlier
  than `60 * (q / calls_per_min)` seconds after the start, counting `q` from 0
  (`ScheduleBound`,
  `GetData`). It does not give a sliding-window bound. With
  `calls_per_min = 2` and a first request taking 59 seconds, the second, third
  and fourth requests go out at 59, 60 and 60 seconds, three within one second
  (`SlidingWindowExceeded`, for any first request shorter than a minute).
- In the dotted form, `is_valid_domain` tests only the character before the
  first dot, and the last character when the string starts with a dot. A hyphen
  after a dot, or before a later dot, passes (`HyphenAfterDotAccepted`,
  `OnlyFirstDotChecked`, `LeadingDotTestsLastChar`).
- `create_gen_root_5_end4` filters only the four enumerated characters. With
  `fchar = '-'` every word it yields fails `is_valid_domain`
  (`ShardValidity`).

## Model

| member | source | states |
|---|---|---|
| Alphabet.Symbol | DomainChecker.py:408 | `possible_vals[k]`, the symbol at position k, is a letter, a digit or the hyphen |
| Alphabet.SymbolsListed | DomainChecker.py:408 | `possible_vals` has 37 symbols, and position k holds the k-th symbol of the letters-digits-hyphen order |
| Alphabet.SymbolsAreAlphabet | DomainChecker.py:408 | a character is in `possible_vals` exactly when it is a lower-case letter, a digit or the hyphen |
| Alphabet.LabelIsAllIn | DomainChecker.py:195 | `all(c in possible_vals for c in string)` holds exactly for labels over the alphabet |
| Alphabet.Index | DomainChecker.py:352 | `possible_vals.index(c)` is below 37, and the symbol at that position is `c` |
| Alphabet.IndexOfSymbol | DomainChecker.py:352 | looking up the symbol at position k gives k back |
| Alphabet.IndexInjective | DomainChecker.py:352 | two symbols with the same index are equal |
| Validity.ValidCharsMembership | DomainChecker.py:189-190 | membership in `valid_chars` (`possible_vals + "."`) is membership in the alphabet or being the dot |
| Validity.At | DomainChecker.py:190-195 | Python indexing `string[i]` with `-len <= i < len`: the character at `i` modulo the length, so `string[-1]` is the last one |
| Validity.HasPair | DomainChecker.py:191-196 | `"--" in string` and `".." in string`: two adjacent positions hold the needle exactly when the needle is a prefix of some suffix |
| Validity.PairPrefixes | DomainChecker.py:191-196 | the adjacent-positions reading and the substring reading of a two-character needle agree |
| Validity.Find | DomainChecker.py:190 | `str.find`: -1 exactly when the character is absent, otherwise the index of its first occurrence |
| Validity.IsValidDomain | DomainChecker.py:187-198 | an accepted string does not start with a hyphen, has no "--" and only valid characters; without a dot it is a label not ending in a hyphen; with a dot it has no ".." |
| Validity.BareLabelValidity | DomainChecker.py:194-197 | without a dot: valid exactly when it is over the alphabet, does not start or end with a hyphen and has no "--" |
| Validity.DottedValidity | DomainChecker.py:189-193 | with its first dot at d: valid exactly when it has only valid characters, does not start with a hyphen, the character before the first dot (the last one when d is 0) is not a hyphen, and it has neither "--" nor ".." |
| Validity.HyphenAfterDotAccepted | DomainChecker.py:189-191 | "a.-" is accepted: a hyphen after the dot is not tested |
| Validity.OnlyFirstDotChecked | DomainChecker.py:189-191 | "a.-.b" is accepted but "a-.b" is not: only the first dot is looked at |
| Validity.LeadingDotTestsLastChar | DomainChecker.py:190 | ".a" is accepted and ".a-" is not: `string[-1]` is tested when the dot is first |
| Ordinal.Pow | DomainChecker.py:352 | `pow(37, i)` is positive |
| Ordinal.GeneralValue | DomainChecker.py:347-353 | the ordinal of a label of length n is below 37^n |
| Ordinal.ValueAppend | DomainChecker.py:350-352 | appending a symbol multiplies the ordinal by 37 and adds the symbol's index |
| Ordinal.ValuePrepend | DomainChecker.py:350-352 | the first symbol weighs 37^(number of symbols after it), as in the sum over `reversed(word)` |
| Ordinal.GetGeneralValue | DomainChecker.py:347-353 | the accumulator loop over `reversed(word)` returns the ordinal |
| Ordinal.Split | DomainChecker.py:350-352 | the ordinal is the first symbol's weighted index plus the ordinal of the rest |
| Ordinal.FirstSymbolDecides | DomainChecker.py:350-352 | for equal lengths, a smaller first symbol gives a smaller ordinal whatever follows |
| Ordinal.ValueOrder | DomainChecker.py:347-353 | for equal lengths, a smaller ordinal holds exactly when the label comes first in alphabet order |
| Ordinal.ValueInjective | DomainChecker.py:347-353 | equal-length labels with equal ordinals are equal |
| Ordinal.WordOf | DomainChecker.py:347-353 | for every v below 37^n there is a label of length n with ordinal v |
| Ordinal.LabelRoundTrip | DomainChecker.py:347-353 | decoding a label's ordinal at its length gives the label back |
| Ordinal.SetGeneralBounds | DomainChecker.py:356-361 | succeeds exactly when both `gen_<len>_begin/end` keys exist and are labels; the bounds are the ordinals of those strings and decode back to them; for equal lengths min <= max exactly when end does not precede begin |
| Generator.WantedRange | DomainChecker.py:240 | every wanted word has an ordinal within the range its first character allows |
| Generator.DoneAccept | DomainChecker.py:243-249 | appending a wanted word at the cursor keeps the output exactly the wanted words below the next cursor, ascending |
| Generator.DoneReject | DomainChecker.py:243-245 | skipping an unwanted word keeps that invariant |
| Generator.Complete | DomainChecker.py:246-247 | once the cursor passes the upper bound or the last reachable word, the output holds every wanted word, so returning early loses none |
| Generator.Start | DomainChecker.py:239-240 | an empty list is the invariant at the first word of the enumerated range |
| Generator.AscendingUnique | DomainChecker.py:237-250 | two ascending lists with the same words are equal, so each generator's output is determined by the set of wanted words |
| Generator.HyphenEndUnwanted | DomainChecker.py:241 | a word ending in a hyphen is never wanted, which is why the last loop leaves out `possible_vals[-1]` |
| Generator.PlainWanted | DomainChecker.py:240-249 | within the first-character range, a word is wanted exactly when it is a valid domain within the bounds |
| Generator.ShardWord | DomainChecker.py:296-306 | `fchar + word` has ordinal index(fchar)·37^4 + ordinal(word), and is wanted exactly when `word` does not end in a hyphen, has no "--" and the whole ordinal is within the bounds |
| Generator.ShardSkipHyphen | DomainChecker.py:295 | skipping the never-visited hyphen-ending shard word keeps the invariant |
| Generator.SkipHyphen | DomainChecker.py:241 | skipping the never-visited hyphen-ending word keeps the invariant |
| Generator.CreateGenRoot2 | DomainChecker.py:237-250 | returns, in ascending ordinal order, exactly the valid two-character labels within the first-character range and the ordinal bounds |
| Generator.CreateGenRoot3 | DomainChecker.py:253-267 | the same for three characters |
| Generator.CreateGenRoot4 | DomainChecker.py:270-285 | the same for four characters |
| Generator.CreateGenRoot5End4 | DomainChecker.py:288-307 | returns, ascending, exactly the words `fchar + w` with `w` of four symbols, no trailing hyphen, no "--", and the ordinal within the bounds |
| Generator.PlainWordShape | DomainChecker.py:240-249 | every word a plain generator yields has the length, is a valid domain not ending in a hyphen, and lies within both ranges |
| Generator.ShardValidity | DomainChecker.py:297-306 | a word of the length-5 generator is a valid domain exactly when `fchar` is not the hyphen |
| Query.Classify | DomainChecker.py:92-123 | `available` true/false gives Available/Unavailable; otherwise "TOO_MANY_REQUESTS" with `retryAfterSec` is a rate limit of that delay; another code with a message is Unknown; every other shape is the KeyError abort |
| Query.AnnouncedPause | DomainChecker.py:81-84 | the logged pause is at least 20 seconds and never the 5 seconds slept |
| Query.PauseNotAsAnnounced | DomainChecker.py:80-85 | a failure retried with fewer than five counted moves the clock by the 5 seconds slept, not the announced pause, records that pause and counts one more |
| Query.Sleep | DomainChecker.py:84 | sleeping advances the clock by the pause and records it, and changes nothing else |
| Query.Settle | DomainChecker.py:92-123 | a decoded reply that is not a rate limit ends the call: with its status when it is an answer, with the abort exactly when it is malformed |
| Query.Handle | DomainChecker.py:68-123 | a transport failure always retries; a decoded body resets the failure count and retries exactly when rate limited; a rate limit sleeps `retryAfterSec` and restarts the window at the time after the pause; any other reply ends the call with its status (or the abort when malformed) and changes only the count; the clock never goes back |
| Query.Run | DomainChecker.py:68-123 | a call that ends has consumed at least one response and leaves the count at zero; an unfinished one consumed all; the clock never goes back |
| Query.CountBounded | DomainChecker.py:76-91 | from a failure count of at most five, every call leaves a count of at most five, so the constructor's count of 0 keeps `FailureStreak`'s precondition for the whole run |
| Query.RunVerdict | DomainChecker.py:68-123 | a call that ends does so on the last response it consumed, a decoded reply that is not a rate limit, and its verdict is that reply's status (or the abort); every earlier response was a transport failure or a rate limit |
| Query.FailureStreak | DomainChecker.py:76-91 | k failures from count c pause five seconds and count one more for the first 5 - c, prompt for every later one, and never end the call or touch `cpm_t0` |
| Query.PromptOnSixthFailure | DomainChecker.py:80-91 | from count 0, five failures prompt no one and the sixth prompts once; the count stays at 5 |
| Query.ClockFollowsSleeps | DomainChecker.py:84-106 | `get_status` only appends pauses, and the clock advances by exactly their sum |
| Query.RetryScenario | DomainChecker.py:76-106 | a failure, a 30-second rate limit and a "false" reply give Unavailable after pauses of 5 and 30 seconds, with the window restarted |
| Query.DivStep | DomainChecker.py:152 | the count of completed windows grows by one exactly when the request count reaches a multiple of `calls_per_min` |
| Query.IssueNext | DomainChecker.py:136-155 | a request issued in a window the completed windows allow keeps the rate bound |
| Query.RunStep | DomainChecker.py:86-106 | the self-call on a retry is the run over the remaining responses |
| Query.RowUpToNext | DomainChecker.py:136-137 | appending the status of the next root's domain extends the row by that root |
| Query.TableAdd | DomainChecker.py:156-157 | entering one more TLD row keeps `data` the table of the TLDs seen so far |
| Query.Checker.constructor | DomainChecker.py:405-406 | no failures counted and the throttle window starting at the current time |
| Query.Checker.GetStatus | DomainChecker.py:68-123 | the verdict, the responses consumed and the new global state are those of `Run` |
| Query.ThrottleStep | DomainChecker.py:152-155 | when the limit divides the request count, the clock moves to at least 60 seconds after the window start (exactly there if the window is younger, unchanged if 60 seconds or more have passed) and a new window starts then; otherwise both stay |
| Query.ThrottlePause | DomainChecker.py:152-154 | the throttle sleeps exactly when the limit divides the request count and the window is younger than 60 seconds, once, for a positive time, at most 60 seconds when the window start is not after the clock, that brings the clock to the `ThrottleStep` clock |
| Query.Advance | DomainChecker.py:136-155 | one request taking c seconds, then the throttle on the count that includes it: the clock moves by at least c, the window start never goes back, and it either stays or becomes the new clock |
| Query.AdvanceClock | DomainChecker.py:136-155 | that step appends at most one pause, keeps the earlier ones, and moves the clock by the request's time plus exactly the pause appended |
| Query.After | DomainChecker.py:130-155 | the window, clock and throttle pauses after the requests of `get_data` with the given costs; the window start stays between the start and the clock |
| Query.IssueTimes | DomainChecker.py:133-155 | one issue time per request, the clock at the moment the request is made |
| Query.ScheduleStep | DomainChecker.py:136-155 | one more request is issued at the current clock and is followed by the throttle on the count that includes it |
| Query.WindowBound | DomainChecker.py:152-155 | the window start is at least 60 seconds per completed group of `calls_per_min` requests after the start |
| Query.ScheduleBound | DomainChecker.py:133-155 | every request is issued between the start and the current clock, and request q, counting from 0, no earlier than 60·(q / calls_per_min) seconds after the start; every throttle pause is at most 60 seconds |
| Query.FollowsNext | DomainChecker.py:136-155 | a request followed by the throttle, applied to the schedule's state after some requests, gives the schedule's state after one more |
| Query.FirstWindowSlept | DomainChecker.py:152-155 | with two calls a minute and a first request of c < 60 seconds, the second request goes out at c and the throttle then sleeps 60 - c seconds |
| Query.SlidingWindowExceeded | DomainChecker.py:152-155 | with two calls a minute and a first request of c < 60 seconds, requests go out at 0, c, 60 and 60: the second and fourth within 60 - c seconds |
| Query.RowCosts | DomainChecker.py:135-137 | one cost per root, in root order, that of the request for `root + top` |
| Query.RowCostsNext | DomainChecker.py:135-137 | one more root appends its request's cost |
| Query.PairCosts | DomainChecker.py:133-137 | one cost per root/TLD pair, TLDs outermost |
| Query.PairCostsNext | DomainChecker.py:133-137 | one more TLD appends its row's costs, and its row's requests to the count |
| Query.Checker.Throttle | DomainChecker.py:152-155 | when the limit divides the request count, a window younger than 60 seconds is slept out, recording exactly the pause `60 - elapsed`, and a new window starts now; with 60 seconds or more elapsed no pause is recorded; otherwise nothing changes; window start and clock follow `ThrottleStep` and the pauses `ThrottlePause`; the window bound is kept |
| Query.Checker.AskOne | DomainChecker.py:136-155 | one request, issued at the current clock, then the throttle: the state moves from the schedule after some requests to the schedule after one more; the failure count and prompts are unchanged |
| Query.Checker.AskRow | DomainChecker.py:134-155 | the inner loop: the row lists the statuses of `root + top` in root order, one request per root, and the state follows the schedule over the row's costs |
| Query.Checker.AskTop | DomainChecker.py:133-157 | one TLD: after its row and the update loop, `data` is the table of the TLDs seen so far, and the state follows the schedule |
| Query.Checker.GetData | DomainChecker.py:126-159 | one request per pair; the keys are the TLDs (none without roots); each row lists the statuses of `root + top` in root order; the issue times, window start, clock and pauses are exactly those of the schedule over the pairs' costs, TLDs outermost; request q, counting from 0, is issued no earlier than 60·(q / calls_per_min) seconds after the start; every pause is at most 60 seconds |

## Left out

- HTTP, the JSON decoder and the timeout are left out. A response is a supplied value: a transport failure or the decoded fields the code reads.
- An `available` value that is neither true nor false is left out. Python falls through the `match` and returns None.
- A `code` or `message` that is not a string is left out. Python's string concatenation would raise TypeError.
- `log_print`, the loading spinner, `print` and the clock string are output only. They are left out.
- The operator prompt (`input`) is modelled as a counter of prompts. What the operator types is ignored, as it is in the code.
- The wall clock is an integer that advances by the pauses, and in `get_data` by a supplied per-request cost. The two `time()` reads in the throttle are taken at one instant.
- Query.Checker.GetData: `data` is a map, so the insertion order of Python's dict, which gives the spreadsheet's column order (DomainChecker.py:337), is not modelled.
- Query.Checker.GetData: the supplied `status` always returns one of the four statuses, so a lookup that ends the program (`exit(1)` on a missing key, DomainChecker.py:120-123) or returns None (an `available` that is neither true nor false, DomainChecker.py:95-99) is not seen inside `get_data`.
- Query.Checker.GetData: the status of a domain is a supplied pure function, and the time its lookup takes is folded into the supplied `cost`. So what `get_status` itself does between requests is not seen: its `cpm_t0` reset after a rate limit, its pauses (five seconds, or `retryAfterSec`, which may exceed sixty), its operator prompts and its failure-count changes. The clauses that prompts and the failure count are unchanged, and that every recorded pause is at most sixty seconds, hold for this model only. `GetStatus` models those effects on its own.
- Query.Run: the `NoAnswer` verdict exists only in the model, for when the supplied responses run out.
- Query.Run: every retry in the program is a nested self-call, so after about a thousand retries in a row Python raises an uncaught RecursionError and the program ends. The model's retries have no depth limit.
- Query.Classify: `retryAfterSec` is a natural number. A negative delay, on which `sleep` raises ValueError, is not modelled.
- Validity.IsValidDomain: the empty string is excluded by the precondition. Python raises IndexError on `string[0]`.
- Generator.CreateGenRoot2: the preconditions (non-empty boundary strings whose first characters are in the alphabet) stand for the IndexError or ValueError Python raises otherwise. The same holds for CreateGenRoot3 and CreateGenRoot4.
- Generator.CreateGenRoot5End4: requires `fchar` in the alphabet. Python raises ValueError in `get_general_value` otherwise.
- Ordinal.GetGeneralValue: requires a label. Python raises ValueError on any other character.
- Exports (`export_to_excel`, CSV), TLD and root-domain imports, `general_search`, `specific_search`, configuration loading and the menu are outside the core. They are left out.
