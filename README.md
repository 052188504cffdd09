# Alarm request parser and alarm list

This project models the sequential core of a console alarm program. It has three parts:

- **The command parser** (`parse_request`). It reads one line and tries three grammars in a fixed order:
  - `Start_Alarm(<id>): <period> <message>`
  - `Change_Alarm(<id>): <period> <message>`
  - `Cancel_Alarm(<id>)`

  The first grammar that matches decides the request's kind, and its submatches give the id, the period and the message. If no grammar matches, there is no request.
- **The alarm list.** The main thread keeps a chain of request nodes behind a zero-initialised header node. `insert_to_alarm_list` links a new node in before the first node with a strictly later time, or at the end.
- **The request record and `request_type_string`**, the table that names each kind.

The modules follow the source files:

- `Types` (types.dfy) covers types.h: the kind enum, the request record and the name table.
- `CommandParser` (command_parser.dfy) covers Command_Parser.c.
  - The library regex matcher is replaced by `MatchAt`/`SearchFrom`/`Regexec`, a matcher written for these three grammars.
  - `Matches` transcribes each regular expression atom by atom.
  - `RegexecIsLeftmostLongest` proves that the matcher reports what POSIX `regexec` reports: no match exactly when none exists, and otherwise the leftmost match, the longest one starting there, and its submatches.
  - `ParseRequest` is the loop over the table, with `continue` and an early return. It is proved equal to the function `Parse`.
- `NewAlarmCond` (new_alarm_cond.dfy) covers New_Alarm_Cond.c.
  - Nodes are objects with a mutable `next` link. `AlarmList` holds the header, plus the ghost sequences `nodes` and `Contents` (the requests after the header).
  - `Insert` mirrors the `current`/`next` walk. It is proved to leave `Contents == InsertSorted(old(Contents), request)` and to splice the node into the chain.
  - `InsertSorted` is a recursive reference definition with lemmas for order, permutation, stability and growth.
  - The newline strip writes a NUL into an `array<char>`, as the C code does in its input buffer.
- `Wrappers` (wrappers.dfy) holds `Option`, which stands for a pointer that may be NULL.

Numbers are exact. A C `int` is the subset type `Int32`. Where the C code would overflow a buffer or an `int`, the model states a precondition instead:
- `Representable` requires each digit run that the chosen grammar converts to be under 64 characters, with a value at most `IntMax`.
- It also requires the message to be under 128 characters.

A string is a sequence of Dafny `char`, and one `char` stands for one byte of the C line. So the 64-byte digit buffers and the 128-byte `message` array become bounds on `char` counts, and a multi-byte character of the input counts as several `char`s.

`NineDigitsFit` shows that any run of at most nine digits meets the value bound.

Where the code and its documented behaviour differ, the model follows the code:
- The documentation promises that over-long numbers and messages are truncated or clamped. The code does neither (see "Left out").
- The documentation promises that a Start on an existing id is refused. The code inserts every request, so `InsertSortedIgnoresIds` proves that a duplicate id is added.
- A comment in the insertion says the list is sorted by alarm id. The code compares `time`, and so does the model.

## Model

| member | source | states |
|---|---|---|
| Types.Ordinal | types.h:8-12 | the enum value of a kind is 0, 1 or 2, in declaration order, and always indexes the name table |
| Types.RequestTypeString | types.h:30-52 | the lookup is total: every request's kind has a name, and that name is one of the table's entries |
| Types.RequestTypeStringNames | types.h:41-45 | each kind is named by its own identifier: Start_Alarm, Change_Alarm, Cancel_Alarm |
| Types.RequestTypeStringInjective | types.h:41-45 | two requests get the same name exactly when they have the same kind |
| CommandParser.DigitRunEnd | Command_Parser.c:25 | the end of the longest digit run at a position: everything before it is a digit, and the character at it is not |
| CommandParser.Matches | Command_Parser.c:22-38 | defines when a grammar of the table matches line[p..q] with given submatches, one conjunct per atom of the extended regular expression: the keyword and `(`, a digit run, `)`, and for Start and Change `:`, one `[[:space:]]`, a digit run, one `[[:space:]]` and `.*` to q; the Cancel grammar has no period and ends at `)` |
| CommandParser.MatchAt | Command_Parser.c:22-38 | a match found at p starts at p and has one span per submatch, all inside the line |
| CommandParser.SearchFrom | Command_Parser.c:97-103 | the reported match is the first position at or after i where a match starts, and no match starts before it; "none" means no match starts at any position from i to the end |
| CommandParser.Regexec | Command_Parser.c:97-103 | an unanchored search of the whole line whose spans lie inside the line |
| CommandParser.DigitRunIsForced | Command_Parser.c:25 | a digit run followed by a non-digit is exactly the longest run, so each `[0-9]+` has one possible extent |
| CommandParser.MatchAtSound | Command_Parser.c:22-38 | everything the matcher finds is a match of the regular expression |
| CommandParser.MatchAtComplete | Command_Parser.c:22-38 | every match of the regular expression at p is found by the matcher, or is shorter; a period grammar's match runs to the end of the line; a Cancel match has only one possible length |
| CommandParser.RegexecIsLeftmostLongest | Command_Parser.c:97-110 | REG_NOMATCH exactly when the grammar matches no part of the line; otherwise the reported match is the leftmost, then longest, and its submatches are the only ones possible |
| CommandParser.NoMatchWithoutKeyword | Command_Parser.c:22-38 | a grammar whose keyword has a character that the line lacks matches nowhere |
| CommandParser.NoMatchStartsIn | Command_Parser.c:22-38 | no match starts where the keyword's first letter is absent |
| CommandParser.SearchFindsFirst | Command_Parser.c:97-103 | when no match starts between i and pos, the search from i reports the match at pos |
| CommandParser.DecimalValueBound | Command_Parser.c:156 | the value atoi gives for n digits is below 10^n |
| CommandParser.NineDigitsFit | Command_Parser.c:156-168 | any id or period of at most nine digits fits in an int |
| CommandParser.DecimalValue | Command_Parser.c:151-168 | defines the value `atoi` gives for a run of decimal digits that is followed by a non-digit: the digits read most significant first, in base ten |
| CommandParser.LeadingDigitsValue | Command_Parser.c:151-168 | defines what `atoi` reads from a buffer that starts with digits: the value of its whole leading digit run, stopping at the first non-digit |
| CommandParser.AtoiUnterminated | Command_Parser.c:151-168 | defines the id and period conversion as the code writes it: `strncpy` copies exactly the matched digits over the buffer's earlier 64 characters with no terminator, and `atoi` reads the leading digit run of the result, stale digits included |
| CommandParser.StaleDigitCounterexample | Command_Parser.c:151-156 | a buffer that held "12", with the digit run "3" copied over it, converts to 32 and not 3 |
| CommandParser.AtoiUnterminatedCorrectWhen | Command_Parser.c:151-156 | the unterminated copy gives the right value whenever the old byte after the digits is not a digit |
| CommandParser.AtoiTerminated | Command_Parser.c:151-168 | with a terminator after the copied digits, atoi gives exactly the digit run's decimal value, whatever the buffer held before |
| CommandParser.FirstMatch | Command_Parser.c:73-110 | the first table entry from i on whose grammar matches, with every earlier entry not matching; "none" when no entry from i on matches |
| CommandParser.Build | Command_Parser.c:147-183 | defines the request that is filled in from the entry that matched: its kind, the id from submatch 1 and the period from submatch 2 when the entry has them (else 0), and the message from submatch 3 (else the empty string) |
| CommandParser.Parse | Command_Parser.c:48-190 | every request has a non-negative id and time; a Cancel has time 0 and an empty message |
| CommandParser.ParseRequest | Command_Parser.c:73-189 | the loop over the table, with `continue` on REG_NOMATCH and an early return, returns exactly `Parse` of its input |
| CommandParser.TableMatchesTypeNames | Command_Parser.c:22-38 | the table `Regexes` (the const that models `regexes[]`) lists the kinds in enum order, the first two grammars with a period and 4 expected submatches and the Cancel grammar with neither period nor message and 2, and each grammar's keyword is its kind's name |
| CommandParser.KeywordIsTypeName | Command_Parser.c:24-35 | the name of a request's kind is the keyword that the grammar for that kind requires |
| CommandParser.ParseNoneIffNoGrammarMatches | Command_Parser.c:105-110 | no request exactly when none of the three regular expressions matches any part of the line |
| CommandParser.ParseFollowsTableOrder | Command_Parser.c:73-147 | the kind is Start exactly when Start matches; Change exactly when Start does not match and Change does; Cancel exactly when only Cancel matches |
| CommandParser.RegexecSubmatches | Command_Parser.c:25-35 | the id submatch is digits; for a period grammar there is exactly `):` and one whitespace character before the period digits, one whitespace character after them, and a message from there to the end of the line |
| CommandParser.ParseExtractsFields | Command_Parser.c:147-183 | the id is the decimal value of the digits in the parentheses; for Start and Change the period is the value of the digit run after `):` and one whitespace character, and the message is the rest of the line after the single separator; a Cancel has time 0 and an empty message |
| CommandParser.BuildExtracts | Command_Parser.c:147-183 | a request built from a pattern's match has that pattern's type, and its id, period and message are the texts of the matched groups as the fields are laid out in the line |
| CommandParser.WithPeriodLineMatches | Command_Parser.c:25-30 | any prefix, keyword, digits, `):`, whitespace, digits, whitespace and message form a longest match whose submatches are those pieces |
| CommandParser.CancelLineMatches | Command_Parser.c:35 | any prefix + `Cancel_Alarm(` + digits + `)` + any text is a match whose id submatch is the digits |
| CommandParser.RegexecFinds | Command_Parser.c:97-103 | a longest match with no match further left is the result regexec reports |
| CommandParser.ParseOfFirstMatch | Command_Parser.c:73-185 | when entry i is the first to match and its fields fit, the request is built from entry i's submatches |
| CommandParser.ParseWithPeriod | Command_Parser.c:25-30 | unanchored: a Start or Change command preceded by any text is parsed to its id, period and message when no earlier grammar matches and no match of its own grammar starts further left |
| CommandParser.ParseCancel | Command_Parser.c:35 | unanchored: a Cancel command with any text before and after it is parsed to its id, with time 0 and no message, when neither period grammar matches |
| CommandParser.ParseStartAfter | Command_Parser.c:22-27 | a Start command after text that contains no 'S' is parsed to exactly its fields |
| CommandParser.ParseCancelAfter | Command_Parser.c:33-37 | a Cancel command after text with no 'C', in a line with no 'S' and no 'h', is parsed to its id |
| CommandParser.ParseNoneWithoutChangeOrCancel | Command_Parser.c:73-189 | when Start does not match and the line has no 'h' and no 'C', there is no request |
| CommandParser.ExampleStart | Command_Parser.c:25 | "Start_Alarm(1): 5 wake up" gives a Start request with id 1, period 5 and message "wake up" |
| CommandParser.ExampleStartInsideChange | Command_Parser.c:22-32 | "Change_Alarm(1): 2 Start_Alarm(3): 4 y" gives a Start request with id 3: Start is tried first, and anywhere in the line |
| CommandParser.ExampleCancelWithSurroundingText | Command_Parser.c:35 | "> Cancel_Alarm(9) now" gives a Cancel request with id 9 |
| CommandParser.ExampleMissingSeparator | Command_Parser.c:25 | "Start_Alarm(1):5 x", which lacks the whitespace after the colon, gives no request |
| NewAlarmCond.Node.constructor | types.h:17-24 | a fresh node carries the given request and its `next` link is NULL; the fields of `alarm_request_t` other than `next` are the request it carries |
| NewAlarmCond.InsertSorted | New_Alarm_Cond.c:35-56 | defines the list after a sorted insertion, by recursion: the request goes before the first request whose time is strictly later, and at the end when there is none; `AlarmList.Insert` is proved to produce exactly this |
| NewAlarmCond.InsertionPoint | New_Alarm_Cond.c:41-50 | the walk stops at the first request with a strictly later time, after every request whose time is the same or earlier |
| NewAlarmCond.InsertionPointUnique | New_Alarm_Cond.c:42 | only one position satisfies those conditions |
| NewAlarmCond.InsertSortedSplice | New_Alarm_Cond.c:41-55 | insertion keeps the old requests in order and puts the new one at the insertion point, so on ties it goes after the requests already listed |
| NewAlarmCond.InsertSortedAddsOne | New_Alarm_Cond.c:41-55 | the list grows by exactly one, the new request is at the insertion point, and removing it gives back the old list |
| NewAlarmCond.InsertSortedAppendsLast | New_Alarm_Cond.c:53-55 | when no request has a later time, the new one is appended and becomes the last |
| NewAlarmCond.InsertSortedKeepsSorted | New_Alarm_Cond.c:35-56 | a list sorted by time stays sorted after the insertion |
| NewAlarmCond.InsertSortedIsPermutation | New_Alarm_Cond.c:41-55 | the new list holds exactly the old requests plus the new one |
| NewAlarmCond.InsertSortedIgnoresIds | New_Alarm_Cond.c:61-63 | insertion never rejects: a request whose id is already listed still adds one more entry with that id |
| NewAlarmCond.AlarmList.constructor | New_Alarm_Cond.c:13 | the list at start: the zero-initialised header alone |
| NewAlarmCond.AlarmList.Insert | New_Alarm_Cond.c:35-56 | the walk links the node in so that the requests become `InsertSorted` of the old ones; the chain is the old chain with the node spliced in after the header and the nodes that stay before it; sortedness is kept |
| NewAlarmCond.AlarmList.LinkAfter | New_Alarm_Cond.c:44-45 | setting the predecessor's link and the new node's link yields a valid chain with the node and its request spliced in, and nothing else changes |
| NewAlarmCond.AlarmList.HandleRequest | New_Alarm_Cond.c:61-63 | handling a request is its sorted insertion, with no check of its id |
| NewAlarmCond.AlarmList.HandleRequestThreadSafe | New_Alarm_Cond.c:65-93 | the locked variant performs the same sorted insertion |
| NewAlarmCond.UpTo | New_Alarm_Cond.c:124 | the text before the first occurrence of a character: a prefix of the input without that character, ending where the character first occurs (or the whole input when it does not occur); the string a NUL-terminated buffer holds and the line cut at its first newline are both this |
| NewAlarmCond.CString | New_Alarm_Cond.c:124 | defines the string a NUL-terminated buffer holds as the text before its first NUL, so by `UpTo` a prefix without NUL that ends at the first NUL |
| NewAlarmCond.TruncateAtNewline | New_Alarm_Cond.c:124 | defines the line cut at its first newline as the text before the first `\n`, so by `UpTo` a prefix without newline that ends at the first newline |
| NewAlarmCond.NewlineSpan | New_Alarm_Cond.c:124 | strcspn stops at the first newline or NUL, and no earlier character is either |
| NewAlarmCond.TruncateAtNewlineUnchanged | New_Alarm_Cond.c:124 | a line without a newline is left unchanged |
| NewAlarmCond.TruncateAtNewlineIdempotent | New_Alarm_Cond.c:124 | cutting twice is the same as cutting once |
| NewAlarmCond.NulAtNewlineCutsLine | New_Alarm_Cond.c:124 | writing a NUL where strcspn stops leaves the buffer holding the line cut at its first newline |
| NewAlarmCond.StripNewline | New_Alarm_Cond.c:124 | the buffer changes in exactly one place, where strcspn stops, and then holds the cut line |
| NewAlarmCond.HandleLine | New_Alarm_Cond.c:129-142 | a line that parses adds its request by sorted insertion; a bad command leaves the list unchanged |
| NewAlarmCond.ProcessLine | New_Alarm_Cond.c:123-142 | the buffer afterwards differs from before only in the one cell where `strcspn` stopped, which now holds NUL; the stripped line is parsed, its request, if any, is inserted into the list in sorted order, and otherwise the list's contents stay the same |

## Left out

- Console input and output are left out: reading a line with `fgets`, the prompt, "Bad command" and the success message with its `time(NULL)` stamp. `ProcessLine` takes the buffer that `fgets` filled, as a NUL-terminated array.
- The mutex and the condition variable are left out, because they are concurrency. `HandleRequestThreadSafe` is the insertion alone.
- `alarm_thread` returns NULL and does nothing. The alarm thread, the period threads, the display list, the bounded buffer and the id-uniqueness checks that the documentation describes are not in the code, so they are not modelled.
- The exits on a regex compile or match failure, and the `malloc` failure abort, are foreign calls and left out. The `regfree` bookkeeping and the freeing of nodes are left out too.
- debug.h is not part of this model. It only prints, and is compiled out without DEBUG.
- `creation_time` is never set by this code and is not a field of the model's request. The `next` link is the `next` field of `NewAlarmCond.Node`.
- `periodic_display_thread_t` is left out, because it only carries thread handles.
- CommandParser.Parse: the code has undefined behaviour where a digit run is 64 characters or longer, its value exceeds INT_MAX, or the message is 128 characters or longer. It overflows a buffer, an `int`, or writes out of bounds. `Representable` excludes these lines instead of modelling that behaviour. Nothing is truncated or clamped, because the code does not do either.
- CommandParser.ParseRequest: the id and period use the terminated conversion (`DecimalValue`, which `AtoiTerminated` is proved to compute). The code's conversion is modelled separately as `AtoiUnterminated` (see "Findings"), because it depends on stack contents the program never sets.
- NewAlarmCond.AlarmList.Insert: allocation of the node happens in the parser in C. Here `HandleLine` creates the node right after `ParseRequest` returns.

## Findings

| source | as written | input that shows it | evidently intended | confidence | as-written member | corrected member |
|---|---|---|---|---|---|---|
| Command_Parser.c:151-168 | `strncpy` copies exactly the matched digits into the 64-byte id or period buffer without a terminating NUL, and `atoi` then reads on into whatever the uninitialised buffer held | a buffer left holding "12" from an earlier line and the id "3": the id becomes 32 | the buffer is terminated after the copied digits, so `atoi` reads exactly the matched run | high; not executed | CommandParser.AtoiUnterminated, CommandParser.StaleDigitCounterexample | CommandParser.AtoiTerminated |
