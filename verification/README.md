# radosgw-admin command registry, modelled in Dafny

This project models the command front end of a small `radosgw-admin` style
tool (`main.cpp`). Its parts are:

* **The string helpers.** `merge_strings` joins tokens with single blanks,
  `split` is a whitespace tokeniser over an `std::istringstream`, and
  `start_with` is a prefix test on NUL-terminated C strings.
* **The `Command` value.** It holds an id, a non-empty token list and a help
  text. Its constructor throws `std::logic_error` on an empty token list.
* **The `CommandsParser` registry.** It owns a vector of commands and a
  "sorted" flag. Its operations:
  * `register_command` appends a command and clears the flag;
  * `sort_` sorts the vector lazily by token list;
  * `recognize_command` narrows a range of the sorted vector token by token
    with `std::lower_bound` / `std::upper_bound`, and returns as soon as one
    command is left;
  * `print_help` lays out the command table.
* **The three option validators** `process_command<...>`, which check which
  options were given and write a confirmation line.
* **`register_commands`**, which builds the registry of the three built-in
  commands.

Modules and files:

| file | module | what it holds |
|---|---|---|
| `common.dfy` | `Common` | `Option`, `Result`, the `logic_error` value, the prefix relation |
| `lex_order.dfy` | `LexOrder` | lexicographic order over any element order: `std::string` and `std::vector<std::string>` comparison |
| `strings.dfy` | `Strings` | `merge_strings`, `split`, `start_with` as methods with loops, each proved against a specification function |
| `commands.dfy` | `Commands` | `ECommand`, `Command`, the checked constructor |
| `sorting.dfy` | `Sorting` | the order `sort_` establishes; a reference sort proved ordered and a permutation |
| `matcher.dfy` | `Matcher` | the specification `Recognize` of `recognize_command`, its properties, and the range-narrowing loop with its two binary searches |
| `parser.dfy` | `Parser` | the class `CommandsParser`, `print_help`'s layout, `register_commands` and facts about the built-in registry |
| `handlers.dfy` | `Handlers` | the three validators, dispatch by id, and decimal output of the uid |

Design decisions:

* **Short commands.** `get_text()[token_num]` is indexed without a bounds
  check (main.cpp:109, 114). The model reads a command that has no token at
  that position as sorting before every token. This agrees with the
  lexicographic order `sort_` uses, since a proper prefix sorts first.
  Recognition therefore needs no precondition on the registry.
* **Early return.** Recognition returns as soon as exactly one command
  remains, even when tokens are left over (main.cpp:118-120). The
  specification `Recognize` keeps this behaviour.
* **Recognition result.** `RecognizeCommand` sorts the registry and runs the
  loop. Its result equals `Recognize` applied to the registry as it was
  before sorting, so registration order never shows.
* **Validator input and output.** The `po::variables_map` is a
  `map<string, OptValue>`. A validator's output line is returned as a string
  that ends in `"\n"` for `std::endl`. `print_help` returns its lines without
  terminators.
* **Characters are bytes.** A model `char` stands for one byte of a
  `std::string` or C string, with values 0 to 255. With that reading the
  model is exact on bytes:
  * `split` tests `isspace` in the "C" locale;
  * `strcmp` and `std::string` compare as `unsigned char`;
  * `print_help` measures names with `size()`, which counts bytes.

  A UTF-8 name such as `ü x` is therefore three model characters long.
  Each of its bytes is one model `char`.
* **Bad casts.** `boost::any_cast` on a value of the wrong type throws. This
  is the `BadCast` outcome. The option declarations (main.cpp:219-228) rule
  it out, as `WellTyped` states.

## Model

| member | source | states |
|---|---|---|
| Strings.MergeStrings | main.cpp:15-21 | the accumulated string equals `Joined(v)`: the tokens in order, separated by single blanks; the source needs a non-empty vector |
| Strings.JoinedLength | main.cpp:15-21 | the merged length is the sum of the token lengths plus one blank per gap |
| Strings.Split | main.cpp:61-70 | the tokens the extraction loop pushes are exactly `Tokens(s)`, the maximal whitespace-free runs of `s` in order |
| Strings.TokensAreWords | main.cpp:61-70 | every extracted token is non-empty and contains no whitespace |
| Strings.TokensEmptyIff | main.cpp:61-70 | `split` yields nothing exactly when the text is all whitespace (both directions) |
| Strings.TokensOfWordThen | main.cpp:61-70 | a word followed by whitespace or the end of the text is extracted whole, and extraction continues after it |
| Strings.SplitJoined | main.cpp:61-70 | round trip: splitting the merged text of non-empty, whitespace-free tokens gives back the tokens |
| Strings.StartWith | main.cpp:72-80 | the result is true exactly when the C string `pref` is a prefix of the C string `str`; the loop stays within both strings' first terminator |
| Commands.MakeCommand | main.cpp:27-32 | construction succeeds exactly when the token list is non-empty and then keeps id, text and help; otherwise it fails with `logic_error("command-text is empty")` |
| LexOrder.LexIrreflexive | main.cpp:156-159 | no token list (or string) sorts before itself |
| LexOrder.LexTransitive | main.cpp:156-159 | the lexicographic order is transitive when the element order is a strict total order |
| LexOrder.LexTotal | main.cpp:156-159 | any two different sequences are ordered one way or the other |
| LexOrder.LexAsymmetric | main.cpp:156-159 | two sequences are never each before the other |
| LexOrder.LexNotAfterTransitive | main.cpp:156-159 | "not after" chains, the order a sorted vector keeps between any two positions |
| LexOrder.LexLessDropPrefix | main.cpp:108-115 | sequences sharing a prefix compare as their remainders do: the comparators at token `p` decide within a range that agrees on tokens before `p` |
| LexOrder.StrLessIsStrictTotal | main.cpp:108-115 | string comparison is a strict total order |
| LexOrder.TextLessIsStrictTotal | main.cpp:156-159 | token-list comparison, the key of `sort_`, is a strict total order |
| Sorting.Insert | main.cpp:154-162 | inserting adds exactly one occurrence of the command to the multiset of commands |
| Sorting.ConsSorted | main.cpp:154-162 | a command not after any element of a sorted list can be put in front of it |
| Sorting.InsertSorted | main.cpp:154-162 | inserting into a sorted list keeps it sorted |
| Sorting.SortByText | main.cpp:154-162 | the sorted list is a permutation of the input and ordered by token list |
| Matcher.CandidatesCount | main.cpp:100-124 | a command is a candidate as often as it is registered if it agrees with the consumed tokens, never otherwise |
| Matcher.CandidatesPermutation | main.cpp:100-124 | the candidates depend only on which commands are registered, not on their order |
| Matcher.CandidatesSameShape | main.cpp:116-120 | permuted registries have equally many candidates, and the same one when exactly one is left |
| Matcher.CandidatesSlice | main.cpp:100-124 | when the agreeing commands are exactly the positions `[lo, hi)`, the candidates are that slice |
| Matcher.CandidatesNarrow | main.cpp:107-117 | consuming another token only removes candidates: the active range only shrinks |
| Matcher.SingleCandidate | main.cpp:118-120 | a lone candidate is registered exactly once and is the only registered command agreeing with the consumed tokens |
| Matcher.RecognizeNoTokens | main.cpp:107-123 | with no positional token (`argc == 1`) the answer is `nullptr` |
| Matcher.RecognizeSound | main.cpp:103-121 | a non-null answer is the unique command agreeing with the first `k` tokens, where `k` is the first point with fewer than two agreeing commands |
| Matcher.RecognizeFromSound | main.cpp:103-121 | the same from any position the loop has reached |
| Matcher.RecognizeAt | main.cpp:111-120 | conversely: at the first point with fewer than two agreeing commands, none gives `nullptr` and one gives that command |
| Matcher.RecognizeFromAt | main.cpp:111-120 | the same from any position the loop has reached |
| Matcher.RecognizeIncomplete | main.cpp:121-123 | tokens exhausted while two or more commands agree gives `nullptr` |
| Matcher.RecognizeFromIncomplete | main.cpp:121-123 | the same from any position the loop has reached |
| Matcher.RecognizeOrderIndependent | main.cpp:100-124 | any permutation of the registry recognises the same command |
| Matcher.RecognizeFromOrderIndependent | main.cpp:100-124 | the same from any position the loop has reached |
| Matcher.OwnTextRecognized | main.cpp:100-124 | in a registry where no text is a prefix of another, a command's own tokens select it, whatever tokens follow |
| Matcher.OwnTextFrom | main.cpp:100-124 | the same from any position within the command's own tokens |
| Matcher.KeysInOrder | main.cpp:108-115 | for two texts in sorted order that share the consumed tokens, both comparators are monotone at the next token |
| Matcher.SortedRangePartitioned | main.cpp:108-115 | a sorted range agreeing on the consumed tokens is partitioned for both comparators, as `lower_bound` and `upper_bound` require |
| Matcher.LowerBound | main.cpp:108-110 | the bound splits the range into commands whose token sorts before the key and commands whose token does not |
| Matcher.UpperBound | main.cpp:113-115 | the bound splits the range into commands whose token is not after the key and commands whose token is after it |
| Matcher.NarrowStep | main.cpp:107-117 | after both searches, the commands agreeing with one more token are exactly those between the two bounds |
| Matcher.FindCommand | main.cpp:103-123 | the range-narrowing loop over a sorted registry returns exactly `Recognize`; invariant: the range is the set of commands agreeing with the consumed tokens |
| Parser.NameWidthIsMax | main.cpp:132-137 | the running maximum is the longest merged name: no name is longer, some name has that length, and it is 0 for an empty registry |
| Parser.HelpTableColumns | main.cpp:140-146 | each row starts with the merged name, is blank up to column `max_cmd_len + 4`, and has the help text from that column on |
| Parser.CommandsParser.constructor | main.cpp:150-151 | a new registry is empty and unsorted |
| Parser.CommandsParser.RegisterCommand | main.cpp:95-98 | fails with `logic_error` exactly when the text has no token, and then changes nothing; otherwise appends the one command with text `split(text)`, clears the flag and keeps the earlier commands |
| Parser.CommandsParser.SortCommands | main.cpp:154-162 | afterwards the vector is a permutation of the old one, sorted, and the flag is set; when the flag was already set nothing changes |
| Parser.CommandsParser.RecognizeCommand | main.cpp:100-124 | the answer is `Recognize` on the registry before sorting, and a non-null answer is a registered command; the registry becomes a sorted permutation of itself, and stays exactly as it was when the flag was already set |
| Parser.CommandsParser.PrintHelp | main.cpp:126-147 | the output is "commands:" followed by one padded row per command, in the current (not necessarily sorted) order |
| Parser.NameColumn | main.cpp:129-138 | the first loop collects every merged name and help text in order, and the longest name length |
| Parser.TableLines | main.cpp:140-146 | the second loop emits exactly the rows of the help table |
| Parser.PadLine | main.cpp:141-145 | one row: the name, `max_cmd_len - size` blanks, four blanks, the help text |
| Parser.RegisterCommands | main.cpp:211-217 | the registry holds the three built-in commands in registration order, unsorted |
| Parser.BuiltinTexts | main.cpp:213-215 | the three literals split into `user create`, `user delete`, `user info` |
| Parser.BuiltinsPrefixFree | main.cpp:213-215 | no built-in text is a prefix of another |
| Parser.BuiltinRecognition | main.cpp:100-124 | with the built-in registry, `user` gives `nullptr`, and `user info`, with or without further tokens, gives the info command |
| Parser.BuiltinUnknownCommand | main.cpp:111-112 | with the built-in registry, a first token other than `user` gives `nullptr` |
| Handlers.Digits | main.cpp:178-180 | the decimal form of a magnitude is a non-empty string of digits |
| Handlers.DigitsRoundTrip | main.cpp:178-180 | reading the digits back gives the number, and there is no leading zero |
| Handlers.DecimalRoundTrip | main.cpp:178-180 | the printed uid, sign included, reads back as the same number |
| Handlers.DecimalExamples | main.cpp:178-180 | uid 200 prints as `200`, uid 7 as `7` |
| Handlers.ExactKeys | main.cpp:167-177 | "at most n options and all n required ones present" is the same as "exactly the required options" |
| Handlers.ProcessUserCreate | main.cpp:165-182 | rejects exactly when the options are not exactly `uid`, `display-name`, `email`; otherwise writes `user created with uid <uid> display-name <dn> and email <email>` (or throws on a mistyped value) |
| Handlers.ProcessUserDelete | main.cpp:184-193 | rejects exactly when the options are not exactly `uid`; otherwise writes `user with uid <uid>  was deleted`, with two blanks |
| Handlers.ProcessUserInfo | main.cpp:195-204 | rejects exactly when the options are not exactly `uid`; otherwise writes `info about user with uid <uid>` |
| Handlers.Process | main.cpp:206-209 | the handler registered for a command's id rejects exactly when the options differ from that command's option set, and never throws on well-typed options |
| Handlers.CreateExample | main.cpp:165-182 | `--uid 200 --display-name foo --email foo@gmail.com` writes `user created with uid 200 display-name foo and email foo@gmail.com` |
| Handlers.DeleteExample | main.cpp:184-193 | `--uid 200` writes `user with uid 200  was deleted` |
| Handlers.InfoExample | main.cpp:195-204 | `--uid 7` writes `info about user with uid 7` |
| Handlers.WrongKeysRejected | main.cpp:165-204 | an option the command does not take, or a missing `uid`, makes every handler refuse |

## Left out

- `main` (main.cpp:241-271) is left out. It covers option parsing with `boost::program_options`, `po::store`/`po::notify`, the catch-all handler and the exit code. The parsed option map is an input of the handlers instead.
- `register_options` (main.cpp:219-228) is a Boost library call. Only the value types it declares are kept, as `WellTyped` and `Int32`.
- The free functions `print_help` and `print_help_on_error` (main.cpp:230-239) are standard-output glue around Boost's `options_description::print`. They are not part of this model. Only the command table is modelled, as returned lines.
- `std::function` callbacks and `std::unique_ptr` ownership are not modelled. Dispatch is a match on `ECommand`, and the registry is a sequence of `Command` values, so results are values rather than pointers into the vector.
- `get_help`, `get_text`, `get_merged_text` and `get_id` are field reads, or `merge_strings` on the text. They are used directly.
- The deleted copy operations and defaulted move operations (main.cpp:87-93) have no behaviour and are not modelled.
- `std::sort` is library code and its algorithm is not modelled. `Sorting.SortByText` is a reference sort with the two guarantees `std::sort` gives: the result is ordered and is a permutation. Among commands with equal texts the model's order may differ from `std::sort`'s, which is not stable.
- `strcmp` in the comparators and `std::string` comparison in `sort_` agree on strings without an embedded NUL. Command-line arguments cannot contain one, and the model does not represent the difference.
- Strings.StartWith: the contract states the result only. That the loop never reads past either terminator is carried by its loop invariants, not by an `ensures` clause.
- The `--help` switch is modelled only as a possible key in the option map. `main` handles it before dispatch.
