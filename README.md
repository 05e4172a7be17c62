# Cucumber scenario-outline steps, modelled in Dafny

This project models `Cucumber::Ast::Step` (`lib/cucumber/ast/step.rb`): a
step inside a scenario outline, kept as a *template*. A template's name holds
`<header>` placeholder tokens, and it may carry a multiline argument (a doc
string or a table). For each row of the outline's examples table the step
works out four things:
- the concrete step name, by putting the row's values in place of the tokens;
- the concrete multiline argument, using the same token mapping;
- which of the row's cells it used;
- for the outline preview, the first row whose concrete name finds a step
  definition.

It also has a few display helpers: the `:skipped` status, the text length,
the DOM id and the s-expression.

The files:

- `wrappers.dfy`: the `Option` and `Result` datatypes.
- `ruby_string.dfy` (`RubyString`): the two Ruby `String` operations the
  step relies on, over strings as sequences of code points:
  - `String#index` with a string argument (`Index`). Ruby reads position 0 as
    truthy, so the step's test is "occurs anywhere" (`Contains`).
  - `String#gsub` with a literal pattern (`ReplaceAll`). It replaces matches
    left to right, without overlap, and resumes after each match. An empty
    pattern follows Ruby: the replacement goes before every character and
    once at the end.
- `ordered_hash.dfy` (`OrderedHash`): Ruby's insertion-ordered `Hash`, kept
  as a list of key/value pairs. Insertion order is what Ruby 1.9 and later
  guarantee. Ruby 1.8 leaves the order of `Hash#each` unspecified, yet the
  source also uses 1.8 idioms such as `unpack('U*')`. The model assumes
  Ruby 1.9 or later for `Hash` order. It does not rely on how later versions
  read `text_length`'s default argument (see "## Left out").
  - `Store` is `h[k] = v`. An existing key keeps its place and takes the new
    value; a new key is appended.
  - `FromPairs` builds a hash by storing pairs in turn. Both the row's
    `to_hash` and the `inject` fold of `delimit_argument_names` are modelled
    this way.
- `placeholders.dfy` (`Placeholders`): the placeholder codec.
  - `delimited` and `delimit_argument_names`.
  - `replace_name_arguments`, as a loop method proved against the
    specification function `SubstituteAll`.
- `selection.dfy` (`Selection`): Ruby's `select` when each position's
  keep/drop decision is known. It gives the kept elements in order
  (`Select`) and the kept positions (`Positions`).
- `steps.dfy` (`Steps`): the step itself.
  - The step is an immutable value, since none of the modelled operations
    changes its fields. Construction (`NewStep`) fails without a language.
  - `matched_cells` and `first_match` are loop methods (`MatchedCells`,
    `FirstMatch`) proved against specification functions (`MatchedCellsOf`,
    `FirstMatchOf`).
  - `step_invocation_from_cells` is a method that calls them.
  - The multiline argument's operations (`arguments_replaced`, `has_text?`,
    `to_sexp`) are a record of functions, `MultilineOps`.
  - The runtime's step matcher is a function that returns `Found(m)`,
    `NotFound` or `Errored(reason)`. `Errored` stands for the exception that
    `rescue nil` swallows.

An example row is its cells together with the header row of its table (the
`header_cell(col_index)` lookup). The `Row` type holds rows that have a
header for every cell. Each cell records its own column in the row, so
`matched_cells` hands back the row's own cells: two cells with equal values
in different columns remain different cells.

## Model

| member | source | states |
|---|---|---|
| `Steps.NewStep` | lib/cucumber/ast/step.rb:16-19 | construction fails with "Language is required!" exactly when the language is nil; otherwise the step holds the given language, location, keyword, name and argument |
| `Steps.Status` | lib/cucumber/ast/step.rb:30-33 | the status of an outline step is always skipped |
| `Steps.StepInvocationOf` | lib/cucumber/ast/step.rb:35-37 | `step_invocation` carries the step, its unsubstituted name and argument, and an empty cell list |
| `Steps.ToHash` | lib/cucumber/ast/step.rb:42 | a row read as a hash (header to value) has distinct keys |
| `Steps.RowArguments` | lib/cucumber/ast/step.rb:42-43 | the token mapping of a row has distinct keys, and every key is a token starting with `<` |
| `Steps.MatchedCellsOf` | lib/cucumber/ast/step.rb:95-103 | the kept cells are the cells at the kept positions, in row order. A position is kept iff `<header>` of its column occurs in the name (index 0 included) or in the multiline argument when there is one. Each kept cell is the row's own cell at its column, that column's header is used, and the columns strictly increase |
| `Steps.MatchedCells` | lib/cucumber/ast/step.rb:95-103 | the loop with the column counter returns exactly those cells |
| `Steps.Uses` | lib/cucumber/ast/step.rb:98-101 | a definition with no contract of its own: a header is used iff its token occurs in the name, or in the multiline argument when there is one. `RubyString.Contains` pins down the "occurs" part, and `UsedFlags`, `MatchedCellsOf`, `NoTokenNothingKept` and `SingleColumnUsed` state what follows from it |
| `Steps.UsedFlags` | lib/cucumber/ast/step.rb:98-101 | one flag per column, in column order, and each flag is whether the step uses that column's header |
| `Steps.NoTokenNothingKept` | lib/cucumber/ast/step.rb:95-103 | when no header's token occurs in the name and there is no multiline argument, no cell is kept |
| `Steps.NoPlaceholdersNothingKept` | lib/cucumber/ast/step.rb:95-103 | with no `<` in the name and no multiline argument, no cell is kept |
| `Steps.SingleColumnUsed` | lib/cucumber/ast/step.rb:97-101 | a one-column row whose header is used is kept whole |
| `Steps.SoleUsedColumn` | lib/cucumber/ast/step.rb:97-101 | in a two-column row where only one column's header is used, exactly that column's own cell is kept |
| `Steps.OwnTokenUsed` | lib/cucumber/ast/step.rb:101 | a name that is exactly one header's token uses that header, and no other header of the same length |
| `Steps.OwnTokenKeepsOwnCell` | lib/cucumber/ast/step.rb:95-103 | in a two-column row with distinct headers of one length, a name that is one header's token keeps exactly that column's own cell, whatever the cells' values |
| `Steps.EqualValuesKeptApart` | lib/cucumber/ast/step.rb:95-103 | with the row `a = 5, b = 5`, the name "<a>" keeps column a's cell and "<b>" keeps column b's, although both hold "5" |
| `Steps.CucumberCellUsed` | lib/cucumber/ast/step.rb:100-101 | "I have <count> cucumbers" keeps the cell of the column "count" |
| `Steps.InvocationFromCells` | lib/cucumber/ast/step.rb:39-47 | the invocation for a row applies one mapping to both the name and the argument. Its argument is nil iff the template has none. It carries the matched cells |
| `Steps.RowName` | lib/cucumber/ast/step.rb:41-43 | a definition with no contract of its own: the row's name is the template name with the row's token mapping substituted. `InvocationFromCells`, `NoTokenNameUnchanged`, `NameWithoutTokensUnchanged` and `CucumberInvocation` pin it down |
| `Steps.StepInvocationFromCells` | lib/cucumber/ast/step.rb:39-47 | the method returns exactly the invocation `InvocationFromCells` describes |
| `Steps.EmptyRowInvocation` | lib/cucumber/ast/step.rb:35-47 | for a row with no cells, the invocation has the name and cell list of `step_invocation`, and an argument exactly when the template has one |
| `Steps.NoTokenNameUnchanged` | lib/cucumber/ast/step.rb:41-43 | when no header's token occurs in the name, the row's name is the template's name |
| `Steps.NameWithoutTokensUnchanged` | lib/cucumber/ast/step.rb:113-120 | a name without `<` comes out of every row unchanged |
| `Steps.CucumberHash` | lib/cucumber/ast/step.rb:42 | the row `count = 5` reads as the one-pair hash |
| `Steps.CucumberInvocation` | lib/cucumber/ast/step.rb:39-47 | the row `count = 5` turns "I have <count> cucumbers" into "I have 5 cucumbers" and keeps its cell |
| `Steps.Tried` | lib/cucumber/ast/step.rb:64-67 | a definition with no contract of its own: one row's attempt asks the matcher about the row's substituted name together with the template's name. `Outcomes`, `FirstMatchOf` and `FirstMatchOnlyFound` state what follows from it |
| `Steps.Outcomes` | lib/cucumber/ast/step.rb:63-67 | the matcher's answer for each row, in row order, is for that row's substituted name together with the template's name |
| `Steps.FirstFound` | lib/cucumber/ast/step.rb:63-68 | the position of the first found answer, with no found answer before it; nil iff no answer is found |
| `Steps.FirstFoundAt` | lib/cucumber/ast/step.rb:68 | a found answer with none before it is the first found |
| `Steps.FirstMatchOf` | lib/cucumber/ast/step.rb:61-71 | the result is a no-match iff no row's name finds a definition, and then it is `NoStepMatch` of the step with its original name. Otherwise it is the match of the earliest row that finds one |
| `Steps.FirstMatch` | lib/cucumber/ast/step.rb:61-71 | the loop with its early return computes that result |
| `Steps.FirstMatchIgnoresLaterRows` | lib/cucumber/ast/step.rb:68 | once a row matches, rows appended after it change nothing |
| `Steps.FirstMatchSkipsFailures` | lib/cucumber/ast/step.rb:67-70 | rows that find nothing or raise can be dropped from the front without changing the result |
| `Steps.FoundMatch` | lib/cucumber/ast/step.rb:67-68 | an answer is read as a definition exactly when it is `Found` |
| `Steps.FirstMatchOnlyFound` | lib/cucumber/ast/step.rb:67 | two matchers that find the same definitions give the same result; raising and not finding are indistinguishable |
| `Steps.Present` | lib/cucumber/ast/step.rb:74 | one flag per element, set exactly when the element is not nil |
| `Steps.Compact` | lib/cucumber/ast/step.rb:74 | `compact` keeps at most the elements it is given, and keeps all of them in order when none is nil |
| `Steps.CompactAtPositions` | lib/cucumber/ast/step.rb:74 | `compact` returns exactly the values at the non-nil positions, in their order |
| `Steps.ToSexp` | lib/cucumber/ast/step.rb:73-75 | the s-expression is `[:step, line, keyword, name]`, followed by the argument's s-expression only when there is an argument |
| `Steps.TextLength` | lib/cucumber/ast/step.rb:81-83 | the text length is at least two indents (4) |
| `Steps.TextLengthAppend` | lib/cucumber/ast/step.rb:81-83 | each code point added to the name adds exactly one to the text length |
| `Steps.TextLengthExample` | lib/cucumber/ast/step.rb:82 | keyword "Given " with name "café" has text length 14 (code points, not bytes) |
| `Steps.DomId` | lib/cucumber/ast/step.rb:89-91 | the DOM id has the length of `file:line`, with every `/`, `.` and `:` turned into `_` and every other character kept |
| `Steps.DomIdClean` | lib/cucumber/ast/step.rb:90 | the DOM id holds no `/`, `.` or `:`, and differs from `file:line` only where it holds `_` |
| `Placeholders.Delimited` | lib/cucumber/ast/step.rb:109-111 | the token is `<`, the header, then `>` |
| `Placeholders.DelimitedRoundTrip` | lib/cucumber/ast/step.rb:109-111 | stripping the first and last character of a token gives the header back |
| `Placeholders.DelimitedInjective` | lib/cucumber/ast/step.rb:109-111 | distinct headers have distinct tokens |
| `Placeholders.TokenAbsent` | lib/cucumber/ast/step.rb:101 | a token starting with `<` never occurs in a text without `<` |
| `Placeholders.TokenPresent` | lib/cucumber/ast/step.rb:101 | a token written into a text occurs in it |
| `Placeholders.OtherTokenAbsent` | lib/cucumber/ast/step.rb:101 | the token of one header never occurs in the token of a different header of the same length |
| `Placeholders.DelimitArgumentNames` | lib/cucumber/ast/step.rb:105-107 | the result has distinct keys. From a hash with distinct keys, the result has the same length and order, and each key is the token of the input key with its value unchanged. The empty hash gives the empty hash |
| `Placeholders.SubstituteAll` | lib/cucumber/ast/step.rb:113-120 | a definition with no contract of its own: each pair in hash order replaces every occurrence of its token in the text so far, with nil read as "". `ReplaceNameArguments`, `SubstituteUnchanged`, `SubstituteSequential`, `SubstituteSingle`, `NilValueDeletes` and `ChainedSubstitution` pin it down |
| `Wrappers.Option.GetOr` | lib/cucumber/ast/step.rb:116 | `value \|\|= ''`: the value when there is one, and the default otherwise |
| `Placeholders.ReplaceNameArguments` | lib/cucumber/ast/step.rb:113-120 | the loop equals applying every pair in hash order, each replacing all occurrences in the current text, with nil read as "" |
| `Placeholders.SubstituteUnchanged` | lib/cucumber/ast/step.rb:113-120 | with no pair, or no token occurring in the text, the name is unchanged |
| `Placeholders.SubstituteSequential` | lib/cucumber/ast/step.rb:115-118 | applying a hash split in two is applying the first part, then the second |
| `Placeholders.SubstituteSingle` | lib/cucumber/ast/step.rb:116-117 | a single pair is one `gsub`, with nil read as "" |
| `Placeholders.NilValueDeletes` | lib/cucumber/ast/step.rb:116-117 | a nil value deletes its token. The text before the first occurrence is kept, the occurrence is dropped, and the text gets shorter by at least the token's length. A token that does not occur changes nothing |
| `Placeholders.CucumberExample` | lib/cucumber/ast/step.rb:105-120 | `count => 5` turns "I have <count> cucumbers" into "I have 5 cucumbers" |
| `Placeholders.CountTokenReplaced` | lib/cucumber/ast/step.rb:117 | the `gsub` of "<count>" by "5" in that name gives "I have 5 cucumbers" |
| `Placeholders.SoleTokenPrefix` | lib/cucumber/ast/step.rb:117 | up to a token whose first character is not in the text before it, that text is copied and the token is replaced |
| `Placeholders.SoleTokenSuffix` | lib/cucumber/ast/step.rb:117 | after the token, text without the token's first character is copied |
| `Placeholders.ReplaceSoleToken` | lib/cucumber/ast/step.rb:117 | a token whose first character appears nowhere else is replaced exactly once |
| `Placeholders.ChainedSubstitution` | lib/cucumber/ast/step.rb:115-118 | order matters: with `<a> => "<b>"` first and then `<b> => "x"`, "<a>" becomes "x"; in the reverse order it becomes "<b>" |
| `RubyString.IndexFrom` | lib/cucumber/ast/step.rb:101 | the result is the leftmost occurrence at or after the start position, or nil iff there is none |
| `RubyString.Index` | lib/cucumber/ast/step.rb:101 | `String#index` gives the leftmost occurrence, or nil iff there is none |
| `RubyString.Contains` | lib/cucumber/ast/step.rb:101 | the step's truthiness test on `index` holds iff the pattern occurs somewhere, at position 0 included |
| `RubyString.ReplaceFrom` | lib/cucumber/ast/step.rb:117 | a definition with no contract of its own: the `gsub` scan from a position. The `ReplaceAbsentFrom`, `ReplaceAtFirstFrom`, `DeleteShrinksFrom` and `ReplaceCharFrom` lemmas pin it down |
| `RubyString.ReplaceAll` | lib/cucumber/ast/step.rb:117 | a definition with no contract of its own: `gsub` with a literal pattern (also used by `dom_id` at line 90), the scan from position 0. The `ReplaceAbsent`, `ReplaceAtFirst`, `DeleteShrinks` and `ReplaceChar` lemmas pin it down |
| `RubyString.NoOccurrenceAt` | lib/cucumber/ast/step.rb:101 | no occurrence starts at a character that differs from the pattern's first character |
| `RubyString.ReplaceAbsentFrom` | lib/cucumber/ast/step.rb:117 | a pattern that does not occur from the scan position on leaves the rest as it is |
| `RubyString.ReplaceAbsent` | lib/cucumber/ast/step.rb:117 | `gsub` of a non-empty pattern that does not occur returns the text unchanged |
| `RubyString.ReplaceAtFirstFrom` | lib/cucumber/ast/step.rb:117 | from the scan position, the text up to the next occurrence is copied, that occurrence is replaced, and the scan resumes after it |
| `RubyString.ReplaceAtFirst` | lib/cucumber/ast/step.rb:117 | the leftmost occurrence is the first one replaced |
| `RubyString.DeleteShrinksFrom` | lib/cucumber/ast/step.rb:116-117 | deleting a pattern never lengthens the rest of the text |
| `RubyString.DeleteShrinks` | lib/cucumber/ast/step.rb:116-117 | deleting a pattern never lengthens the text, and shortens it by at least the pattern's length when it occurs |
| `RubyString.ReplaceCharStep` | lib/cucumber/ast/step.rb:90 | with a one-character pattern, each scan step translates one character |
| `RubyString.ReplaceCharFrom` | lib/cucumber/ast/step.rb:90 | with a one-character pattern, the rest of the text is translated character by character |
| `RubyString.ReplaceChar` | lib/cucumber/ast/step.rb:90 | with a one-character pattern, `gsub` keeps the length and maps each character on its own |
| `OrderedHash.Store` | lib/cucumber/ast/step.rb:106 | storing a new key appends it. Storing an existing key replaces its pair in place. Distinct keys stay distinct |
| `OrderedHash.FromPairs` | lib/cucumber/ast/step.rb:106 | a hash built by storing pairs in turn has distinct keys |
| `OrderedHash.KeysStore` | lib/cucumber/ast/step.rb:106 | storing adds its key to the hash's keys, and no other key |
| `OrderedHash.KeysFromPairs` | lib/cucumber/ast/step.rb:106 | a hash built from pairs has exactly the keys of those pairs |
| `OrderedHash.FromDistinctPairs` | lib/cucumber/ast/step.rb:106 | building from pairs whose keys are already distinct keeps the pairs as they are |
| `OrderedHash.LookupStore` | lib/cucumber/ast/step.rb:106 | after a store, the stored key yields the stored value and other keys are unaffected |
| `OrderedHash.LookupFromPairs` | lib/cucumber/ast/step.rb:106 | a repeated key keeps the value of its last pair |
| `Selection.Select` | lib/cucumber/ast/step.rb:97-102 | `select` returns no more elements than it is given |
| `Selection.Positions` | lib/cucumber/ast/step.rb:97-102 | the kept positions are in range, strictly increasing, and include every flagged position; each of them is flagged |
| `Selection.SelectAtPositions` | lib/cucumber/ast/step.rb:97-102 | the selected elements are exactly the elements at the kept positions, in order |
| `Selection.SelectNone` | lib/cucumber/ast/step.rb:97-102 | with no position flagged, nothing is selected |
| `Selection.NoPositions` | lib/cucumber/ast/step.rb:97-102 | with no position flagged, no position is kept |
| `Selection.SolePosition` | lib/cucumber/ast/step.rb:97-102 | with exactly one position flagged, that position is the only one kept |
| `Selection.SelectPrefix` | lib/cucumber/ast/step.rb:97-102 | each step of the walk adds the next element exactly when its flag is set |

## Left out

- `accept`, `StepResult` and visitor dispatch (lines 49-59) are presentation and double dispatch. Only their inputs are modelled: the skipped status and `first_match`.
- `source_indent`, `backtrace_line` and `each_example_row` delegate to the feature element, which is not part of this model. The example rows are given as a sequence.
- `gherkin_statement`, `background?` and the attribute writers are plumbing.
- `HasLocation` is not part of this model. `file_colon_line` and `line` are fields of the step's location.
- `Cells#to_hash`, `Table#header_cell`, `arguments_replaced`, `has_text?`, the multiline argument's `to_sexp` and `runtime.step_match` live in files that are not part of this model.
  - The matcher and the multiline argument's operations are parameters.
  - A row is read as a hash by storing its columns' header/value pairs in column order.
- Steps.MatchedCells: a cell is told apart from others by its column within its row, not by object identity. The cell's link back to its table (`cell.table`) is not modelled.
- Steps.Row: rows with fewer or more cells than headers cannot be expressed, because the table parser rejects ragged tables. In this file, a row with more cells than headers would raise at line 100, where the missing header cell is nil. A row with fewer cells than headers would run through `matched_cells` without error.
- RubyString.ReplaceAll: backslash sequences in a replacement string (`\0`, `\&`, `\\`), which Ruby's `gsub` expands, are taken literally.
- Ruby 1.8's `Hash`, whose iteration order is unspecified, is not modelled. `OrderedHash` is the insertion-ordered `Hash` of Ruby 1.9 and later, and substitution order follows it.
- Strings are sequences of code points, so the UTF-8 decoding of `unpack('U*')` is not modelled.
- The `||=` memo caches of `dom_id` and `backtrace_line` are not modelled; they do not change results.
- Steps.TextLength: the model always takes the name explicitly. `def text_length(name=name)` (line 81) defaults to the step's name only up to Ruby 2.1. From Ruby 2.2 on, the default refers to the parameter itself, which is nil, so the no-argument call from `source_indent` (line 78) raises NoMethodError on `nil.unpack`. That failure is not modelled.
