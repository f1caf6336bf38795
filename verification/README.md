# haml-i18n-extractor: the per-line extraction driver, in Dafny

This project models the core of `Haml::I18n::Extractor`. That core rewrites a Haml template line by line. For each line it:

- strips the line and splits off its indentation;
- asks a text finder whether the line holds translatable text;
- has a text replacer build a replacement record;
- settles what to do (`tag`, `next`, `replace`, `no-replace`), asking the user only in interactive mode;
- folds the result into two accumulators: the rewritten body (`@body`) and the locale hash (`@locale_hash`, line number to record).

`new_body` drives this over the whole file. When the user answers `next` (the `AbortFile` exception), it copies the rest of the file through unchanged, apart from `chomp`.

The project is split into four modules:

- `LineText` (`line_text.dfy`) holds the Ruby string operations the driver relies on. These are `chomp`, `rstrip`, the indentation pattern `([ \t]+)?(.*)` and `join("\n")`. Each comes with lemmas that characterise it.
- `Extraction` (`extraction.dfy`) is the value model of one line.
  - `Decide` holds the steps of `process_line` that decide: chomp, split, find, gather, ask.
  - `Apply` holds the steps that act: tag, abort, replace or keep.
  - `Step` is one whole call of `process_line`.
  - `Run` is the whole of `new_body` over a file, given the decision for each line. `AbortFile` becomes the `Outcome` value `Abort`.
- `ExtractionProperties` (`extraction_properties.dfy`) proves what a whole run does to each accumulator:
  - the body;
  - the locale hash;
  - the calls made to the tagging writer and to the prompter.

  It also proves the coverage, non-interactive and abort properties.
- `HamlExtractor` (`extractor.dfy`) is the stateful class `Extractor`. Its fields are the ones the Ruby object updates in place: `body`, `localeHash` and `currentLine`. Two ghost logs sit beside them: the calls to the tagging writer and the line numbers the prompter was asked about. The methods are proved against the value model:
  - `ProcessLine` against `Step`;
  - one loop turn, `ProcessCurrentLine`, and then `NewBody`, against `Run`.

The text finder, the text replacer, the reader's path, the `interactive` option and the user's answers are the fields of a `Collaborators` value. They are inputs of the model. Finder results and replacer hashes can be anything, so every property holds whatever the collaborators do.

Four behaviours of the code that are easy to miss, all of them modelled:

- **Abort tail.** After an abort, the lines from the aborting one on are appended after `chomp` (lib/haml-i18n-extractor/extraction/extractor.rb:123). A line that ends in a terminator therefore loses it.
- **Tag, keep and no-replace lines.** These append the right-stripped indentation and content (extractor.rb:101, 109, 151). This is not the original line: trailing blanks are dropped, and so is anything after a line feed inside the line.
- **Tagged lines get no entry.** A tagged line adds nothing to the locale hash (extractor.rb:99-101). The hash therefore has an entry for every line number only when no line is tagged and none aborts.
- **Default answer without a candidate.** The default answer `'y'` also applies to lines without a candidate (extractor.rb:92, 104-106). The replace branch then stores the sentinel record and appends the content unchanged, which is exactly the effect of `no-replace`. `Extraction.ProcessLineEffects` proves this.

## Model

| member | source | states |
|---|---|---|
| LineText.Chomp | lib/haml-i18n-extractor/extraction/extractor.rb:85 | `chomp!` with the default separator: removes one final `\r\n`, `\n` or `\r`. `ChompRemovesTerminator` characterises it. |
| LineText.ChompRemovesTerminator | lib/haml-i18n-extractor/extraction/extractor.rb:85 | `chomp!` keeps a prefix and drops at most two characters, all `\r`/`\n`. It drops nothing when the line does not end in a terminator, and two characters exactly for a final `\r\n`. |
| LineText.RStrip | lib/haml-i18n-extractor/extraction/extractor.rb:151 | `rstrip`: drops NUL, tab, line feed, vertical tab, form feed, carriage return and space from the end. `RStripKeepsPrefix` and `RStripIgnoresTrailingSpace` characterise it. |
| LineText.RStripKeepsPrefix | lib/haml-i18n-extractor/extraction/extractor.rb:151 | `rstrip` keeps a prefix that is empty or does not end in a trailing-space character, and everything it drops is trailing space. |
| LineText.RStripIgnoresTrailingSpace | lib/haml-i18n-extractor/extraction/extractor.rb:151 | Appending trailing-space characters does not change what `rstrip` returns. |
| LineText.RStripAfterChomp | lib/haml-i18n-extractor/extraction/extractor.rb:85-86 | `rstrip` after `chomp!` equals `rstrip` alone, so the chomp in `process_line` does not change the split. |
| LineText.IndentLengthIsMaximal | lib/haml-i18n-extractor/extraction/extractor.rb:151 | The greedy `[ \t]+` takes only spaces and tabs and stops before the first other character. |
| LineText.LineLengthStopsAtLineFeed | lib/haml-i18n-extractor/extraction/extractor.rb:151 | `.*` reaches exactly up to the first line feed, or to the end when there is none. |
| LineText.HandleLineWhitespace | lib/haml-i18n-extractor/extraction/extractor.rb:150-155 | `handle_line_whitespace`: matches `([ \t]+)?(.*)` against the right-stripped line, with the nil first group rendered as "". `HandleLineWhitespaceSplits` and `HandleLineWhitespaceRejoins` characterise the two parts. |
| LineText.HandleLineWhitespaceSplits | lib/haml-i18n-extractor/extraction/extractor.rb:150-155 | `handle_line_whitespace` returns indentation made of spaces and tabs only. The content does not start with a space or tab and holds no line feed. A blank line gives two empty parts (nil rendered as ""). |
| LineText.HandleLineWhitespaceRejoins | lib/haml-i18n-extractor/extraction/extractor.rb:150-155 | Indentation plus content is exactly the right-stripped line up to its first line feed, as `.*` stops there. It is the whole right-stripped line when that holds no line feed. |
| LineText.Join | lib/haml-i18n-extractor/extraction/extractor.rb:77 | `join("\n")` of no lines is "", and the join of one or more lines starts with the first line. |
| LineText.SplitLines | lib/haml-i18n-extractor/extraction/extractor.rb:77 | The source never splits. This is the inverse of the `join("\n")` at line 77, used only to state its round-trip. It gives at least one field, and no field holds a line feed. |
| LineText.SplitJoin | lib/haml-i18n-extractor/extraction/extractor.rb:77 | Joining lines that hold no line feed with "\n" loses nothing: splitting the result gives the lines back. |
| LineText.JoinSplit | lib/haml-i18n-extractor/extraction/extractor.rb:77 | Splitting any text at line feeds and joining with "\n" gives the text back. |
| Extraction.GatherReplacementInfo | lib/haml-i18n-extractor/extraction/extractor.rb:127-136 | `gather_replacement_info`: the triple (should be replaced, text to replace, record). Without a candidate the record is `DefaultLineLocaleHash`, the all-nil `DEFAULT_LINE_LOCALE_HASH` of line 26. `GatherReplacementInfoRecord` characterises it. |
| Extraction.GatherReplacementInfoRecord | lib/haml-i18n-extractor/extraction/extractor.rb:127-136 | `gather_replacement_info` proposes a replacement exactly when the match is neither nil nor empty, and exactly when the record is not `DEFAULT_LINE_LOCALE_HASH`. Otherwise the text is the line unchanged. A proposed record is the replacer's hash with `:path` set to the reader's path, and its text is the record's modified line. |
| Extraction.Propose | lib/haml-i18n-extractor/extraction/extractor.rb:85-90 | Lines 85-90 of `process_line`: chomp, split the indentation, run the finder on the content, and gather the replacement info. |
| Extraction.ResolveAction | lib/haml-i18n-extractor/extraction/extractor.rb:92-97 | The user action: the prompter's answer when a replacement is proposed and the extractor is interactive, otherwise the default `'y'`. `DecideWellFormed` characterises it. |
| Extraction.Decide | lib/haml-i18n-extractor/extraction/extractor.rb:85-97 | Everything `process_line` settles before it acts: the proposal, whether the prompter was asked, and the action. `DecideWellFormed` characterises it. |
| Extraction.DecideWellFormed | lib/haml-i18n-extractor/extraction/extractor.rb:84-97 | The prompter is asked exactly when a replacement is proposed and the extractor is interactive. Without it the action is the default `'y'`. When it is asked, the action is its answer for this line's content and text to replace, so any action but `'y'` is such an answer. |
| Extraction.OutputLine | lib/haml-i18n-extractor/extraction/extractor.rb:101-109 | The line appended to the body: indentation plus the text to replace for `replace`, indentation plus the content otherwise. |
| Extraction.RecordFor | lib/haml-i18n-extractor/extraction/extractor.rb:104-109 | The record stored in the locale hash: the proposed record for `replace`, `DEFAULT_LINE_LOCALE_HASH` for `no-replace`. |
| Extraction.Apply | lib/haml-i18n-extractor/extraction/extractor.rb:99-112 | The effect of each action on the accumulators. `tag` logs (path, line) and appends the line, leaving the hash alone. `next` aborts and leaves body, hash and tag log alone. `replace` and `no-replace` set exactly this line's entry and append one line. The result is whether a replacement was proposed. |
| Extraction.Step | lib/haml-i18n-extractor/extraction/extractor.rb:84-113 | One call of `process_line` on a given state: `Decide`, then `Apply`. `ProcessLineEffects` characterises it, and `Extractor.ProcessLine` is proved equal to it. |
| Extraction.ProcessLineEffects | lib/haml-i18n-extractor/extraction/extractor.rb:84-113 | What one call of `process_line` does, given its own line and the collaborators, for each of the four actions. It also covers a line without a candidate: it continues, stores the sentinel and appends the content unchanged. |
| Extraction.Decisions | lib/haml-i18n-extractor/extraction/extractor.rb:69-70 | Defined as `Decide` applied to each line, with line number `j + 1` for index `j`. Its contract states one decision per line of the file. |
| Extraction.ChompAll | lib/haml-i18n-extractor/extraction/extractor.rb:122-123 | `chomp` applied to each line, in order, one output per line. |
| Extraction.Run | lib/haml-i18n-extractor/extraction/extractor.rb:66-78 | A run from index `i` leaves exactly one body line more for each remaining line of the file, whether or not it aborts. |
| Extraction.RunUnfold | lib/haml-i18n-extractor/extraction/extractor.rb:66-76 | One loop turn of `new_body` on the real `process_line`. After a turn that goes on, the run continues from the next line. After an abort, the result is the current state with the rest of the file appended chomped. |
| Extraction.AbortIndex | lib/haml-i18n-extractor/extraction/extractor.rb:73-75 | The first line whose action is `next` at or after `i`, or the file's length. No line before it aborts. |
| ExtractionProperties.RunBody | lib/haml-i18n-extractor/extraction/extractor.rb:66-78 | The body after a run is the existing body, then one processed line per line before the abort, then every line from the abort on, chomped. |
| ExtractionProperties.RunLocaleHashKeys | lib/haml-i18n-extractor/extraction/extractor.rb:99-110 | The locale hash gains an entry for exactly the lines processed before the abort and not tagged. No other key is added. |
| ExtractionProperties.RunLocaleHashValues | lib/haml-i18n-extractor/extraction/extractor.rb:104-109 | Each entry written holds that line's record for `replace`, or `DEFAULT_LINE_LOCALE_HASH` for `no-replace`. Entries the run does not write keep their value. |
| ExtractionProperties.RunTagged | lib/haml-i18n-extractor/extraction/extractor.rb:99-100 | The tagging writer receives one call per tagged line before the abort, in line order. |
| ExtractionProperties.RunPrompted | lib/haml-i18n-extractor/extraction/extractor.rb:93-97 | The prompter is asked about exactly the lines `PromptCalls` lists, in order, the aborting line included. |
| ExtractionProperties.PromptCallsAsked | lib/haml-i18n-extractor/extraction/extractor.rb:93-97 | Every line the prompter is asked about is a line of the file where it was consulted, at or before the aborting line. The pass-through tail is never prompted (lines 73-75). |
| ExtractionProperties.NoPromptCalls | lib/haml-i18n-extractor/extraction/extractor.rb:93-97 | Lines where the prompter is not consulted cause no prompter call. |
| ExtractionProperties.TagCallsNamePath | lib/haml-i18n-extractor/extraction/extractor.rb:99-100 | Every tagging-writer call names the reader's path (set at line 130) and a line whose action is `tag`. |
| ExtractionProperties.NoTagCalls | lib/haml-i18n-extractor/extraction/extractor.rb:99-100 | Lines that are not tagged cause no tagging-writer call. |
| ExtractionProperties.CompleteRunCoverage | lib/haml-i18n-extractor/extraction/extractor.rb:66-78 | With no `next` and no `tag`, the locale hash has exactly the keys 1..N, the body has N lines, and the tagging writer is never called. |
| ExtractionProperties.NonInteractiveRun | lib/haml-i18n-extractor/extraction/extractor.rb:92-106 | Without `interactive`, the prompter is never asked, nothing is tagged and no line aborts. Every line gets its record (the replacer's or the sentinel), and its body line is the indentation plus the text to replace. |
| ExtractionProperties.AbortPassThrough | lib/haml-i18n-extractor/extraction/extractor.rb:73-76 | When line `k + 1` aborts, the body still has N lines. Lines before it are processed normally, and lines from it on are the original lines chomped. No entry has a line number past `k`. |
| HamlExtractor.Extractor.constructor | lib/haml-i18n-extractor/extraction/extractor.rb:28-44 | A new extractor has an empty body and locale hash, and no current line yet. |
| HamlExtractor.Extractor.AddToBody | lib/haml-i18n-extractor/extraction/extractor.rb:157-159 | `add_to_body` appends exactly one line and changes nothing else. |
| HamlExtractor.Extractor.AppendToLocaleHash | lib/haml-i18n-extractor/extraction/extractor.rb:138-140 | `append_to_locale_hash` sets exactly the entry of the given line number and changes nothing else. |
| HamlExtractor.Extractor.ProcessLine | lib/haml-i18n-extractor/extraction/extractor.rb:84-113 | `process_line` moves the object's state as `Step` does. It returns `Step`'s outcome and whether a replacement was proposed. The current line is unchanged. |
| HamlExtractor.Extractor.AddRestOfFileToBody | lib/haml-i18n-extractor/extraction/extractor.rb:121-125 | `add_rest_of_file_to_body(line_no)` appends lines `line_no` to N, each chomped, and changes nothing else. |
| HamlExtractor.Extractor.ProcessCurrentLine | lib/haml-i18n-extractor/extraction/extractor.rb:69-75 | One turn of the loop keeps the rest of the run equal to `Run` from the start. Either the next line becomes current, or on abort the state is the finished run with the rest of the file appended. |
| HamlExtractor.Extractor.NewBody | lib/haml-i18n-extractor/extraction/extractor.rb:66-78 | `new_body` leaves body, locale hash and logs equal to `Run` over the file's decisions from line 1. It stops at the aborting line, or at N + 1. It returns the body joined with "\n" plus a final "\n". |

## Left out

- `validate_haml`, `run`, `assign_new_body`, `assign_yaml` and `assign_replacements`, plus the YAML and Haml writers. These parse templates and write files, so they are I/O.
- The tagging writer's output. It is modelled as a log of the (path, line number) pairs it receives.
- `Prompter` I/O and `moving_to_next_file`. The user's answers are the `askUser` input.
- `askUser`: `ask_user` takes the content and the text to replace. The model also passes the line number, so that a user may answer the same text differently on different lines. Each line is asked at most once, so any sequence of human answers is such a function.
- The internals of the text finder (`handle_line_finding`, `line_metadata`) and the text replacer. They are inputs of the model, so every property holds for any finder and replacer.
- The finder's `NotDefinedLineType` error. Finder results are always one of the nine line types.
- Idempotence and key-naming properties. These depend on the finder and the replacer, which are not part of this model.
- `HamlReader` is not part of this model. The file's lines are a constructor argument.
- The `debug?` flag and the class-level `extractors` registry, which are diagnostics only.
- `interactive?` is the boolean `Collaborators.interactive`. The `!!` coercion is not modelled.
- Verdicts outside the four. A `UserAction` answering none of `tag?`, `next?`, `replace_line?` and `no_replace?` would fall through every branch and append nothing. The model's `UserAction` has only the four verdicts.
- The aliasing of `chomp!`. In Ruby the aborting line may already have been chomped in place by `process_line` before `add_rest_of_file_to_body` chomps it again. The model chomps it once. The two differ only for a line ending in two terminators such as `"\r\r"`. Whether the reader hands out the same string objects depends on `HamlReader`, which is not part of this model.
- HamlExtractor.Extractor.AddRestOfFileToBody requires `line_no` to be at most one past the last line. Ruby's slice past the end would yield nil and raise, and `new_body` only ever passes the number of an existing line.
- Integer widths do not arise: line numbers are unbounded `nat`, as Ruby integers are.
