# Audio manager core in Dafny

A model of the interactive core of a small audio-clip manager for Hebrew
vocabulary, with proofs about it.

- **Gap join** (`controller.py`, module `Controller`). Audio blocks are
  joined with a silence block between consecutive blocks. A block is a
  sequence of rows, and rows are opaque values that the join only copies.
- **Niqqud removal** (`deniqq.py`, module `Niqqud`). Hebrew vowel points are
  deleted from a text.
- **The `Choice` enumeration** (`cli.py`, module `Choices`). This covers
  each member's one-letter key, its display text, the description of a
  choice list, and the resolution of a typed line back to a member.
- **The clipboard reader** (`cli.py`, module `Clipboard`). It turns lines
  pasted from a table into clip names: the header is skipped, reading stops
  at the first empty line, and each name has its niqqud removed and its
  whitespace stripped.
- **The path confirmation dialog** (`cli.py`, module `ConfirmPaths`). It
  shows the `n` most recent paths and lets the user grow or shrink `n`,
  confirm, or quit. `n` is a ctypes `c_uint16`, so it wraps modulo 2^16.

Interactive input is a parameter: the sequence of lines `input()` would
return. Running out of lines is the `EOFError` that `input()` raises. It is
modelled as `Err(EndOfInput)` from module `Wrappers`. Python exceptions
become `Result` errors:

- `StopIteration` from `next(it)` on an empty input;
- `ValueError('Invalid choice!')`.

Each method is proved against a specification function:

- `Controller.Join` against `Joined`;
- `Choices.FromLetter` against `FirstMatch`;
- `Clipboard.FromClipboard` against `PastedNames`;
- `ConfirmPaths.Confirm` against `Dialog`.

The lemmas state what those functions guarantee.

## Model

| member | source | states |
|---|---|---|
| Controller.Join | controller.py:4-12 | Fails with StopIteration exactly when there is no block. Otherwise it returns the reference join, whose length is all input rows plus one separator per consecutive pair. A single block comes back unchanged. |
| Controller.Layout | controller.py:8-11 | The `joined_iterable` list: first block, then `on` and the block for every later block; it has 2n-1 entries (shape in LayoutShape). |
| Controller.Flatten | controller.py:12 | `np.concatenate(parts, axis=0)`: the parts' rows one after another (FlattenAppend, FlattenLayout). |
| Controller.Joined | controller.py:4-12 | The reference join the method is proved against; its length, placement and gap laws are JoinedLength, JoinedAt and JoinedGap. |
| Controller.TotalRows | controller.py:12 | Number of rows over all blocks, used by the row-count law (TotalRowsSnoc, JoinedLength). |
| Controller.Offset | controller.py:8-12 | Row at which block i starts in the join (OffsetTail, OffsetNext, JoinedAt). |
| Controller.LayoutShape | controller.py:8-11 | The list built before concatenation holds block k/2 at each even position k and the separator at each odd position. |
| Controller.FlattenLayout | controller.py:8-12 | Concatenating the loop's list gives the reference join: first block, then separator and block for each later block. |
| Controller.FlattenAppend | controller.py:12 | Concatenating along the row axis distributes over appending part lists. |
| Controller.JoinedLength | controller.py:4-12 | The joined length is the total input rows plus (number of blocks - 1) times the separator length. |
| Controller.JoinedAppend | controller.py:8-11 | Joining two non-empty runs of blocks equals joining each run with one separator between them. |
| Controller.TotalRowsSnoc | controller.py:12 | Appending a block adds its rows to the row total. |
| Controller.OffsetTail | controller.py:8-11 | Block i of a run starts one block and one separator after block i-1 of the run's tail. |
| Controller.OffsetNext | controller.py:8-11 | The next block starts one block length plus one separator length later. |
| Controller.JoinedAt | controller.py:8-12 | Every input block appears unchanged in the result, in input order, at its offset. |
| Controller.JoinedGap | controller.py:10-11 | Each block except the last is followed by exactly the separator, which ends where the next block starts. |
| Controller.JoinedHead | controller.py:8-12 | A non-empty block's first row sits at its offset in the result. |
| Niqqud.Deniqq | deniqq.py:6-16 | The result has no character from the class U+05B0-05B9, 05BB, 05BC, 05C1, 05C2, and it is no longer than the input. |
| Niqqud.IsNiqqud | deniqq.py:6 | The character class `NIQQUD_UNICODE`: U+05B0-05B9, 05BB, 05BC, 05C1, 05C2 (DeniqqSingle, NeighboursKept). |
| Niqqud.NiqqudFree | deniqq.py:6 | No character of the text is in the class; what Deniqq guarantees of its result (DeniqqIdentity). |
| Niqqud.DeniqqCounts | deniqq.py:15-16 | Class characters vanish. Every other character keeps its number of occurrences. |
| Niqqud.DeniqqKeepsOrder | deniqq.py:15-16 | Kept characters stay in their original relative order. Any split point shows up as the filtered prefix, the kept character (if kept) and the filtered suffix. |
| Niqqud.DeniqqDistributes | deniqq.py:15-16 | Filtering a concatenation equals concatenating the filtered parts. |
| Niqqud.DeniqqIdentity | deniqq.py:15-16 | The filter leaves a text unchanged iff the text has no niqqud. |
| Niqqud.DeniqqIdempotent | deniqq.py:15-16 | Filtering twice equals filtering once. |
| Niqqud.DeniqqSingle | deniqq.py:6 | A single character is deleted iff it is in the class. |
| Niqqud.NeighboursKept | deniqq.py:6 | The code points next to the class (U+05AF, 05BA, 05BD, 05C0, 05C3, 05C7) are kept. |
| Choices.KeyWordIsLastSegment | cli.py:34-35 | The word one_letter reads is the last `_`-separated segment of the member name, and it is non-empty. |
| Choices.LastSegmentOfWord | cli.py:34-35 | The last segment of a prefix ending in `_` followed by a word without `_` is that word. |
| Choices.OneLetter | cli.py:33-36 | The keys are y, n, q, m, l for YES, NO, QUIT, ONE_MORE, ONE_LESS. |
| Choices.Name | cli.py:26-31 | The member names YES, NO, QUIT, ONE_MORE, ONE_LESS that one_letter and `__str__` read. |
| Choices.LastSegment | cli.py:34-35 | `s.split('_')[-1]`: the text after the last `_` (LastSegmentOfWord, KeyWordIsLastSegment). |
| Choices.KeyWord | cli.py:34-35 | The word one_letter takes its first letter from; KeyWordIsLastSegment proves it is the last `_`-segment of the name. |
| Choices.Lower | cli.py:36 | `lower()` on one character, for the ASCII letters of the names (Humanize, OneLetter). |
| Choices.OneLetterInjective | cli.py:26-36 | Distinct members have distinct keys. |
| Choices.Humanize | cli.py:38-39 | Same length as the name; each `_` becomes a space and each letter is lower-cased. |
| Choices.Display | cli.py:38-39 | The display texts are "yes", "no", "quit", "one more", "one less". |
| Choices.AllChoicesComplete | cli.py:26-31 | Iterating the enumeration yields every member. |
| Choices.Candidates | cli.py:55 | The result is never empty: it is the given choices exactly as given (order and repeats kept), or every member in declaration order when none are given. |
| Choices.ExcludeAlwaysDropped | cli.py:55-58 | As written, the exclude list is always dropped, because the candidates are never empty when the test runs. |
| Choices.KeptExclusions | cli.py:56-58 | The exclude rule as written, tested after `choices` was replaced by the candidates; ExcludeAlwaysDropped shows it always yields []. |
| Choices.Listed | cli.py:49 | The listed members are exactly the candidates that are not excluded, and no more of them than candidates. |
| Choices.ListedAppend | cli.py:49 | The filter keeps order: filtering a concatenation concatenates the filtered parts. |
| Choices.ListedNothingExcluded | cli.py:49 | With nothing excluded every candidate is listed, in order and with its repeats. |
| Choices.ShownAsWritten | cli.py:42-49 | As written, describe_choices lists the given choices exactly as given, or every member in declaration order when none are given. |
| Choices.Shown | cli.py:45-49 | The members describe_choices lists as written: the candidates less the kept exclusions (ShownAsWritten). |
| Choices.JoinComma | cli.py:49 | `', '.join(items)`: empty for no items, otherwise the items separated by ", " (DescribeJoins, DescribeAt). |
| Choices.FirstMatch | cli.py:59-65 | An Ok result is a non-excluded candidate whose key is the typed line. The result is an error exactly when no non-excluded candidate has that key. |
| Choices.FromLetter | cli.py:52-65 | The search loop returns the first candidate whose key equals the whole typed line, or ValueError when none does; the exclude list has no effect. |
| Choices.Entry | cli.py:49 | An item is non-empty and starts with the member's key. |
| Choices.Entries | cli.py:49 | One item per listed member, in order. |
| Choices.Describe | cli.py:42-49 | The description is empty exactly when nothing is listed. |
| Choices.DescribeJoins | cli.py:49 | A non-empty description is the items joined by ", ". |
| Choices.DescribeAt | cli.py:49 | Item i of the listed members appears in the description at its offset. |
| Choices.DescribeKeyAt | cli.py:49 | The character at item i's offset is listed member i's key. |
| Choices.AcceptsExactlyDescribed | cli.py:42-65 | from_letter accepts a line iff it is the key of a member describe_choices lists for the same arguments. |
| Choices.IntendedExclusions | cli.py:55-58 | Corrected rule: the exclude list is kept when no choices are given and dropped when choices are given. |
| Choices.IntendedExcludeHonoured | cli.py:55-65 | When no choices are given, the corrected rule never returns an excluded member, and the result is an error iff no non-excluded member has the typed key. |
| Choices.IntendedAgreesWithoutExclusions | cli.py:55-58 | Without an exclude list, or with explicit choices, the as-written and corrected rules agree. |
| Choices.ExcludedYesAccepted | cli.py:55-65 | As written, "y" with exclude [YES] resolves to YES; the corrected rule rejects it. |
| Clipboard.StripStart | cli.py:134 | The index of the first non-whitespace character is within the string. |
| Clipboard.StripEnd | cli.py:134 | The end of the last non-whitespace character is within the string. |
| Clipboard.IsSpace | cli.py:134 | The characters `str.strip()` removes with no argument: Python's whitespace set (StripStartSpec, StripEndSpec). |
| Clipboard.Strip | cli.py:134 | `str.strip()`: the slice between StripStart and StripEnd (StripSlice, StripOutside, StripEnds, StripEmpty, StripIdempotent). |
| Clipboard.Clean | cli.py:134 | `deniqq(name).strip()`, the name kept for a non-empty line (CleanSpec). |
| Clipboard.StripStartSpec | cli.py:134 | Everything before the start index is whitespace, and the character at it is not. |
| Clipboard.StripEndSpec | cli.py:134 | Everything from the end index on is whitespace, and the character before it is not. |
| Clipboard.StripSlice | cli.py:134 | strip() returns a contiguous slice of the string. |
| Clipboard.StripOutside | cli.py:134 | Everything strip() removes is whitespace. |
| Clipboard.StripEnds | cli.py:134 | A non-empty stripped string neither starts nor ends with whitespace. |
| Clipboard.StripEmpty | cli.py:134 | strip() returns "" iff the string is all whitespace. |
| Clipboard.StripTrimmed | cli.py:134 | A string that neither starts nor ends with whitespace is left unchanged. |
| Clipboard.StripIdempotent | cli.py:134 | Stripping twice equals stripping once. |
| Clipboard.CleanSpec | cli.py:134 | A cleaned name has no niqqud, is no longer than its line, and neither starts nor ends with whitespace. |
| Clipboard.CollectFails | cli.py:127-133 | Reading fails with EOFError exactly when no line is empty. |
| Clipboard.CollectEnd | cli.py:132-133 | When reading succeeds, the first empty line comes right after the names. |
| Clipboard.CollectCleaned | cli.py:134 | Name k is line k with niqqud removed and whitespace stripped. |
| Clipboard.Collect | cli.py:127-134 | Reading after the header: stop at the first empty line, clean each line before it, EOFError when the lines run out (CollectFails, CollectEnd, CollectCleaned, CollectFrom). |
| Clipboard.Prepend | cli.py:134 | Names already appended, in front of those still to be read (PrependTwice). |
| Clipboard.PastedNames | cli.py:123-135 | The names the reader returns for a whole input, header included; FromClipboard is proved equal to it and PastedNamesSpec characterises it. |
| Clipboard.PastedNamesSpec | cli.py:123-135 | On the whole input: the header line is skipped. EOFError occurs iff no later line is empty. Otherwise the names are the cleaned lines between the header and the first empty line, in order. |
| Clipboard.PrependTwice | cli.py:134 | Appending names one at a time equals appending them all at once. |
| Clipboard.CollectFrom | cli.py:128-134 | An empty line ends the reading, and any other line is cleaned and kept in front of the rest. |
| Clipboard.FromClipboard | cli.py:123-135 | The reading loop returns exactly the names the specification function gives, or EOFError. |
| ConfirmPaths.Window | cli.py:108 | paths[-n:] has length n, or the whole list when n is 0 or at least the number of paths, and it is a suffix of the paths. |
| ConfirmPaths.Wrap16 | cli.py:111-112 | Storing an int into the `c_uint16` n_recent: the value modulo 2^16 (StepsWrap, FinalNWraps). |
| ConfirmPaths.Decrement | cli.py:111 | The ONE_LESS update of n_recent, wrapping 0 to 65535 (StepsWrap). |
| ConfirmPaths.Increment | cli.py:112 | The ONE_MORE update of n_recent, wrapping 65535 to 0 (StepsWrap). |
| ConfirmPaths.Refresh | cli.py:108 | The LOOP_DIALOG handler: recent_paths becomes paths[-n:] for the current n (StepMoves, DialogSpec). |
| ConfirmPaths.Handle | cli.py:110-113 | The handler table for YES, ONE_LESS, ONE_MORE and QUIT (HandleSpec). |
| ConfirmPaths.Step | cli.py:91-102 | One pass of the dialog loop: refresh, read a line, run the matching handler or ignore an invalid line (StepMoves, DialogAtStop). |
| ConfirmPaths.Dialog | cli.py:87-102 | The dialog loop over the input lines until terminated or out of input (DialogSpec, DialogFinalN, DialogNetN). |
| ConfirmPaths.ConfirmOutcome | cli.py:104-116 | The dialog as interactive_confirm_paths starts it: given n, no paths shown, not terminated; Confirm is proved equal to it. |
| ConfirmPaths.Stops | cli.py:110-113 | The lines that end the dialog: the keys of YES and QUIT (FirstStop, DialogSpec). |
| ConfirmPaths.Delta | cli.py:111-112 | How one line moves n: +1 for "m", -1 for "l", 0 otherwise (DialogNetN). |
| ConfirmPaths.Net | cli.py:111-112 | The net change of n over some lines (FinalNWraps, DialogNetN). |
| ConfirmPaths.FinalN | cli.py:111-112 | n after stepping through non-stopping lines one by one (FinalNWraps, DialogFinalN). |
| ConfirmPaths.StepsWrap | cli.py:111-112 | ONE_LESS and ONE_MORE store n-1 and n+1 modulo 2^16, and they undo each other. |
| ConfirmPaths.HandleSpec | cli.py:110-113 | YES terminates and keeps the window. QUIT empties the paths and terminates. ONE_LESS and ONE_MORE move n by one modulo 2^16. |
| ConfirmPaths.DialogLetters | cli.py:90-114 | The dialog accepts exactly "y", "l", "m" and "q", mapped to their handlers; any other line is invalid. |
| ConfirmPaths.FirstStop | cli.py:91-113 | The first "y" or "q" line, with no such line before it. |
| ConfirmPaths.StepMoves | cli.py:91-112 | A pass on a non-stopping line refreshes the window and moves n by that line's delta. |
| ConfirmPaths.DialogAtStop | cli.py:91-113 | A "y" or "q" ends the dialog on the pass that reads it. |
| ConfirmPaths.DialogSpec | cli.py:87-116 | The dialog ends at the first "y" or "q", or with EOFError if there is none. It returns the window for the final n, or nothing after "q". |
| ConfirmPaths.FinalNWraps | cli.py:111-112 | Stepping n line by line equals adding the net change modulo 2^16. |
| ConfirmPaths.DialogFinalN | cli.py:91-112 | The final n results from the lines read before the dialog stopped. |
| ConfirmPaths.DialogNetN | cli.py:104-116 | The final n is the start value, plus one per "m" and minus one per "l" before the stop, modulo 2^16. |
| ConfirmPaths.Confirm | cli.py:87-116 | The loop's result, EOFError and final n match the dialog specification. The returned paths are empty or the window for the final n. |

## Left out

- Printing (prompts, the "Ignoring exclude..." notice, the list of chosen paths, "Try again!") is not modelled. The description a prompt would show is modelled by `Choices.Describe`.
- `wrap_iterable` is imported from util, and the util.py at hand does not define it, so it is not part of this model. Its arguments are taken to be lists already, which is how the dialog calls it.
- `interactive_from_letter` adds a second `choices and exclude` test of its own. The dialog passes no exclude list, so that test does not change the outcome and is not modelled separately.
- `dialog` with an empty handler table, and the optional LOOP_DIALOG handler, are only modelled as `interactive_confirm_paths` uses them.
- `interactive_get_int` (parsing a typed line with `int()`, retrying on ValueError) is input plumbing and is not modelled.
- `interactive_get_paths_to_add` (directory listing sorted by modification time), `audio_path_from_names` and the audio-processing commands are not part of this model. They depend on the file system or on model.py and util.py that this model does not include.
- Controller.Join: samples are not modelled as NumPy arrays. Rows are opaque and the channel-count assumption is not checked.
- Niqqud.Deniqq: the command-line entry point that reads and writes files is not modelled.
- Strings are sequences of Unicode scalar values. Lone surrogates are not modelled, and `lower()` is modelled only for the ASCII letters of the enumeration names.

## Findings

| source | as written | input that shows it | evidently intended | confidence | as-written member | corrected member |
|---|---|---|---|---|---|---|
| cli.py:55-58 | `choices = choices if choices else cls` runs before `if choices and exclude`. The enumeration class is always truthy, so `exclude` is always reset to `[]` and never honoured. | `from_letter('y', exclude=[Choice.YES])` returns YES | drop `exclude` only when explicit choices are given | not executed | Choices.ExcludedYesAccepted | Choices.IntendedExcludeHonoured |
