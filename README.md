# pythongdb-gaudy: a verified model of its bookkeeping and text layer

pythongdb-gaudy is a set of Python extensions for gdb. They give it:
- a colour-filtering backtrace (`cbt`);
- a backtrace helper that merges SpiderMonkey's JavaScript frames into the native
  stack;
- a tracing-breakpoint logger;
- a syntax-highlighted source listing (`sl`);
- the `pyflam` terminal formatter that all of them print through.

This project models in Dafny the logic these extensions run once the debugger has
answered. It does not model the debugger calls themselves. Each source file becomes
one module:

| module | file | what it holds |
|---|---|---|
| `Backtrace` | `bt.dfy` | The `ContextHelper` class: a path trie that shortens file paths to where they diverge, and a table that correlates repeated pointer values and colours the most frequent. Also the merging of frame-helper verdicts, the parsing of the `cbt` argument words, and the selection of the first or last N frames. |
| `Ranking` | `ranking.dfy` | The `(count, value)` order that `sort(reverse=True)` gives the value table, and the proof that sorting yields it. |
| `MozBacktrace` | `mozbt.dfy` | The debugged process's memory as finite maps, and the `ScratchContext` class (a JSContext's frame pointer, pc and stack segment). Its methods are `RestoreSegment`, `HackRestore` and `PopUntilFrame`. Also the `JSFrameHelper` class: it classifies native frames by pc range and name, and keeps one scratch context per context address. |
| `TraceLog` | `tricelog.dfy` | `normalize_path`, and the text extraction of `execExtractPostColon` and `execExtractInsideParens`. |
| `Flam` | `pyflam.dfy` | xterm-256 colour decoding and its CSS hex form, and the `FlamOut` class: its colour map, its indent level, and the rendering of one message. Rendering covers conversions, colour and alignment tags, the reset and the indentation. |
| `Highlight` | `pygflam.dfy` | The Mozilla naming-convention token filter, the line consolidator, and the line window and decoration of `format`. |
| `SourceList` | `pyglist.dfy` | The `GlobalContext` class and the line range an `sl` argument selects. |
| `Text`, `Wrappers` | `text.dfy`, `wrappers.dfy` | The Python string operations the code relies on (`split`, `join`, `strip`, `int()`, `'%d'`, `'%x'`), with their round-trip lemmas. Also `Option`, and `Result` carrying the Python exception kinds. |

Where the source mutates objects, the model uses classes. This holds for `ContextHelper`, `JSScratchContext`, `JSFrameHelper`, `FlamOut`, `FlamMagicFormatter` and `GlobalContext`. Each of their methods is proved against a specification function, and the lemmas are about those functions.

Where the extensions' documentation and their code differ, the model follows the code:
- When the counts along a path never diverge, `chewPath` returns `None` rather than the
  path. The frame line then shows `'???'`. A path without any separator is returned
  unchanged.
- An unseen segment raises a `KeyError`.
- Only values starting with the case-sensitive `'0x'` are tracked.
- Ties in the ranking go to the greater value string.
- pc ranges include their end point.

## Model

| member | source | states |
|---|---|---|
| `Backtrace.ContextHelper.constructor` | gdbaudy/bt.py:30-35 | a new helper has an empty trie and empty value tables, and satisfies the helper invariant |
| `Backtrace.ContextHelper.ConsiderPath` | gdbaudy/bt.py:40-55 | a path without a separator changes nothing; otherwise every trie node on the walk of its non-empty segments gains exactly one, missing nodes appear with count one, no other node changes; the trie invariant (positive counts, parent present, child never above parent) is kept; the value tables are unchanged |
| `Backtrace.Walk` | gdbaudy/bt.py:45-55 | the trie walk loop leaves exactly the bumped trie (`Bumped` of the non-empty parts) |
| `Backtrace.BumpedWellFormed` | gdbaudy/bt.py:45-55 | one more walk keeps the trie invariant: a child's count never exceeds its parent's |
| `Backtrace.BumpedKeepsNodes` | gdbaudy/bt.py:45-55 | a walk never removes a node and creates every node on its path |
| `Backtrace.NonEmptyPrefix` | gdbaudy/bt.py:46-48 | the segments of a prefix of the parts are a prefix of the segments, so skipping empty parts does not disturb the order |
| `Backtrace.ContextHelper.ChewPath` | gdbaudy/bt.py:57-70 | the read-only loop returns exactly `Chew`: the path itself when it has no separator, the tail from the first segment whose count differs from the previous one, None when none differs, a KeyError on an unseen segment |
| `Backtrace.ChewSingleSegment` | gdbaudy/bt.py:58-60 | a path without a separator is returned unchanged |
| `Backtrace.ChewIsSuffix` | gdbaudy/bt.py:63-69 | a shortened path is always a suffix of the path |
| `Backtrace.ChewFromIsTail` | gdbaudy/bt.py:63-69 | the result is the join of the parts from some non-empty part on |
| `Backtrace.ChewDivergesFirst` | gdbaudy/bt.py:63-69 | for a path whose walk is in the trie, a shortened answer is the path from the non-empty part j on, where the walk's node before part j is the first node whose count differs from its successor's, all earlier consecutive counts being equal |
| `Backtrace.ChewFromFirst` | gdbaudy/bt.py:61-69 | the loop invariant behind ChewDivergesFirst: if the walk has been flat up to the current node, any shortened answer from here starts at a later part j (returned as witness) that is the first divergence |
| `Backtrace.ChewConsidered` | gdbaudy/bt.py:57-70 | for a path whose walk is in the trie, chewPath never raises, and it answers None exactly when all counts along the walk are equal |
| `Backtrace.ChewFromConsidered` | gdbaudy/bt.py:61-71 | the loop invariant behind ChewConsidered: from any part on, the remainder succeeds and is None iff the rest of the walk is flat |
| `Backtrace.ConsiderMakesConsidered` | gdbaudy/bt.py:40-55 | after considerPath every node on the path's walk is in the trie |
| `Backtrace.ConsideredStaysConsidered` | gdbaudy/bt.py:40-55 | considering other paths later never removes a node, so chewPath on an already considered path still cannot raise |
| `Backtrace.ContextHelper.ShownPath` | gdbaudy/bt.py:272 | the file column is '???' for an empty file name and when chewPath yields None or an empty string; it is exactly chewPath's non-empty answer otherwise, which is a suffix of the file name; it fails exactly when chewPath fails |
| `Backtrace.ContextHelper.ConsiderValue` | gdbaudy/bt.py:73-81 | a value not starting with '0x' changes nothing; a first sighting records count 1 and the name followed by the frame number; a later sighting only adds one to the count; the trie and the interesting table are unchanged |
| `Backtrace.ContextHelper.Eligible` | gdbaudy/bt.py:84-87 | the collected tuples are exactly the `(count, value)` pairs of the values seen more than once, each once |
| `Backtrace.ContextHelper.RankEligible` | gdbaudy/bt.py:84-88 | the collected and reverse-sorted tuples are the ranking of the value table (strictly descending, exactly the values seen more than once), with no value twice |
| `Backtrace.ContextHelper.Process` | gdbaudy/bt.py:83-93 | the ranking is the strictly descending list of the repeated values; the first min(K, n) of them get colour i<rank> in both tables and are otherwise unchanged; the interesting table grows by exactly those values; every other value keeps its record in both tables, including one already interesting; the trie is unchanged |
| `Backtrace.SortedEligibleIsRanking` | gdbaudy/bt.py:88 | sorting the collected tuples in reverse yields the ranking of the table |
| `Backtrace.RankingUnique` | gdbaudy/bt.py:84-88 | the ranking depends only on the table, not on the order in which the dict is iterated |
| `Backtrace.RankingValuesDistinct` | gdbaudy/bt.py:84-88 | no value occurs twice in the ranking |
| `Backtrace.Labelling` | gdbaudy/bt.py:89-93 | labelling the ranks one at a time keeps the keys of the value table |
| `Backtrace.Label` | gdbaudy/bt.py:89-93 | the labelling loop over the first min(K, n) ranked values leaves exactly the tables of Labelling |
| `Backtrace.LabellingLabels` | gdbaudy/bt.py:89-93 | for distinct ranked values, Labelling colours the values at ranks below r with i<rank> in both tables, changes only colours, grows the interesting table by exactly those values, and leaves every other record in either table as it was |
| `Backtrace.LabellingAt` | gdbaudy/bt.py:89-93 | for one value: it is interesting afterwards iff it was or it is ranked below r; only its colour can change; if it is not ranked below r, both its records are as they were; an interesting value is seen and coloured |
| `Backtrace.LabellingRanked` | gdbaudy/bt.py:89-93 | the value at rank j < r has colour i<j> and the same record in both tables, the original one apart from the colour |
| `Backtrace.ContextHelper.GetValueInfo` | gdbaudy/bt.py:95-99 | succeeds exactly for an interesting value with a colour, and then gives its recorded name and colour; a KeyError otherwise |
| `Backtrace.RunHelpers` | gdbaudy/bt.py:101-110 | the frame is shown iff every helper shows it; the synthetic frames are those of the last helper that produced a non-empty list, None when none did |
| `Backtrace.ParseSettings` | gdbaudy/bt.py:321-339 | the argument-word loop computes `Settle` of the words split at single spaces |
| `Backtrace.SettleFails` | gdbaudy/bt.py:327-339 | the command fails exactly when some count word is not an integer literal |
| `Backtrace.SettleFilter` | gdbaudy/bt.py:330-331 | filtering is on iff no word is 'raw' |
| `Backtrace.SettleMode` | gdbaudy/bt.py:332-337 | the mode is that of the last of 'full', 'terse' and 'paste', Normal when there is none |
| `Backtrace.SettleCount` | gdbaudy/bt.py:338-339 | the frame count is the value of the last other non-empty word, 0 when there is none |
| `Backtrace.SettleFailed` | gdbaudy/bt.py:338-339 | the first malformed count aborts the whole command |
| `Backtrace.SliceFrom` | gdbaudy/bt.py:319 | Python's `s[x:]` always yields a tail of the list |
| `Backtrace.FinalN` | gdbaudy/bt.py:315-319 | final_n copies the items and returns exactly their slice from x |
| `Backtrace.SelectFrames` | gdbaudy/bt.py:359-364 | a negative count keeps the last |count| frames, a positive count the first count, zero all; every kept frame carries its original 0-based ordinal |
| `Ranking.Insert` | gdbaudy/bt.py:88 | insertion adds exactly the one entry, as a multiset |
| `Ranking.SortDescending` | gdbaudy/bt.py:88 | sorting is a permutation |
| `Ranking.InsertSorted` | gdbaudy/bt.py:88 | inserting into a list in descending tuple order keeps it in that order |
| `Ranking.SortDescendingSorted` | gdbaudy/bt.py:88 | the sorted list is in descending `(count, value)` order |
| `Ranking.StrictlySortedUnique` | gdbaudy/bt.py:88 | two strictly descending lists with the same entries are equal |
| `Ranking.BeforeTotal` | gdbaudy/bt.py:88 | tuple order is total on distinct tuples |
| `Ranking.BeforeTransitive` | gdbaudy/bt.py:88 | tuple order is transitive |
| `Ranking.StrLessTransitive` | gdbaudy/bt.py:88 | Python string order is transitive |
| `Ranking.StrLessTotal` | gdbaudy/bt.py:88 | Python string order is total on distinct strings |
| `MozBacktrace.Deref` | gdbaudy/mozbt.py:47 | reading through a null or unmapped address is a memory error; otherwise the record at the address |
| `MozBacktrace.NormJsPathShape` | gdbaudy/mozbt.py:23-30 | a chrome URL passes through; any other path becomes a name without separators that ends the path, after dropping a leading 'file://' |
| `MozBacktrace.LastComponentIsTail` | gdbaudy/mozbt.py:30 | `os.path.split(p)[1]` has no separator, ends p, and is p itself when p has no separator |
| `MozBacktrace.FuncNameFromAtom` | gdbaudy/mozbt.py:32-37 | a null atom gives '<unnamed function>'; any other atom must be readable |
| `MozBacktrace.FuncNameOfQuotedAtom` | gdbaudy/mozbt.py:35-37 | the quotes the atom's summary adds are removed again |
| `MozBacktrace.MakeJSFrame` | gdbaudy/mozbt.py:45-58 | a frame keeps the pc it was made with; a function frame (flag 0x2) is named from its function's atom, any other frame '<anon>'; a null or unmapped frame pointer is a memory error |
| `MozBacktrace.MakeJSFrameLocation` | gdbaudy/mozbt.py:60-66 | a null script gives file '<none>' and line 0, otherwise the script's file name and first line |
| `MozBacktrace.Captured` | gdbaudy/mozbt.py:77-91 | a context without registers is captured as not live; otherwise with its registers' fp and pc and its current segment |
| `MozBacktrace.ScratchContext.constructor` | gdbaudy/mozbt.py:77-91 | the scratch context holds the captured state |
| `MozBacktrace.Restored` | gdbaudy/mozbt.py:93-101 | success moves to the older segment and loads fp and pc from its suspended registers; a null previousInContext is the 'nonexistent segment' error |
| `MozBacktrace.ScratchContext.RestoreSegment` | gdbaudy/mozbt.py:93-101 | the new state is `Restored` of the old one; on failure the error is Restored's and the state is unchanged |
| `MozBacktrace.HackRestored` | gdbaudy/mozbt.py:103-111 | with a non-null fp nothing changes; with a null fp it is restoreSegment |
| `MozBacktrace.ScratchContext.HackRestore` | gdbaudy/mozbt.py:103-111 | the new state is `HackRestored` of the old one |
| `MozBacktrace.ScratchContext.PopUntilFrame` | gdbaudy/mozbt.py:113-140 | the loop appends exactly the frames of `Pop` to the given list and leaves the context in Pop's final state; it fails exactly when Pop does, with the same error |
| `MozBacktrace.PopFromFramesHavePc` | gdbaudy/mozbt.py:132-134 | dummy frames (pc 0) are never synthesised |
| `MozBacktrace.PopFromStops` | gdbaudy/mozbt.py:135-140 | a walk that ends has processed the frame at stop_at_fp last and leaves fp on that frame's prev_ |
| `MozBacktrace.PopFromFirstFrame` | gdbaudy/mozbt.py:125-134 | frames come out innermost first: the first is the frame the context was on |
| `MozBacktrace.PopFromFuel` | gdbaudy/mozbt.py:126-140 | once the walk ends within its budget, a larger budget gives the same result |
| `MozBacktrace.PopFuel` | gdbaudy/mozbt.py:120-140 | the same for the whole of popUntilFrame |
| `MozBacktrace.PrefixedTwice` | gdbaudy/mozbt.py:134 | appending frames in two steps is appending them in one |
| `MozBacktrace.Classify` | gdbaudy/mozbt.py:197-235 | the pc tests in order, ranges inclusive at both ends: Interpret hides, RunScript pops to 'fp', Execute pops to 'prev' and restores, XPC_WN_CallMethod hides, anything else is judged by name; each outcome iff its range holds and no earlier one does |
| `MozBacktrace.ShownByNameExamples` | gdbaudy/mozbt.py:237-256 | engine and XPConnect names are hidden, a frame without a name is shown |
| `MozBacktrace.ProcessedShows` | gdbaudy/mozbt.py:193-256 | a frame is shown iff it lies outside every range and its name is not boring; a shown frame synthesises nothing; JavaScript frames come only from the RunScript and Execute ranges |
| `MozBacktrace.ProcessedFrames` | gdbaudy/mozbt.py:205-225 | every synthesised frame has a pc; after a RunScript frame the context is on the caller of the frame in its 'fp' variable |
| `MozBacktrace.JSFrameHelper.constructor` | gdbaudy/mozbt.py:144-145 | the helper starts uninitialised and without contexts |
| `MozBacktrace.JSFrameHelper.Setup` | gdbaudy/mozbt.py:169-184 | the code ranges are looked up on the first call only; every backtrace starts with no contexts |
| `MozBacktrace.JSFrameHelper.PopContext` | gdbaudy/mozbt.py:206-210 | the popping shared by the Invoke and Execute branches: fails exactly when capturing the context or Pop fails; otherwise the frames are Pop's from the context's starting state and the context is left in Pop's final state; no other context changes and no other key appears |
| `MozBacktrace.JSFrameHelper.GetScxForFrame` | gdbaudy/mozbt.py:186-191 | a known context address returns the same scratch context object; an unknown one gets a fresh one holding the captured state, and nothing else changes |
| `MozBacktrace.JSFrameHelper.ProcessFrame` | gdbaudy/mozbt.py:193-256 | the answer is `Processed` of the frame's context state; the touched context ends in the state Processed gives; in the hide and by-name branches, which touch no context, the context table and every context's state stay as they were; other contexts are unchanged, and the only key the table can gain is the frame's own context |
| `TraceLog.FirstRoot` | gdbaudy/tricelog.py:21-22 | the first segment from i on that starts with 'gecko' or 'mozilla', or None when no segment does |
| `TraceLog.NormalizePathEmpty` | gdbaudy/tricelog.py:17-18 | an empty or missing path is returned as it is |
| `TraceLog.NormalizePathSuffix` | gdbaudy/tricelog.py:12-24 | the result is always a suffix of the path; it is the join of the segments after the first tree-root segment, or the path itself when no segment matches |
| `TraceLog.PostColonText` | gdbaudy/tricelog.py:76 | fails exactly when the answer has no ':'; otherwise the text from two characters after the first ':' |
| `TraceLog.PostColonOfTagged` | gdbaudy/tricelog.py:76 | for 'tag: text' with a tag free of ':' the extracted text is exactly text |
| `TraceLog.ExtractPostColonOfNumber` | gdbaudy/tricelog.py:74-76 | 'tag: N' yields the integer N |
| `TraceLog.ExtractInsideParens` | gdbaudy/tricelog.py:80-84 | fails exactly when there is no '(' or no ')' after it; the result never contains ')' |
| `TraceLog.InsideParensOfNamed` | gdbaudy/tricelog.py:82-84 | a name in parentheses after text without '(' is extracted exactly |
| `Flam.CrackBase` | pyflam.py:74-85 | codes 0 to 15 give the fixed ANSI table entry |
| `Flam.CrackCube` | pyflam.py:86-95 | codes 16 to 231 give components in {0, 95, 135, 175, 215, 255}, and their base-6 digits give the code back |
| `Flam.CubeDigits` | pyflam.py:88-91 | the three digits are base-6 digits of c-16 |
| `Flam.CrackGray` | pyflam.py:96-100 | codes from 232 on give three equal components (c-232)*10+8, and the level gives the code back |
| `Flam.CrackByte` | pyflam.py:79-100 | every code below 256 decodes to byte-sized components |
| `Flam.Hex2Byte` | pyflam.py:296 | '%02x' of a byte is two hex digits that read back as the byte |
| `Flam.ColorcodeToHexDigits` | pyflam.py:295-296 | every code below 256 gives exactly six hex digits whose pairs read back as the decoded components |
| `Flam.HexArg` | pyflam.py:121-122 | an 'x' conversion succeeds exactly for an integer argument |
| `Flam.HexArgValue` | pyflam.py:122 | a non-negative 'x' argument renders as '0x' followed by lower-case hex digits that read back as the number |
| `Flam.FormatConversionShape` | pyflam.py:127-147 | a conversion is the value cut to the precision (default 64000), padded with spaces to the minimum width, on the right with the '-' flag and on the left otherwise |
| `Flam.ApplyPieceState` | pyflam.py:115-164 | one match consumes an argument iff it is a conversion, and asks for a reset iff it is a colour tag |
| `Flam.SubstitutedState` | pyflam.py:113-167 | the conversions consume the arguments one each, in order; a reset is needed iff some colour tag was substituted |
| `Flam.SubstitutedCounts` | pyflam.py:113-167 | the same, by induction over the matches |
| `Flam.SubstitutedColumn` | pyflam.py:116-149 | without tags, the output column advances by exactly the length of the output |
| `Flam.SubstitutedFailed` | pyflam.py:120-124 | a failing match aborts the whole message |
| `Flam.Finish` | pyflam.py:168-174 | the 'n' colour is appended iff a colour tag was used, a KeyError if 'n' is undefined; without an indent nothing else changes |
| `Flam.FinishIndents` | pyflam.py:171-174 | with an indent, every line of the rendered message is the corresponding line with the indent in front |
| `Flam.IndentedLines` | pyflam.py:174 | `ind + s.replace('\n', '\n' + ind)` puts ind in front of every line of s |
| `Flam.ReplaceNewlinesLines` | pyflam.py:174 | the lines of the replaced text are the first line, then the others prefixed |
| `Flam.FlamOut.constructor` | pyflam.py:25-31 | a new formatter has the colour map of init_map and indent 0 |
| `Flam.FlamOut.InitMap` | pyflam.py:37-72 | init_map defines the sixteen palette tags, in order, with their foreground escapes, and leaves the indent alone |
| `Flam.FlamOut.MapAllFg` | pyflam.py:37-72 | a run of map_fg calls adds exactly their tags to the map, the later one winning |
| `Flam.FgMapDefines` | pyflam.py:37-72 | every palette tag, the reset 'n' among them, is defined |
| `Flam.FlamOut.MapFg` | pyflam.py:102-103 | the tag maps to the 256-colour foreground escape, nothing else changes |
| `Flam.FlamOut.MapBg` | pyflam.py:105-106 | the tag maps to the 256-colour background escape, nothing else changes |
| `Flam.FlamOut.I` | pyflam.py:108-111 | the indent level becomes max(0, level + adjustment), so it is never negative |
| `Flam.FlamOut.Call` | pyflam.py:113-174 | the text is `Render` of the message, and every line of it starts with the indent |
| `Highlight.NameClass` | pygflam.py:104-151 | a name shorter than 3 characters stays a Name; every result is one of the nine types the filter uses |
| `Highlight.NameConventions` | pygflam.py:110-140 | Argument, Static, Member, Interface and Class each iff their naming convention, so no later rule produces an earlier rule's type |
| `Highlight.ScaffoldingClassified` | pygflam.py:133-144 | every name of the two scaffolding sets becomes Scaffolding |
| `Highlight.TypeNamesClassified` | pygflam.py:136-151 | every name of the two type sets becomes Keyword.Type |
| `Highlight.ConstantsClassified` | pygflam.py:130-148 | nsnull, PR_TRUE and PR_FALSE become Constant |
| `Highlight.FilterToken` | pygflam.py:96-154 | an 'include ' preprocessor token becomes 'include ' and the rest typed as String; a Name keeps its text; other tokens pass unchanged |
| `Highlight.FilterKeepsText` | pygflam.py:95-154 | the filter never drops, adds or changes text |
| `Highlight.TextOfAppend` | pygflam.py:95-154 | the text of a stream is the text of its parts |
| `Highlight.FmtBit` | pygflam.py:216-219 | each fragment's format bit holds exactly one conversion |
| `Highlight.Args` | pygflam.py:248 | the line's texts become the formatter's arguments, in order |
| `Highlight.DecorateConversions` | pygflam.py:242-248 | decoration adds no conversion, so a call has as many conversions as arguments |
| `Highlight.DecorateFormat` | pygflam.py:242-248 | on a magic line the format starts with the line's colour tag and ends with '{-bg}'; with line numbers on, the '{n}' tag and the gutter come next; then the line's own pieces unchanged; the arguments are the line's texts as strings |
| `Highlight.GutterOf` | pygflam.py:243 | the gutter is the line number's decimal digits preceded by spaces only, five columns wide (wider only from 100000 on), followed by a space, and int() of it gives the line number back |
| `Highlight.MagicFormatter.constructor` | pygflam.py:165-179 | line numbers are shown unless turned off, the window defaults to lines 1 to 65536, there are no magic lines by default |
| `Highlight.MagicFormatter.LineConsolidator` | pygflam.py:207-232 | lines are numbered 1, 2, 3, ...; line k has as format the '{type}%s' bits (plain '%s' for an uncoloured type) and as data the texts of the k-th group of fragments, the tokens' texts cut at the newlines; their texts are the lines of the token text, each newline closing exactly one line and a final fragment kept only when not empty; each line has one conversion per argument |
| `Highlight.MagicFormatter.Format` | pygflam.py:234-248 | the calls made are exactly the decorated lines numbered first_line to last_line, in order, each balanced; each line carries its fragments' bits and texts |
| `Highlight.FormatLines` | pygflam.py:237-248 | the loop skips lines before first_line and stops at the first line after last_line |
| `Highlight.EmittedWindow` | pygflam.py:237-241 | on consecutively numbered lines, the lines emitted are exactly those in the window |
| `Highlight.EmittedConversions` | pygflam.py:237-248 | every call made has as many conversions as arguments |
| `SourceList.GlobalContext.constructor` | gdbaudy/pyglist.py:9-14 | no frame or file yet, line 0, range (0, 0) |
| `SourceList.GlobalContext.Invoke` | gdbaudy/pyglist.py:48-121 | the position is saved whatever follows; the range is computed from the stripped argument with the old same-context test; last_range changes only when a range was selected |
| `SourceList.ParseAll` | gdbaudy/pyglist.py:74 | `map(int, parts)` yields one number per part |
| `SourceList.LineRange` | gdbaudy/pyglist.py:71-119 | every range other than an '@' list has two ends |
| `SourceList.NewContextRange` | gdbaudy/pyglist.py:77-100 | a selected range in a new context has two ends |
| `SourceList.SameContextRange` | gdbaudy/pyglist.py:101-119 | a selected range in the same context has two ends |
| `SourceList.ExplicitRange` | gdbaudy/pyglist.py:72-75 | '@A,B' selects A to B whatever the context |
| `SourceList.NewContextAround` | gdbaudy/pyglist.py:80-82 | 'M N' in a new context gives (L-M, L+N) |
| `SourceList.NewContextBefore` | gdbaudy/pyglist.py:83-90 | '-N' in a new context gives (L-N, L+8); a lone '-' gives (L-11, L+8) |
| `SourceList.NewContextAfter` | gdbaudy/pyglist.py:91-93 | '+N' in a new context gives (L-11, L+N) |
| `SourceList.NewContextCentred` | gdbaudy/pyglist.py:94-97 | 'N' in a new context gives (L-N//2, L+N//2) |
| `SourceList.SameContextForward` | gdbaudy/pyglist.py:114-116 | 'N' in the same context gives (end+1, end+N) |
| `SourceList.SameContextBackward` | gdbaudy/pyglist.py:108-113 | '-N' in the same context gives (start-N, start-1); a lone '-' gives (start-20, start-1) |
| `SourceList.SameContextAround` | gdbaudy/pyglist.py:105-107 | 'M N' in the same context gives (end-M+1, end+N) |
| `SourceList.SameContextRejectsPlus` | gdbaudy/pyglist.py:117-119 | '+N' is 'not a thing' in the same context |
| `SourceList.SameContextPaging` | gdbaudy/pyglist.py:103-104 | with no argument, each page is the 20 lines after the last one |
| `Text.Split` | gdbaudy/bt.py:42 | `str.split(sep)` always yields at least one piece |
| `Text.SplitPieces` | gdbaudy/bt.py:42-44 | one piece iff no separator, that piece being the string; no piece contains the separator |
| `Text.SplitLength` | gdbaudy/bt.py:42 | split yields one more piece than there are separators |
| `Text.JoinSplit` | gdbaudy/bt.py:69 | joining the pieces of a split gives the string back |
| `Text.JoinTailIsSuffix` | gdbaudy/bt.py:69 | joining a tail of the pieces gives a suffix of the joined string |
| `Text.SplitAppend` | pygflam.py:220 | the pieces of a concatenation are the pieces of its parts, fused at the join |
| `Text.TrimLeft` | gdbaudy/pyglist.py:69 | leading whitespace removal yields a suffix that starts with a non-space, and every character removed is whitespace |
| `Text.TrimRight` | gdbaudy/pyglist.py:69 | trailing whitespace removal yields a prefix that ends with a non-space, and every character removed is whitespace |
| `Text.IndexOf` | gdbaudy/tricelog.py:76 | `str.index` gives the first occurrence from a position, None when there is none |
| `Text.ParseInt` | gdbaudy/bt.py:339 | `int()` fails only with ValueError; ParseIntStripped gives what it accepts and returns |
| `Text.ParseIntStripped` | gdbaudy/bt.py:339 | `int(s)` is the literal of `s.strip()`: a digit string gives its decimal value; a sign, then optional whitespace, then a digit string gives the signed value; anything else is a ValueError |
| `Text.ParseIntSignSpace` | gdbaudy/pyglist.py:89 | whitespace after the sign is accepted: `int("- 5") == -5` and `int("+\t5") == 5` |
| `Text.ParseIntRejects` | gdbaudy/pyglist.py:74 | whitespace inside the digits, a lone sign and a sign followed only by whitespace are ValueErrors |
| `Text.ParseIntToString` | gdbaudy/bt.py:339 | `int(str(i)) == i` |
| `Text.ParseIntOfDigits` | gdbaudy/pyglist.py:94-95 | a digit string reads as its decimal value |
| `Text.NatToString` | gdbaudy/bt.py:81 | '%d' of a natural is a digit string |
| `Text.NatToStringValue` | gdbaudy/bt.py:81 | the decimal rendering reads back as the number |
| `Text.NatToHex` | pyflam.py:122 | '%x' is lower-case hex digits, one digit exactly below 16 |
| `Text.NatToHexValue` | pyflam.py:122 | the hex rendering reads back as the number |
| `Text.PadLeft` | pygflam.py:243 | '%5d' pads on the left to the width, keeping the text as a suffix |
| `Text.NatToStringWidth` | pygflam.py:243 | a number below 10^w has at most w decimal digits, so '%5d' of a line number below 100000 is five columns wide |
| `Text.ParseIntPadded` | pygflam.py:243 | int() of a space-padded digit string gives the digits' value |
| `Text.Spaces` | pyflam.py:145-147 | `' ' * n` is max(n, 0) spaces |

## Left out

- Every gdb call is left out. That covers command and breakpoint registration, frame
  iteration and frame filters, `read_var`, `find_sal`, symbol and block lookups, and
  value dereferences and casts. Frames and the debugged process's memory are inputs:
  values, and maps from addresses to records.
- All printing is left out: `pout` output, the `describe` and `print_frame_*` methods,
  `print` in `FlamOut.__call__` and the HTML output of `FlamHTML`. The model returns the
  text that would be printed.
- `munge_symbol` (gdbaudy/bt.py) is not part of this model, because its output only
  goes to the printer.
- gdbaudy/pp.py and gdbaudy/half_formed_ideas.py are not part of this model. The first
  is a thin gdb wrapper; the second references undefined names.
- `_chew_context_list` (gdbaudy/mozbt.py) is never called and is not modelled.
- `mozbt()` (gdbaudy/mozbt.py) is not modelled. It relies on Python-2 `izip` and uses
  the builtin `filter` as a flag.
- In tricelog.py, `magic_capture`, `maybe_deref`, `maybe_pierce`, `capture_js_stack`,
  the logging breakpoint and the toml, JSON and file handling are left out. All of
  them are debugger or file I/O.
- `Backtrace.ContextHelper.Process`: `pout.INTERESTING_COUNT` is not defined in the
  formatter, so the number of coloured values K is a parameter.
- `Backtrace.ContextHelper.constructor` does not call the frame helpers' `setup`; `JSFrameHelper.Setup` is modelled on its own.
- `Backtrace.ContextHelper.Process`: the source puts the same info dict into both tables. A later `considerValue` would then change the count seen through the interesting table as well. The model copies the record instead, so this aliasing is not captured.
- `Backtrace.ContextHelper.ConsiderValue`: only string values are modelled. The `isinstance(value, str)` test is assumed to hold, since non-strings are ignored anyway.
- `MozBacktrace.ScratchContext.PopUntilFrame`: the source has no bound on the walk. The model takes a `fuel` budget and answers `Err(OutOfFuel)` where the source could loop forever. `PopFuel` shows that the result does not depend on the budget once it suffices.
- `MozBacktrace.ScratchContext.RestoreSegment`: when an exception stops a backtrace, the model leaves the context in its previous state. The source can leave it half-updated, but the backtrace is abandoned at that point.
- `MozBacktrace.JSFrameHelper.ProcessFrame`: `frame.newer()` is read but never used, so it is left out.
- `Flam.FlamOut.Call`: the message regular expression and its `sub` driver are not modelled. A message is given already cut into literal text, `%` conversions (flags, width, precision, letter) and `{...}` tags. A missing width and a width of 0 read the same.
- `Flam.Str`: `str()` is modelled for integers and strings only, and `'%x'` fails for a string argument. Other Python objects are not modelled.
- `_init_styles`, `hexcolor_to_colorcode` and the `bg_colors` option of `FlamMagicFormatter` are left out. The set of token types without a colour is a constructor argument.
- `flamhighlight`'s file reading, the Pygments lexer and the style table are left out.
- `SourceList.GlobalContext.Invoke` does not model the file-existence check (it only prints), the 'That is not a thing.' message (shown as `Ok(None)`), or the call into the highlighter.
- `Highlight.NameClass`: `str.isupper()` is modelled for ASCII letters only.
- `Text.ParseInt` models Python 2 `int()` of a byte string: ASCII whitespace, an optional sign, ASCII whitespace, ASCII digits and ASCII whitespace. `int()` of a unicode string is not modelled; gdb passes the commands byte strings.
- `Text.TrimLeft` and `Text.TrimRight` strip ASCII whitespace only.
- Python 2 byte strings versus unicode strings are not distinguished; strings are sequences of characters.
