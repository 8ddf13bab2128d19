# winleap, modelled in Dafny

winleap is a set of three small X11 window switchers:

- `winleap` maps a numbered mark to a window class through a config file
  (`N=Class` lines plus `instance_keys` and `debug` settings). It activates
  the single window of that class, optionally only on the current desktop.
  When several windows match, it grabs the keyboard and waits for one of
  the instance keys.
- `atsw` grabs the keyboard at once and gives every window a short typed
  prefix: the shortest case-insensitive prefix of its class that no other
  class shares, plus `1`, `2`, ... when a class has several windows. It then
  reads keys until the buffer selects exactly one window, or Escape is
  pressed.
- `atsw_manual` maps a mark to a class through a lenient marks file. It
  cycles to the next window of that class when one is already active,
  and otherwise activates the first one.

The model keeps each program's logic and leaves out the X11 calls. What
the windowing system reports is an input:

- the client list, as `RawWindow` records;
- whether the display opened;
- the replies of `XGrabKeyboard`;
- the key events;
- the current desktop;
- the active window.

Activation is the ordered list of requests `activate_window` would send.
An exit is either `Exited(code, activated window)` or `Blocked`, which
stands for a program that is still waiting for keys when the event list
ends.

Files and modules:

- `common.dfy` (`Common`): `Option`.
- `cstring.dfy` (`CString`): the C library pieces the programs rely on.
  These are `isspace`, `tolower`, `strcasecmp`/`strncasecmp`, `strchr`,
  `strrchr`, the in-place `trim`, glibc `strtol` with 64-bit clamping,
  `atoi` as `strtol` narrowed to a 32-bit `int`, and `%d`.
- `registry.dfy` (`Registry`): raw and discovered windows, the discovery
  filter, the class/desktop filter, key events and exits.
- `grab.dfy` (`Grab`): the shared keyboard grab with retry and backoff.
- `activation.dfy` (`Activation`): the request sequence of `activate_window`.
- `marks.dfy` (`MarkTable`): the first-wins mark lookup.
- `winleap_config.dfy` (`WinleapConfig`) and `winleap.dfy` (`Winleap`):
  `winleap.c`.
- `prefix_index.dfy` (`PrefixIndex`) and `matcher.dfy` (`Matcher`): `atsw.c`.
- `atsw_manual.dfy` (`AtswManual`): `atsw_manual.c`.

Where the C code loops or updates state, the model is a method. Each such
method is proved equal to a specification function, and the lemmas state
what that function promises. Examples:

- grouping the windows (`GroupByClass` against `GroupsOf`);
- the prefix search (`ShortestUniqueLen` against `PrefixLen`);
- the prefix assignment into an array (`ComputePrefixes` against
  `PrefixTable`);
- the key loop over a fixed `char[64]` buffer (`RunMatcher` against `Run`);
- the config and marks readers (`ReadConfigFile`, `ReadMarksFile`);
- the selection loops (`SelectInstance`, `ChooseTarget`).

Behaviour taken from the code where a plain description of the programs
would say otherwise:

- In `winleap`, more matching windows than instance keys makes
  `select_instance_interactively` return -2, so the program exits with 2,
  not 1.
- In `atsw`, a key that leaves no candidate keeps the extended buffer; it
  is not undone. BackSpace shortens the buffer but does not match again.
  A printable key appends every character `XLookupString` returned, lower
  cased, up to 63 characters. Any key other than Escape, BackSpace or Enter
  that has text counts as printable.
- In `atsw`, a class with no unique prefix gets the whole class as its
  stem. If the class is a proper prefix of another class, its window can
  never be selected by typing (`Matcher.ProperPrefixClassUnreachable`).
- In `atsw`, instance suffixes are not checked against other classes. For
  the classes `d`, `d`, `d1` the prefixes are `d1`, `d2`, `d1`, so the
  first and third windows shadow each other
  (`PrefixIndex.InstanceSuffixCollides`, `Matcher.CollidingSuffixUnreachable`).
  The model keeps this behaviour as written.

## Model

| member | source | states |
|---|---|---|
| CString.ToLower | atsw.c:182-186 | the result is never upper case; upper-case letters map to lower case and every other character is unchanged |
| CString.LowerIdempotent | atsw.c:182-186 | lower-casing twice equals lower-casing once, and the result has no upper-case letter |
| CString.StrNCaseEqIff | atsw.c:254 | `strncasecmp(x, y, n) == 0` holds exactly when the lower-cased first `min(n, len)` characters of both strings are equal |
| CString.IndexOfChar | winleap.c:199 | `strchr`: none exactly when the character is absent; otherwise the index of its first occurrence |
| CString.LastIndexOfChar | winleap.c:284 | `strrchr`: none exactly when the character is absent; otherwise the index of its last occurrence |
| CString.LeadingSpaceCount | winleap.c:116-126 | counts the leading `isspace` characters: all of them are spaces and the next one is not |
| CString.TrailingSpaceCount | winleap.c:116-126 | counts the trailing `isspace` characters, the mirror of the leading count |
| CString.TrimShape | winleap.c:116-126 | `trim` removes exactly the leading and trailing white space: the result is the middle slice, and it starts and ends with a non-space when it is non-empty |
| CString.TrimIdempotent | winleap.c:116-126 | trimming a trimmed string changes nothing |
| CString.TrimSpan | winleap.c:116-126 | the loop version of `trim` returns bounds whose slice is `Trim` of the input |
| CString.LeadingDigitCount | winleap.c:228-232 | the length of the leading run of digits |
| CString.Strtol | winleap.c:228-232 | glibc `strtol` base 10: the end index stays inside the string, the value is clamped to the 64-bit `long` range, and no conversion gives 0 |
| CString.WrapInt32 | winleap.c:801 | the `long` to `int` narrowing of `atoi` lands in the 32-bit range and keeps every value already in range |
| CString.DigitChar | atsw.c:274 | a digit below ten becomes the character with that digit value |
| CString.Decimal | atsw.c:274 | `%d` of a natural number is non-empty |
| CString.DecimalDigits | atsw.c:274 | `%d` writes only digits, and reading them back gives the number |
| CString.StrtolDecimal | winleap.c:228-232 | `strtol` of a printed number reads the whole string and gives the number back |
| CString.AtoiDecimal | winleap.c:801 | `atoi` of a printed `int`-sized number gives the number back |
| Registry.DiscoverInto | winleap.c:509-550 | `discover_windows`: at most the room left is stored; each stored window has a non-empty class and its lower-cased copy |
| Registry.DiscoverIntoExact | atsw.c:156-205 | every discovered window comes from a client-list entry with a class; below the cap, no entry with a class is dropped |
| Registry.Matching | winleap.c:552-577 | the match list has at most one entry per window, and each entry indexes a window |
| Registry.MatchingExact | winleap.c:552-577 | the match list is strictly increasing and holds index `i` exactly when window `i` has the class (ignoring case) and, when scoped, sits on the known current desktop |
| Registry.MatchingPrefix | winleap.c:558-574 | matching over the first windows gives a prefix of the whole match list, so a scan cut short has found the first matches |
| Registry.MatchingUnknownDesktop | winleap.c:862-866 | scoped to an unknown current desktop (negative), nothing matches |
| Registry.Take | atsw_manual.c:282-292 | a capped copy has length `min(cap, length)` |
| Grab.GrabKeyboard | winleap.c:626-649 | at most ten calls; a retry only after "already grabbed"; the result is success exactly when the grab is granted within the attempts; attempt `k` sleeps `RetryDelay(k)` (10 ms, then times 3/2) |
| Grab.RefusedAt | winleap.c:631-645 | when every earlier reply was "already grabbed" and reply `k` is a refusal that ends the loop, the grab is not granted |
| Activation.ActivationOps | winleap.c:579-624 | a desktop switch and the 50 ms settle come first exactly when the window's desktop is known; then the activation request; every window request names the window; the last request is the input focus |
| MarkTable.FindClassForMark | winleap.c:247-255 | none exactly when no entry carries the number |
| MarkTable.FirstMarkDecides | winleap.c:247-255 | when entry `i` is the first to carry the number, the result is that entry's class |
| MarkTable.LaterMarksIgnored | atsw_manual.c:272-279 | once a number is bound, entries appended later never change its class |
| WinleapConfig.ParseBool | winleap.c:128-139 | true exactly for `true`/`yes` in any case and `1`; false exactly for `false`/`no` in any case and `0`; otherwise not a boolean |
| WinleapConfig.ParseBoolIgnoresCase | winleap.c:128-139 | lower-casing the value never changes the result |
| WinleapConfig.SelectorChars | winleap.c:141-176 | the kept characters are no more than the input; each is a selectable, lower-case character |
| WinleapConfig.SelectorCharsConcat | winleap.c:150-170 | filtering is character by character: filtering a concatenation concatenates the filtered parts |
| WinleapConfig.ParseInstanceKeys | winleap.c:141-176 | the loop with its duplicate check and size limit computes the specification result |
| WinleapConfig.InstanceKeysProperties | winleap.c:141-176 | rejected exactly when the output size is under 2, nothing is kept, a key repeats, or the keys do not fit; when accepted, the keys are the filtered input: non-empty, lower-case, distinct, selectable and shorter than the output size |
| WinleapConfig.SpacedKeysLowered | winleap.c:150-163 | `"x Y"` gives `"xy"`: white space is dropped and letters are lower-cased |
| WinleapConfig.CaseRepeatRefused | winleap.c:159-162 | `"aA"` is refused, because the two keys repeat after lower-casing |
| WinleapConfig.BlankKeysRefused | winleap.c:172-174 | a value of blanks only is refused |
| WinleapConfig.StrictMarkNumber | winleap.c:228-232 | an accepted mark number is between 1 and `INT_MAX` |
| WinleapConfig.StrictMarkNumberShape | winleap.c:228-232 | a key is accepted exactly when it is an optional `+`, then digits only, with value between 1 and `INT_MAX`; the number is the value of those digits |
| WinleapConfig.StrictMarkNumberDecimal | winleap.c:228-232 | every printed number in 1..`INT_MAX` is accepted as itself |
| WinleapConfig.MarkEntryShape | winleap.c:193-240 | a stored mark has a number in 1..`INT_MAX` and a non-empty, trimmed class |
| WinleapConfig.ParseConfigLine | winleap.c:193-240 | the per-line code (trim, comment, `=`, key and value trimming, settings, number check) computes `ClassifyLine` |
| WinleapConfig.Classified | winleap.c:193-240 | one classification per line, in order |
| WinleapConfig.ApplyLine | winleap.c:206-240 | a line fails the load exactly when it is a malformed setting; otherwise the marks grow by exactly that line's mark, if any |
| WinleapConfig.ReadConfigFile | winleap.c:178-245 | the reading loop computes `LoadConfig`: defaults, then the lines in order, stopping at `MAX_MARKS` marks |
| WinleapConfig.ReadConfigLine | winleap.c:195-240 | one pass of the reading loop turns the configuration so far into exactly the step the line's classification calls for, or into the failure a bad `instance_keys` line causes |
| WinleapConfig.ApplyConfigLine | winleap.c:206-240 | applying one classified line matches `ApplyLine` |
| WinleapConfig.LoadFromMarks | winleap.c:237-240 | a successful load stores exactly the first mark lines, up to the room left |
| WinleapConfig.LoadFromFails | winleap.c:208-225 | loading fails exactly when a bad `instance_keys` or `debug` line comes before the mark table is full |
| WinleapConfig.LoadStopsAtCap | winleap.c:193 | once `MAX_MARKS` marks are stored, later lines change nothing |
| WinleapConfig.MarkEntriesValid | winleap.c:193-240 | every mark line yields a number in 1..`INT_MAX` and a non-empty trimmed class |
| WinleapConfig.LoadedConfig | winleap.c:178-245 | a loaded config has between 1 and `MAX_MARKS` marks, the first mark lines in file order, each well-formed |
| WinleapConfig.LoadKeepsKeysValid | winleap.c:208-214 | loading keeps the instance keys non-empty, lower-case, distinct and under `MAX_INSTANCE_KEYS` |
| WinleapConfig.DefaultKeysValid | winleap.c:40 | the default instance keys are valid in that sense |
| WinleapConfig.DefaultKeysDistinct | winleap.c:40 | the default instance keys hold no repeated character |
| WinleapConfig.LoadedKeysValid | winleap.c:178-245 | every loaded config has valid instance keys |
| WinleapConfig.TrailingJunkKeySkipped | winleap.c:228-232 | `3x=foo` is skipped, because the key must be digits only |
| Winleap.PathJoin | winleap.c:262-279 | an empty side yields the other; otherwise the result starts with `a`, ends with `b`, and is their bare concatenation exactly when `a` ends with `/` |
| Winleap.LastSlashOfJoin | winleap.c:262-279 | in a joined path whose file part has no `/`, the last `/` is the separator |
| Winleap.PathJoinSplits | winleap.c:262-279 | splitting a joined path at its last `/` gives back the directory (without its trailing `/`) and the file name |
| Winleap.NearExecutableSplits | winleap.c:281-291 | the path near the executable has the executable's directory and the given file name |
| Winleap.FindWindowsByClassAndScope | winleap.c:552-577 | the scan returns the first `max` indices of `Matching`: class equal ignoring case and, when scoped, on the current desktop |
| Winleap.Decision | winleap.c:684-712 | a chosen index is one of the matching windows |
| Winleap.FirstDecision | winleap.c:680-712 | a chosen index is one of the matches, and the read never ends in a refusal |
| Winleap.FirstDecisionIsFirstDecisive | winleap.c:680-712 | the first key press that is Escape or a selector decides the selection, and the program waits on exactly when there is no such key |
| Winleap.Selected | winleap.c:651-712 | a chosen index is one of the matches; refused exactly when there is no match, more matches than keys, or no grab |
| Winleap.SelectInstance | winleap.c:651-718 | the result is `Selected`; no matches, or more matches than instance keys, fail without grabbing, otherwise one to ten grab attempts are made |
| Winleap.Dispatch | winleap.c:896-922 | one match activates it with code 0; with two or more, Escape exits 1, a refusal (too few keys, no grab) exits 2, a selector key activates the window it chose with code 0, and with no decisive key main still waits; an activated window is one of the matches and gets its activation requests; otherwise no requests |
| Winleap.ResolveMark | winleap.c:801-839 | the class comes from `TargetClass`: a positive mark, a loaded config, and a bound mark |
| Winleap.JumpToClass | winleap.c:843-922 | no display or no windows exit 2; no match exits 1; one match exits 0 with that window; with several, Escape exits 1, a refusal exits 2 and a selector key activates its window; an activated window is discovered, in scope and activated through its requests |
| Winleap.WinleapMain | winleap.c:801-922 | a bad mark, a failed load or an unbound mark exit 1; no display or no windows exit 2; no match exits 1; a single match exits 0 with that window; with several, too few keys or a refused grab exit 2, Escape exits 1 and a selector key activates the window it chose; code 0 comes exactly with an activated, discovered, in-scope window |
| PrefixIndex.FindGroup | atsw.c:222-229 | the first group with the class, or none exactly when no group has it |
| PrefixIndex.Classes | atsw.c:222-229 | the class of every group, in order |
| PrefixIndex.AddToExistingGroup | atsw.c:231-232 | adding a window of a known class keeps the grouping invariant |
| PrefixIndex.OpenNewGroup | atsw.c:233-238 | opening a group for a new class while there is room keeps the grouping invariant |
| PrefixIndex.NoRoomForGroup | atsw.c:233 | dropping a new class once `MAX_APPS` groups exist keeps the grouping invariant |
| PrefixIndex.GroupsOfGrouped | atsw.c:221-239 | the groups have distinct classes and at most `MAX_APPS` entries; members are non-empty, increasing, of the group's class and complete; groups are ordered by first member; with room left, every window is grouped |
| PrefixIndex.AddWindowGrouped | atsw.c:221-239 | adding one window, whether it joins a group, opens one or finds no room, keeps every grouping property for the longer class list |
| PrefixIndex.GroupByClass | atsw.c:221-239 | the grouping loop computes `GroupsOf` |
| PrefixIndex.SearchFrom | atsw.c:248-261 | the search from `L` stops at the first unique length, or past the class length when there is none |
| PrefixIndex.PrefixLen | atsw.c:242-261 | the prefix length is at least 1; when it is within the class, no other class shares that prefix and no shorter length is unique |
| PrefixIndex.ShortestUniqueLen | atsw.c:242-261 | the nested search loop computes `PrefixLen` |
| PrefixIndex.Stem | atsw.c:263-277 | the stem is a prefix of the class |
| PrefixIndex.IndexIn | atsw.c:272-274 | the position of a window among its group's members, or past the end exactly when it is absent |
| PrefixIndex.PrefixTable | atsw.c:208-277 | one prefix per window |
| PrefixIndex.MemberOfGroup | atsw.c:221-239 | a window belongs to group `a` exactly when it is among that group's members |
| PrefixIndex.AssignGroup | atsw.c:263-277 | writes the stem (single window) or stem plus position (several) for the group's windows and leaves every other entry unchanged |
| PrefixIndex.ComputePrefixes | atsw.c:208-277 | the array version of `compute_prefixes` computes `PrefixTable` |
| PrefixIndex.UniqueStemDiffers | atsw.c:242-261 | a stem shorter than its class differs from every other group's stem |
| PrefixIndex.StemsDiffer | atsw.c:242-261 | the stems of two different groups always differ |
| PrefixIndex.SingleWindowPrefixesDistinct | atsw.c:263-268 | two single-window classes never get the same prefix |
| PrefixIndex.UngroupedOnlyWhenFull | atsw.c:190 | a window is left without a prefix only when `MAX_APPS` groups already exist |
| PrefixIndex.Occurrences | atsw.c:221-239 | the windows of a class, in order: increasing, all of that class, none missing |
| PrefixIndex.OccurrencesPrefix | atsw.c:221-239 | the occurrences among the first windows are a prefix of all occurrences |
| PrefixIndex.MembersAreOccurrences | atsw.c:221-239 | each group's members are exactly the windows of its class |
| PrefixIndex.PrefixOfGroupedWindow | atsw.c:263-277 | a grouped window's prefix is its stem when its class has one window, and otherwise the stem followed by its 1-based rank among the windows of its class |
| PrefixIndex.InstanceSuffixCollides | atsw.c:270-275 | for the classes `d`, `d`, `d1` the prefixes are `d1`, `d2`, `d1` |
| PrefixIndex.WholeClassFallback | atsw.c:248-268 | for the classes `ab`, `abc` the prefixes are the whole classes |
| Matcher.Candidates | atsw.c:298-306 | the windows whose prefix starts with the buffer, ignoring case: increasing, in range, and exactly those |
| Matcher.CandidateIff | atsw.c:298-306 | a prefix is a candidate exactly when the buffer is no longer than it and equals its start, ignoring case |
| Matcher.LowerPrefix | atsw.c:298-306 | lower-casing commutes with taking a prefix |
| Matcher.Narrowing | atsw.c:504-532 | typing more only removes candidates |
| Matcher.UngroupedNeverMatches | atsw.c:298-306 | a window with no prefix is never a candidate for a non-empty buffer |
| Matcher.ShadowedNeverUnique | atsw.c:298-313 | a window whose prefix begins another window's prefix is never the only candidate |
| Matcher.FindMatch | atsw.c:289-314 | an empty buffer gives -2 and counts every window; otherwise the count is the number of candidates, and the result is the index when there is one candidate, -1 for none and -2 for several |
| Matcher.Extend | atsw.c:504-515 | the buffer keeps its contents and grows by the key text, up to 63 characters |
| Matcher.KeyStep | atsw.c:462-532 | cancel exactly on Escape; an activation names a window that is the only candidate for the buffer or its extension; a kept buffer stays within bounds and lower case |
| Matcher.PrintableKeyActivatesIffUnique | atsw.c:503-531 | a printable key with room activates a window exactly when it is the only candidate of the extended buffer, and otherwise keeps the extended buffer |
| Matcher.BlankOrOverflowKeyIgnored | atsw.c:503 | a key without text, or any key once the buffer is full, changes nothing |
| Matcher.EnterActivatesIffUnique | atsw.c:486-500 | Return and KP_Enter activate a window exactly when it is the only candidate of the non-empty buffer, and otherwise change nothing |
| Matcher.OtherEventsIgnored | atsw.c:462 | events other than key presses change nothing |
| Matcher.RunProperties | atsw.c:459-534 | an activation is the one the key then pressed makes from the buffer in force before it; a cancel follows an Escape reached before any other ending; a waiting loop holds a valid buffer |
| Matcher.RunDecidedAt | atsw.c:459-534 | the loop ends with what the first stopping key does from the buffer in force before it |
| Matcher.RunWaitsIffReached | atsw.c:459-534 | the loop waits exactly when no event stopped it, with the buffer the events reached |
| Matcher.TypedUniqueActivates | atsw.c:503-522 | a key whose text leaves a single candidate, given the buffer reached before it, ends the loop with that window activated |
| Matcher.NoMatchKeepsKey | atsw.c:517-531 | a key that leaves no candidate keeps the extended buffer and goes on waiting |
| Matcher.BackSpaceDropsLast | atsw.c:478-484 | BackSpace removes the last character of a non-empty buffer, leaves an empty one, and never activates a window |
| Matcher.AppendText | atsw.c:504-515 | the bytes written into the fixed buffer are `Extend` of the old contents |
| Matcher.HandleKey | atsw.c:462-532 | one pass of the loop body computes `KeyStep` on the buffer contents |
| Matcher.RunMatcher | atsw.c:449-534 | the loop over a `char[64]` buffer computes `Run` from the empty buffer |
| Matcher.ClassesLower | atsw.c:190 | the lower-cased class of each window, in order |
| Matcher.AtswMain | atsw.c:421-534 | no display, no grab or no windows exit 2; then the key session decides: an activation exits 0 with that window and its requests, Escape exits 1, and otherwise the program waits |
| Matcher.ProperPrefixClassUnreachable | atsw.c:248-268 | with classes `ab` and `abc`, no buffer selects the `ab` window alone |
| Matcher.CollidingSuffixUnreachable | atsw.c:270-275 | with classes `d`, `d`, `d1`, no buffer selects the first or the third window alone |
| AtswManual.LenientLine | atsw_manual.c:234-263 | a stored mark has a number in 1..`INT_MAX` and a value without leading space |
| AtswManual.LenientSkips | atsw_manual.c:239-245 | blank lines, comments and lines without `=` are skipped |
| AtswManual.AtoiLeadingDigits | atsw_manual.c:255-256 | `atoi` reads the leading digits of `3x` as 3 |
| AtswManual.LeadingDigitsSuffice | atsw_manual.c:244-263 | `3x=foo` binds mark 3 to `foo`, unlike the strict config reader |
| AtswManual.EmptyValueKept | atsw_manual.c:252-263 | `5=` binds mark 5 to the empty class |
| AtswManual.LenientEntries | atsw_manual.c:234-263 | at most one mark per line, each with a positive number |
| AtswManual.LenientEntriesPrefix | atsw_manual.c:234-263 | the marks of the first lines are a prefix of the marks of all lines |
| AtswManual.LoadMarks | atsw_manual.c:221-269 | at most `MAX_MARKS` marks, each with a positive number |
| CString.SkipSpaceIndex | atsw_manual.c:239-241 | the skip loop stops at the first non-space |
| CString.LeadingSpaceCountIs | atsw_manual.c:239-241 | a position with only spaces before it and a non-space at it is the leading space count |
| AtswManual.ParseMarkLine | atsw_manual.c:239-263 | the per-line code computes `LenientLine` |
| AtswManual.ReadMarksFile | atsw_manual.c:221-269 | the reading loop computes `LoadMarks` |
| AtswManual.ReadMarkLine | atsw_manual.c:234-263 | one pass of the reading loop appends to the marks the mark the line gives, if any, and nothing else |
| AtswManual.NoMarksIff | atsw_manual.c:412-418 | no marks are loaded exactly when the file is missing or holds no mark line |
| AtswManual.FirstBindingWins | atsw_manual.c:272-279 | lines appended to the marks file never change a mark already bound |
| AtswManual.FindWindowsByClass | atsw_manual.c:282-292 | the scan returns the first `max` indices of windows whose class equals the target ignoring case |
| AtswManual.ActivePosition | atsw_manual.c:469-477 | the position of the first match that is the active window, or none exactly when no match is active |
| AtswManual.CycleTarget | atsw_manual.c:463-489 | the chosen window is one of the matches |
| AtswManual.ChooseTarget | atsw_manual.c:463-489 | the selection code computes `CycleTarget` |
| AtswManual.CycleAdvances | atsw_manual.c:469-484 | with distinct ids and several matches, when the `i`-th match is active the target is match `(i + 1) mod n`, a different window |
| AtswManual.AtswManualMain | atsw_manual.c:359-499 | a wrong argument count or a non-positive mark exits 1; no display exits 2; no class for the mark exits 1; no windows exits 2; no match exits 1; otherwise the cycle target is activated with exit 0 |

## Left out

- The X11 requests themselves are not modelled: atoms, properties, `XSendEvent`, `XMapRaised`, `XSetInputFocus`, `XSync` and the sleeps. The model covers the order of the requests, what the programs read back (as inputs), and the sleep durations as values.
- Window titles are not modelled. `get_window_title` only feeds the logs.
- Logging, the debug log file, `resolve_debug_log_path`, `mkdir_p`, `ensure_parent_dir`, `print_debug_log` and `print_usage` are left out. They are output only.
- `resolve_config_path` and `file_exists_readable` are not modelled, because they probe the file system. The config file arrives as its lines, or as none when it could not be opened. The log path built in `atsw_manual.c` main is left out for the same reason.
- winleap's command-line flag loop (winleap.c:755-779) is not modelled. The mark argument and the `--current-workspace` choice are inputs, and `--help`, `--debug`, `--open-debug` and `--config` are not modelled.
- grab_keys.c is not part of this model.
- Fixed-size C buffers are modelled as unbounded strings. This covers the `fgets` line limit, which can split long lines, `MAX_CLASS_LEN` truncation by `strncpy`, the 32-byte prefix field and `snprintf` truncation, and the 32-byte `XLookupString` text buffer. The prefix field also has no room for a class longer than 31 characters without a unique prefix.
- A NUL character inside a line, a class or key text is not modelled; strings stop at NUL in C.
- Desktop numbers are `Option<nat>`. A negative or "all desktops" value of `_NET_WM_DESKTOP` is treated like a missing one.
- `Matcher.AtswMain`, `AtswManual.AtswManualMain`: a failed `_NET_CLIENT_LIST` read is modelled as an empty client list. winleap keeps it distinct (`Winleap.DiscoveredWindows`), and every program exits 2 either way.
- `compute_prefixes` keeps its groups in a static array. The model builds them as a sequence value (`PrefixIndex.GroupByClass`) and writes the prefixes into an array.
- `AtswManual.CycleAdvances`: only a single step of the cycle is proved. That repeated calls visit every match in turn is not stated.
- Concurrency with other clients of the windowing system is not modelled. Between the replies the programs see, nothing changes.
- `select_instance_interactively`'s ungrab and the final `XCloseDisplay` are not modelled, since they do not affect the exit code.
