# Proofs about the shell's algorithms and state machines

A Dafny 4.11 model of the parts of this Qt/QML desktop shell that hold real algorithms or protocols, with proofs of
what they promise. `dafny verify dfyconfig.toml` checks everything. Nothing here runs the shell.

| files | component |
|---|---|
| `Wrappers`, `Alignments` | missing values; alignments of a pattern inside a text |
| `Fzf*` | the fzf matcher: prefilter, scratch slabs, the two-row table and its backtrace, the window shrinker, substring search |
| `Fuzzysort*` | the fuzzysort matcher: the filter before matching, strict search with backtracking, whole words, scores, multi-word searches and their undo log, the heap and the top-k results |
| `Settings*`, `ListDelta` | the layered settings: codecs, loading and saving object trees, which changes are saved, writes travelling between layers, lists following lists, the file and its timers |
| `Utf8`, `SecretBuffer`, `SecurePrompt` | the locker's password buffer and prompt |
| `LazyLayout`, `LazyDelegates` | the lazy list view |
| `FileSystemModel` | batched changes of the file list |
| `LockerEndpoint` | the locker's socket protocol |

## How the model follows the source

Objects that are updated in place are classes with the same fields; each method states its whole effect, mostly by
equating the new state with a function of the old one, and the promises are lemmas about those functions or invariants
every method keeps. What the functions themselves say is told once more without them, in plain numbers, slices, rows,
points and paths (`FzfCells`, `SettingsPaths`, and the lemmas beside each function). Typed arrays and byte buffers are
arrays; lists and hashes are sequences and maps. Where a loop of the source visits a hash, the order is arbitrary.
Numbers are unbounded except where the width matters: what is stored in the fzf slab goes through a 16-bit cast, JSON
integers are checked against 32 bits, and UTF-8 and UTF-16 are written out on integers. Lengths on screen and
fuzzysort's scores are reals.

What comes from outside is a step input: what the authenticator answers and when, what the disk holds and whether
writing works, what a socket read yields and whether an answer gets out, which item QML makes for a row, what the model
holds for an added path, and how JavaScript classifies, lower-cases and plain-letters runes beyond ASCII.

Some results are that a promise does not hold as stated, with the exact condition:

* Loading a file and saving it need not be stable: if two enumerators are spelt the same up to case, a value can be
  saved under a name that means another one (`SettingsCodecs.TripletIsLost` and `SettingsTree.TripletFile` give the
  input). `SettingsTree.StableIff`: it is stable for every file exactly if every enumerator a file can name is saved
  under a name that means its value, for all options the layer accepts. None of the shipped enums
  (`src/plugin/src/Sleepy/Config/enums.hpp:20-24`) has two such names. Values that do not come from files need a
  little more (`SettingsCodecs.UnshadowedIffRoundTrip`).
* What is saved need not reload as it was: an entry in quarantine is hidden by the node of the same key once that has
  something to save (`SettingsRoundTrip.ReloadsIff`: exactly then; everything else comes back;
  `SettingsRoundTrip.NumberIsHidden` gives the run).
* Loading a file again does not forget everything: entries a layer's file had for a global node stay in quarantine
  when the section is removed from the file (`SettingsReload.ForgetsIff`: exactly if the layer lies over another one
  and the schema has a global node; no shipped configuration has one).
* A reset of a settings node drops its quarantined entries and those below, which changes what is saved, but that
  alone does not mark the layer for saving (`SettingsMarks.ChangeMarksIff`: of all writes and resets by users that is
  the only one that is missed, exactly if there is no override, there or below, and an entry is lost that no node
  hides; `SettingsMarks.LosesIffContent`: if no node belongs to the layer below, any content is such an entry;
  `SettingsMarks.ResetIsMissed` gives the run).
* If a settings file is deleted while a save is queued and the deletion is noticed, the older tree is written over it,
  and file and tree differ until one of them is changed. So they do if a save fails, which drops what was pending
  (`SettingsFile.AlignedIff`: only these two separate them; `SettingsFile.DeletionIsMissed` and
  `SettingsFile.SaveIsDropped` give the runs).
* The viewport is said to be pulled back so that it always overlaps the content when scrolled past it
  (`src/plugin/src/Sleepy/Components/lazylistview.cpp:514-517`); without a cache buffer it only touches the edge and
  nothing is visible (`LazyLayout.SeesContentIff`: exactly then; `LazyLayout.PastTheContent` gives the view).
* The window of the fzf V1 matcher is not always the tightest: its backward pass does not normalise
  (`FzfMatchV1.AccentsWidenTheWindow` gives the input; `FzfMatchV1.TightExactlyIf`: it is the tightest exactly if the
  tightest alignments start where the pattern's first rune is first met or can be read without normalising, which
  holds wherever normalisation changes nothing).
* fuzzysort may pass over a target that holds every word of a search: white space other than spaces separates words
  but counts as a character to be found (`FuzzysortFlags.TabIsLookedFor`; `FuzzysortFlags.PassesIff` says exactly what
  passes, and `FuzzysortFlags.SubsequencePasses` that no match of a single word is lost).

## Model

| member | source | states |
|---|---|---|
| `Alignments.GreedyIsLeast` | src/utils/scripts/fzf.js:663-689 | taking every pattern character at the first place possible never overtakes any alignment; all three greedy loops rest on this |
| `Alignments.GreedyStuck` | src/utils/scripts/fzf.js:663-689 | a greedy run that cannot go on proves there is no alignment at all |
| `FzfPrefilter.IndexOf` | src/utils/scripts/fzf.js:372-391 | the first index holding a character, -1 exactly if there is none |
| `FzfPrefilter.TrySkip` | src/utils/scripts/fzf.js:372-391 | the first position from `from` on whose rune is the character in either case, -1 exactly if there is none |
| `FzfPrefilter.AsciiFuzzyIndex` | src/utils/scripts/fzf.js:400-419 | for ASCII texts a negative answer means no subsequence match, another answer lies before every position a match can start at; for other texts it rejects nothing |
| `FzfPrefilter.SoundAdmits` | src/utils/scripts/fzf.js:400-419 | that answer is right for any folding of the text that agrees with ASCII folding on ASCII texts, so for both matchers |
| `FzfRunes.BonusFor` | src/utils/scripts/fzf.js:356-365 | bonuses lie between 0 and the boundary bonus |
| `FzfRunes.BonusAt` | src/utils/scripts/fzf.js:366-371 | also for the bonus of a position |
| `FzfRunes.BonusOfKinds` | src/utils/scripts/fzf.js:326-365 | for ASCII: 8 for a character that is no letter or digit and directly after one, 7 for a capital behind a small letter and for the first digit of a number, else 0 |
| `FzfRunes.BonusOfClasses` | src/utils/scripts/fzf.js:356-365 | all twenty-five bonuses, class by class |
| `FzfRunes.AsciiFolds` | src/utils/scripts/fzf.js:449-461 | both ways of folding turn ASCII capitals into small letters, unless case matters, and nothing else |
| `FzfRunes.AccentsGo` | src/utils/scripts/fzf.js:245-258 | beyond ASCII a plain letter stands in for an accented one from 192 to 8580, with normalisation only |
| `FzfSlab.ToInt16` | src/utils/scripts/fzf.js:312-318 | a store into an Int16Array keeps the value modulo 2^16, so it is exact on 16-bit values |
| `FzfSlab.Alloc` | src/utils/scripts/fzf.js:312-325 | a piece of the slab behind all pieces handed out, or a new zeroed array when fewer than one cell more than needed is left |
| `FzfSlab.Put16` | src/utils/scripts/fzf.js:466-496 | stores one 16-bit value and leaves five other views of the same slab as they were |
| `FzfSlab.CopyRow` | src/utils/scripts/fzf.js:519-531 | copies a row of 16-bit values without changing one and without touching other views |
| `FzfTables.Row0Bounds` | src/utils/scripts/fzf.js:476-497 | entries of the first row and its run lengths stay within 0 and the one-rune cap |
| `FzfTables.Cell` | src/utils/scripts/fzf.js:534-570 | the table as a recursive definition, without slab, window or mutable row: entry i lies within 0 and 24(i+1)+8, run lengths within 0 and i+1; what its entries are is told by the lemmas of `FzfCells` |
| `FzfTables.MatchGains` | src/utils/scripts/fzf.js:546-561 | a cell on a match scores at least 16 more than its diagonal neighbour |
| `FzfTables.MissLoses` | src/utils/scripts/fzf.js:541-545 | a cell off a match is zero or scores less than its left neighbour |
| `FzfTables.BestIsPositive` | src/utils/scripts/fzf.js:565-568 | the best score of the last row is at least 16 |
| `FzfTables.BestSurvivesTail` | src/utils/scripts/fzf.js:515-516 | cutting the table behind the last occurrence of the last pattern rune loses no better match |
| `FzfTables.TakenMatches` | src/utils/scripts/fzf.js:579-593 | whatever the preference says, the backtrace takes only positions that hold the pattern rune |
| `FzfTables.FirstIsTaken` | src/utils/scripts/fzf.js:579-593 | it always takes the leftmost position of a row, so it never leaves the table |
| `FzfTables.BestIsTaken` | src/utils/scripts/fzf.js:576-588 | the best cell of the last row is itself taken, so the match ends there |
| `FzfCells.FirstRowFalls` | src/utils/scripts/fzf.js:476-497 | the first row at a position: 16 and twice the bonus of the last place of the first pattern rune, less 3 points for a gap and one for each further position, never below 0 |
| `FzfCells.MatchScores` | src/utils/scripts/fzf.js:541-561 | a match scores its diagonal neighbour, 16 and its bonus, in a run at least 4 and at least the bonus of where the run starts, unless the left neighbour less the gap is more |
| `FzfCells.MissScores` | src/utils/scripts/fzf.js:541-545 | any other cell scores its left neighbour less 1 point in an open gap and 3 otherwise, never below 0 |
| `FzfCells.RowFalls` | src/utils/scripts/fzf.js:541-569 | behind its last match a row loses 3 points and then 1 a position, or 1 a position if a gap is open there |
| `FzfCells.RowFallsFrom` | src/utils/scripts/fzf.js:541-569 | so it does from every match that stands to the next one |
| `FzfCells.RunMatches` | src/utils/scripts/fzf.js:546-556 | a run matches pattern and text rune by rune, and holds no boundary but at its start |
| `FzfCells.BestStands` | src/utils/scripts/fzf.js:565-568 | the best cell is a match that is not beaten from the left |
| `FzfCells.OneGap` | src/utils/scripts/fzf.js:476-570 | an input: "ab" in "axb" scores 45 |
| `FzfScan.ScanText` | src/utils/scripts/fzf.js:433-498 | after the scan the slab views hold the folded text, the bonuses, the first row and the greedy positions of the pattern, however stale they were before |
| `FzfScan.BestSingleIsBest` | src/utils/scripts/fzf.js:480-486 | for one-rune patterns the best score met, or the boundary match the scan stops at, is the best of the whole row |
| `FzfRows.ScoreCell` | src/utils/scripts/fzf.js:540-569 | computes a cell from its stored neighbours as the table does |
| `FzfRows.FillRow` | src/utils/scripts/fzf.js:534-571 | a row of the table ends up in the slab, rows before it stay, and the last row yields the best score, first met in scan direction |
| `FzfBacktrace.TraceTaken` | src/utils/scripts/fzf.js:587-595 | taking a position extends an alignment of the rest of the pattern by one |
| `FzfBacktrace.TracePassed` | src/utils/scripts/fzf.js:594-596 | passing a position keeps it, and there is another one to the left |
| `FzfBacktrace.Backtrace` | src/utils/scripts/fzf.js:572-598 | terminates with the positions of an alignment that starts at `start` and ends just before the returned end, although it reads table cells nobody has written |
| `FzfMatchV2.AllocateScratch` | src/utils/scripts/fzf.js:433-441 | the five views of the scan never overlap, from the slab or not |
| `FzfMatchV2.AllocateTables` | src/utils/scripts/fzf.js:515-531 | both tables lie behind them, and start with the first row |
| `FzfMatchV2.MatchLong` | src/utils/scripts/fzf.js:515-598 | patterns of two runes and more: best score, and with positions an alignment that ends with it |
| `FzfMatchV2.FuzzyMatchV2` | src/utils/scripts/fzf.js:420-599 | no match exactly if the pattern is no subsequence of the folded text; otherwise the best score of the table, whose entries `FzfCells` tells, with its end, and as many positions as the pattern has runes, increasing, each on its rune, from `start` to `end`-1; beyond the gate what V1 promises |
| `FzfMatchV2.MatchScoreBounds` | src/utils/scripts/fzf.js:898-905 | no V2 score exceeds the 24M+8 an exact match is awarded |
| `FzfMatchV2.GateBoundsScores` | src/utils/scripts/fzf.js:426-428 | behind the gate N·M <= 102400 every score is at most 7688, so nothing stored as 16 bits wraps |
| `FzfScore.CalculateScore` | src/utils/scripts/fzf.js:600-655 | score and positions are those of the tally of the window |
| `FzfScore.MissesCost` | src/utils/scripts/fzf.js:642-652 | a stretch without a hit costs 3 points and 1 for every further position, or 1 for each if it goes on from a gap |
| `FzfScore.HitGains` | src/utils/scripts/fzf.js:620-641 | a hit brings 16 and its bonus, twice for the first one; directly behind another one at least 4 and at least the bonus of the last boundary of the run, or of its start |
| `FzfScore.TallyHasRun` | src/utils/scripts/fzf.js:620-652 | what the loop remembers is the run of hits that ends where it is |
| `FzfScore.TallyCapped` | src/utils/scripts/fzf.js:620-650 | the running score never exceeds what an exact match of the runes found so far is awarded |
| `FzfScore.TallyIsGreedy` | src/utils/scripts/fzf.js:607-653 | the positions found are greedy in the window: each is the first possible one |
| `FzfScore.TallyFindsAll` | src/utils/scripts/fzf.js:607-653 | a window that begins an alignment and holds it is scored with all pattern runes, beginning at its start |
| `FzfMatchV1.EarliestEnd` | src/utils/scripts/fzf.js:663-689 | the forward pass finds the earliest end of all alignments in scan direction, or that there is none |
| `FzfMatchV1.TightenStart` | src/utils/scripts/fzf.js:690-711 | the backward pass, which lower-cases but does not normalise: how far it tightens the start |
| `FzfMatchV1.WindowFromPasses` | src/utils/scripts/fzf.js:663-716 | both passes together give a window with the earliest end, and where normalisation changes nothing with the latest start for it, mirrored backward |
| `FzfMatchV1.MirrorWindow` | src/utils/scripts/fzf.js:712-716 | windows of the reversed text are the text's for the opposite direction |
| `FzfMatchV1.MirrorTightWindow` | src/utils/scripts/fzf.js:712-716 | and so are the tightest ones |
| `FzfMatchV1.WindowIsScored` | src/utils/scripts/fzf.js:717-726 | in that window all runes are found, the first at its start, and the last at its end exactly if it is a forward or a tight one |
| `FzfMatchV1.AccentsWidenTheWindow` | src/utils/scripts/fzf.js:692-711 | an accented text whose V1 window is not the tightest |
| `FzfMatchV1.ShrunkExplains` | src/utils/scripts/fzf.js:690-711 | the start is that of the latest alignment of the lower-cased text that ends in time, or else the place where the first pattern rune is first met |
| `FzfMatchV1.TightIff` | src/utils/scripts/fzf.js:690-711 | so the window is the tightest exactly if the tightest alignments start where that rune is first met or can be read without normalising |
| `FzfMatchV1.TightExactlyIf` | src/utils/scripts/fzf.js:656-729 | the same for every match of either direction |
| `FzfMatchV1.FuzzyMatchV1` | src/utils/scripts/fzf.js:656-729 | no match exactly if the pattern is no subsequence of the folded text; otherwise that window, which is the tightest where normalisation changes nothing, its start, its score, and greedy positions that begin at its start and end at its end |
| `FzfExact.FacingOccurs` | src/utils/scripts/fzf.js:745-758 | an occurrence in scan order is one of the text, mirrored |
| `FzfExact.SearchWindows` | src/utils/scripts/fzf.js:742-781 | the loop whose index moves back terminates with the best window in scan order |
| `FzfExact.BestOccurrence` | src/utils/scripts/fzf.js:782-790 | that is, in the text's own direction, the occurrence of highest boundary bonus, the first such in scan direction |
| `FzfExact.ExactMatchNaive` | src/utils/scripts/fzf.js:730-795 | no match exactly if the folded pattern does not occur as a whole; otherwise that occurrence and its score, at most 24M+8 |
| `FuzzysortBeginnings.PrepareBeginningIndexes` | src/utils/scripts/fuzzysort.js:637-652 | exactly the beginnings of words, humps and other characters, in order |
| `FuzzysortBeginnings.PrepareNextBeginningIndexes` | src/utils/scripts/fuzzysort.js:653-669 | for every position the least beginning behind it, or the length |
| `FuzzysortBeginnings.BeginningsAre` | src/utils/scripts/fuzzysort.js:637-652 | a beginning is a capital behind no capital, any character but letters and digits, or whatever follows one of those or starts the target |
| `FuzzysortScore.UniqueBeginningIndexes` | src/utils/scripts/fuzzysort.js:475-478 | the walk through the table counts the beginnings of the target |
| `FuzzysortScore.CalculateScore` | src/utils/scripts/fuzzysort.js:459-490 | the loop and what follows compute the score `ScoreIs` tells, with the beginnings counted from the table |
| `FuzzysortScore.ScoreIs` | src/utils/scripts/fuzzysort.js:459-490 | the score in plain numbers: the sum of where later groups start, 12 and the unmatched distance for each, a fifth of the square of the first position; a thousandfold without a strict match, tenfold for each beginning beyond 24 with one; half the overlength; divided by 1+n·n for a whole word, and again at a beginning; half the overlength again |
| `FuzzysortScore.PlainScore` | src/utils/scripts/fuzzysort.js:459-490 | so for a word that does not stand as a whole |
| `FuzzysortScore.LaterStartsAre` | src/utils/scripts/fuzzysort.js:462-466 | later groups start at the positions that do not directly follow another one |
| `FuzzysortScore.GroupsAreStarts` | src/utils/scripts/fuzzysort.js:462-466 | the loop counts them and sums them up |
| `FuzzysortScore.StrictIsBetter` | src/utils/scripts/fuzzysort.js:472-481 | with at most 24 beginnings a strict match never scores below one that is not at the same positions, and above it if it has gaps or starts late |
| `FuzzysortScore.WholeIsBetter` | src/utils/scripts/fuzzysort.js:484-485 | standing as a whole, and at a beginning, never makes a score worse |
| `FuzzysortScore.WordsBeatLetters` | src/utils/scripts/fuzzysort.js:459-490 | inputs: "fb" scores -24 in "foo bar" and -16202 in "afxb" |
| `FuzzysortScore.ScoreBounds` | src/utils/scripts/fuzzysort.js:459-490 | no score is positive; only the target that is the word itself loses nothing, and every further character costs half a point at least |
| `FuzzysortStrict.Matches.SimpleMatch` | src/utils/scripts/fuzzysort.js:392-403 | finds the greedy alignment exactly if the search is a subsequence, also for an empty search or target |
| `FuzzysortStrict.SearchPushes` | src/utils/scripts/fuzzysort.js:429-433 | a match puts its position on the stack and passes over no strict alignment; a full stack is the least one |
| `FuzzysortStrict.SearchSkips` | src/utils/scripts/fuzzysort.js:434-436 | a mismatch may skip to the next beginning |
| `FuzzysortStrict.SearchPops` | src/utils/scripts/fuzzysort.js:418-426 | a search that is stuck gives up its last match for the next beginning |
| `FuzzysortStrict.SearchFails` | src/utils/scripts/fuzzysort.js:418-420 | with an empty stack at the end of the target there is no strict alignment |
| `FuzzysortStrict.Matches.StrictMatch` | src/utils/scripts/fuzzysort.js:405-438 | the search is complete: it finds the least strict alignment, and if it fails within 200 backtracks there is none; it backtracks 201 times at most |
| `FuzzysortStrict.WholeBehindGreedy` | src/utils/scripts/fuzzysort.js:440-442 | looking behind the start of the greedy match finds the first occurrence of the word as a whole, if there is any |
| `FuzzysortStrict.BeginningIff` | src/utils/scripts/fuzzysort.js:443 | the test on the table decides whether a position is a beginning |
| `FuzzysortStrict.BeginningBehind` | src/utils/scripts/fuzzysort.js:445-453 | the walk over the beginnings finds the first whole occurrence at one |
| `FuzzysortStrict.Matches.Algorithm` | src/utils/scripts/fuzzysort.js:379-517 | the positions are an alignment exactly if the word is a subsequence: the first whole occurrence at a beginning, else the least strict alignment, else the first whole occurrence, else the greedy alignment; and the score is that of these positions |
| `FuzzysortStrict.PrefersWhole` | src/utils/scripts/fuzzysort.js:440-454 | a word that stands at a beginning is found as a whole at the first such place |
| `FuzzysortStrict.PrefersStrict` | src/utils/scripts/fuzzysort.js:495-504 | otherwise, unless the search gave up, the earliest positions are taken of which each is at a beginning or directly behind the one before, if there are any |
| `FuzzysortStrict.TakesWhatIsLeft` | src/utils/scripts/fuzzysort.js:491-496 | without these the first place where the word stands as a whole, and else each position as early as possible |
| `FuzzysortStrict.ResultBounds` | src/utils/scripts/fuzzysort.js:459-507 | so a result scores zero exactly if the target is the word, and less otherwise |
| `FuzzysortSpaces.EditUndone` | src/utils/scripts/fuzzysort.js:561-567 | logging an edit of the table keeps the way back |
| `FuzzysortSpaces.RedirectedTable` | src/utils/scripts/fuzzysort.js:558-568 | redirecting the run of entries before a place makes exactly that place one more beginning |
| `FuzzysortSpaces.BeginningTable.Redirect` | src/utils/scripts/fuzzysort.js:558-568 | redirects exactly that run, and logs it |
| `FuzzysortSpaces.BeginningTable.ResetNextBeginningIndexes` | src/utils/scripts/fuzzysort.js:528-531 | taking the edits back from the last to the first restores the table |
| `FuzzysortSpaces.OneMoreOutcome` | src/utils/scripts/fuzzysort.js:533-581 | words matched so far stay matched with the beginnings that those before them left |
| `FuzzysortSpaces.BeginsAfterAre` | src/utils/scripts/fuzzysort.js:544-568 | the beginnings for a word are those of the target and the places behind words found without gaps |
| `FuzzysortSpaces.WordsScoreIs` | src/utils/scripts/fuzzysort.js:571-578 | each word adds its share of the score, and loses two points for every position it starts before the one before it |
| `FuzzysortSpaces.FoundIsBetter` | src/utils/scripts/fuzzysort.js:587-605 | the better of the phrase and the words is taken |
| `FuzzysortSpaces.BeginningTable.AlgorithmSpaces` | src/utils/scripts/fuzzysort.js:518-606 | every word is matched as `Algorithm` says with the places behind earlier matches without gaps as more beginnings; rejected exactly if a word, or with partial matches every word, is no subsequence; positions and score are those of the phrase if that scores higher, and else all positions of the words, each once, and the sum of their shares less two points for every position a word goes back; the table is itself again on every way out |
| `FuzzysortSpaces.WordsBounds` | src/utils/scripts/fuzzysort.js:571-578 | the score of words that were all found is never positive, and zero exactly if the target is each of them |
| `FuzzysortSpaces.FoundBounds` | src/utils/scripts/fuzzysort.js:587-605 | so a search with spaces scores zero exactly for a target that is the phrase or each of its words |
| `FuzzysortQueue.RootIsLeast` | src/utils/scripts/fuzzysort.js:703 | the root of the heap is a least entry |
| `FuzzysortQueue.FastPriorityQueue.PercolateUp` | src/utils/scripts/fuzzysort.js:703 | moving a hole up and filling it gives a heap with the same contents |
| `FuzzysortQueue.FastPriorityQueue.PercolateDown` | src/utils/scripts/fuzzysort.js:703 | moving the root down to a leaf and back up to its place gives a heap with the same contents |
| `FuzzysortQueue.FastPriorityQueue.Add` | src/utils/scripts/fuzzysort.js:703 | adds one entry |
| `FuzzysortQueue.FastPriorityQueue.Poll` | src/utils/scripts/fuzzysort.js:703 | takes out an entry of least score |
| `FuzzysortQueue.FastPriorityQueue.ReplaceTop` | src/utils/scripts/fuzzysort.js:703 | replaces the root by another entry |
| `FuzzysortGo.TopStays` | src/utils/scripts/fuzzysort.js:56-58 | a result that does not beat the least of the best changes nothing |
| `FuzzysortGo.TopChanges` | src/utils/scripts/fuzzysort.js:58 | one that does takes its place |
| `FuzzysortFlags.PrepareFlags` | src/utils/scripts/fuzzysort.js:611-636 | the loop gives the flags of the kinds of characters there are, and whether there is a space |
| `FuzzysortFlags.BitsAreShared` | src/utils/scripts/fuzzysort.js:627-632 | two characters have the same bit exactly if they are equal, both digits, both other ASCII, or both beyond ASCII |
| `FuzzysortFlags.PassesIff` | src/utils/scripts/fuzzysort.js:72 | a target passes the test exactly if it has a character of the same kind for every character of the search but spaces |
| `FuzzysortFlags.SubsequencePasses` | src/utils/scripts/fuzzysort.js:174 | so a target of which the search is a subsequence is never passed over |
| `FuzzysortFlags.WordsPass` | src/utils/scripts/fuzzysort.js:174 | nor one of which all words of a search are |
| `FuzzysortFlags.TabIsLookedFor` | src/utils/scripts/fuzzysort.js:297-315 | unless other white space than spaces separates them |
| `FuzzysortGo.FilterIsLossless` | src/utils/scripts/fuzzysort.js:170-177 | passing targets over loses no match of a search whose words only spaces separate |
| `FuzzysortGo.ExplainsIff` | src/utils/scripts/fuzzysort.js:379-380 | a target is found exactly if the search, or every word of it, is a subsequence, and scores zero exactly if it is what is searched for |
| `FuzzysortGo.KeptAreHits` | src/utils/scripts/fuzzysort.js:170-177 | without a threshold exactly the targets that pass the filter and match are kept |
| `FuzzysortGo.PerfectComesFirst` | src/utils/scripts/fuzzysort.js:54-60 | if some target is what is searched for, the first result is such a target, whatever the limit |
| `FuzzysortGo.Searcher.Algorithm` | src/utils/scripts/fuzzysort.js:379-380 | searches with spaces go word by word, others are matched as one word |
| `FuzzysortGo.Searcher.PushResult` | src/utils/scripts/fuzzysort.js:54-60 | the heap holds the best results so far, at most `limit`, and every result is counted |
| `FuzzysortGo.Searcher.ReadOut` | src/utils/scripts/fuzzysort.js:183-185 | empties the heap into an array in descending order |
| `FuzzysortGo.Searcher.Go` | src/utils/scripts/fuzzysort.js:41-80 | matches every target that passes the filter; min(limit, kept) results in descending order, nothing kept that is left out scores higher than any of them; `total` counts all that reach the threshold, without one exactly the targets that pass and match; the shared heap is empty again |
| `SettingsCodecs.FindName` | src/plugin/src/Sleepy/Settings/codecs.cpp:189-191 | the first enumerator of that name up to case |
| `SettingsCodecs.FindValue` | src/plugin/include/util/metaenum.hpp:32-36 | the first enumerator with that value |
| `SettingsCodecs.DecodeAll` | src/plugin/src/Sleepy/Settings/codecs.cpp:230-246 | a list is decoded whole or, if one element fails, not at all |
| `SettingsCodecs.DecodeEnum` | src/plugin/src/Sleepy/Settings/codecs.cpp:183-211 | the loop finds what decoding an enum means |
| `SettingsCodecs.DecodeList` | src/plugin/src/Sleepy/Settings/codecs.cpp:226-247 | the loop finds what decoding a list means |
| `SettingsCodecs.PlainDecodes` | src/plugin/src/Sleepy/Settings/codecs.cpp:85-166 | plain types take JSON of their own kind, with its value, and nothing else |
| `SettingsCodecs.IntDecodes` | src/plugin/src/Sleepy/Settings/codecs.cpp:97-122 | integers take whole numbers of 32 bits, and nothing else |
| `SettingsCodecs.OthersDecode` | src/plugin/src/Sleepy/Settings/codecs.cpp:183-247 | enums take exactly the names of enumerators up to case, with the value of the first such; lists take exactly arrays of which every element is taken |
| `SettingsCodecs.FoldIs` | src/plugin/src/Sleepy/Settings/codecs.cpp:189-191 | up to case means letter by letter |
| `SettingsCodecs.Encodes` | src/plugin/src/Sleepy/Settings/codecs.cpp:85-181 | values are saved as JSON of their own kind, enums as the first name of the value |
| `SettingsCodecs.DecodedHasType` | src/plugin/src/Sleepy/Settings/codecs.cpp:85-247 | whatever is decoded is a value of the type |
| `SettingsCodecs.EncodeInverts` | src/plugin/src/Sleepy/Settings/codecs.cpp:85-247 | every value of every type survives encoding and decoding if no enumerator name shadows another |
| `SettingsCodecs.UnshadowedIffRoundTrip` | src/plugin/src/Sleepy/Settings/codecs.cpp:172-211 | for enums exactly then: a shadowed name comes back as another value |
| `SettingsCodecs.FaithfulIffRoundTrip` | src/plugin/src/Sleepy/Settings/codecs.cpp:85-247 | and so for every type |
| `SettingsCodecs.StableIffReencodes` | src/plugin/src/Sleepy/Settings/codecs.cpp:85-247 | everything that was decoded and saved decodes to the same again exactly if every enumerator a file can name is saved under a name that means its value |
| `SettingsCodecs.TwinsAreStable` | src/plugin/src/Sleepy/Settings/codecs.cpp:172-211 | two enumerators spelt the same up to case: not every value round trips, but every value from a file does |
| `SettingsCodecs.TripletIsLost` | src/plugin/src/Sleepy/Settings/codecs.cpp:172-211 | with a third name for the value of the second: that value comes from a file, is saved and comes back as another |
| `SettingsCodecs.ReencodeDecodes` | src/plugin/src/Sleepy/Settings/codecs.cpp:85-247 | what was decoded and saved decodes to the same again if the enums of the type allow it |
| `SettingsTree.FreshIsEmpty` | src/plugin/src/Sleepy/Settings/node.cpp:64-67 | a new node has nothing to save |
| `SettingsTree.ContentIsSaved` | src/plugin/src/Sleepy/Settings/node.cpp:64-67 | a node has content exactly if saving it sparsely gives entries |
| `SettingsTree.SaveIsCanonical` | src/plugin/src/Sleepy/Settings/objectnode.cpp:37-185 | loading any JSON object into a new layer and saving gives it back with decodable options re-encoded, known objects without content left out, and everything else verbatim: unknown, ill-typed and global entries |
| `SettingsTree.EntryReloads` | src/plugin/src/Sleepy/Settings/objectnode.cpp:95-168 | an entry that was saved is read as it was before if what its option decodes to survives being saved |
| `SettingsTree.LoadCanonical` | src/plugin/src/Sleepy/Settings/objectnode.cpp:37-185 | loading what was saved gives the same values, overrides and quarantine in the whole tree if what the accepted options decode to survives being saved |
| `SettingsTree.SaveIsStable` | src/plugin/src/Sleepy/Settings/objectnode.cpp:37-185 | then load-then-save is idempotent |
| `SettingsTree.StableIff` | src/plugin/src/Sleepy/Settings/objectnode.cpp:37-185 | load-then-save is idempotent for every file exactly if every option the layer accepts is of such a type |
| `SettingsTree.TripletFile` | src/plugin/src/Sleepy/Settings/objectnode.cpp:37-185 | a file for which it is not: loaded, saved and loaded again an option has another value |
| `SettingsPaths.LoadedAt` | src/plugin/src/Sleepy/Settings/objectnode.cpp:68-185 | at any path where the file has an object, a node after loading holds exactly what that says: decoded options of the layer's own are values and overrides, objects of nodes are left to these, all else is in quarantine, and other options are as below |
| `SettingsPaths.MissingAt` | src/plugin/src/Sleepy/Settings/objectnode.cpp:68-185 | at any path where it has none, the node is reset as `ResetAt` says, and has lost its quarantine if there is something else in its place |
| `SettingsPaths.ResetAt` | src/plugin/src/Sleepy/Settings/node.cpp:102-116 | what a reset leaves at any path: everything of a global node in a layer, and its global options in other nodes |
| `SettingsPaths.SavedAt` | src/plugin/src/Sleepy/Settings/objectnode.cpp:37-66 | at any path with content a sparse file holds the overrides, the nodes with content and what else is in quarantine; a dense file holds all options and nodes at any path |
| `SettingsPaths.ContentIff` | src/plugin/src/Sleepy/Settings/node.cpp:64-67 | there is content exactly if some node below has an override or an entry in quarantine |
| `SettingsRoundTrip.EmptyIsFresh` | src/plugin/src/Sleepy/Settings/node.cpp:64-67 | in every state a node with nothing to save is as good as new |
| `SettingsRoundTrip.SavedReloads` | src/plugin/src/Sleepy/Settings/objectnode.cpp:37-185 | saving any state and loading it into a new layer brings back values and overrides of the whole tree, and the quarantine but for entries that a node with content hides |
| `SettingsRoundTrip.ReloadsIff` | src/plugin/src/Sleepy/Settings/objectnode.cpp:37-66 | so the whole state comes back exactly if no node hides an entry in quarantine |
| `SettingsRoundTrip.RunSound` | src/plugin/src/Sleepy/Settings/node.cpp:102-234 | after any run of loads of objects and arrays, user writes, option and node resets and changes of the layer below, overrides are the layer's own and not in quarantine, everything else is inherited, and if what files and users give survives being saved, so do the overrides |
| `SettingsRoundTrip.RunReloads` | src/plugin/src/Sleepy/Settings/objectnode.cpp:12-185 | so after every run of the latter kind what is saved reloads like that |
| `SettingsRoundTrip.NumberIsHidden` | src/plugin/src/Sleepy/Settings/objectnode.cpp:37-66 | a run after which it does not reload as it was: a number in place of a node, hidden once a user writes an option of the node |
| `SettingsMarks.ResetMovesIff` | src/plugin/src/Sleepy/Settings/node.cpp:102-116 | resetting a node changes a value or an override, there or below, exactly if there is an override |
| `SettingsMarks.ResetLosesIff` | src/plugin/src/Sleepy/Settings/node.cpp:102-116 | without one it changes what is saved exactly if it takes an entry out of quarantine that no node hides |
| `SettingsMarks.LosesIffContent` | src/plugin/src/Sleepy/Settings/node.cpp:64-67 | which in a layer that owns all nodes is exactly if there was something to save |
| `SettingsMarks.SavedAbove` | src/plugin/src/Sleepy/Settings/objectnode.cpp:37-66 | what is saved of a tree changes exactly if what is saved of the changed node does |
| `SettingsMarks.ChangeMarksIff` | src/plugin/src/Sleepy/Settings/node.cpp:102-213 | any write or reset by a user, of an option or a node anywhere in the tree: if it changes what is saved it marks the layer, exactly unless it resets a node without overrides that loses entries in quarantine |
| `SettingsMarks.RunMarksIff` | src/plugin/src/Sleepy/Settings/node.cpp:102-213 | so in every state a layer can come to |
| `SettingsMarks.FileLearnsIff` | src/plugin/src/Sleepy/Settings/node.cpp:191-196 | and exactly then the file layer is told of it |
| `SettingsMarks.ResetIsMissed` | src/plugin/src/Sleepy/Settings/node.cpp:102-116 | a run to that exception, in a node whose own quarantine is empty |
| `SettingsReload.ResetForgets` | src/plugin/src/Sleepy/Settings/node.cpp:102-116 | resetting a layer that owns all its nodes makes it as good as new |
| `SettingsReload.LoadForgets` | src/plugin/src/Sleepy/Settings/objectnode.cpp:68-87 | loading such a layer depends on nothing but the file |
| `SettingsReload.LoadRespects` | src/plugin/src/Sleepy/Settings/objectnode.cpp:132-142 | a loaded layer holds the global value of every global option, and no override of it |
| `SettingsReload.StaleSurvives` | src/plugin/src/Sleepy/Settings/node.cpp:102-106 | a file after which a layer with a global node keeps entries that a later file no longer has |
| `SettingsReload.ForgetsIff` | src/plugin/src/Sleepy/Settings/objectnode.cpp:68-185 | loads forget earlier loads exactly if the layer is the global one or the schema has no global node |
| `SettingsObject.ObjectNode.constructor` | src/plugin/src/Sleepy/Settings/macros.hpp:94-114 | a tree of nodes starts with the values of the layer below, or the defaults |
| `SettingsObject.ObjectNode.ResetToDefaults` | src/plugin/src/Sleepy/Settings/node.cpp:102-116 | in place, what `Reset` says, for the whole tree |
| `SettingsObject.ObjectNode.HasAny` | src/plugin/src/Sleepy/Settings/node.cpp:64-67 | whether there is content, found recursively |
| `SettingsObject.Apply` | src/plugin/src/Sleepy/Settings/quarantine.cpp:19-25 | entries in quarantine are added but replace nothing |
| `SettingsSteps.AllSaved` | src/plugin/src/Sleepy/Settings/objectnode.cpp:37-66 | the saving loop with the quarantine on top is the saved form |
| `SettingsObject.ObjectNode.ToJson` | src/plugin/src/Sleepy/Settings/objectnode.cpp:37-66 | the loop builds exactly the saved form |
| `SettingsObject.ObjectNode.LoadFromJson` | src/plugin/src/Sleepy/Settings/objectnode.cpp:95-168 | entries of the file are loaded, recursed into or put in quarantine, in any order, and those found are told |
| `SettingsObject.ObjectNode.ResetUnvisited` | src/plugin/src/Sleepy/Settings/objectnode.cpp:170-185 | every other option and node is reset |
| `SettingsSteps.AllLoaded` | src/plugin/src/Sleepy/Settings/objectnode.cpp:68-87 | both passes together are the load |
| `SettingsObject.ObjectNode.SyncJson` | src/plugin/src/Sleepy/Settings/objectnode.cpp:68-87 | in place, what `Load` says, for the whole tree; anything but an object is refused and clears the quarantine only |
| `SettingsLayers.UserWriteTidy` | src/plugin/src/Sleepy/Settings/node.cpp:155-202 | a user's write or reset leaves no option both overridden and in quarantine, touches no other option, and marks the layer for saving exactly if it makes a difference |
| `SettingsLayers.WrittenIs` | src/plugin/src/Sleepy/Settings/node.cpp:155-202 | what a write comes to for each origin: value, override, quarantine, and exactly when the layer is marked |
| `SettingsLayers.FollowOne` | src/plugin/src/Sleepy/Settings/node.cpp:228-234 | passing on the one changed value makes a layer follow the one below |
| `SettingsLayers.FollowFollows` | src/plugin/src/Sleepy/Settings/node.cpp:228-234 | a layer that follows keeps its overrides and their values, and agrees with the new values elsewhere |
| `SettingsLayers.OptionNode.Global` | src/plugin/src/Sleepy/Settings/macros.hpp:94 | the global layer starts with its defaults |
| `SettingsLayers.OptionNode.Over` | src/plugin/src/Sleepy/Settings/macros.hpp:94 | a layer above starts with the values below |
| `SettingsLayers.OptionNode.SetOption` | src/plugin/src/Sleepy/Settings/macros.hpp:78-89 | the generated setter, for every write origin: which layer is written, and that all layers above follow, or are not told while a new node is filled in |
| `SettingsLayers.OptionNode.SetOptionAs` | src/plugin/src/Sleepy/Settings/common.cpp:32-40 | write scopes nest: the origin is itself again afterwards |
| `SettingsLayers.OptionNode.ForwardGlobalWrite` | src/plugin/src/Sleepy/Settings/node.cpp:122-153 | a user's write to a global option through a layer lands in the layer below, a reset is ignored, and nothing else is forwarded |
| `SettingsLayers.OptionNode.RecordWrite` | src/plugin/src/Sleepy/Settings/node.cpp:155-202 | updates override, quarantine and need to save by origin, and passes a change on to all layers above |
| `SettingsLayers.OptionNode.OnFallbackNotify` | src/plugin/src/Sleepy/Settings/node.cpp:228-234 | a change below reaches an option unless it is overridden |
| `SettingsLayers.OptionNode.CoherentMeans` | src/plugin/src/Sleepy/Settings/node.cpp:122-234 | in a coherent tree every option that is not overridden equals the base's, in the base its default, no layer overrides a global option, and overridden and quarantined options are disjoint |
| `SettingsLayers.OptionNode.Write` | src/plugin/src/Sleepy/Settings/macros.hpp:78-89 | a write from QML keeps the tree coherent; through a layer to an option of its own it changes that layer only |
| `SettingsLayers.OptionNode.ResetOption` | src/plugin/src/Sleepy/Settings/objectnode.cpp:12-25 | so does a reset of an option |
| `SettingsLayers.OptionNode.ResetToDefaults` | src/plugin/src/Sleepy/Settings/node.cpp:102-116 | a reset of the node keeps the tree coherent: fallback values, no overrides, empty quarantine, marked for saving exactly if values or overrides change and the user resets |
| `SettingsLayers.OptionNode.SyncJson` | src/plugin/src/Sleepy/Settings/objectnode.cpp:68-87 | loading a file keeps the tree coherent, follows the file exactly and never marks the layer for saving |
| `SettingsLayers.FollowAgrees` | src/plugin/src/Sleepy/Settings/node.cpp:228-234 | a layer agrees with the one below after following a write there |
| `SettingsLayers.OwnWriteAgrees` | src/plugin/src/Sleepy/Settings/node.cpp:155-202 | after a write of its own |
| `SettingsLayers.OwnResetAgrees` | src/plugin/src/Sleepy/Settings/objectnode.cpp:12-25 | after a reset of its own |
| `SettingsLayers.LoadedAgrees` | src/plugin/src/Sleepy/Settings/objectnode.cpp:95-185 | and after a load |
| `SettingsLayers.UserWriteIsSaved` | src/plugin/src/Sleepy/Settings/node.cpp:155-202 | a user's write or reset of an option that changes what is saved marks the layer for saving |
| `SettingsLayers.ResetMarksIff` | src/plugin/src/Sleepy/Settings/node.cpp:102-116 | for a node without nodes below, a reset does so exactly if the node has overrides or nothing in quarantine |
| `SettingsLayers.ResetForgetsToSave` | src/plugin/src/Sleepy/Settings/node.cpp:102-116 | such a node for which it does not: the reset drops an entry in quarantine, the file keeps it |
| `ListDelta.InsertLeads` | src/plugin/src/Sleepy/Settings/listnode.cpp:333-349 | the delta an insertion announces leads from the old list to the new one |
| `ListDelta.RemoveLeads` | src/plugin/src/Sleepy/Settings/listnode.cpp:109-130 | so does that of a removal |
| `ListDelta.MoveLeads` | src/plugin/src/Sleepy/Settings/listnode.cpp:132-157 | of a move |
| `ListDelta.ReplaceLeads` | src/plugin/src/Sleepy/Settings/listnode.cpp:252-256 | and of any replacement as a whole, clearing included |
| `ListDelta.EditsAre` | src/plugin/src/Sleepy/Settings/listnode.cpp:109-157 | which items are where after an insertion, a removal and a move |
| `ListDelta.ReplayedInOrder` | src/plugin/src/Sleepy/Settings/listnode.cpp:432-451 | removals are replayed from the last to the first, then insertions and moves from the first to the last |
| `SettingsList.ListNode.Over` | src/plugin/src/Sleepy/Settings/listnode.cpp:88-95 | a list over another one starts with as many elements, each over the one of its index |
| `SettingsList.ListNode.FallbackFor` | src/plugin/src/Sleepy/Settings/listnode.cpp:394-403 | the element below an index, unless the list is overridden or there is none |
| `SettingsList.ListNode.OnFallbackListNotify` | src/plugin/src/Sleepy/Settings/listnode.cpp:432-451 | replaying a delta makes a list lie element by element over the new list below; an overridden list stays as it is |
| `SettingsList.ListNode.ElementsChanged` | src/plugin/src/Sleepy/Settings/listnode.cpp:432-451 | all lists above follow, one after the other |
| `SettingsList.ListNode.RecordWrite` | src/plugin/src/Sleepy/Settings/listnode.cpp:311-321 | a first override detaches every element, a reset does not |
| `SettingsList.ListNode.PartMeans` | src/plugin/src/Sleepy/Settings/listnode.cpp:394-451 | between events a list that is not overridden has the base list's length with element i over element i, and the elements of an overridden one lie over none |
| `SettingsList.ListNode.Edit` | src/plugin/src/Sleepy/Settings/listnode.cpp:109-184 | any edit whose delta leads to the new elements keeps that for all lists |
| `SettingsList.ListNode.Remove` | src/plugin/src/Sleepy/Settings/listnode.cpp:109-130 | removes one element, or none if the index is invalid, and overrides; the lists above follow |
| `SettingsList.ListNode.Move` | src/plugin/src/Sleepy/Settings/listnode.cpp:132-157 | moves one element, or none |
| `SettingsList.ListNode.Clear` | src/plugin/src/Sleepy/Settings/listnode.cpp:159-184 | removes all |
| `SettingsList.ListNode.Insert` | src/plugin/src/Sleepy/Settings/listnode.cpp:333-349 | inserts a new element at the index, or at the end |
| `SettingsList.ListNode.SetFromList` | src/plugin/src/Sleepy/Settings/listnode.cpp:211-259 | replaces all by new elements |
| `SettingsList.ListNode.SyncJson` | src/plugin/src/Sleepy/Settings/listnode.cpp:285-309 | so does loading an array; anything else changes nothing |
| `SettingsList.ListNode.ResetToDefaults` | src/plugin/src/Sleepy/Settings/listnode.cpp:261-274 | relinks the list to the one below, element by element |
| `SettingsFile.StepKeeps` | src/plugin/src/Sleepy/Settings/settingsfile.cpp:46-200 | every step keeps the invariant: a pending write is queued to an active timer, writes are paced, and without foreign edits the file holds what was last read or written |
| `SettingsFile.RunKeeps` | src/plugin/src/Sleepy/Settings/settingsfile.cpp:46-200 | so does every run, also with foreign edits and failing writes |
| `SettingsFile.WritesAreSpaced` | src/plugin/src/Sleepy/Settings/settingsfile.cpp:152-164 | in every run disk writes are at least 500 ms apart |
| `SettingsFile.OwnWritesAreSilent` | src/plugin/src/Sleepy/Settings/settingsfile.cpp:137-144 | no step announces a change unless somebody else edited the file |
| `SettingsFile.QuietRun` | src/plugin/src/Sleepy/Settings/settingsfile.cpp:46-200 | without such edits and failures the user's latest tree is always in the file or on its way there |
| `SettingsFile.DrainedFileHoldsTree` | src/plugin/src/Sleepy/Settings/settingsfile.cpp:152-200 | once nothing waits, the file holds the tree as of the last user write or reset that mattered |
| `SettingsFile.DrainsSoon` | src/plugin/src/Sleepy/Settings/settingsfile.cpp:152-164 | and that takes a flush and one interval |
| `SettingsFile.AlignedIff` | src/plugin/src/Sleepy/Settings/settingsfile.cpp:98-200 | whatever others do to the file and whether saves succeed, every step keeps the latest tree on its way to the file, in it, or as loaded from it, exactly unless a deletion of the file is noticed while an older tree is queued, or a save fails that had something to save |
| `SettingsFile.DrainedAgrees` | src/plugin/src/Sleepy/Settings/settingsfile.cpp:98-200 | so without those, once nothing waits and no edit is unnoticed, file and tree agree |
| `SettingsFile.StaleDiverges` | src/plugin/src/Sleepy/Settings/settingsfile.cpp:101-106 | with such a deletion, the older tree is written over it, and file and tree differ |
| `SettingsFile.FailureDiverges` | src/plugin/src/Sleepy/Settings/settingsfile.cpp:163-193 | with such a failure what was pending is dropped, the file stays as it was, and they differ |
| `SettingsFile.DivergedStays` | src/plugin/src/Sleepy/Settings/settingsfile.cpp:98-200 | and go on to differ until a user changes the tree or somebody the file |
| `SettingsFile.DeletionIsMissed` | src/plugin/src/Sleepy/Settings/settingsfile.cpp:101-106 | a run that leads to the deletion |
| `SettingsFile.SaveIsDropped` | src/plugin/src/Sleepy/Settings/settingsfile.cpp:163-193 | a run that leads to the failure |
| `SettingsFile.EditIsTakenOver` | src/plugin/src/Sleepy/Settings/settingsfile.cpp:78-149 | whatever the state, an edit by others is taken over 50 ms after it is noticed: known, announced once, made the tree, and what was to be written is dropped |
| `SettingsFile.DeletionIsTakenOver` | src/plugin/src/Sleepy/Settings/settingsfile.cpp:98-108 | so is a deletion |
| `SettingsFile.SameFileIsIgnored` | src/plugin/src/Sleepy/Settings/settingsfile.cpp:137-138 | the same JSON again changes and announces nothing |
| `SettingsFile.LooksAgain` | src/plugin/src/Sleepy/Settings/settingsfile.cpp:87-96 | a garbled file is looked at exactly four times, 50 ms apart |
| `SettingsFile.RepairIsTakenOver` | src/plugin/src/Sleepy/Settings/settingsfile.cpp:87-149 | so if it is repaired before the last look it is taken over, although nobody notices the repair |
| `SettingsFile.FileLayer.ValidMeans` | src/plugin/src/Sleepy/Settings/settingsfile.cpp:46-200 | what every method of the layer keeps: a pending write is queued to the running timer, writes are half a second apart, without foreign edits what is known of the file is what it holds, and there are at most three retries |
| `SettingsFile.FileLayer.constructor` | src/plugin/src/Sleepy/Settings/rootnode.cpp:20-23 | a layer after its first load |
| `SettingsFile.FileLayer.UserWrite` | src/plugin/src/Sleepy/Settings/node.cpp:194-196 | a write that matters marks the tree as changed |
| `SettingsFile.FileLayer.MarkDirty` | src/plugin/src/Sleepy/Settings/changebatcher.cpp:9-15 | however often this happens, one flush follows |
| `SettingsFile.FileLayer.Flush` | src/plugin/src/Sleepy/Settings/changebatcher.cpp:17-23 | the flush takes the step that hands the tree over for saving |
| `SettingsFile.FileLayer.SavePending` | src/plugin/src/Sleepy/Settings/settingsfile.cpp:152-200 | queues behind the interval, or writes and starts a new one |
| `SettingsFile.FileLayer.SaveTimeout` | src/plugin/src/Sleepy/Settings/settingsfile.cpp:156-161 | a queued save runs when the interval ends |
| `SettingsFile.FileLayer.ScheduleLoad` | src/plugin/src/Sleepy/Settings/settingsfile.cpp:78-85 | watcher events within the interval come to one load |
| `SettingsFile.FileLayer.OnLoadDebounced` | src/plugin/src/Sleepy/Settings/settingsfile.cpp:87-96 | takes the step of a load that is due, which `EditIsTakenOver` and `LooksAgain` tell on runs; a file that cannot be parsed is tried again three times |
| `SettingsFile.FileLayer.RetryLoad` | src/plugin/src/Sleepy/Settings/settingsfile.cpp:90-95 | and each time after another interval |
| `SettingsFile.FileLayer.EditExternally` | src/plugin/src/Sleepy/Settings/settingsfile.cpp:98-110 | what others do to the file changes nothing until the next load |
| `SettingsFile.FileLayer.LoadFile` | src/plugin/src/Sleepy/Settings/settingsfile.cpp:98-150 | loads as that step does, for each state of the disk |
| `Utf8.Encode` | locker/secureprompt.cpp:216-238 | a code point takes one to four bytes |
| `Utf8.EncodeBits` | locker/secureprompt.cpp:216-238 | the bytes as section 3 of RFC 3629 gives them, in arithmetic |
| `Utf8.EncodedExamples` | locker/secureprompt.cpp:216-238 | four characters and their bytes |
| `Utf8.EncodeShape` | locker/secureprompt.cpp:298-313 | the first byte tells the number of bytes, and only the others are continuation bytes |
| `Utf8.DecodeOneInverts` | locker/secureprompt.cpp:216-238 | decoding as section 3 of RFC 3629 describes gives back the code point |
| `Utf8.DecodeInverts` | locker/secureprompt.cpp:216-238 | and a whole text |
| `Utf8.ScalarsAreScalars` | locker/secureprompt.cpp:268-282 | what is read from any UTF-16 text are nonzero Unicode scalars |
| `Utf8.ScalarsInvert` | locker/secureprompt.cpp:268-282 | well-formed text is read completely |
| `Utf8.ScalarsOneByOne` | locker/secureprompt.cpp:268-282 | a pair of surrogates is one character, stray ones and zeros are skipped, everything else is itself |
| `Utf8.UnitsAre` | locker/secureprompt.cpp:336-346 | characters beyond 16 bits have two code units, others one |
| `Utf8.LocateIsSplit` | locker/secureprompt.cpp:326-349 | an offset is found exactly if it does not split a surrogate pair, and then at the one place it can be |
| `SecretBuffer.FitPrefixIsLongest` | locker/secureprompt.cpp:283-286 | the prefix inserted fits, and one character more would not |
| `SecretBuffer.EncodeUtf8` | locker/secureprompt.cpp:216-238 | writes the encoding and returns its length |
| `SecretBuffer.NextScalar` | locker/secureprompt.cpp:268-282 | reads the next scalar or skips a stray surrogate or zero |
| `SecretBuffer.SpliceHolds` | locker/secureprompt.cpp:287-290 | moving the tail up and filling the gap inserts bytes, and all later bytes stay zero |
| `SecretBuffer.CutHolds` | locker/secureprompt.cpp:358-361 | moving the tail down and zeroing what it leaves removes bytes |
| `SecretBuffer.CanReplaceIff` | locker/secureprompt.cpp:315-349 | a range can be replaced exactly if it starts at or before the end and the text splits into parts of as many code units |
| `SecretBuffer.RangeIsReplaced` | locker/secureprompt.cpp:315-366 | the range is cut out of the text, and the longest prefix of the new text that fits into 4096 bytes with the rest is put in its place |
| `SecretBuffer.LockedSecretBuffer.InsertAt` | locker/secureprompt.cpp:265-296 | inserts the longest prefix of the filtered text that fits; the bytes are its encoding and both counters its lengths |
| `SecretBuffer.LockedSecretBuffer.Append` | locker/secureprompt.cpp:260-263 | so at the end |
| `SecretBuffer.LockedSecretBuffer.RemoveLast` | locker/secureprompt.cpp:298-313 | drops the last character and zeroes its bytes |
| `SecretBuffer.LockedSecretBuffer.LocateUtf16` | locker/secureprompt.cpp:326-349 | finds the byte and character offset of a UTF-16 offset |
| `SecretBuffer.LockedSecretBuffer.Replace` | locker/secureprompt.cpp:315-366 | replaces the UTF-16 range, or returns false with nothing changed, exactly if it is out of range or splits a pair |
| `SecretBuffer.LockedSecretBuffer.Clear` | locker/secureprompt.cpp:368-376 | all bytes are zero |
| `SecurePrompt.CallKeepsSpacing` | locker/secureprompt.cpp:437-460 | a call made once the retry time has passed comes after the pause of every earlier rejection |
| `SecurePrompt.CallIsPaced` | locker/secureprompt.cpp:444-461 | updating the fields after accepting, rejecting or throwing keeps them in agreement with the calls so far |
| `SecurePrompt.HeldBack` | locker/secureprompt.cpp:444-461 | an accepted call ends the pause, rejected ones in a row hold for 500, 1000, 2000, 4000 and then 8000 ms, one that throws changes nothing |
| `SecurePrompt.PauseIsKept` | locker/secureprompt.cpp:457-460 | after the n-th rejection in a row no call starts for 500, 1000, 2000, 4000 and then 8000 ms, whatever comes between |
| `SecurePrompt.Prompt.Authenticate` | locker/secureprompt.cpp:430-463 | calls the authenticator exactly if there is a password and the pause is over, with the bytes of the text, and always leaves the buffer zero and the input length 0 |
| `SecurePrompt.Prompt.ClearSecret` | locker/secureprompt.cpp:465-472 | buffer zero, input length 0 |
| `SecurePrompt.Prompt.AppendText` | locker/secureprompt.cpp:548-557 | text goes to the end as far as it fits; a longer text makes the prompt idle |
| `SecurePrompt.Prompt.RemoveLastCodePoint` | locker/secureprompt.cpp:559-568 | the last character goes |
| `SecurePrompt.Prompt.InputMethod` | locker/secureprompt.cpp:532-546 | committed text replaces a range where that is possible, and changes nothing elsewhere |
| `SecurePrompt.Prompt.KeyPress` | locker/secureprompt.cpp:510-530 | what each key does to the text and to what the prompt shows; only Enter calls the authenticator |
| `LazyLayout.Relayout` | src/plugin/src/Sleepy/Components/lazylistview.cpp:450-471 | one pass gives every row its position: behind the rows before it, with spacing between rows of positive height only |
| `LazyLayout.RowsAreSpaced` | src/plugin/src/Sleepy/Components/lazylistview.cpp:450-471 | a row of some height starts with the spacing behind the one before it, whatever rows without height lie between; the first one at 0 |
| `LazyLayout.LayoutEnds` | src/plugin/src/Sleepy/Components/lazylistview.cpp:450-471 | the layout ends where its last row of any height does |
| `LazyLayout.LaidOutInOrder` | src/plugin/src/Sleepy/Components/lazylistview.cpp:450-471 | with no negative heights or spacing tops and bottoms are nondecreasing and within the layout |
| `LazyLayout.ViewportWithinContent` | src/plugin/src/Sleepy/Components/lazylistview.cpp:507-540 | a viewport that is not empty lies within the content |
| `LazyLayout.SeesPoint` | src/plugin/src/Sleepy/Components/lazylistview.cpp:507-540 | point by point: what is visible is the content between the top of the view less the cache buffer and its bottom and the cache buffer; a view scrolled past the content counts from the edge |
| `LazyLayout.SeesNothingIff` | src/plugin/src/Sleepy/Components/lazylistview.cpp:507-540 | and nothing is visible exactly if that has no width or no height |
| `LazyLayout.SeesAllOfNothing` | src/plugin/src/Sleepy/Components/lazylistview.cpp:507-540 | without content, the view with its cache buffer |
| `LazyLayout.SightsOfViews` | src/plugin/src/Sleepy/Components/lazylistview.cpp:507-540 | two views and what is visible of them |
| `LazyLayout.InSight` | src/plugin/src/Sleepy/Components/lazylistview.cpp:507-540 | rows that reach into the view or touch it are visible |
| `LazyLayout.SeesContentIff` | src/plugin/src/Sleepy/Components/lazylistview.cpp:514-540 | a view with no cache buffer sees content exactly if it overlaps it, whatever the pull-back does |
| `LazyLayout.PastTheContent` | src/plugin/src/Sleepy/Components/lazylistview.cpp:514-540 | a view that does not: scrolled past the content, without a cache buffer |
| `LazyLayout.ComputeVisibleRange` | src/plugin/src/Sleepy/Components/lazylistview.cpp:542-583 | the binary search finds the row the linear scan finds if the rows end in order, and the range goes on as far as rows start before the viewport ends |
| `LazyLayout.RangeIsExact` | src/plugin/src/Sleepy/Components/lazylistview.cpp:542-583 | the range holds every row that meets the viewport and, except possibly its first, only such; the first does not meet it exactly if it lies below, and then no row does |
| `LazyLayout.OrderOfBottoms` | src/plugin/src/Sleepy/Components/lazylistview.cpp:553-569 | a laid out list meets what the binary search needs |
| `LazyLayout.ContentHeight` | src/plugin/src/Sleepy/Components/lazylistview.cpp:473-499 | the content is as high as the rows as shown now, or as the lowest item being removed reaches |
| `LazyLayout.ContentIsLayout` | src/plugin/src/Sleepy/Components/lazylistview.cpp:473-499 | with every row at its own height and nothing being removed that is the height of the layout |
| `LazyDelegates.RowKeepsRecord` | src/plugin/src/Sleepy/Components/lazylistview.cpp:911-1055 | a surviving row is found with its record under its new number |
| `LazyDelegates.NewIndexInjective` | src/plugin/src/Sleepy/Components/lazylistview.cpp:919-931 | no two surviving rows get the same number |
| `LazyDelegates.InsertionFollowed` | src/plugin/src/Sleepy/Components/lazylistview.cpp:911-935 | records and delegates change places as the rows of the model they are of when rows are inserted |
| `LazyDelegates.RemovalFollowed` | src/plugin/src/Sleepy/Components/lazylistview.cpp:980-1011 | when rows are removed |
| `LazyDelegates.MoveFollowed` | src/plugin/src/Sleepy/Components/lazylistview.cpp:1013-1055 | and when rows are moved, up or down |
| `LazyDelegates.KnownUpdate` | src/plugin/src/Sleepy/Components/lazylistview.cpp:742-749 | untracking the old and tracking the new height keeps the running sum and count |
| `LazyDelegates.SumsShift` | src/plugin/src/Sleepy/Components/lazylistview.cpp:986-990 | insertions and moves leave both unchanged, removals take off what the removed rows knew |
| `LazyDelegates.LazyList.Reindex` | src/plugin/src/Sleepy/Components/lazylistview.cpp:919-931 | delegates and items get their new numbers and stay mutual inverses |
| `LazyDelegates.LazyList.OnRowsInserted` | src/plugin/src/Sleepy/Components/lazylistview.cpp:911-935 | new unknown rows at that place; every delegate follows its row's record, and index map, inverse and sums stay consistent |
| `LazyDelegates.LazyList.OnRowsAboutToBeRemoved` | src/plugin/src/Sleepy/Components/lazylistview.cpp:937-978 | the delegates of these rows go, those that were seen into the list of dying ones if removals are animated |
| `LazyDelegates.LeavingAre` | src/plugin/src/Sleepy/Components/lazylistview.cpp:937-978 | those are exactly the delegates of the rows that were shown |
| `LazyDelegates.LazyList.OnRemoveTimeout` | src/plugin/src/Sleepy/Components/lazylistview.cpp:962-972 | the first dying delegate of that item goes, and no other |
| `LazyDelegates.LazyList.OnRowsRemoved` | src/plugin/src/Sleepy/Components/lazylistview.cpp:980-1011 | these rows go; the rest as for insertions |
| `LazyDelegates.LazyList.OnRowsMoved` | src/plugin/src/Sleepy/Components/lazylistview.cpp:1013-1055 | these rows move; the rest as for insertions |
| `LazyDelegates.LazyList.ResetContent` | src/plugin/src/Sleepy/Components/lazylistview.cpp:881-909 | no delegates, and rows of unknown height |
| `LazyDelegates.LazyList.EffectiveEstimatedHeight` | src/plugin/src/Sleepy/Components/lazylistview.cpp:238-244 | the given estimate, else the mean of the known heights, else 40 |
| `LazyDelegates.EstimateIs` | src/plugin/src/Sleepy/Components/lazylistview.cpp:238-244 | the estimate that is set; else the height all known rows have, if they have one height; else 40 |
| `LazyDelegates.LazyList.OnHeightChanged` | src/plugin/src/Sleepy/Components/lazylistview.cpp:729-760 | the height of a ready delegate's own row becomes known, the sums stay right, and the difference is announced if the row was known, is tracked and starts above the view |
| `LazyDelegates.LazyList.OnReadyChanged` | src/plugin/src/Sleepy/Components/lazylistview.cpp:783-809 | so when a delegate becomes ready, with the difference to what the row was laid out with |
| `LazyDelegates.LazyList.CollectOutside` | src/plugin/src/Sleepy/Components/lazylistview.cpp:597-611 | exactly the delegates of no visible row whose item is outside the viewport |
| `LazyDelegates.NotOutside` | src/plugin/src/Sleepy/Components/lazylistview.cpp:600-611 | an item is kept exactly if it reaches into the viewport or touches it, and that has a size |
| `LazyDelegates.LazyList.CreateDelegates` | src/plugin/src/Sleepy/Components/lazylistview.cpp:630-656 | the first rows of the range that have no delegate and can have one get it, as many as the budget allows |
| `LazyDelegates.MissingInOrder` | src/plugin/src/Sleepy/Components/lazylistview.cpp:630-644 | the budget goes to the first rows without a delegate |
| `LazyDelegates.LazyList.CreateVisible` | src/plugin/src/Sleepy/Components/lazylistview.cpp:630-656 | makes the missing visible ones, or the first two |
| `LazyDelegates.LazyList.SyncDelegates` | src/plugin/src/Sleepy/Components/lazylistview.cpp:587-663 | destroys exactly those outside, or four of them, and makes exactly the missing visible ones, or the first two |
| `LazyDelegates.LazyList.FlushPending` | src/plugin/src/Sleepy/Components/lazylistview.cpp:350-419 | delegates made since the last update are shown, and their rows take over the heights they tell |
| `LazyDelegates.LazyList.UpdatePolish` | src/plugin/src/Sleepy/Components/lazylistview.cpp:421-428 | showing, layout and synchronisation together: every row is where it belongs, and unless spread over frames every row that reaches into the view itself, which overlaps the content, and every other one that meets the viewport has a delegate if it can have one, and none is left that is neither a visible row's nor in the viewport |
| `FileSystemModel.LessOrders` | src/plugin/src/Sleepy/Models/filesystemmodel.cpp:450-456 | the comparison is a strict weak order, reversed or not |
| `FileSystemModel.SortedIsListed` | src/plugin/src/Sleepy/Models/filesystemmodel.cpp:450-456 | a sorted list has all directories before all files, or reversed behind them, and within both ranks never fall, or reversed never rise |
| `FileSystemModel.ListedIsSorted` | src/plugin/src/Sleepy/Models/filesystemmodel.cpp:450-456 | and every such list is sorted |
| `FileSystemModel.KeepSorted` | src/plugin/src/Sleepy/Models/filesystemmodel.cpp:386-412 | taking entries out keeps a list sorted |
| `FileSystemModel.RunFits` | src/plugin/src/Sleepy/Models/filesystemmodel.cpp:423-436 | a sorted run put in at its lower bound keeps the list sorted if its other entries sort before the entry there |
| `FileSystemModel.ReplaysAll` | src/plugin/src/Sleepy/Models/filesystemmodel.cpp:377-448 | announcements that follow each other replay to the last list |
| `FileSystemModel.Sort` | src/plugin/src/Sleepy/Models/filesystemmodel.cpp:419-421 | sorted, and the same entries |
| `FileSystemModel.LowerBound` | src/plugin/src/Sleepy/Models/filesystemmodel.cpp:426-430 | the first row that does not sort before an entry |
| `FileSystemModel.Model.RemovePaths` | src/plugin/src/Sleepy/Models/filesystemmodel.cpp:378-412 | leaves exactly the entries whose paths stay, in order, and announces ranges that replay to that |
| `FileSystemModel.Model.InsertEntries` | src/plugin/src/Sleepy/Models/filesystemmodel.cpp:423-445 | the list stays sorted with exactly the new entries added, and announces ranges that replay to that |
| `FileSystemModel.Model.ApplyChanges` | src/plugin/src/Sleepy/Models/filesystemmodel.cpp:377-448 | the list stays sorted, directories first and by rank, or the other way round, with exactly the old entries minus the removed plus the added ones, and a mirror that replays the announced ranges alone ends equal to it |
| `LockerEndpoint.LeaveKeeps` | locker/main.cpp:151-160 | a client that goes keeps the invariant: it no longer waits or holds, and the signal comes exactly if that flips whether unlocking is allowed |
| `LockerEndpoint.TellKeeps` | locker/main.cpp:213-228 | so does telling a client that the screen is locked |
| `LockerEndpoint.AskKeeps` | locker/main.cpp:196-197 | so does a request |
| `LockerEndpoint.ConnectKeeps` | locker/main.cpp:137-143 | so does a new client below the limit of sixteen |
| `LockerEndpoint.BlockingWereAnswered` | locker/main.cpp:217-224 | whoever holds back unlocking was told |
| `LockerEndpoint.ReadAnswers` | locker/main.cpp:165-208 | a reading answers its own client alone, exactly if that asks to lock or suspend while secure, and makes it wait exactly if it asks otherwise; no other client is affected |
| `LockerEndpoint.Replies` | locker/main.cpp:167-193 | the answer to each request: whether the screen is locked for the status, an error to anything unknown or longer than a line, and none yet to lock and suspend |
| `LockerEndpoint.ReadHolds` | locker/main.cpp:196-207 | who asks to suspend holds back unlocking exactly if it hears that the screen is locked, at once or later; who asks to lock never does |
| `LockerEndpoint.ReadCloses` | locker/main.cpp:165-194 | anything else ends the connection, and half a line changes nothing |
| `LockerEndpoint.ToldHold` | locker/main.cpp:210-232 | of all that waited, exactly those that asked to suspend and hear the answer hold back unlocking |
| `LockerEndpoint.SecuredHolds` | locker/main.cpp:117-127 | so when the screen becomes locked |
| `LockerEndpoint.BlockingAre` | locker/main.cpp:112-115 | a client holds back unlocking exactly if it asked to suspend, heard the answer and has not gone since |
| `LockerEndpoint.FlipsAre` | locker/main.cpp:152-158 | the signal comes exactly with the happenings that change whether anybody does |
| `LockerEndpoint.Endpoint.ValidMeans` | locker/main.cpp:112-232 | between events: at most 16 clients; waiting and holding are disjoint sets of them; nobody waits while secure; unlocking is not allowed exactly while a client that was told to suspend stays connected; the signal came on each flip and no other time; each client was told at most once and only while secure |
| `LockerEndpoint.Endpoint.OnDisconnected` | locker/main.cpp:151-160 | the disconnect handler |
| `LockerEndpoint.Endpoint.TellOne` | locker/main.cpp:214-230 | what telling one client comes to, by whether the answer got out and its kind of request |
| `LockerEndpoint.Endpoint.AcknowledgePending` | locker/main.cpp:210-232 | everybody waiting is told, in order, and nobody waits any more |
| `LockerEndpoint.Endpoint.SetSecure` | locker/main.cpp:117-127 | becoming secure tells everybody waiting; anything else tells nobody |
| `LockerEndpoint.Endpoint.AcceptConnection` | locker/main.cpp:129-163 | strangers and a seventeenth client are turned away, others are connected and read at once |
| `LockerEndpoint.Endpoint.ReadRequest` | locker/main.cpp:165-208 | what each reading does and what is replied to it; a client has one request |
| `LockerEndpoint.Endpoint.RequestTimeout` | locker/main.cpp:144-148 | a client whose request was not read goes |
| `LockerEndpoint.Endpoint.AnswerTimeout` | locker/main.cpp:198-202 | a client that still waits goes |

## Left out

- FzfSlab.Alloc: the case without any slab, which no caller uses.
- FuzzysortStrict.Matches.StrictMatch: completeness ends where the code gives up, after 200 backtracks.
- FuzzysortStrict.Matches.Algorithm: scores are reals, without rounding; a target is taken to be as long lower-cased as before, and a word with accents to be never found as a whole, since accents are stripped from targets.
- FuzzysortSpaces.BeginningTable.AlgorithmSpaces: the scores of single words that a multi-key search reads are not kept.
- SettingsList.ListNode.Insert: the properties of the new element.
- SettingsList.ListNode.SetFromList: the properties of the new elements.
- SettingsList.ListNode.SyncJson: what the entries of the array put into the elements.
- SettingsCodecs.FindName: names are compared up to the case of ASCII letters.
- SettingsLayers.OptionNode.SetOption: options of floating point type compare with tolerance in the source; values here compare by equality.
- SettingsList.ListNode.Over: construction and the first load, from a file that does not mention the list, are one step.
- SettingsList.ListNode.ResetToDefaults: that such a reset is not saved by itself is not part of this model.
- SettingsLayers.OptionNode.ResetToDefaults: one node; what a reset does to the nodes below is in `SettingsObject` and `SettingsMarks`.
- SettingsFile.FileLayer.LoadFile: how bytes are parsed; the disk holds JSON, nothing, or something unreadable.
- LazyDelegates.LazyList.OnHeightChanged: heights are compared as reals, not by `qFuzzyCompare`.
- LazyDelegates.LazyList.UpdatePolish: delegates are shown at once; with a ready delay they are shown by a timer, which this model leaves out.
- LockerEndpoint.Endpoint.ReadRequest: handlers do not interrupt each other.
- fzf's prefix, suffix and equal match, tiebreakers and extended queries.
- The accent table, character classes and lower-casing of runes beyond ASCII: parameters of the model.
- fuzzysort's multi-key search, normalised scores, highlighting and caches.
- Diagnostics, codec caches, and nested JSON values turned into variants and back, which are taken to be themselves.
- Settings trees of more than two layers, lists inside the round trip of object trees, nested and global-only lists, and what list elements contain.
- Signals of single properties, and everything else that is announced to QML but kept nowhere.
- Item positions, and refreshing delegates when data changes.
- Rescans of directories, changes of the sort order, and the collation of names, which enters as ranks.
- PAM, signal handlers, locked memory, socket permissions and peer credentials.
- The desktop itself: bar, services, visualisers, image providers, blobs, and the appearance command line.
