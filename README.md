# tasks-collector core, modelled in Dafny

This project models the logic at the heart of the tasks-collector application, a personal
productivity tool with:

- nested task boards, one current board per thread;
- daily, weekly and monthly journal periods;
- habit tracking;
- event-sourced observations and projected outcomes;
- a Vue front end that edits boards.

**The commit engine.** Committing a board ages every task and drops the tasks that are done or
expired. It cuts out the subtrees marked for other threads and merges each into its thread's board.
The rest stays on the committed board, and an audit record keeps the before and after states. The
commit engine is modelled in `tree.dfy`, `commit.dfy`, `store.dfy`, `board_tasks.dfy` and
`board_operations.dfy`.

**Around the engine, the model covers:**

- the tree iterator and board summary counts (`serializers.dfy`);
- the habit line parser (`habits.dfy`);
- reflection extraction from journal text (`reflection_extraction.dfy`);
- the date helpers and journal periods (`datetime_utils.dfy`, `views_today.dfy`, on the proleptic
  Gregorian calendar of `calendar.dfy`);
- field-change detection and the observation and projected-outcome event builders (`db.dfy`,
  `observation_events.dfy`, `breakthrough_events.dfy`);
- the attach/detach replay of `ComplexPresenter` (`presenters.dfy`);
- the projected-outcome presentation (`presentation.dfy`);
- the habit calendar and the `date` request parameter (`views_habit.dfy`);
- `itemize` (`itertools.dfy`);
- discovery slot filling (`views_discovery.dfy`);
- the template filters (`model_presenters.dfy`, `listize.dfy`);
- word-count statistics (`statistics.dfy`);
- the two front-end board stores, Pinia (`board_store.dfy`) and Vuex (`vuex_store.dfy`), and the
  client helpers in `assets/utils.js` (`utils.dfy`). In the stores, the current thread is chosen by
  `currentThreadPtr`, called the selector below, which names a thread by name or by id.

**Shared modules.** `strings.dfy` models the Python string operations the core relies on: `strip`,
`split`, `join`, `rstrip` and decimal formatting. `wrappers.dfy` holds `Option` and `Result`.

**How the source is modelled.**

- Django's database becomes plain values: a map from thread name to board, a sequence of event
  rows, or a map of statistics.
- Anything that reads the clock, the random order of a query or a server response becomes a
  parameter.
- Code that updates state step by step becomes methods with loops and invariants. Each is proved
  against a specification function, and lemmas about those functions state what the source
  promises.
- Objects whose methods update their own fields become classes: `Repository`, `TreeIterator`,
  `ComplexPresenter`, `ProjectedOutcomePresentation` and the two board stores.

## Model

| member | source | states |
|---|---|---|
| Commit.WeeksInList | tasks/apps/tree/commit.py:6-30 | a node with children is reset to 0; otherwise progress resets to 0, a postponed task keeps its age, and any other task ages by one week |
| Commit.TransitionMarkers | tasks/apps/tree/commit.py:33-64 | the age follows `weeks_in_list`; the postponement counts down and never goes below 0; progress is cleared; the four flags are copied; `transition` is kept only when truthy |
| Commit.ShouldDropIff | tasks/apps/tree/commit.py:100-132 | a node is dropped iff no exemption applies (can be postponed, still postponed, made progress) and it is either five or more weeks old or checked |
| Commit.SurvivorsMember | tasks/apps/tree/commit.py:148 | a node survives the filter iff it is in the input and is not dropped |
| Commit.SurvivorsAppend | tasks/apps/tree/commit.py:148 | filtering distributes over concatenation, so survivors keep their relative order |
| Commit.TransitionItemFields | tasks/apps/tree/commit.py:67-97 | `text`, `data.text` and `data.state` are copied; the markers are transitioned; the children are the transitioned forest; the state holds only `visible`, which is true when `postponedFor` was 1 and otherwise the old value (true by default) |
| Commit.TransitionForest | tasks/apps/tree/commit.py:135-150 | the transitioned forest has exactly as many roots as the filter keeps |
| Commit.TransitionForestItems | tasks/apps/tree/commit.py:148-150 | the i-th transitioned root is the transformed i-th survivor |
| Commit.TransitionNormalises | tasks/apps/tree/commit.py:49-96 | every node of a transitioned forest has no `checked`, a `visible` flag, no progress, a postponement of at least 0, and either no transition or a truthy one |
| Commit.CategoryAgeUsesUnfilteredChildren | tasks/apps/tree/commit.py:86-88 | a category whose children are all dropped in the same commit still ends up with age 0 and no children |
| Commit.OpenLeafAges | tasks/apps/tree/commit.py:127-132 | an open task is dropped once five weeks old; otherwise it stays open and ages by one week |
| Commit.OpenLeafSurvives | tasks/apps/tree/commit.py:24-30 | an open task of age w is still present after k <= 5 - w commits, aged by k weeks |
| Commit.OpenLeafExpires | tasks/apps/tree/commit.py:127-130 | an open task of age w is gone after more than 5 - w commits, so a fresh task survives five commits and vanishes on the sixth |
| Commit.CanBePostponedSurvives | tasks/apps/tree/commit.py:117-118 | a task that can be postponed survives any number of commits and stays postponable |
| Commit.PostponedKeptWithoutAgeing | tasks/apps/tree/commit.py:121-122 | a postponed leaf without progress is kept, does not age, and its postponement drops by one |
| Commit.UnionizeSets | tasks/apps/tree/commit.py:170-182 | an element is in the union iff some item contributes it: a set contributes its members, a plain value itself |
| Commit.RootValues | tasks/apps/tree/commit.py:167 | one combined value per root |
| Commit.ThreadNamesMember | tasks/apps/tree/commit.py:153-167 | a name is collected iff it is a root's own transition or is collected below some root |
| Commit.ThreadNamesExact | tasks/apps/tree/commit.py:291-295 | the names `recursively` collects are exactly the transitions found anywhere in the forest, with `None` for a node without one |
| Commit.Detach | tasks/apps/tree/commit.py:216-223 | a kept node loses its `transition` and gets its sliced children; text, data text and state are unchanged |
| Commit.CutLeavesAppend | tasks/apps/tree/commit.py:201-225 | slicing distributes over concatenation, so sibling order is preserved |
| Commit.ImageAt | tasks/apps/tree/commit.py:203-225 | a node of the board that the slice for a target keeps is found in the slice at its image path, detached and with its own children sliced for that target under the target it inherits |
| Commit.LeafImageIff | tasks/apps/tree/commit.py:203-225 | a leaf is kept in the slice for a target iff that target is its effective one: the transition inherited from its nearest marked ancestor, or else its own |
| Commit.LeafInExactlyOneChange | tasks/apps/tree/commit.py:274-297 | every leaf of the transitioned board lands in exactly one slice of the change set, the one keyed by its effective target, and appears there detached and still a leaf |
| Commit.LeafInExactlyOneSlice | tasks/apps/tree/commit.py:205-215 | a leaf is in the slice for T iff T is its nearest ancestor's target or, without one, its own; an ancestor's target overrides the leaf's own |
| Commit.NewImpliedOk | tasks/apps/tree/commit.py:207 | the target handed down to children is nothing or a truthy name |
| Commit.CutLeavesDetaches | tasks/apps/tree/commit.py:216-219 | no node of a slice keeps a `transition` marker |
| Commit.CutLeavesLoop | tasks/apps/tree/commit.py:185-225 | the loop over the items builds exactly the slice `CutLeaves` defines |
| Commit.CalculateChangesPerBoard | tasks/apps/tree/commit.py:274-297 | the keys are exactly the targets found in the transitioned forest, and each key's value is the slice for that key |
| Commit.ChangesOfEmptyForest | tasks/apps/tree/commit.py:288-297 | an empty transitioned forest yields the empty map |
| Commit.ChangeKeysAreNames | tasks/apps/tree/commit.py:288-297 | every key is `None` or a truthy thread name |
| Commit.StayKeyIff | tasks/apps/tree/commit.py:291-295 | `None` is a key iff some node of the transitioned forest has no transition |
| Commit.LastIndex | tasks/apps/tree/commit.py:242-243 | the index kept for a text is that of its last occurrence |
| Commit.IndexByText | tasks/apps/tree/commit.py:242-243 | the text-to-index dictionary has every text as a key, each mapped to its last index |
| Commit.MergeCommon | tasks/apps/tree/commit.py:245-253 | after the first loop, each item of `a` that is the last with a text also in `b` has its children merged with those of `b`'s last such item, and every other item of `a` is unchanged |
| Commit.CollectUnmatched | tasks/apps/tree/commit.py:247-255 | one item of `b` (the last one) for each text of `b` missing from `a`, in some order |
| Commit.Merge | tasks/apps/tree/commit.py:228-255 | the result is `a` merged item by item, followed by one item for each text found only in `b`, in an unspecified order |
| Commit.MergeWithNothing | tasks/apps/tree/commit.py:245-255 | merging an empty list into `a` gives `a` |
| Commit.MergeTexts | tasks/apps/tree/commit.py:242-255 | the texts of a merge are the texts of both inputs |
| Commit.MergeIntoEmpty | tasks/apps/tree/commit.py:247-255 | merging into an empty list gives one item per distinct text of `b`, each taken from `b` |
| Tree.PreorderMember | tasks/apps/tree/serializers.py:556-583 | a node is in a forest's preorder iff it is a root or in the preorder of a root's children |
| Serializers.Roots | tasks/apps/tree/serializers.py:545-551 | a single node (a dict with `children`) is wrapped as a one-root forest; a list is walked as given |
| Serializers.PendingPush | tasks/apps/tree/serializers.py:573-574 | pushing a list of children puts that list's preorder in front of everything still pending |
| Serializers.TreeIterator.constructor | tasks/apps/tree/serializers.py:542-551 | a fresh iterator has the whole forest's preorder still to yield |
| Serializers.TreeIterator.Next | tasks/apps/tree/serializers.py:556-583 | each call yields the first node still pending and removes it; an exhausted iterator stops and stays exhausted |
| Serializers.Drain | tasks/apps/tree/serializers.py:602-603 | running the iterator out yields exactly what was pending, in order |
| Serializers.Traverse | tasks/apps/tree/serializers.py:540-583 | the iterator yields every node exactly once, in preorder, and as many items as the forest has nodes |
| Serializers.Filter | tasks/apps/tree/serializers.py:610-611 | a filtered traversal keeps exactly the nodes meeting the predicate, and never more nodes than the traversal |
| Serializers.TaskCount | tasks/apps/tree/serializers.py:641-642 | the task count is the length of the preorder traversal of `before` |
| Serializers.CountsBounded | tasks/apps/tree/serializers.py:610-642 | the finished, postponed and removed counts are each at most the task count |
| Serializers.FinishedAndRemovedDisjoint | tasks/apps/tree/serializers.py:613-630 | no node is counted both as finished and as removed |
| Serializers.RemovedAgreesWithoutPostponable | tasks/apps/tree/serializers.py:619-630 | for a task that cannot be postponed, the summary's `removed` filter and the commit's drop rule agree |
| Serializers.RemovedCountsKeptTask | tasks/apps/tree/serializers.py:619-630 | as written, a postponable task five weeks old is counted as removed although the commit keeps it |
| Serializers.RemovedByCommitIsDropped | tasks/apps/tree/commit.py:117-132 | the corrected filter counts a node iff the commit drops it and it is not finished |
| Serializers.AppendedEvents | tasks/apps/tree/serializers.py:121-141 | the three appends give at most three events, never ObservationMade, in field order, one per changed field, each carrying that field's previous value |
| Serializers.SpawnedEvents | tasks/apps/tree/serializers.py:77-141 | a newly saved observation spawns exactly ObservationMade; otherwise one event per changed field, in the order situation, interpretation, approach |
| Serializers.CosmeticEditUnchanged | tasks/apps/tree/serializers.py:81-95 | equal values, `None` turned into `""`, or strings equal after strip and carriage-return removal count as unchanged |
| Serializers.NoEventForCosmeticEdits | tasks/apps/tree/serializers.py:81-141 | a save of an existing observation where every field is left equal, turned from `None` into `""`, or changed only in surrounding whitespace spawns no event |
| Serializers.RemovedByCommitCount | tasks/apps/tree/serializers.py:618-637 | the corrected removed count never exceeds the task count |
| Serializers.RemovedByCommitCountsDropped | tasks/apps/tree/serializers.py:618-630 | the corrected count takes a task iff the commit drops it and it is unfinished, so finished tasks are never counted |
| Store.WellKeyedStore | tasks/apps/tree/views_board_tasks.py:76-80 | saving a board of a known thread over an existing key or under the next key keeps every board keyed below the next free key and of a known thread |
| Store.Repository.constructor | tasks/apps/tree/views_board_tasks.py:34-40 | a repository starts with the given threads, no boards and no commit records |
| Store.Repository.Save | tasks/apps/tree/views_board_tasks.py:76-80 | a saved board overwrites its own row, or a new board goes under a fresh key; nothing else changes |
| Store.Repository.Newest | tasks/apps/tree/views_board_tasks.py:38 | the board found is a most recent board of the thread; none is found only when the thread has no board |
| BoardTasks.AfterState | tasks/apps/tree/views_board_tasks.py:54-58 | the committed board keeps `changeset[None]`, or `[]` when there is no such key |
| BoardTasks.Transitions | tasks/apps/tree/views_board_tasks.py:54-56 | the transitions are the change set without the `None` key, each thread name keeping its slice |
| BoardTasks.Audit | tasks/apps/tree/views_board_tasks.py:47-70 | the record stores the untouched `before` forest, the after-state, the remaining transitions, the commit time, the thread and the old start date |
| BoardTasks.MakeBoard | tasks/apps/tree/views_board_tasks.py:34-40 | an unknown thread is an error; otherwise the thread's most recent board, or a new board of the thread with an empty forest when it has none |
| BoardTasks.LookUpBoards | tasks/apps/tree/views_board_tasks.py:72 | the lookup succeeds iff every target thread exists and then gives each thread what `make_board` gives; otherwise it names an unknown target thread |
| BoardTasks.StartSending | tasks/apps/tree/views_board_tasks.py:72-74 | before the loop nothing is delivered and every target thread waits for its board |
| BoardTasks.SendToExisting | tasks/apps/tree/views_board_tasks.py:74-76 | merging a slice into a thread's existing board keeps every delivery made so far |
| BoardTasks.SendToFresh | tasks/apps/tree/views_board_tasks.py:74-76 | saving a slice as a new board under an unused key keeps every delivery made so far |
| BoardTasks.SendSlice | tasks/apps/tree/views_board_tasks.py:75-76 | one more thread's board gets merge(its forest, its slice), and the deliveries already made stay in place |
| BoardTasks.SendSlices | tasks/apps/tree/views_board_tasks.py:74-76 | after the loop every slice has been merged into its thread's board and saved; boards no slice went to are unchanged |
| BoardTasks.OverwriteKeepsDeliveries | tasks/apps/tree/views_board_tasks.py:74-80 | overwriting the committed board keeps every delivery to another board; a delivery to the committed board itself was for its own thread |
| BoardTasks.OverwriteKeepsOthers | tasks/apps/tree/views_board_tasks.py:78-80 | overwriting the committed board keeps every untouched board and adds no key |
| BoardTasks.OverwriteCommitted | tasks/apps/tree/views_board_tasks.py:74-80 | after the slices are sent and the committed board is overwritten, the boards are exactly as `commit_board` leaves them |
| BoardTasks.CommitBoard | tasks/apps/tree/views_board_tasks.py:43-82 | a missing board changes nothing; otherwise the record is written first; an unknown target thread stops the commit before any board changes; on success the board holds the after-state and starts now, and every slice has been merged into its thread's board |
| BoardTasks.Deliver | tasks/apps/tree/views_board_tasks.py:72-80 | every target board is looked up before any is written; then the slices are merged in and the committed board is overwritten |
| BoardTasks.AddTask | tasks/apps/tree/views_board_tasks.py:85-96 | a 400 iff the payload lacks `text` or `thread-name`, changing nothing; an unknown thread is a 404; a thread without boards gives no board and changes nothing; otherwise the newest board of the thread, and only it, gets a new unchecked task with the payload text appended to its state |
| BoardTasks.PeriodFromRequest | tasks/apps/tree/views_board_tasks.py:116-126 | each bound is the stripped parameter when it is not blank, else the caller's default, else today minus `days` or today plus one |
| BoardTasks.BlankParameterUsesDefault | tasks/apps/tree/views_board_tasks.py:117-121 | a whitespace-only `from` parameter falls back to the default date |
| BoardOperations.NewTask | tasks/apps/tree/board_operations.py:11-27 | the appended node has the given text in `text` and `data.text`, state "open", no children, no `state` key, all markers at rest, and is an open leaf |
| BoardOperations.NewTaskLifetime | tasks/apps/tree/board_operations.py:11-27 | a new task survives five commits and is dropped by the sixth |
| BoardOperations.AddTaskToBoard | tasks/apps/tree/board_operations.py:6-30 | an unknown thread is a 404; a thread without boards changes nothing and gives `None`; otherwise the thread's most recent board gets the new task appended and nothing else changes |
| BoardOperations.AppendKeepsItems | tasks/apps/tree/board_operations.py:11 | appending keeps every existing node in place and adds exactly one node at the end |
| Habits.PrefixLength | tasks/apps/tree/habits.py:18-25 | the result is a common prefix length of both strings, and the strings differ right after it unless one of them ends there |
| Habits.PrefixLengthIsMaximal | tasks/apps/tree/habits.py:18-25 | no common prefix is longer than the one found |
| Habits.FindPrefixLength | tasks/apps/tree/habits.py:18-25 | the loop returns a common prefix length, and the strings differ right after it unless one of them ends there |
| Habits.BestMatch | tasks/apps/tree/habits.py:40-52 | the best match has the longest common prefix, the earliest keyword wins ties, and there is no match (length 0) when no keyword shares a first character |
| Habits.FindBestKeywordMatch | tasks/apps/tree/habits.py:28-52 | the loop returns the best match with its keyword, or no index and no keyword |
| Habits.SplitFromPieces | tasks/apps/tree/habits.py:12-65 | the split pieces concatenate back to the string; every piece after the first starts with `#` or `!`; no piece holds a split point inside it |
| Habits.Tokens | tasks/apps/tree/habits.py:66 | every token is stripped and starts with `#` or `!` |
| Habits.ParseHabitTokens | tasks/apps/tree/habits.py:55-66 | every token is stripped and starts with `#` or `!` |
| Habits.ParseSplitsAtMarkers | tasks/apps/tree/habits.py:12-65 | splitting the line with a space in front loses nothing and cuts exactly where `#` or `!` follows whitespace, so a marker at the start of the line counts |
| Habits.NoMarkerNoTokens | tasks/apps/tree/habits.py:55-66 | a line without `#` or `!` has no tokens |
| Habits.Put | tasks/apps/tree/habits.py:134 | assigning a key keeps the dictionary's key order; a new key goes last |
| Habits.Lookup | tasks/apps/tree/habits.py:92 | a key that is found maps to a habit the dictionary holds for it; a key not found is absent |
| Habits.PutKeepsDistinct | tasks/apps/tree/habits.py:134 | assigning a key keeps the keys distinct |
| Habits.BuildKeywordMap | tasks/apps/tree/habits.py:124-134 | every entry's habit is one of the given habits |
| Habits.BuildKeywordMapDistinct | tasks/apps/tree/habits.py:134 | the dictionary holds each keyword once |
| Habits.LookupPut | tasks/apps/tree/habits.py:134 | a key just assigned looks up its new habit |
| Habits.LookupPutOther | tasks/apps/tree/habits.py:134 | assigning a key leaves the other keys' habits unchanged |
| Habits.LookupPutAll | tasks/apps/tree/habits.py:134 | after a habit's keywords are added, each of them looks up that habit and other keys are unchanged |
| Habits.LaterHabitWins | tasks/apps/tree/habits.py:134 | a keyword listed by several habits maps to the last of them |
| Habits.FirstLine | tasks/apps/tree/habits.py:93 | the note is the token up to its first newline |
| Habits.MatchTokenToHabit | tasks/apps/tree/habits.py:69-95 | a match records an occurrence iff the token starts with `#`, and its note is the token's first line; a failure is "Match failed on" followed by the token |
| Habits.MatchTokenToHabitIsBest | tasks/apps/tree/habits.py:85-92 | the match fails iff no keyword shares three leading characters with the token's text; otherwise its habit is the best keyword's |
| Habits.SomesAppend | tasks/apps/tree/habits.py:117-121 | dropping the failed matches of a concatenation concatenates the results |
| Habits.SomesSource | tasks/apps/tree/habits.py:117-121 | every kept match comes from some input token |
| Habits.SomesNone | tasks/apps/tree/habits.py:117-121 | nothing is kept when every token fails |
| Habits.MatchTokensToHabits | tasks/apps/tree/habits.py:106-121 | there are at most as many matches as tokens |
| Habits.MatchTokensAppend | tasks/apps/tree/habits.py:117-121 | matching keeps token order |
| Habits.MatchTokensFromTokens | tasks/apps/tree/habits.py:117-121 | every match is what some token matched to |
| Habits.NoMatchTracksNothing | tasks/apps/tree/habits.py:98-121 | when no token matches, the result is empty |
| Habits.SharedPrefixMatches | tasks/apps/tree/habits.py:85-90 | a token whose text shares three leading characters with some keyword matches |
| Habits.ParsedTokensNonEmpty | tasks/apps/tree/habits.py:66-83 | the tokens of a line are never empty, so reading the token's first character never fails |
| Habits.HabitsLineToHabitsTracked | tasks/apps/tree/habits.py:140-162 | a line without tokens gives nothing; there are never more matches than tokens |
| Habits.TrackedHabitsAreGiven | tasks/apps/tree/habits.py:140-162 | every tracked habit is one of the given habits |
| Habits.EmptyLineTracksNothing | tasks/apps/tree/habits.py:152-155 | an empty line tracks nothing |
| ReflectionExtraction.Head | tasks/apps/tree/services/journalling/reflection_extraction.py:39 | the head is the line's first twelve characters, or the whole line when it is shorter |
| ReflectionExtraction.LinesEntries | tasks/apps/tree/services/journalling/reflection_extraction.py:35-40 | at most three entries per line |
| ReflectionExtraction.LineEntriesSpec | tasks/apps/tree/services/journalling/reflection_extraction.py:35-40 | a line yields an entry for a field iff the field's prefix occurs in its first twelve characters, and the entry is the line without the prefix's first occurrence |
| ReflectionExtraction.LineEntriesInPrefixOrder | tasks/apps/tree/services/journalling/reflection_extraction.py:11-40 | a line's entries come in prefix order `[x]`, `[~]`, `[^]`, at most one per field |
| ReflectionExtraction.SeveralPrefixesSeveralEntries | tasks/apps/tree/services/journalling/reflection_extraction.py:35-40 | a line carrying all three prefixes near its start yields three entries: good, better, best |
| ReflectionExtraction.RemovedOccurrenceIsInHead | tasks/apps/tree/services/journalling/reflection_extraction.py:36-39 | the occurrence removed is the first in the line and lies within its first twelve characters |
| ReflectionExtraction.LinesEntriesAppend | tasks/apps/tree/services/journalling/reflection_extraction.py:35-40 | the entries come line by line, in line order |
| ReflectionExtraction.EntriesComeFromLines | tasks/apps/tree/services/journalling/reflection_extraction.py:35-40 | every entry comes from a line that carries its prefix near its start |
| ReflectionExtraction.NoBracketNoEntries | tasks/apps/tree/services/journalling/reflection_extraction.py:18-40 | a note without `[` yields no entries |
| ReflectionExtraction.ItemsFor | tasks/apps/tree/services/journalling/reflection_extraction.py:101 | a field never gets more items than there are entries |
| ReflectionExtraction.ItemsForOwnField | tasks/apps/tree/services/journalling/reflection_extraction.py:101 | a field's items are exactly the texts of its own entries |
| ReflectionExtraction.AppendLinesToValue | tasks/apps/tree/services/journalling/reflection_extraction.py:43-60 | an empty or missing value gives the lines joined by newlines; no lines leave a non-empty value unchanged |
| ReflectionExtraction.JoinStripped | tasks/apps/tree/services/journalling/reflection_extraction.py:55-60 | joining stripped non-empty lines gives a stripped non-empty text |
| ReflectionExtraction.AppendKeepsValue | tasks/apps/tree/services/journalling/reflection_extraction.py:60 | with a stripped value and stripped lines, the result is the value, a newline and the joined lines |
| ReflectionExtraction.AppendTwice | tasks/apps/tree/services/journalling/reflection_extraction.py:54-60 | two entries appended in turn to an empty field end up on two lines, the first first |
| ReflectionExtraction.Set | tasks/apps/tree/services/journalling/reflection_extraction.py:105 | setting a field changes that field and no other |
| ReflectionExtraction.SnapPublicationDate | tasks/apps/tree/services/journalling/reflection_extraction.py:79-86 | the Weekly thread snaps to the Sunday on or after the date (within six days); big-picture snaps to the last day of the date's month; other threads keep the date |
| ReflectionExtraction.UpdateFields | tasks/apps/tree/services/journalling/reflection_extraction.py:100-105 | every field gets its own items appended to its old value |
| ReflectionExtraction.AddReflectionItems | tasks/apps/tree/services/journalling/reflection_extraction.py:63-107 | the key is the thread with the publication date snapped: the Sunday ending its week for `Weekly`, the last day of its month for `big-picture`, the date itself otherwise; a journal entry without reflection lines changes nothing; otherwise only the reflection under that key changes (stored or new), each field getting its own items appended |
| DateTimeUtils.DateRange | tasks/apps/tree/utils/datetime.py:15-20 | the days are consecutive from `start` to `end` inclusive, and there are none when `start > end` |
| DateTimeUtils.AdjustStartDateToMonday | tasks/apps/tree/utils/datetime.py:23-27 | the result is a Monday on or before the date and less than seven days before it |
| DateTimeUtils.AdjustDateToSunday | tasks/apps/tree/utils/datetime.py:30-33 | the result is a Sunday on or after the date and at most six days after it |
| DateTimeUtils.MakeLastDayOfTheWeek | tasks/apps/tree/utils/datetime.py:36-37 | the result is a Sunday on or after the date and at most six days after it |
| DateTimeUtils.SundaysAgree | tasks/apps/tree/utils/datetime.py:30-37 | `adjust_date_to_sunday` and `make_last_day_of_the_week` agree on every date |
| DateTimeUtils.WeekBrackets | tasks/apps/tree/utils/datetime.py:23-37 | the week's Sunday is six days after its Monday |
| DateTimeUtils.FirstDayOfTheMonth | tasks/apps/tree/utils/datetime.py:53 | the result is day 1 of the date's year and month, on or before the date |
| DateTimeUtils.MakeLastDayOfTheMonth | tasks/apps/tree/utils/datetime.py:40-41 | the result keeps the date's year and month, its day is the month's length, and it is on or after the date |
| DateTimeUtils.FirstDayIsReplacement | tasks/apps/tree/utils/datetime.py:53 | `date.replace(day=1)` never fails and gives the first day of the month |
| DateTimeUtils.LastDayIsReplacement | tasks/apps/tree/utils/datetime.py:41 | `date.replace(day=monthrange(...)[1])` never fails and gives the last day of the month |
| DateTimeUtils.GetWeekPeriod | tasks/apps/tree/utils/datetime.py:44-48 | the period runs from a Monday to the Sunday six days later and contains the date |
| DateTimeUtils.GetMonthPeriod | tasks/apps/tree/utils/datetime.py:51-55 | the period runs from day 1 to the last day of the date's month and contains the date |
| DateTimeUtils.SameWeekSamePeriod | tasks/apps/tree/utils/datetime.py:44-48 | two dates have the same week period iff they have the same Monday |
| DateTimeUtils.Step | tasks/apps/tree/utils/datetime.py:70-77 | a step moves forward; for weeks it moves seven days |
| DateTimeUtils.MonthlyStep | tasks/apps/tree/utils/datetime.py:73-77 | a monthly step keeps the day of the month and fails exactly when the next month lacks that day |
| DateTimeUtils.Walk | tasks/apps/tree/utils/datetime.py:63-77 | every visited date lies between the current date and `end` |
| DateTimeUtils.PeriodsOf | tasks/apps/tree/utils/datetime.py:65 | one period per visited date, that date's period |
| DateTimeUtils.Dedup | tasks/apps/tree/utils/datetime.py:66-68 | the kept periods have no duplicates and are exactly the periods met |
| DateTimeUtils.DedupOfDistinct | tasks/apps/tree/utils/datetime.py:66-68 | without duplicates nothing is removed |
| DateTimeUtils.DedupExtends | tasks/apps/tree/utils/datetime.py:66-68 | first-seen order: periods met later only follow those already kept |
| DateTimeUtils.AddUnseen | tasks/apps/tree/utils/datetime.py:65-68 | a period not seen before is appended and remembered; a seen one changes nothing |
| DateTimeUtils.GeneratePeriods | tasks/apps/tree/utils/datetime.py:58-79 | the result is the distinct periods of the visited dates in first-seen order, and an error exactly when a monthly step fails |
| DateTimeUtils.WeeklyWalk | tasks/apps/tree/utils/datetime.py:71-72 | weekly stepping never fails and visits `start`, `start + 7`, ... up to `end` |
| DateTimeUtils.WeeksApart | tasks/apps/tree/utils/datetime.py:44-48 | dates a week or more apart are in different weeks |
| DateTimeUtils.WeeklyPeriodsAreSteps | tasks/apps/tree/utils/datetime.py:58-72 | the weekly periods are all distinct, one per visited date, the i-th being the week of `start + 7 * i` |
| DateTimeUtils.MonthlyStepFails | tasks/apps/tree/utils/datetime.py:73-77 | a monthly walk fails once it meets a day missing from the next month |
| DateTimeUtils.MonthlyWalkFromEarlyDay | tasks/apps/tree/utils/datetime.py:73-77 | a monthly walk from a day no later than the 28th never fails |
| Calendar.NextDayOrdinal | tasks/apps/tree/utils/datetime.py:20 | the calendar day after a date is one ordinal later, across month and year ends |
| Calendar.PrevDayOrdinal | tasks/apps/tree/views_today.py:132-135 | the calendar day before a date is one ordinal earlier |
| Calendar.FromToOrdinal | tasks/apps/tree/utils/datetime.py:15-20 | a valid date read as a day number and back is itself |
| Calendar.ToOrdinalInjective | tasks/apps/tree/utils/datetime.py:15-20 | distinct valid dates have distinct day numbers |
| Strings.StripEmptyIffAllSpace | tasks/apps/tree/templatetags/listize.py:9 | a text strips to nothing iff it is all whitespace |
| Strings.NormalisedIdempotent | tasks/apps/tree/utils/db.py:116 | stripping and removing carriage returns twice is doing it once |
| Strings.IntToStringRoundTrip | tasks/apps/tree/utils/statistics.py:80 | the decimal text of an integer reads back as that integer |
| Strings.IntToStringInjective | tasks/apps/tree/utils/statistics.py:80 | different integers have different decimal texts |
| ViewsToday.SameMonthSameBounds | tasks/apps/tree/views_today.py:172-180 | a month period's first and last day depend only on the date's year and month |
| ViewsToday.LastOfMonthFixed | tasks/apps/tree/views_today.py:182-184 | a month's last day is its own canonical date |
| ViewsToday.AfterMonthEnd | tasks/apps/tree/views_today.py:196-197 | the day after a month's last day is day 1 of the next month |
| ViewsToday.BeforeMonthStart | tasks/apps/tree/views_today.py:189-190 | the day before a month's first day is the last day of the previous month |
| ViewsToday.CanonicalIsEnd | tasks/apps/tree/views_today.py:119-184 | for every class the canonical date is the period's end, and the period holds the date it was built from |
| ViewsToday.IsCanonicalIff | tasks/apps/tree/views_today.py:86-88 | every day is a canonical daily date; a weekly date is canonical iff it is a Sunday; a monthly date iff it is its month's last day |
| ViewsToday.CanonicalIsCanonical | tasks/apps/tree/views_today.py:86-108 | `canonical()` is canonical and equal to the period it came from |
| ViewsToday.SamePeriodIffSameCanonical | tasks/apps/tree/views_today.py:104-108 | two periods of one class are equal iff their canonical dates are equal |
| ViewsToday.SameWeekSamePeriod | tasks/apps/tree/views_today.py:104-152 | two dates give equal weekly periods iff they share a Monday |
| ViewsToday.DailyNeighbours | tasks/apps/tree/views_today.py:132-138 | a day's previous and next periods are the days before and after it |
| ViewsToday.WeeklyNeighbours | tasks/apps/tree/views_today.py:158-166 | a week's previous and next periods are the canonical Sundays seven days before and after its own, and both are canonical |
| ViewsToday.PreviousMonthEnd | tasks/apps/tree/views_today.py:189-191 | the day before a month's first day is the last day of the month before |
| ViewsToday.NextMonthStart | tasks/apps/tree/views_today.py:196-198 | the day after a month's last day starts the next month |
| ViewsToday.MonthlyNeighbours | tasks/apps/tree/views_today.py:186-198 | a month's previous and next periods are the last days of the months before and after it |
| ViewsToday.MonthlyBackForth | tasks/apps/tree/views_today.py:186-198 | back one month and forward again lands on the month's last day |
| ViewsToday.MonthlyForthBack | tasks/apps/tree/views_today.py:186-198 | forward one month and back again lands on the month's last day |
| ViewsToday.NextPreviousRoundTrip | tasks/apps/tree/views_today.py:132-198 | for every class, previous then next, and next then previous, give the canonical form of the period |
| ViewsToday.PeriodByThread | tasks/apps/tree/views_today.py:324-330 | the Weekly thread maps to Weekly, big-picture to Monthly, and every other thread to Daily |
| ViewsToday.LargerThread | tasks/apps/tree/views_today.py:334-342 | Daily maps to Weekly and Weekly to big-picture; no other thread has a larger one; the larger thread's period class is the one `get_period_by_thread` gives it |
| ViewsToday.GetLargerPlan | tasks/apps/tree/views_today.py:333-349 | a larger plan is found iff a plan is stored for the next thread up, dated on the canonical date of the larger period around the period's canonical date; other threads have none |
| ViewsToday.LargerPlanEnclosesPeriod | tasks/apps/tree/views_today.py:333-349 | the larger plan is dated on its own period's canonical date, and that period contains the end of the given period |
| ViewsToday.MonthsWithSummariesSpec | tasks/apps/tree/views_today.py:264-273 | a month has a summary iff some big-picture reflection in range is dated in it |
| ViewsToday.WeekHasSummary | tasks/apps/tree/views_today.py:282-291 | the week counts 1 iff one of its days lies in a month with a summary |
| ViewsToday.CollectMonths | tasks/apps/tree/views_today.py:270-273 | the loop gathers exactly the months of the reflections in range |
| ViewsToday.FlagWeeks | tasks/apps/tree/views_today.py:280-293 | one cell per week, dated on its last day and flagged 1 iff a day of the week lies in a month with a summary |
| ViewsToday.MonthlySummaryCalendar | tasks/apps/tree/views_today.py:259-295 | one cell per week from the Monday on or before `start` through `end`, dated on the week's Sunday, flagged 1 iff a day of the week lies in a month with a big-picture reflection |
| Db.Normalize | tasks/apps/tree/utils/db.py:106-117 | falsy values become the empty string, strings are stripped and freed of carriage returns, any other value is returned unchanged |
| Db.NormalizeIdempotent | tasks/apps/tree/utils/db.py:106-117 | normalising an already normalised value changes nothing |
| Db.NormalizeEquatesBlankAndNone | tasks/apps/tree/utils/db.py:110-116 | `None` and `""` normalise alike, and so do two strings equal once stripped |
| Db.OldValue | tasks/apps/tree/utils/db.py:78 | with no old instance the old value is `None` |
| Db.FieldsHaveChanged | tasks/apps/tree/utils/db.py:75-87 | one entry per requested field; an entry is `False` iff there is an old instance and the normalised old and new values agree, and otherwise it is the diff of the old and new values; with no old instance every entry is a diff from `None` |
| Db.FieldHasChanged | tasks/apps/tree/utils/db.py:90-96 | the single field's entry: unchanged iff there is an old instance whose normalised value equals the new one, otherwise the diff |
| Db.OldValuesFromDiffs | tasks/apps/tree/utils/db.py:99-103 | a field is kept iff its entry is a diff, and it maps to that diff's old value |
| Db.OldValuesEmptyIffUnchanged | tasks/apps/tree/utils/db.py:99-103 | the old values are empty iff every entry is unchanged |
| ObservationEvents.Fields | tasks/apps/tree/services/observations/event_creation.py:49-54 | the instance view of an observation holds all three content fields |
| ObservationEvents.DiffersIff | tasks/apps/tree/services/observations/event_creation.py:49-54 | a content field counts as changed iff its texts differ once stripped and freed of carriage returns, `None` reading as empty |
| ObservationEvents.ContentChanges | tasks/apps/tree/services/observations/event_creation.py:49-54 | each of the three flags is true iff that field's normalised previous and current values differ |
| ObservationEvents.AppendChangeEvents | tasks/apps/tree/services/observations/event_creation.py:56-79 | the loop of conditional appends builds the events the three flags select, each with the field's previous value |
| ObservationEvents.CreateObservationChangeEvents | tasks/apps/tree/services/observations/event_creation.py:43-79 | a newly saved observation gives exactly `ObservationMade`; otherwise at most three events, no `ObservationMade`, in the order situation, interpretation, approach, with an event for a field iff that field changed, each carrying the previous value |
| ObservationEvents.WasChangedAgreesWithDiffers | tasks/apps/tree/serializers.py:81-95 | outside the case of `None` against a non-empty blank string, the serializer's `was_changed` and the event builder's comparison agree |
| ObservationEvents.EmptyAgainstNone | tasks/apps/tree/serializers.py:85 | `None` against `""`, either way round, is a change for neither builder |
| ObservationEvents.VisibleAgainstNone | tasks/apps/tree/serializers.py:85-95 | `None` against a string with visible text, either way round, is a change for both builders |
| ObservationEvents.BothPresent | tasks/apps/tree/serializers.py:87-95 | with both values present, `was_changed` holds iff the normalised strings differ |
| ObservationEvents.BuildersDisagreeOnNoneVersusBlank | tasks/apps/tree/serializers.py:81-95 | `None` against `" "` is a change for `was_changed` and none for the event builder |
| BreakthroughEvents.Fields | tasks/apps/tree/services/breakthrough/event_creation.py:44-62 | the instance view of an outcome holds every redefining field and `resolved_by`, with the outcome's values |
| BreakthroughEvents.OldInstance | tasks/apps/tree/services/breakthrough/event_creation.py:39 | a stored row, when there is one, holds every field the comparisons read |
| BreakthroughEvents.RedefinedFields | tasks/apps/tree/services/breakthrough/event_creation.py:43-51 | a redefining field is kept iff it changed after normalisation (always, with no stored row), mapped to its stored value or `None` |
| BreakthroughEvents.ResolvedByChange | tasks/apps/tree/services/breakthrough/event_creation.py:60-62 | the date is a change iff there is no stored row or the stored date differs, compared without normalisation; the change carries the old date |
| BreakthroughEvents.RedefinedEvent | tasks/apps/tree/services/breakthrough/event_creation.py:53-57 | one `Redefined` event iff some redefining field changed, carrying the old values of exactly the changed fields |
| BreakthroughEvents.RescheduledEvent | tasks/apps/tree/services/breakthrough/event_creation.py:63-67 | one `Rescheduled` event iff the date changed, carrying the old date |
| BreakthroughEvents.CreateProjectedOutcomeChangeEvents | tasks/apps/tree/services/breakthrough/event_creation.py:36-69 | an unsaved outcome gives no events; otherwise a `Redefined` event iff a redefining field changed, first, and a `Rescheduled` event iff the date changed, last, so at most two |
| BreakthroughEvents.NoStoredRowRedefinesAndReschedules | tasks/apps/tree/services/breakthrough/event_creation.py:39-67 | with no stored row both events are produced |
| BreakthroughEvents.SameText | tasks/apps/tree/services/breakthrough/event_creation.py:44-49 | two texts equal once stripped leave the field unchanged |
| BreakthroughEvents.BlankCriteria | tasks/apps/tree/services/breakthrough/event_creation.py:44-49 | `None` and `""` success criteria count as the same |
| BreakthroughEvents.CosmeticEditsProduceNothing | tasks/apps/tree/services/breakthrough/event_creation.py:41-69 | edits of outer whitespace and blank criteria with the same date produce neither event |
| BreakthroughEvents.NewDateOnlyReschedules | tasks/apps/tree/services/breakthrough/event_creation.py:41-69 | changing only the date reschedules and does not redefine |
| Presenters.AttachedIffLastIsAttach | tasks/apps/tree/presenters.py:39-43 | an id is attached iff the last attach or detach event about it in the stream is an attach |
| Presenters.OtherStreamIgnored | tasks/apps/tree/presenters.py:30-33 | events of other streams do not change the replay |
| Presenters.DetachOfNonMemberIsNoOp | tasks/apps/tree/presenters.py:42-43 | detaching an id that is not attached changes nothing |
| Presenters.ComplexPresenter.constructor | tasks/apps/tree/presenters.py:20-22 | a new presenter holds its stream id and no cached set |
| Presenters.ComplexPresenter.GetAttachedStreamIds | tasks/apps/tree/presenters.py:24-64 | returns the cached set when there is one, else the replay of the stream's events, and caches what it returns |
| Presenters.ComplexPresenter.OpenObservationsCount | tasks/apps/tree/presenters.py:48-56 | the number of attached ids that belong to open observations, 0 when nothing is attached |
| Presenters.ComplexPresenter.TotalUniqueObservationsCount | tasks/apps/tree/presenters.py:58-60 | the size of the attached set |
| Presenters.ComplexPresenter.IsAttached | tasks/apps/tree/presenters.py:66-69 | membership in the attached set |
| Presenters.OpenAtMostTotal | tasks/apps/tree/presenters.py:48-60 | the open count never exceeds the total unique count |
| Presenters.GetComplexPresenter | tasks/apps/tree/presenters.py:146-150 | no presenter iff the observation has no event stream id; otherwise a fresh presenter for that stream with nothing cached |
| Presentation.InsertAddsOne | tasks/apps/tree/presentation.py:25 | inserting one event into the sorted list adds exactly that event |
| Presentation.InsertKeepsSorted | tasks/apps/tree/presentation.py:25 | inserting into a list sorted by publication time keeps it sorted |
| Presentation.SortByPublished | tasks/apps/tree/presentation.py:25 | the events sorted by publication time: ordered, and a permutation of the input |
| Presentation.Select | tasks/apps/tree/presentation.py:29-32 | the selected events are exactly the events of the given type, taken from the list |
| Presentation.RedefinedFieldIsLastGiven | tasks/apps/tree/presentation.py:72-78 | after the redefinitions a field holds the value of the last event that gives one, or its starting value when none does; the date is untouched |
| Presentation.RescheduledLastWins | tasks/apps/tree/presentation.py:81-82 | after the reschedules the date is the last event's new date and nothing else changes; no reschedules change nothing |
| Presentation.ClosedOverrides | tasks/apps/tree/presentation.py:86-91 | with a Closed event, the last one decides all four fields whatever came before |
| Presentation.ProjectedOutcomePresentation.constructor | tasks/apps/tree/presentation.py:17-26 | the presentation holds the events sorted by publication time and the active instance |
| Presentation.ProjectedOutcomePresentation.BuildState | tasks/apps/tree/presentation.py:34-67 | the events are split by type; the error is raised iff there is no Made event, and otherwise the built state is left |
| Presentation.ProjectedOutcomePresentation.SplitEvents | tasks/apps/tree/presentation.py:37-40 | the four lists are the sorted events split by type, each of its own type |
| Presentation.ProjectedOutcomePresentation.ShowOutcome | tasks/apps/tree/presentation.py:46-67 | the fields of the first Made event, then the active instance's values and confidence, or else the replay at confidence 100 |
| Presentation.ProjectedOutcomePresentation.ReplayEvents | tasks/apps/tree/presentation.py:69-91 | the displayed fields become the replay (redefinitions, reschedules, last Closed) and nothing else changes |
| Presentation.ProjectedOutcomePresentation.Status | tasks/apps/tree/presentation.py:93-109 | "Active" iff there is an active instance, "Complete" iff there is none |
| Presentation.ProjectedOutcomePresentation.FinalEvent | tasks/apps/tree/presentation.py:111-114 | no final event iff there are no events; otherwise it is the last event, and when the events are in publication order it is published no earlier than any event |
| Presentation.Present | tasks/apps/tree/presentation.py:17-67 | building fails with the Made-event error iff no Made event is given; otherwise a new presentation in the built state over the sorted events |
| ViewsHabit.HabitCounter | tasks/apps/tree/views_habit.py:110-128 | an entry for exactly the days with rows: -1 for a day with a row saying the habit did not occur, else the number of rows |
| ViewsHabit.Snoc | tasks/apps/tree/views_habit.py:118-126 | one more row changes only its own day's count and miss flag |
| ViewsHabit.MissedHasRows | tasks/apps/tree/views_habit.py:118-124 | a missed day has rows |
| ViewsHabit.MissedIff | tasks/apps/tree/views_habit.py:122-124 | a day is missed iff one of its rows says the habit did not occur |
| ViewsHabit.CountZeroIff | tasks/apps/tree/views_habit.py:126 | a day counts zero iff no row is dated on it |
| ViewsHabit.SplitsOverConcat | tasks/apps/tree/views_habit.py:118-126 | the per-day count and miss flag split over a concatenation of rows |
| ViewsHabit.OrderDoesNotMatter | tasks/apps/tree/views_habit.py:118-126 | a day's value does not depend on the order of the rows: a miss wins wherever it comes |
| ViewsHabit.ShownMeaning | tasks/apps/tree/views_habit.py:118-139 | the shown value is -1 iff a row says the habit was missed that day, 0 iff the day has no rows, else the number of rows |
| ViewsHabit.HabitCalendar | tasks/apps/tree/views_habit.py:131-139 | one entry per day from the Monday on or before `start` through `end`, each with its shown value |
| ViewsHabit.CalendarOpensOnMonday | tasks/apps/tree/views_habit.py:132 | a non-empty calendar opens on a Monday at most six days before `start` and ends on `end` |
| ViewsHabit.ParseIsoDay | tasks/apps/tree/views_habit.py:39 | parsing succeeds iff the text matches `YYYY-MM-DD` and names a date of years 1 to 9999, and then gives that date |
| ViewsHabit.GetDayFromRequest | tasks/apps/tree/views_habit.py:35-41 | today without a `date` parameter, else the parse of the parameter |
| ViewsHabit.Pad4 | tasks/apps/tree/views_habit.py:39 | a four-digit year reads back as the `%Y` token |
| ViewsHabit.MonthPadded | tasks/apps/tree/views_habit.py:39 | a two-digit month reads back as the `%m` token |
| ViewsHabit.DayPadded | tasks/apps/tree/views_habit.py:39 | a two-digit day reads back as the `%d` token |
| ViewsHabit.IsoRoundTrip | tasks/apps/tree/views_habit.py:35-41 | every date of years 1 to 9999 written as `YYYY-MM-DD` parses back to itself |
| Itertools.Itemize | tasks/apps/tree/utils/itertools.py:3-5 | one pair per key of `order`, in order, with the mapping's value or the default |
| Itertools.ItemizeOnlyOrderKeys | tasks/apps/tree/utils/itertools.py:4-5 | every item's key comes from `order`, paired with the mapping's value or the default |
| Itertools.ItemizeAppend | tasks/apps/tree/utils/itertools.py:4-5 | itemizing a concatenation of orders concatenates the items |
| ViewsDiscovery.GroupsMembership | tasks/apps/tree/views_discovery.py:33-34 | a type is among the collected filters iff one of the named groups holds it |
| ViewsDiscovery.GroupsLast | tasks/apps/tree/views_discovery.py:33-34 | the filters of a list are those of its front followed by those of its last name |
| ViewsDiscovery.NamedLast | tasks/apps/tree/views_discovery.py:33-34 | a name holding a type is in the front of the list or is its last name |
| ViewsDiscovery.FilterEventsByTypes | tasks/apps/tree/views_discovery.py:27-39 | no filtering for a value that is not a list or is empty; the KeyError iff some name is not a group; otherwise the concatenated groups |
| ViewsDiscovery.KnownNamesFilter | tasks/apps/tree/views_discovery.py:36-37 | a non-empty list of known names always filters, since every group is non-empty |
| ViewsDiscovery.Candidates | tasks/apps/tree/views_discovery.py:62-76 | the random candidates are events of the table in the time range, of a kept type and not locked, without repeats when the table has none |
| ViewsDiscovery.LockedIds | tasks/apps/tree/views_discovery.py:70 | an id is locked iff some slot holds it |
| ViewsDiscovery.SlotsSplit | tasks/apps/tree/views_discovery.py:70-72 | every slot is either random or locked |
| ViewsDiscovery.NoneCountConcat | tasks/apps/tree/views_discovery.py:94-96 | the random slots of a concatenation add up |
| ViewsDiscovery.LockedMap | tasks/apps/tree/views_discovery.py:84 | an id is found iff it is locked and names an event of the table, and it maps to that event |
| ViewsDiscovery.LockedMissingIff | tasks/apps/tree/views_discovery.py:84-90 | the existence check counted over distinct ids fails iff some locked id names no event |
| ViewsDiscovery.RepeatedLockedIdRejected | tasks/apps/tree/views_discovery.py:84-90 | the check as written rejects a locked id repeated in two slots although its event exists |
| ViewsDiscovery.IdSetSize | tasks/apps/tree/views_discovery.py:84-90 | the distinct locked ids are at most as many as the locked slots, and exactly as many iff no id repeats |
| ViewsDiscovery.LockedMissingAsWrittenIff | tasks/apps/tree/views_discovery.py:84-90 | the existence check as written fails iff some locked id names no event or some locked id is repeated |
| ViewsDiscovery.DiscoveryEvents | tasks/apps/tree/views_discovery.py:55-105 | the request fails iff the types are unknown, the locked ids outnumber `number`, there are too few candidates, a locked id is missing or repeated (the existence check as written) or the random slots outnumber the random events; otherwise one event per slot, the locked event for a locked slot and the next candidate for a random one |
| ViewsDiscovery.PrependTwice | tasks/apps/tree/views_discovery.py:92-98 | prepending filled events composes, and prepending nothing changes nothing |
| ViewsDiscovery.FillMeaning | tasks/apps/tree/views_discovery.py:92-98 | filling succeeds iff the random events cover the random slots, and then each slot holds its locked event or the next random event |
| ViewsDiscovery.FillSlots | tasks/apps/tree/views_discovery.py:92-98 | the slot loop gives the fill, or the `pop` error when the random events run out |
| ViewsDiscovery.NoneCountGrows | tasks/apps/tree/views_discovery.py:94-96 | a prefix has no more random slots than the whole |
| ViewsDiscovery.NoneCountStrictlyGrows | tasks/apps/tree/views_discovery.py:94-96 | random slots earlier in the list take earlier random events |
| ViewsDiscovery.RandomSlotsDistinct | tasks/apps/tree/views_discovery.py:74-98 | in a successful response two random slots hold different events, each matching the filter and not locked |
| ModelPresenters.FirstLine | tasks/apps/tree/templatetags/model_presenters.py:15-21 | a text without a newline is returned unchanged; otherwise the result ends in an ellipsis and holds no newline before it |
| ModelPresenters.FirstLineOf | tasks/apps/tree/templatetags/model_presenters.py:16 | the first line is the text up to its first newline and holds none |
| ModelPresenters.FirstLineShortens | tasks/apps/tree/templatetags/model_presenters.py:18-19 | before the ellipsis comes a prefix of the first line that does not end in a dot or an ellipsis, and what it drops is whitespace, dots and ellipses |
| ModelPresenters.PairIterators | tasks/apps/tree/templatetags/model_presenters.py:51-64 | the two-cursor loop yields exactly the pairs of the specification function |
| ModelPresenters.PairsShape | tasks/apps/tree/templatetags/model_presenters.py:58-64 | one pair per full item, in order, each with `[]` or a group of the partial side |
| ModelPresenters.UnmatchedGroupBlocks | tasks/apps/tree/templatetags/model_presenters.py:59-63 | a first group whose key matches no full item blocks every later group: all values are `[]` |
| ModelPresenters.InOrderGroupsPlaced | tasks/apps/tree/templatetags/model_presenters.py:58-64 | with distinct full items and groups in their order, every group lands at its own item and every other item gets `[]` |
| ModelPresenters.MatchedStep | tasks/apps/tree/templatetags/model_presenters.py:59-61 | a first item that matches the first group takes it |
| ModelPresenters.SkippedStep | tasks/apps/tree/templatetags/model_presenters.py:62-63 | a first item that does not match gets `[]` and the groups wait |
| ModelPresenters.MonthNumber | tasks/apps/tree/templatetags/model_presenters.py:49 | a label's month number lies between 0 and 12 |
| ModelPresenters.NameGivesNumber | tasks/apps/tree/templatetags/model_presenters.py:49 | each month's name gives its own number back |
| ModelPresenters.MonthLabelsDistinct | tasks/apps/tree/templatetags/model_presenters.py:49 | the twelve `F Y` labels of a year are distinct |
| ModelPresenters.MissingMonths | tasks/apps/tree/templatetags/model_presenters.py:46-66 | the IndexError iff there is no group or the first group is empty; otherwise twelve pairs labelled with the year's months in order, as `pair_iterators` pairs them |
| ModelPresenters.MonthsAreDistinct | tasks/apps/tree/templatetags/model_presenters.py:49 | the month labels are distinct, so groups in month order all find their month |
| Listize.LineEnd | tasks/apps/tree/templatetags/listize.py:14 | the first line break at or after a position, with no break before it |
| Listize.SplitLines | tasks/apps/tree/templatetags/listize.py:14 | the lines hold no break, and there are none iff the text is empty |
| Listize.SplitLinesRoundTrip | tasks/apps/tree/templatetags/listize.py:14 | the breaks removed between the lines are each `\n`, `\r`, `\r\n` or another line boundary, one fewer than the lines or as many, and putting them back between the lines gives the text again |
| Listize.OneLine | tasks/apps/tree/templatetags/listize.py:14 | a non-empty text without breaks is one line |
| Listize.TwoLines | tasks/apps/tree/templatetags/listize.py:14 | two lines around `\n`, `\r` or `\r\n` split into exactly those two lines |
| Listize.Items | tasks/apps/tree/templatetags/listize.py:14 | one `<li>` item per line, holding the stripped line |
| Listize.ListizeMeaning | tasks/apps/tree/templatetags/listize.py:7-16 | "" for a blank text; otherwise a `<ul>` element whose content, split at newlines, is one `<li>` item per line of the text holding that line stripped |
| Listize.ListizeOneLine | tasks/apps/tree/templatetags/listize.py:7-16 | a single visible line becomes a list with one item |
| Listize.ListizeTwoLines | tasks/apps/tree/templatetags/listize.py:7-16 | two lines become two items joined by a newline, whichever break separated them |
| Listize.Max | tasks/apps/tree/templatetags/listize.py:34-36 | the value capped at `max`: at most both, and equal to one of them |
| Listize.Dots | tasks/apps/tree/templatetags/listize.py:29-31 | as many dot markers as the capped value, none for zero or less |
| Listize.DotsCycle | tasks/apps/tree/templatetags/listize.py:31 | repeated markers read the marker text over and over |
| WordStatistics.SpaceFrom | tasks/apps/tree/utils/statistics.py:12 | the first whitespace character at or after a position, with none before it |
| WordStatistics.SplitSpace | tasks/apps/tree/utils/statistics.py:12 | at least one piece, none holding whitespace |
| WordStatistics.NonEmpty | tasks/apps/tree/utils/statistics.py:12 | the non-empty pieces, taken from the split |
| WordStatistics.CountWordsInText | tasks/apps/tree/utils/statistics.py:7-12 | 0 for a falsy or non-string value, else the number of whitespace-separated words of the text |
| WordStatistics.SplitCountsRuns | tasks/apps/tree/utils/statistics.py:12 | the non-empty pieces of the split are exactly the runs of non-whitespace characters |
| WordStatistics.StripKeepsWords | tasks/apps/tree/utils/statistics.py:12 | stripping the text does not change its word count |
| WordStatistics.CountIsWords | tasks/apps/tree/utils/statistics.py:12 | the counted pieces of the stripped text are its words |
| WordStatistics.SurroundingSpaceIgnored | tasks/apps/tree/utils/statistics.py:7-12 | whitespace around a text does not change its count |
| WordStatistics.SeparatedTextsAdd | tasks/apps/tree/utils/statistics.py:7-12 | two texts joined by whitespace hold the words of both |
| WordStatistics.TextFields | tasks/apps/tree/utils/statistics.py:43-50 | the gathered attributes are all truthy |
| WordStatistics.FalsyFieldsCountNothing | tasks/apps/tree/utils/statistics.py:43-54 | leaving out the falsy attributes loses no words |
| WordStatistics.YearCountsItsOwnRows | tasks/apps/tree/utils/statistics.py:37-65 | counting for a year is counting only that year's events and plans |
| WordStatistics.EventsOfYear | tasks/apps/tree/utils/statistics.py:37-54 | the year filter on events keeps exactly the words of that year's events |
| WordStatistics.PlansOfYear | tasks/apps/tree/utils/statistics.py:57-65 | the year filter on plans keeps exactly the words of that year's plans |
| WordStatistics.EventsWordsAppend | tasks/apps/tree/utils/statistics.py:41-54 | the words of more events are the sum of the words of each part |
| WordStatistics.EventWordCount | tasks/apps/tree/utils/statistics.py:42-54 | the words of one event's truthy text attributes |
| WordStatistics.GatherTexts | tasks/apps/tree/utils/statistics.py:43-50 | the filter and reduce give the truthy attributes in field order |
| WordStatistics.SumTextWords | tasks/apps/tree/utils/statistics.py:53-54 | the loop adds up the words of each gathered text |
| WordStatistics.CalculateTotalWordCount | tasks/apps/tree/utils/statistics.py:26-68 | the words of the selected events' text attributes and the selected plans' focus and want, all rows without a year filter |
| WordStatistics.Key | tasks/apps/tree/utils/statistics.py:80 | the overall key iff no year filter applies |
| WordStatistics.KeyInjective | tasks/apps/tree/utils/statistics.py:80 | two keys agree only for the same year, or for no year filter on both sides |
| WordStatistics.UpdateWordCountStatistic | tasks/apps/tree/utils/statistics.py:71-92 | returns the count and stores it under the year's key, leaving every other key alone |
| WordStatistics.GetWordCountStatistic | tasks/apps/tree/utils/statistics.py:145-157 | a value iff the year's key is stored, and then the stored value |
| WordStatistics.GetAfterUpdate | tasks/apps/tree/utils/statistics.py:145-157 | a stored count is read back for its own year and for no other |
| WordStatistics.PickEarliest | tasks/apps/tree/utils/statistics.py:126 | the next year is the smallest of the years left |
| WordStatistics.UpdateAllWordCountStatistics | tasks/apps/tree/utils/statistics.py:101-142 | the overall total is recounted and stored; every event year is reported: recounted and stored for the current and previous year or when nothing is stored, else the stored value is reported and kept; keys of other years keep their values |
| WordStatistics.RefreshYears | tasks/apps/tree/utils/statistics.py:123-141 | the loop over the event years reports every year by the rule above and keeps the overall total and every untouched key |
| WordStatistics.RefreshYear | tasks/apps/tree/utils/statistics.py:126-140 | one step reports one more year and keeps every earlier report |
| AssetUtils.Member | tasks/assets/utils.js:7 | indexing throws iff the value is `null`; a present key or an index in range gives the member, anything else `undefined` |
| AssetUtils.TreeItemForRootAndPath | tasks/assets/utils.js:1-9 | the empty path gives the root |
| AssetUtils.UndefinedIsSticky | tasks/assets/utils.js:3-5 | below `undefined` every path gives `undefined` |
| AssetUtils.WalkConcat | tasks/assets/utils.js:1-9 | walking a concatenated path is walking the first part and then the second from where it ended |
| AssetUtils.UndefinedPrefix | tasks/assets/utils.js:3-5 | once a prefix reaches `undefined` the whole path gives `undefined` |
| AssetUtils.WalkOneMore | tasks/assets/utils.js:7 | one more chunk indexes the value the path reached |
| AssetUtils.ChildrenPathFindsDescendant | tasks/assets/utils.js:1-9 | walking a tree item's JSON by `children` indices finds the descendant's JSON, or `undefined` when an index is out of range |
| AssetUtils.CreateTreeItem | tasks/assets/utils.js:11-33 | an open leaf with the given text (empty by default) and markers that set no flag and count nothing |
| AssetUtils.CreateBoard | tasks/assets/utils.js:35-42 | no id, no dates, an empty state and no focus |
| BoardStore.FindIndexWhere | tasks/assets/stores/boardStore.js:77-79 | the first index whose board satisfies the callback, else -1 |
| BoardStore.Find | tasks/assets/stores/boardStore.js:61 | the first element satisfying the finder, found iff one does |
| BoardStore.UpsertReplaces | tasks/assets/stores/boardStore.js:76-88 | a payload whose id is in the list replaces the first board with that id, keeping the length and every other board |
| BoardStore.UpsertInsertsFirst | tasks/assets/stores/boardStore.js:81-82 | a payload with a new id goes in front of the unchanged list |
| BoardStore.UpsertKeepsIdsDistinct | tasks/assets/stores/boardStore.js:76-88 | distinct ids stay distinct, and afterwards the payload is the board with its id |
| BoardStore.UpsertIdempotent | tasks/assets/stores/boardStore.js:76-88 | updating twice with the same payload is updating once |
| BoardStore.Upsert | tasks/assets/stores/boardStore.js:76-88 | the count is again the number of results, which are the updated list |
| BoardStore.CurrentBoardOf | tasks/assets/stores/boardStore.js:53-57 | a blank board without a list or with a zero count, else the first result (`undefined` for an empty page) |
| BoardStore.CurrentBoardAfterUpsert | tasks/assets/stores/boardStore.js:53-88 | after an update the current board is the first entry, and a payload with a new id becomes the current board |
| BoardStore.CurrentThreadOf | tasks/assets/stores/boardStore.js:59-63 | no thread without a loaded non-empty list; otherwise a thread is found iff one matches the selector, and it is one of the list |
| BoardStore.CurrentThreadIsFirstMatch | tasks/assets/stores/boardStore.js:61 | no thread before the found one matches the selector |
| BoardStore.CurrentThreadIdOf | tasks/assets/stores/boardStore.js:65-67 | the found thread's id, none iff no thread is found |
| BoardStore.AllThreadsOf | tasks/assets/stores/boardStore.js:69-73 | the loaded threads, none while the list is missing or empty |
| BoardStore.Spread | tasks/assets/stores/boardStore.js:120-123 | the current board with the keys the payload has overriding state and focus |
| BoardStore.SaveOutcome | tasks/assets/stores/boardStore.js:119-137 | a throwing save leaves the list as it was, unless the request failed after the first update |
| BoardStore.UnchangedSaveIsNoOp | tasks/assets/stores/boardStore.js:125-127 | saving a board with the same state and focus leaves the list alone and does not throw |
| BoardStore.SaveShowsServerBoard | tasks/assets/stores/boardStore.js:119-137 | a successful save of the current board shows the server's answer in its place, keeping the length and distinct ids |
| BoardStore.PiniaBoardStore.constructor | tasks/assets/stores/boardStore.js:48-50 | nothing loaded, and the selector names the thread "Daily" |
| BoardStore.PiniaBoardStore.UpdateBoardInListResponse | tasks/assets/stores/boardStore.js:76-88 | throws iff no list is loaded; otherwise the list becomes the update, and nothing else changes |
| BoardStore.PiniaBoardStore.Save | tasks/assets/stores/boardStore.js:119-137 | the new list and the throw are those of the save outcome; threads and selector are kept |
| BoardStore.PiniaBoardStore.Close | tasks/assets/stores/boardStore.js:139-147 | throws iff there is no current board, the request fails or no list is loaded; otherwise the server's answer is put in the list |
| BoardStore.PiniaBoardStore.InitThreads | tasks/assets/stores/boardStore.js:90-93 | throws iff the request fails; otherwise the threads are the server's list |
| BoardStore.PiniaBoardStore.LoadBoardsForThread | tasks/assets/stores/boardStore.js:101-108 | nothing happens for a falsy id; otherwise throws iff the request fails, else the list is the server's page |
| BoardStore.PiniaBoardStore.ChangeThread | tasks/assets/stores/boardStore.js:114-117 | the selector is the id, then the thread's boards are loaded as above |
| BoardStore.PiniaBoardStore.ReloadBoards | tasks/assets/stores/boardStore.js:110-112 | loads the boards of the current thread's id, as above |
| BoardStore.PiniaBoardStore.InitBoard | tasks/assets/stores/boardStore.js:95-99 | a failed thread request changes nothing; otherwise the threads are stored and the selector names the thread; a thread that is not found throws; a found thread loads its boards: it throws iff its id is not 0 and the board request fails, and the list becomes the response unless the id is 0 or the request failed |
| VuexStore.AsWrittenAlwaysPrepends | tasks/assets/store.js:87-96 | as written, the payload always goes in front |
| VuexStore.AsWrittenDuplicatesKnownId | tasks/assets/store.js:87-98 | as written, updating a board already in a list with distinct ids adds an entry and leaves two boards with its id, where the intended update keeps the length and distinct ids |
| VuexStore.SaveAsWrittenTriplicates | tasks/assets/store.js:149-167 | saving the only board of a list leaves it three entries as written and one with the intended update |
| VuexStore.VuexBoardStore.constructor | tasks/assets/store.js:51-55 | nothing loaded, and the selector names the thread "Daily" |
| VuexStore.VuexBoardStore.SetListResponse | tasks/assets/store.js:83-85 | the list becomes the payload; nothing else changes |
| VuexStore.VuexBoardStore.UpdateBoardInListResponseAsWritten | tasks/assets/store.js:87-99 | throws iff no list is loaded; otherwise the payload is prepended and the count is one more |
| VuexStore.VuexBoardStore.UpdateBoardInListResponse | tasks/assets/store.js:87-99 | with the callback returning its comparison: the same update as the Pinia store's |
| VuexStore.VuexBoardStore.SetThreads | tasks/assets/store.js:101-103 | the threads become the given list; nothing else changes |
| VuexStore.VuexBoardStore.SetCurrentThreadId | tasks/assets/store.js:105-107 | the selector becomes the id; nothing else changes |
| VuexStore.VuexBoardStore.SetCurrentThreadName | tasks/assets/store.js:109-111 | the selector becomes the name; nothing else changes |
| VuexStore.UpsertAsWritten | tasks/assets/store.js:87-99 | as written, the payload goes in front of the list and the count is one more |
| VuexStore.SaveOutcomeAsWritten | tasks/assets/store.js:149-167 | a throw leaves the list as it was or comes from a failed request; a list is left iff one was loaded |
| VuexStore.SaveAsWrittenAddsTwo | tasks/assets/store.js:149-167 | as written, a changed save that succeeds puts the server board and the optimistic board in front of the old list, two entries more, where the intended update keeps the length |
| VuexStore.CloseAsWrittenKeepsStaleBoard | tasks/assets/store.js:169-177 | as written, the committed board goes in front and the stale current board stays behind it, where the intended update replaces it in place |
| VuexStore.VuexBoardStore.Save | tasks/assets/store.js:149-167 | the new list and the throw are those of the save outcome with the mutation as written |
| VuexStore.VuexBoardStore.SaveCorrected | tasks/assets/store.js:149-167 | the new list and the throw are those of the save outcome with the corrected mutation |
| VuexStore.VuexBoardStore.Close | tasks/assets/store.js:169-177 | throws iff there is no current board, the request fails or no list is loaded; otherwise the committed board is put in front of the list as written; nothing else changes |

## Left out

- The Django ORM and persistence are not modelled. Stores are maps or sequences: thread name to board, event rows, the statistics table. `get_object_or_none` and `get_object_or_new` are replaced by the stored row passed in as an `Option`. `.save()` and `transaction.atomic` are not modelled, and `commit_board` is modelled as the steps it takes in order, with no rollback.
- Clocks are parameters: `timezone.now()`, `date.today()`, the current year of `update_all_word_count_statistics`, and the `published` timestamps of new events.
- Timezone-aware datetimes are modelled as calendar days. Day numbers follow Python's `date.toordinal`, extended to all integers, so the `OverflowError` outside years 1 to 9999 is not modelled.
- The random order of discovery (`order_by('?')`) is an input: the candidates arrive in the order the query returned them.
- Network requests of the front-end stores are not modelled as requests. The server's answer to each request is a `Result` parameter, and a failed request is a thrown error. `await` interleavings are not modelled.
- In the stores, JavaScript `null` and `undefined` both become `None`. Property access on arbitrary objects is modelled only for the JSON values of `assets/utils.js`, and key coercion (`obj[1]` against `obj["1"]`) is not modelled.
- Vuex actions other than `save` and `close` (`initThreads`, `initBoard`, `loadBoardsForThread`, `reloadBoards`, `changeThread`): they commit the same mutations in the same order as the Pinia actions modelled in `BoardStore.PiniaBoardStore`, so they are not modelled again. The Vuex `close` differs from the Pinia one, since it goes through the list mutation as written, and is modelled as `VuexStore.VuexBoardStore.Close`.
- Event payloads beyond what the decisions read (`published`, thread, stream ids of new events) are not modelled. Non-string attribute values counted by the statistics are folded into one `NotText` case carrying their truthiness.
- `get_word_count_statistic` returns only the stored value; `last_updated` is not modelled.
- `ComplexPresenter.open_observations_list`, `all_attached_events_chronological` and `all_attached_events_with_situation` are query and rendering helpers over the same attached set, and are not modelled. The set of open observations is an input to `OpenObservationsCount`.
- From `views_today.py`: `get_larger_plans`, `get_summary_calendar`, `weekly_summary_calendar` and `event_calendar` are not modelled; only the `monthly_summary_calendar` week flagging is modelled. The lazy caching of a period's `start` and `end` is not modelled, since both are computed from the date alone.
- Template filters that call into other libraries are not modelled: `slugify` (`unidecode`), `habit_without_name` (a case-insensitive regular expression) and `get_habit_form` (form construction). `mark_safe` is the identity here.
- `pprint` in `commit.py` only prints and is not modelled.
- Iteration over Python sets has no defined order. Where the source iterates a set (the merge's common keys, the slice targets), the model picks elements in any order and proves results that hold for every order.
- Habits.MatchTokenToHabit: requires a non-empty token. The source fails with an `IndexError` on an empty token, but the parser never produces one (`Habits.ParsedTokensNonEmpty`). `MatchTokenToHabitOrNone` maps that case to `None`.
- ReflectionExtraction.AppendKeepsValue: states the shape of the result only for a stripped non-empty value and stripped non-empty lines. Other inputs are covered by `AppendLinesToValue`'s own contract.
- AssetUtils.TreeItemForRootAndPath: its own contract states only the empty path. The step-by-step meaning is stated by `UndefinedIsSticky`, `WalkConcat`, `WalkOneMore` and `ChildrenPathFindsDescendant`.
- Missing marker keys are not modelled. `Tree.Markers` is a record with every key present. The source reads some keys with `.get` and a default: `weeks_in_list` and `filter_out_checked_items` (commit.py:24-30, 117-132) and the board summary counts (serializers.py:594-630). Other reads index strictly and raise `KeyError` on a missing key: `transition_markers_in_tree_item` (commit.py:50-55) and the `postponedFor` read for visibility (commit.py:93). `removed` also raises `TypeError` when `weeksInList` is missing, since it compares `None >= 5`. These are the `KeyError` and `TypeError` paths of `Commit.WeeksInList`, `Commit.TransitionMarkers`, `Commit.ShouldDropIff` and the `Serializers` counts.
- ModelPresenters.MonthLabel: writes the year with `Strings.IntToString`. Django's `Y` format pads years below 1000 to four digits, which matters only for years 1 to 999.
- ViewsHabit.ParseIsoDay: accepts only ASCII digits. The `\d` in Python's `strptime` patterns also matches other Unicode decimal digits, so the source accepts some strings the model rejects.
- DateTimeUtils.DateRange: works on calendar days. The source steps a datetime and compares it with `end` at full precision. When `start`'s time of day is later than `end`'s, the source therefore yields one day fewer than the model.
- Db.OldValue: its own contract states only the missing-instance case. With an instance it is the field's value, which `FieldsHaveChanged` uses directly.

## Findings

| source | as written | input that shows it | evidently intended | confidence | as-written member | corrected member |
|---|---|---|---|---|---|---|
| tasks/assets/store.js:88-90 | the `findIndex` callback has a block body without `return`, so no board ever matches and the payload is always put in front | a list holding board 1, updated with a new version of board 1: the list then holds board 1 twice, and a `save` leaves three entries | replace the board with the payload's id in place, as the Pinia store does | high, not executed | VuexStore.AsWrittenDuplicatesKnownId | VuexStore.VuexBoardStore.UpdateBoardInListResponse |
| tasks/apps/tree/views_discovery.py:84-90 | the existence check compares the number of events found with the number of locked slots, repeats included | `events: [5, 5]` with event 5 stored: one event is found for two locked ids, so the request is rejected as naming a missing event | compare with the number of distinct locked ids, so that the check fails only when an id names no event | medium, not executed | ViewsDiscovery.RepeatedLockedIdRejected | ViewsDiscovery.LockedMissingIff |
| tasks/apps/tree/serializers.py:618-630 | `removed` counts an open task five or more weeks old with no postponement and no progress, ignoring `canBePostponed` | an open task with `weeksInList` 5 and `canBePostponed` set: counted as removed, although the commit keeps it | count the tasks the commit's filter actually drops | low, not executed | Serializers.RemovedCountsKeptTask | Serializers.RemovedByCommitCountsDropped |
