# h5inspect core, modelled in Dafny

h5inspect is a terminal browser for HDF5 files. This project models three pieces of its sequential logic and proves what they promise.

- **The filterable tree** (`Tree`, tree.dfy).
  - A node is built with a cached count of its descendants.
  - Filtering by a query yields a pruned copy. A node survives when its own text matches or when one of its children survives. Surviving children keep their order, and a match records the matcher's character indices.
  - `contains_path` looks up an id path level by level.
  - The fuzzy matcher is a function parameter.
- **Number formatting** (`NumUtils`, num_utils.dfy).
  - Integers are printed with `_` between groups of three digits. The loop that does this is proved against a specification of the grouping.
  - Byte sizes are printed unscaled, or plain below 1024.
  - The `Summable` accumulator table and the `IsNan` table are modelled as tables over the numeric types.
- **The application state machine** (`App`, app.dfy). The class `App` holds these fields:
  - the search query as a gap buffer: the text before the cursor, and the text after it stored reversed;
  - the selection mode;
  - the object-info scroll position, saturating in `u16`;
  - the tree widget's selected path and set of open paths;
  - the per-dataset analysis cache: a map from object id to `Loading` or `Ready`, plus the log of keys whose background analysis was started.

  Its methods model key handling in each mode, the search-query edits and word jumps, re-filtering and selection reconciliation, opening every node, and the cache transitions.

The application calls four tree operations whose definitions are not part of this model: node lookup by path, the path to the first match, the direct-match flag and the HDF5 object of a node. It also calls the tree widget's own navigation. These are function values in `App.Collaborators`. Reconciliation is proved under one stated assumption, `App.FirstMatchSound`: the first-match path is empty or leads to a direct match.

The background analysis appears in two places. `RequestAnalysis` appends a key to the spawn log, which models starting its task. `CompleteAnalysis` is called with the task's outcome. The analysis itself, threads and locking are outside the model.

## Model

| member | source | states |
|---|---|---|
| Tree.New | src/tree.rs:16-30 | `new`: a node with the given id, text and children, no matching indices, and a cached count of children plus their cached counts |
| Tree.NewCountsDescendants | src/tree.rs:16-30 | `new` stores id, text and children as given, starts with no matching indices, and its cached count is the number of nodes below it (children plus each child's cached count) |
| Tree.CachedCountIsDescendants | src/tree.rs:16-21 | in a tree built by `new` every node's cached count is its node count minus one |
| Tree.SumCountsIsNodeCount | src/tree.rs:17-21 | children count plus the sum of their cached counts equals the number of nodes in the children's subtrees |
| Tree.Filter | src/tree.rs:66-85 | `filter`: a filtered copy when the node matches directly or some child survives, otherwise nothing |
| Tree.FilterChildren | src/tree.rs:70-74 | the `filter_map` over the children: the surviving filtered children, in order |
| Tree.FilterSurvives | src/tree.rs:66-85 | `filter` returns a node iff the node's own text matches or some child's `filter` returns a node |
| Tree.FilterFields | src/tree.rs:70-81 | a filtered node keeps id and text, its children are the surviving filtered children, its indices are the matcher's on a direct match and empty otherwise, and its cached count is consistent |
| Tree.FilterChildrenInOrder | src/tree.rs:70-74 | the surviving children are exactly the filtered copies of the children that survive, taken in their original order |
| Tree.SurvivorsMatchKept | src/tree.rs:70-74 | the i-th surviving child is the filtered copy of the child at the i-th surviving position |
| Tree.SurvivorsAscend | src/tree.rs:70-74 | the surviving positions are valid and strictly increasing |
| Tree.SurvivorsComplete | src/tree.rs:70-74 | every child whose filter returns a node is among the surviving positions |
| Tree.FilterIsPruned | src/tree.rs:66-85 | at every level of the filtered tree each node matches directly or has children, and records the matcher's indices |
| Tree.FilterShrinks | src/tree.rs:66-85 | the filtered tree has no more nodes than the source |
| Tree.FilterCountBound | src/tree.rs:66-85 | the cached descendant count of a filtered node is at most the source node's |
| Tree.FilterAcceptAll | src/tree.rs:66-85 | when the matcher accepts every text the filter returns a tree with the same ids, texts and shape |
| Tree.ContainsPath | src/tree.rs:87-95 | `contains_path`: the empty path is contained; otherwise some child has the head id and contains the tail |
| Tree.ContainsPathStep | src/tree.rs:87-95 | the empty path is always contained; a non-empty path is contained iff a child with the head's id contains the tail; the node's own id is never compared |
| Tree.AnyChildContainsIff | src/tree.rs:92-94 | the `any` over children holds iff some child has the head id and contains the tail |
| Tree.FilterContainsPath | src/tree.rs:66-95 | every path contained in the filtered tree is contained in the source tree |
| NumUtils.DigitChar | src/num_utils.rs:82 | each decimal digit value maps to a digit character |
| NumUtils.DigitValue | src/num_utils.rs:82 | a digit character has a value below ten |
| NumUtils.DecimalDigits | src/num_utils.rs:82 | `to_string` of a number is a non-empty digit string with no leading zero except for 0 itself |
| NumUtils.DecimalRoundTrip | src/num_utils.rs:82 | parsing the decimal digits of n gives back n |
| NumUtils.DigitCount | src/num_utils.rs:82-84 | n has at most k decimal digits iff n < 10^k |
| NumUtils.FormatIntegerWithUnderscore | src/num_utils.rs:81-94 | the loop's output is the grouped digit string of the number, with `_` before each position whose distance from the end is a multiple of three |
| NumUtils.SeparatedPrefixIsGroup | src/num_utils.rs:86-91 | the loop's separator rule applied to the whole digit string gives the grouping from the right |
| NumUtils.GroupRemoveUnderscores | src/num_utils.rs:81-94 | deleting every `_` from the formatted number gives its decimal digits |
| NumUtils.GroupLength | src/num_utils.rs:84-91 | a grouping of d digits has length d + (d-1)/3 |
| NumUtils.GroupAt | src/num_utils.rs:86-91 | position j of a grouping holds `_` exactly when j > 0 and its distance from the end is a multiple of four |
| NumUtils.GroupShape | src/num_utils.rs:84-91 | output length is d + (d-1)/3 for d digits, and `_` sits exactly at the positions a multiple of four from the end |
| NumUtils.GroupedDigitRuns | src/num_utils.rs:86-91 | no leading, trailing or doubled `_`; every group after the first has three digits; a grouping longer than three characters has a `_` at position 1, 2 or 3, so the first group has one to three digits |
| NumUtils.SmallNumbersUnseparated | src/num_utils.rs:86-91 | numbers below 1000 print with no `_` |
| NumUtils.LargeNumbersSeparated | src/num_utils.rs:86-91 | numbers from 1000 print with a `_` after a first group of one to three digits |
| NumUtils.FileSizeFmt | src/num_utils.rs:100-112 | `file_size_fmt`: plain digits and " B" below 1024, the metric-scaled branch from 1024 |
| NumUtils.FileSizeFmtNoScale | src/num_utils.rs:96-98 | the unscaled size is the formatted number followed by " B", and its digits read back as the size |
| NumUtils.FileSizeFmtNoScaleExample | src/num_utils.rs:125 | 123123123123 prints as "123_123_123_123 B" |
| NumUtils.FileSizeFmtSmall | src/num_utils.rs:100-103 | sizes below 1024, and only those, print plainly as their decimal digits followed by " B" |
| NumUtils.PlainAgreesBelowThousand | src/num_utils.rs:96-103 | below 1000 the plain and unscaled texts agree; from 1000 to 1023 they differ by the `_` |
| NumUtils.FileSizeFmtExamples | src/num_utils.rs:120-121 | 1 prints as "1 B" and 999 as "999 B" |
| NumUtils.AccumulatorType | src/num_utils.rs:15-31 | the `Summable` table: the accumulator type of each element type, row by row |
| NumUtils.AccumulatorWidens | src/num_utils.rs:15-31 | each integral element type's range lies within its accumulator type's range |
| NumUtils.SumBounds | src/num_utils.rs:6-13 | a sum of n values in [lo, hi] lies in [n·lo, n·hi] |
| NumUtils.AccumulatedSumFits | src/num_utils.rs:15-31 | summing up to 2^32 values of an integral element type stays within the accumulator's range |
| NumUtils.MyIsNan | src/num_utils.rs:37-55 | the `IsNan` table row by row: false for `bool` and each integer type, the float's own NaN flag for `f32` and `f64` |
| NumUtils.IntegralNeverNan | src/num_utils.rs:37-55 | `my_is_nan` is false for `bool` and every integer element type, whatever the float flag, checked against the table row by row |
| App.AsciiLengthIsCharCount | src/app.rs:481 | on ASCII text the byte length equals the character count |
| App.Utf8Length | src/app.rs:481 | the byte length of a text is at least its character count |
| App.Processed | src/app.rs:326-327 | a task's outcome as stored: the analysis result, or `Failed` with the error text |
| App.EntryText | src/app.rs:301-318 | the statistics shown for a cache entry: the animated loading text, the failure text, "Not available", or the statistics and histogram |
| App.RequestStartsOneTask | src/app.rs:318-321 | inserting `Loading` for an absent key adds exactly one active task |
| App.CompletionEndsOneTask | src/app.rs:326-335 | a task's completion removes exactly one active task |
| App.NoActiveTasks | src/app.rs:272-278 | no task is active exactly when every cached entry is ready |
| App.ActiveTasksBounded | src/app.rs:272-278 | the active tasks never outnumber the keys spawned |
| App.ReverseAppend | src/app.rs:533-538 | reversing a concatenation reverses and swaps the parts (Home and End move one half across) |
| App.ReverseReverse | src/app.rs:478-484 | reversing twice gives back the text, so the right half can be read back from the query |
| App.GapBufferDetermined | src/app.rs:478-484 | the two buffers are determined by the query text and the cursor |
| App.WordLeftStopUnique | src/app.rs:504-511 | the position a Ctrl+Left jump lands on is determined by the text and the starting cursor |
| App.WordRightStopUnique | src/app.rs:519-526 | the position a Ctrl+Right jump lands on is determined by the text and the starting cursor |
| App.SaturatingAdd | src/app.rs:560-568 | the scroll sum never decreases, never exceeds the true sum, and falls short only at `u16::MAX` |
| App.SaturatingSub | src/app.rs:557-571 | the scroll difference never increases, never goes below the true difference, and exceeds it only at 0 |
| App.ScrollAfter | src/app.rs:555-578 | the object-info scroll position after a key: saturating steps of 1 and 50, 0 on Home, `u16::MAX` on End, unchanged otherwise |
| App.ModeAfterKey | src/app.rs:702-749 | the mode machine of `handle_keypress` and the three per-mode handlers |
| App.LogsAfterKey | src/app.rs:454-456 | `L` toggles the log panel and every other key leaves it |
| App.TreeStateAfterTreeKey | src/app.rs:385-476 | the tree widget's state after a tree-browsing key: `f` opens every node, navigation keys go to the widget only when a filtered tree exists |
| App.ModeTransitions | src/app.rs:702-749 | Ctrl+C counts as a stopping key in every mode (the stop itself is stated by `App.App.HandleKeypress`'s `running` ensures); help leaves to tree browsing exactly on Esc, Enter, `q`, `?`; search editing leaves exactly on Esc and Enter; `/` enters search editing from tree browsing and object info |
| App.AllIdPathsAreContainedPaths | src/app.rs:642-654 | the paths `open_all_tree_nodes` opens are exactly the root id followed by a path the tree contains |
| App.PendingChildItems | src/app.rs:647-651 | pushing a node's children onto the worklist adds exactly the paths below that node, and their node count |
| App.Reconcile | src/app.rs:602-624 | `update_selected_tree_item`: keep a selection that still names a direct match, otherwise select the first match and open its ancestors; no filtered tree means no selection |
| App.ReconcileOutcome | src/app.rs:602-624 | a standing selection is kept unchanged; otherwise the selection becomes the first-match path and exactly its proper prefixes are opened in addition; without a filtered tree the selection becomes empty; afterwards the selection is empty or a direct match |
| App.App.constructor | src/app.rs:198-235 | the application starts running with no tree, an empty query, the help screen on first run and tree browsing otherwise, logs shown in debug builds, and an empty cache |
| App.App.SearchQueryAndCursor | src/app.rs:478-484 | the text is the left half followed by the reversed right half, the split at the cursor gives the halves back, and the cursor is the left half's byte length, equal to its length for ASCII |
| App.App.InsertChar | src/app.rs:500-502 | the character is inserted at the cursor and the cursor advances by one |
| App.App.CursorLeft | src/app.rs:512-516 | the text is unchanged and the cursor moves one left, staying at 0 at the start |
| App.App.CursorRight | src/app.rs:527-531 | the text is unchanged and the cursor moves one right, staying at the end at the end |
| App.App.WordLeft | src/app.rs:504-511 | the text is unchanged; the cursor moves left onto the nearest whitespace before it, or to 0, passing no whitespace on the way (`App.WordLeftStop`, a unique position) |
| App.App.WordRight | src/app.rs:519-526 | the text is unchanged; the cursor moves right just past the nearest whitespace after it, or to the end, passing no whitespace on the way (`App.WordRightStop`, a unique position) |
| App.App.CursorHome | src/app.rs:533-535 | the text is unchanged and the cursor is 0 |
| App.App.CursorEnd | src/app.rs:536-538 | the text is unchanged and the cursor is at the end |
| App.App.DeleteBeforeCursor | src/app.rs:539-541 | the character before the cursor is removed and the cursor steps back; nothing happens at the start |
| App.App.DeleteAfterCursor | src/app.rs:542-544 | the character after the cursor is removed and the cursor stays; nothing happens at the end |
| App.App.OnKeypressSearchMode | src/app.rs:496-553 | each query key makes its own edit (insert at the cursor, step or word jump left and right, Home, End, Backspace, Delete), leaves mode and logs alone, re-filters the tree for the new query and reconciles the selection; every other key leaves query and cursor alone and has exactly its tree-browsing effect |
| App.App.EditSearchQuery | src/app.rs:498-544 | the per-key query edit of `on_keypress_search_mode`, and whether the key was a query key |
| App.App.UpdateFilteredTree | src/app.rs:589-600 | the filtered tree is the tree filtered by the current query, then the selection is reconciled; without a tree there is no filtered tree |
| App.App.UpdateSelectedTreeItem | src/app.rs:602-624 | the widget state becomes the reconciled state |
| App.App.OpenAllTreeNodes | src/app.rs:642-654 | exactly the root-to-node id path of every node is opened in addition, the selection is unchanged, and the worklist terminates |
| App.App.OnKeypressTreeMode | src/app.rs:385-476 | the mode follows `App.TreeKeyMode`, `L` toggles logs, `f` opens every node, navigation keys go to the widget only when a filtered tree exists, and the query and filtered tree are untouched |
| App.App.OnKeypressObjectInfoMode | src/app.rs:555-587 | Up/Down/PageUp/PageDown scroll with saturation, Home sets 0, End sets `u16::MAX`, Left/`h` returns to tree browsing, `?` opens help, `L` toggles logs |
| App.App.HandleKeypress | src/app.rs:702-749 | only presses act; the new mode and running flag follow the mode machine; tree browsing and search editing have exactly their handlers' effects (Ctrl+C while editing also inserts `c`); object info changes scroll, mode and logs only; the help screen ignores every other key; `q`, `/`, Esc and Enter change only the mode and the running flag; the query changes only while editing it |
| App.App.OnTreeLoaded | src/app.rs:691-696 | the loaded tree is stored, every node is opened, and the tree is filtered for the current query |
| App.App.OnAnimationTick | src/app.rs:681-685 | the animation counter wraps around at 256 |
| App.App.RequestAnalysis | src/app.rs:290-338 | an absent key gets `Loading` and is spawned exactly once; a present key spawns nothing, changes nothing and shows its entry; the cache invariant is kept |
| App.App.GetTextFor | src/app.rs:280-359 | text only for a path naming a node with an HDF5 object; groups get their text; datasets get their statistics with the cache transition of a request |
| App.App.CompleteAnalysis | src/app.rs:323-335 | a finished task replaces its `Loading` entry by `Ready`, with errors stored as `Failed` |
| App.App.NumActiveDataAnalysisTasks | src/app.rs:272-278 | the number of `Loading` entries, at most the number of spawned tasks, zero exactly when every entry is ready |

## Left out

- The fuzzy matching algorithm is a function parameter of the filter (`Tree.Matcher`). Which texts match and at which indices is not modelled.
- `get_selected_node`, `path_to_first_match`, `is_direct_match` and a node's HDF5 object are called by the application but are not defined in src/tree.rs. They are function values in `App.Collaborators`, and reconciliation's result is proved under `App.FirstMatchSound`.
- The tree widget's internals are outside the model: `key_left`, `key_up`, `key_down`, `select_first`, `select_last`, `toggle_selected`, `select_relative`, `scroll_selected_into_view` and rendering offsets. Navigation is the function value `navigate`. `select` and `open` are modelled as setting the selected path and adding to the set of open paths. Scrolling the selection into view changes only the rendering offset, so it has no counterpart.
- The scaled branch of `file_size_fmt` (sizes of 1024 and more) uses decimal scaling and rounding from a formatting library. `NumUtils.FileSizeFmt` only marks such a size as scaled, and the "1.024 kB"-style test expectations are not modelled.
- `MyToPrimitive` and the float cases of `IsNan` are floating-point behaviour. A float's NaN flag is an input to `NumUtils.MyIsNan`.
- HDF5 access is outside the model: `tree_from_h5`, and the dataset and group descriptions from `get_text_for_dataset` and `get_text_for_group`. A dataset's text holds only its statistics part. A group's text is a constant marker.
- Threads and locking are outside the model: `spawn_blocking`, the mutex and the `select!` loop of `run`. A task's start is an entry in the spawn log, and its completion is the call `App.App.CompleteAnalysis`. The analysis function is its outcome parameter.
- App.App.CompleteAnalysis: requires the key to be `Loading`, because each key's single task is the only writer of `Ready`. An overwrite by a second task for the same key cannot happen, so it is not modelled.
- The run loop's reset of the scroll position when the selection changed between renders is not modelled, because it depends on the rendered state.
- Mouse handling (`on_click`, `handle_mouse`) is rectangle hit-testing against the last rendered areas, so it is not modelled.
- `App::new` creating the configuration directory is a filesystem side effect. Whether the directory existed, and whether debug assertions are on, are constructor parameters.
- Platform integer widths are not modelled for the tree's `usize` descendant count; counts are unbounded naturals.
- The `format_integer_with_underscore` in src/app.rs:70-83 is identical to the one in src/num_utils.rs:81-94. `NumUtils.FormatIntegerWithUnderscore` models both.
- App.App.SearchQueryAndCursor: requires the text before the cursor to fit in 65535 UTF-8 bytes, because `try_into().unwrap()` at src/app.rs:483 panics beyond that; the panic is not modelled.
- App.App.UpdateFilteredTree: builds the query without the cursor conversion, so the panic at src/app.rs:483 on a text before the cursor longer than 65535 UTF-8 bytes is not modelled. The same holds for App.App.OnKeypressSearchMode, App.App.HandleKeypress and App.App.OnTreeLoaded, which reach it.
- Rust's `char::is_whitespace` is modelled by the Unicode White_Space code points (`App.IsWhitespace`).
