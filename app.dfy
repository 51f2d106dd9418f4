/** The sequential state machine of `App` in src/app.rs: the search-query gap
    buffer, the per-dataset analysis cache, selection reconciliation after a
    re-filter, opening every tree node, key handling per selection mode and
    the object-info scroll position. Threads, rendering and file access are
    outside the model; what they contribute arrives as parameters. */
module App {
  import opened Wrappers
  import opened Tree

  /** HDF5 object identifier (`hid_t`), the id type of the application's tree. */
  type NodeId = int

  newtype u8 = x: int | 0 <= x < 0x100
  newtype u16 = x: int | 0 <= x < 0x1_0000

  const U16_MAX: u16 := 0xFFFF

  // ---------------------------------------------------------------------
  // Input events
  // ---------------------------------------------------------------------

  datatype SelectionMode = TreeBrowsing | SearchQueryEditing | ObjectInfoInspecting | HelpScreen

  datatype KeyCode =
    | Char(c: char)
    | Left | Right | Up | Down | Home | End | PageUp | PageDown
    | Enter | Esc | Backspace | Delete | Tab | BackTab
    | OtherKey

  datatype Modifier = Shift | Control | Alt | Super | Hyper | Meta

  datatype KeyEventKind = Press | Repeat | Release

  datatype KeyEvent = KeyEvent(code: KeyCode, modifiers: set<Modifier>, kind: KeyEventKind)

  /** Ctrl+C: the code `c` with exactly the Control modifier. */
  predicate IsCtrlC(key: KeyEvent) {
    key.code == Char('c') && key.modifiers == {Control}
  }

  /** Rust's `char::is_whitespace` (the Unicode White_Space property). */
  predicate IsWhitespace(c: char) {
    var n := c as int;
    || n == 0x20 || 0x09 <= n <= 0x0D || n == 0x85 || n == 0xA0 || n == 0x1680
    || 0x2000 <= n <= 0x200A || n == 0x2028 || n == 0x2029 || n == 0x202F
    || n == 0x205F || n == 0x3000
  }

  /** Number of bytes of the UTF-8 encoding of `c`. */
  function Utf8Width(c: char): nat {
    if c as int < 0x80 then 1
    else if c as int < 0x800 then 2
    else if c as int < 0x1_0000 then 3
    else 4
  }

  /** Rust's `String::len`: the UTF-8 byte length. */
  function Utf8Length(s: string): (n: nat)
    ensures n >= |s|
  {
    if s == [] then 0 else Utf8Length(s[..|s| - 1]) + Utf8Width(s[|s| - 1])
  }

  predicate IsAscii(s: string) {
    forall i :: 0 <= i < |s| ==> s[i] as int < 0x80
  }

  /** On ASCII text the byte length is the character count. */
  lemma {:induction false} AsciiLengthIsCharCount(s: string)
    requires IsAscii(s)
    ensures Utf8Length(s) == |s|
  {
    if s != [] {
      AsciiLengthIsCharCount(s[..|s| - 1]);
    }
  }

  // ---------------------------------------------------------------------
  // Collaborators outside the model
  // ---------------------------------------------------------------------

  /** The tree widget's state as far as the application reads and writes it:
      the selected id path and the set of open id paths. */
  datatype TreeState = TreeState(selected: seq<NodeId>, openPaths: set<seq<NodeId>>)

  /** Navigation requests the application forwards to the tree widget;
      `SelectRelative(d)` selects the visible row `d` rows away from the
      selected one (saturating), or the first row when none is selected. */
  datatype WidgetCommand =
    | KeyLeft | KeyUp | KeyDown | SelectFirst | SelectLast | ToggleSelected
    | SelectRelative(delta: int)

  /** The kind of HDF5 object a tree node stands for. */
  datatype Hdf5Object = Group | Dataset

  /** Operations the application calls but whose definitions are not part of
      this model: node lookup by selected path, the first direct match of a
      filtered tree, the direct-match flag, the HDF5 object of a node, and the
      tree widget's own navigation. */
  datatype Collaborators = Collaborators(
    getSelectedNode: (TreeNode<NodeId>, seq<NodeId>) -> Option<TreeNode<NodeId>>,
    pathToFirstMatch: TreeNode<NodeId> -> seq<NodeId>,
    isDirectMatch: TreeNode<NodeId> -> bool,
    hdf5Object: TreeNode<NodeId> -> Option<Hdf5Object>,
    navigate: (TreeState, WidgetCommand) -> TreeState)

  /** What reconciliation relies on: the first-match path of a filtered tree is
      empty or leads to a direct match. */
  ghost predicate FirstMatchSound(ext: Collaborators, ft: TreeNode<NodeId>) {
    var p := ext.pathToFirstMatch(ft);
    p == [] || (ext.getSelectedNode(ft, p).Some? && ext.isDirectMatch(ext.getSelectedNode(ft, p).value))
  }

  // ---------------------------------------------------------------------
  // Analysis results
  // ---------------------------------------------------------------------

  datatype HistogramData = HistogramData(bins: seq<(real, nat)>)

  datatype AnalysisResult =
    | Stats(pairs: seq<(string, string)>, histogram: HistogramData)
    | NotAvailable
    | Failed(message: string)

  /** An entry of the analysis map. */
  datatype AsyncDataAnalysis = Loading | Ready(result: AnalysisResult)

  /** What the dataset analysis returns: a result, or an error message. */
  datatype AnalysisOutcome = Computed(result: AnalysisResult) | Error(message: string)

  /** The background task's `unwrap_or_else`: errors are stored as `Failed`. */
  function Processed(outcome: AnalysisOutcome): AnalysisResult {
    match outcome
    case Computed(r) => r
    case Error(s) => Failed(s)
  }

  /** The text shown for an object: for a dataset the statistics lines and the
      histogram (the static dataset description read from the file is not
      modelled), for a group its description (likewise not modelled). */
  datatype ObjectText = DatasetText(stats: seq<(string, string)>, histogram: Option<HistogramData>) | GroupText

  function Dots(n: nat): string {
    if n == 0 then "" else Dots(n - 1) + "."
  }

  /** "Loading" followed by zero to three dots, following the animation. */
  function LoadingText(animationState: u8): seq<(string, string)> {
    [("Stats", "Loading" + Dots(animationState as nat % 4))]
  }

  /** The statistics lines and histogram shown for a cached entry. */
  function EntryText(entry: AsyncDataAnalysis, animationState: u8): (seq<(string, string)>, Option<HistogramData>) {
    match entry
    case Loading => (LoadingText(animationState), None)
    case Ready(Failed(s)) => ([("Stats", "Failed! (" + s + ")")], None)
    case Ready(NotAvailable) => ([("Stats", "Not available")], None)
    case Ready(Stats(stats, h)) => (stats, Some(h))
  }

  /** Keys whose analysis is still running. */
  function LoadingKeys(m: map<NodeId, AsyncDataAnalysis>): set<NodeId> {
    set k | k in m && m[k].Loading?
  }

  /** Requesting an absent key starts one more active task. */
  lemma RequestStartsOneTask(m: map<NodeId, AsyncDataAnalysis>, k: NodeId)
    requires k !in m
    ensures |LoadingKeys(m[k := Loading])| == |LoadingKeys(m)| + 1
  {
    assert LoadingKeys(m[k := Loading]) == LoadingKeys(m) + {k};
  }

  /** A completing task leaves the active tasks. */
  lemma CompletionEndsOneTask(m: map<NodeId, AsyncDataAnalysis>, k: NodeId, r: AnalysisResult)
    requires k in m && m[k].Loading?
    ensures |LoadingKeys(m[k := Ready(r)])| == |LoadingKeys(m)| - 1
  {
    assert LoadingKeys(m[k := Ready(r)]) == LoadingKeys(m) - {k};
  }

  /** The elements of a sequence. */
  function Elements(s: seq<NodeId>): set<NodeId> {
    set x | x in s
  }

  lemma {:induction false} ElementsSize(s: seq<NodeId>)
    ensures |Elements(s)| <= |s|
  {
    if s != [] {
      ElementsSize(s[..|s| - 1]);
      assert Elements(s) == Elements(s[..|s| - 1]) + {s[|s| - 1]};
    }
  }

  lemma {:induction false} SubsetSize(a: set<NodeId>, b: set<NodeId>)
    requires a <= b
    ensures |a| <= |b|
  {
    assert b == a + (b - a);
  }

  lemma NonEmptyHasMember(s: set<NodeId>)
    requires |s| > 0
    ensures exists x :: x in s
  {
    if forall x :: x !in s {
      assert false;
    }
  }

  /** No task is active exactly when every entry is ready. */
  lemma NoActiveTasks(m: map<NodeId, AsyncDataAnalysis>)
    ensures |LoadingKeys(m)| == 0 <==> forall k :: k in m ==> m[k].Ready?
  {
    if |LoadingKeys(m)| > 0 {
      NonEmptyHasMember(LoadingKeys(m));
      var k :| k in LoadingKeys(m);
      assert !m[k].Ready?;
    } else {
      forall k | k in m
        ensures m[k].Ready?
      {
        assert k !in LoadingKeys(m);
      }
    }
  }

  /** When only spawned keys have entries, the active tasks are no more than
      the tasks spawned. */
  lemma ActiveTasksBounded(m: map<NodeId, AsyncDataAnalysis>, spawned: seq<NodeId>)
    requires forall k :: k in m ==> k in spawned
    ensures |LoadingKeys(m)| <= |spawned|
  {
    forall k | k in LoadingKeys(m)
      ensures k in Elements(spawned)
    {
    }
    SubsetSize(LoadingKeys(m), Elements(spawned));
    ElementsSize(spawned);
  }

  // ---------------------------------------------------------------------
  // Reversal, for the right half of the gap buffer
  // ---------------------------------------------------------------------

  function Reverse<T>(s: seq<T>): (r: seq<T>)
    ensures |r| == |s|
  {
    if s == [] then [] else [s[|s| - 1]] + Reverse(s[..|s| - 1])
  }

  lemma {:induction false} ReverseIndex<T>(s: seq<T>, i: nat)
    requires i < |s|
    ensures Reverse(s)[i] == s[|s| - 1 - i]
  {
    if i > 0 {
      ReverseIndex(s[..|s| - 1], i - 1);
    }
  }

  lemma ReversePush<T>(s: seq<T>, x: T)
    ensures Reverse(s + [x]) == [x] + Reverse(s)
  {
  }

  lemma ReverseAppend<T>(a: seq<T>, b: seq<T>)
    ensures Reverse(a + b) == Reverse(b) + Reverse(a)
  {
    forall i | 0 <= i < |a| + |b|
      ensures Reverse(a + b)[i] == (Reverse(b) + Reverse(a))[i]
    {
      ReverseIndex(a + b, i);
      if i < |b| {
        ReverseIndex(b, i);
      } else {
        ReverseIndex(a, i - |b|);
      }
    }
  }

  lemma ReverseReverse<T>(s: seq<T>)
    ensures Reverse(Reverse(s)) == s
  {
    forall i | 0 <= i < |s|
      ensures Reverse(Reverse(s))[i] == s[i]
    {
      ReverseIndex(Reverse(s), i);
      ReverseIndex(s, |s| - 1 - i);
    }
  }

  /** A gap buffer is determined by its text and its cursor. */
  lemma GapBufferDetermined(left: string, right: string, left': string, right': string)
    requires left + Reverse(right) == left' + Reverse(right')
    requires |left| == |left'|
    ensures left == left' && right == right'
  {
    assert left == (left + Reverse(right))[..|left|];
    assert left' == (left' + Reverse(right'))[..|left|];
    assert Reverse(right) == (left + Reverse(right))[|left|..];
    assert Reverse(right') == (left' + Reverse(right'))[|left|..];
    ReverseReverse(right);
    ReverseReverse(right');
  }

  // ---------------------------------------------------------------------
  // Saturating scroll arithmetic
  // ---------------------------------------------------------------------

  /** `u16::saturating_add`: the sum, or the maximum when it would overflow. */
  function SaturatingAdd(x: u16, d: u16): (r: u16)
    ensures x <= r && r as int <= x as int + d as int
    ensures r as int < x as int + d as int ==> r == U16_MAX
  {
    if x as int + d as int > U16_MAX as int then U16_MAX else x + d
  }

  /** `u16::saturating_sub`: the difference, or 0 when it would underflow. */
  function SaturatingSub(x: u16, d: u16): (r: u16)
    ensures r <= x && x as int - d as int <= r as int
    ensures x as int - d as int < r as int ==> r == 0
  {
    if x < d then 0 else x - d
  }

  /** Scroll position after a key in object-info mode. */
  function ScrollAfter(scroll: u16, code: KeyCode): u16 {
    match code
    case Up | Char('k') => SaturatingSub(scroll, 1)
    case Down | Char('j') => SaturatingAdd(scroll, 1)
    case PageDown => SaturatingAdd(scroll, 50)
    case PageUp => SaturatingSub(scroll, 50)
    case End => U16_MAX
    case Home => 0
    case _ => scroll
  }

  // ---------------------------------------------------------------------
  // Mode transitions
  // ---------------------------------------------------------------------

  /** Mode change made by the tree-browsing key handler. */
  function TreeKeyMode(mode: SelectionMode, code: KeyCode): SelectionMode {
    match code
    case Right | Char('l') => ObjectInfoInspecting
    case Char('?') => HelpScreen
    case _ => mode
  }

  /** Mode change made by the object-info key handler. */
  function ObjectInfoKeyMode(mode: SelectionMode, code: KeyCode): SelectionMode {
    match code
    case Left | Char('h') => TreeBrowsing
    case Char('?') => HelpScreen
    case _ => mode
  }

  /** Keys the search-query editor handles itself. */
  predicate IsQueryKey(code: KeyCode) {
    code.Char? || code in {Left, Right, Home, End, Backspace, Delete}
  }

  /** The mode after a pressed key. */
  function ModeAfterKey(mode: SelectionMode, code: KeyCode): SelectionMode {
    match mode
    case TreeBrowsing =>
      if code == Char('q') then mode
      else if code == Char('/') then SearchQueryEditing
      else TreeKeyMode(mode, code)
    case SearchQueryEditing =>
      if code == Esc || code == Enter then TreeBrowsing
      else if IsQueryKey(code) then mode
      else TreeKeyMode(mode, code)
    case ObjectInfoInspecting =>
      if code == Char('q') then mode
      else if code == Char('/') then SearchQueryEditing
      else ObjectInfoKeyMode(mode, code)
    case HelpScreen =>
      if code in {Esc, Enter, Char('q'), Char('?')} then TreeBrowsing else mode
  }

  /** Whether a pressed key ends the application: Ctrl+C in every mode, `q`
      while browsing the tree or inspecting an object. */
  predicate StopsRunning(mode: SelectionMode, key: KeyEvent) {
    || IsCtrlC(key)
    || (key.code == Char('q') && (mode == TreeBrowsing || mode == ObjectInfoInspecting))
  }

  /** The transitions of the selection-mode machine. */
  lemma ModeTransitions(mode: SelectionMode, key: KeyEvent)
    ensures IsCtrlC(key) ==> StopsRunning(mode, key)
    ensures mode == HelpScreen ==>
      (ModeAfterKey(mode, key.code) == TreeBrowsing <==> key.code in {Esc, Enter, Char('q'), Char('?')})
      && (ModeAfterKey(mode, key.code) == TreeBrowsing || ModeAfterKey(mode, key.code) == HelpScreen)
    ensures mode == SearchQueryEditing ==>
      (ModeAfterKey(mode, key.code) == TreeBrowsing <==> key.code in {Esc, Enter})
      && (ModeAfterKey(mode, key.code) == TreeBrowsing || ModeAfterKey(mode, key.code) == SearchQueryEditing)
    ensures key.code == Char('/') && (mode == TreeBrowsing || mode == ObjectInfoInspecting) ==>
      ModeAfterKey(mode, key.code) == SearchQueryEditing
  {
  }

  /** The widget command a tree-browsing key sends, if any. */
  function WidgetCommandFor(code: KeyCode): Option<WidgetCommand> {
    match code
    case Left | Char('h') => Some(KeyLeft)
    case Up | Char('k') => Some(KeyUp)
    case Down | Char('j') => Some(KeyDown)
    case Home | Char('g') => Some(SelectFirst)
    case End | Char('G') => Some(SelectLast)
    case Enter | Char('c') => Some(ToggleSelected)
    case Tab => Some(SelectRelative(1))
    case BackTab => Some(SelectRelative(-1))
    case PageDown => Some(SelectRelative(50))
    case PageUp => Some(SelectRelative(-50))
    case _ => None
  }

  /** Where Ctrl+Left moves the cursor from `from` in `text`: onto the
      nearest whitespace before `from`, or to 0, passing no whitespace. */
  predicate WordLeftStop(text: string, from: nat, to: nat)
    requires from <= |text|
  {
    && to <= from
    && (from > 0 ==> to < from)
    && (forall j :: to < j < from ==> !IsWhitespace(text[j]))
    && (to > 0 ==> IsWhitespace(text[to]))
  }

  /** Where Ctrl+Right moves the cursor from `from` in `text`: just past the
      nearest whitespace at or after `from`, or to the end, passing no
      whitespace before it. */
  predicate WordRightStop(text: string, from: nat, to: nat)
    requires from <= |text|
  {
    && from <= to <= |text|
    && (from < |text| ==> from < to)
    && (forall j :: from <= j < to - 1 ==> !IsWhitespace(text[j]))
    && (to < |text| ==> IsWhitespace(text[to - 1]))
  }

  /** The Ctrl+Left landing position is unique. */
  lemma WordLeftStopUnique(text: string, from: nat, a: nat, b: nat)
    requires from <= |text|
    requires WordLeftStop(text, from, a) && WordLeftStop(text, from, b)
    ensures a == b
  {
  }

  /** The Ctrl+Right landing position is unique. */
  lemma WordRightStopUnique(text: string, from: nat, a: nat, b: nat)
    requires from <= |text|
    requires WordRightStop(text, from, a) && WordRightStop(text, from, b)
    ensures a == b
  {
  }

  /** The log-panel flag after a key of the tree or object-info handler. */
  function LogsAfterKey(showLogs: bool, code: KeyCode): bool {
    if code == Char('L') then !showLogs else showLogs
  }

  /** The widget state after a key of the tree-browsing handler: `f` opens
      every node, a navigation key goes to the widget when a filtered tree
      exists, and any other key leaves it alone. */
  function TreeStateAfterTreeKey(ext: Collaborators, tree: Option<TreeNode<NodeId>>,
                                 filtered: Option<TreeNode<NodeId>>, ts: TreeState, code: KeyCode): TreeState
  {
    if code == Char('f') then
      ts.(openPaths := ts.openPaths + (if tree.Some? then AllIdPaths(tree.value) else {}))
    else if filtered.Some? && WidgetCommandFor(code).Some? then
      ext.navigate(ts, WidgetCommandFor(code).value)
    else ts
  }

  // ---------------------------------------------------------------------
  // Open paths of a tree
  // ---------------------------------------------------------------------

  /** The id paths of `t` and of all its descendants, where `path` is the id
      path of `t` itself. */
  function PathsFrom(t: TreeNode<NodeId>, path: seq<NodeId>): set<seq<NodeId>>
    decreases t
  {
    {path} + PathsBelow(t.children, path)
  }

  /** The id paths of the trees `cs`, children of the node at `prefix`. */
  function PathsBelow(cs: seq<TreeNode<NodeId>>, prefix: seq<NodeId>): set<seq<NodeId>>
    decreases cs
  {
    if cs == [] then {} else PathsFrom(cs[0], prefix + [cs[0].id]) + PathsBelow(cs[1..], prefix)
  }

  /** The root-to-node id path of every node of `t`. */
  function AllIdPaths(t: TreeNode<NodeId>): set<seq<NodeId>> {
    PathsFrom(t, [t.id])
  }

  /** The root-to-node id paths are exactly the root id followed by a path
      that `contains_path` accepts. */
  lemma AllIdPathsAreContainedPaths(t: TreeNode<NodeId>, p: seq<NodeId>)
    ensures p in AllIdPaths(t) <==> p != [] && p[0] == t.id && ContainsPath(t, p[1..])
  {
    PathsFromSpec(t, [t.id], p);
    if p != [] {
      assert p[..1] == [p[0]];
    }
  }

  lemma {:induction false} PathsFromSpec(t: TreeNode<NodeId>, path: seq<NodeId>, p: seq<NodeId>)
    ensures p in PathsFrom(t, path) <==>
      |path| <= |p| && p[..|path|] == path && ContainsPath(t, p[|path|..])
    decreases t
  {
    PathsBelowSpec(t.children, path, p);
    if |path| <= |p| && p[..|path|] == path {
      ContainsPathStep(t, p[|path|..], t.id);
      if p == path {
        assert p[|path|..] == [];
      }
    }
  }

  lemma {:induction false} PathsBelowSpec(cs: seq<TreeNode<NodeId>>, prefix: seq<NodeId>, p: seq<NodeId>)
    ensures p in PathsBelow(cs, prefix) <==>
      && |prefix| < |p| && p[..|prefix|] == prefix
      && exists i :: 0 <= i < |cs| && cs[i].id == p[|prefix|] && ContainsPath(cs[i], p[|prefix| + 1..])
    decreases cs
  {
    if cs != [] {
      var n := |prefix|;
      PathsFromSpec(cs[0], prefix + [cs[0].id], p);
      PathsBelowSpec(cs[1..], prefix, p);
      if n < |p| && p[..n] == prefix {
        assert p[..n + 1] == prefix + [p[n]];
        assert (p[..n + 1] == prefix + [cs[0].id]) <==> cs[0].id == p[n];
        assert p[n..][1..] == p[n + 1..];
        forall i | 1 <= i < |cs| ensures cs[i] == cs[1..][i - 1] { }
      } else {
        if |prefix| + 1 <= |p| {
          assert p[..n + 1][..n] == p[..n];
        }
      }
    }
  }

  /** The worklist of `open_all_tree_nodes`: nodes with their id paths. */
  type WorkItem = (TreeNode<NodeId>, seq<NodeId>)

  /** The children of a node, each paired with its id path. */
  function ChildItems(cs: seq<TreeNode<NodeId>>, path: seq<NodeId>): seq<WorkItem> {
    if cs == [] then [] else [(cs[0], path + [cs[0].id])] + ChildItems(cs[1..], path)
  }

  /** The paths still to be opened for a worklist. */
  function Pending(ws: seq<WorkItem>): set<seq<NodeId>> {
    if ws == [] then {} else Pending(ws[..|ws| - 1]) + PathsFrom(ws[|ws| - 1].0, ws[|ws| - 1].1)
  }

  /** The number of nodes still to be visited for a worklist. */
  function PendingNodes(ws: seq<WorkItem>): nat {
    if ws == [] then 0 else PendingNodes(ws[..|ws| - 1]) + NodeCount(ws[|ws| - 1].0)
  }

  lemma {:induction false} PendingAppend(a: seq<WorkItem>, b: seq<WorkItem>)
    ensures Pending(a + b) == Pending(a) + Pending(b)
    ensures PendingNodes(a + b) == PendingNodes(a) + PendingNodes(b)
    decreases |b|
  {
    if b == [] {
      assert a + b == a;
    } else {
      PendingAppend(a, b[..|b| - 1]);
      assert (a + b)[..|a + b| - 1] == a + b[..|b| - 1];
    }
  }

  lemma {:induction false} PendingChildItems(cs: seq<TreeNode<NodeId>>, path: seq<NodeId>)
    ensures Pending(ChildItems(cs, path)) == PathsBelow(cs, path)
    ensures PendingNodes(ChildItems(cs, path)) == NodeCountSeq(cs)
    decreases cs
  {
    if cs != [] {
      var head: seq<WorkItem> := [(cs[0], path + [cs[0].id])];
      PendingChildItems(cs[1..], path);
      PendingAppend(head, ChildItems(cs[1..], path));
      assert head[..0] == [];
    }
  }

  // ---------------------------------------------------------------------
  // Reconciliation
  // ---------------------------------------------------------------------

  /** The current selection is kept: it is non-empty, resolves in the filtered
      tree and resolves to a direct match. */
  predicate SelectionStands(ext: Collaborators, ft: TreeNode<NodeId>, selected: seq<NodeId>) {
    && selected != []
    && ext.getSelectedNode(ft, selected).Some?
    && ext.isDirectMatch(ext.getSelectedNode(ft, selected).value)
  }

  /** The proper prefixes `p[0..i]`, `i < |p|`. */
  function ProperPrefixes(p: seq<NodeId>): set<seq<NodeId>> {
    set i | 0 <= i < |p| :: p[..i]
  }

  /** `update_selected_tree_item` as a function of the filtered tree and the
      widget state. */
  function Reconcile(ext: Collaborators, filtered: Option<TreeNode<NodeId>>, ts: TreeState): TreeState {
    match filtered
    case None => ts.(selected := [])
    case Some(ft) =>
      if SelectionStands(ext, ft, ts.selected) then ts
      else
        var firstMatch := ext.pathToFirstMatch(ft);
        TreeState(firstMatch, ts.openPaths + ProperPrefixes(firstMatch))
  }

  /** After reconciliation the selection is empty or a direct match in the
      filtered tree; a standing selection is kept; otherwise the first match
      is selected and exactly its ancestors are opened in addition. */
  lemma ReconcileOutcome(ext: Collaborators, filtered: Option<TreeNode<NodeId>>, ts: TreeState)
    requires filtered.Some? ==> FirstMatchSound(ext, filtered.value)
    ensures var r := Reconcile(ext, filtered, ts);
      && (r.selected == [] || SelectionStands(ext, filtered.value, r.selected))
      && (filtered.Some? && SelectionStands(ext, filtered.value, ts.selected) ==> r == ts)
      && (filtered.None? ==> r.selected == [] && r.openPaths == ts.openPaths)
      && ts.openPaths <= r.openPaths
      && (forall q :: q in r.openPaths && q !in ts.openPaths ==> |q| < |r.selected| && q == r.selected[..|q|])
      && (r != ts ==> forall i :: 0 <= i < |r.selected| ==> r.selected[..i] in r.openPaths)
      && (filtered.Some? && !SelectionStands(ext, filtered.value, ts.selected) ==>
            && r.selected == ext.pathToFirstMatch(filtered.value)
            && r.openPaths == ts.openPaths + ProperPrefixes(r.selected))
  {
  }

  // ---------------------------------------------------------------------
  // The application state
  // ---------------------------------------------------------------------

  class App {
    var running: bool
    var tree: Option<TreeNode<NodeId>>
    var filteredTree: Option<TreeNode<NodeId>>
    /** The query text before the cursor. */
    var searchQueryLeft: string
    /** The query text after the cursor, stored reversed. */
    var searchQueryRight: string
    var mode: SelectionMode
    var showLogs: bool
    var objectInfoScrollState: u16
    var animationState: u8
    var treeState: TreeState
    /** The analysis state of every dataset requested so far. */
    var nodeIdToAnalysis: map<NodeId, AsyncDataAnalysis>
    /** Every key for which a background analysis task was spawned, in order. */
    var spawned: seq<NodeId>
    /** The fuzzy matcher. */
    const ismatch: Matcher
    const ext: Collaborators

    /** Each key is spawned at most once, and exactly the spawned keys have an
        entry in the analysis map. */
    ghost predicate Valid()
      reads this`nodeIdToAnalysis, this`spawned
    {
      && (forall k :: k in nodeIdToAnalysis <==> k in spawned)
      && (forall i, j :: 0 <= i < j < |spawned| ==> spawned[i] != spawned[j])
    }

    /** `App::new`; `configDirExisted` says whether the configuration
        directory marking an earlier run was present, `debugBuild` whether
        debug assertions are on. */
    constructor (configDirExisted: bool, debugBuild: bool, ismatch: Matcher, ext: Collaborators)
      ensures Valid()
      ensures running && tree.None? && filteredTree.None?
      ensures SearchQuery() == [] && Cursor() == 0
      ensures mode == (if configDirExisted then TreeBrowsing else HelpScreen)
      ensures showLogs == debugBuild && objectInfoScrollState == 0 && animationState == 0
      ensures treeState == TreeState([], {}) && nodeIdToAnalysis == map[] && spawned == []
      ensures this.ismatch == ismatch && this.ext == ext
    {
      running := true;
      tree := None;
      filteredTree := None;
      searchQueryLeft := "";
      searchQueryRight := "";
      mode := if configDirExisted then TreeBrowsing else HelpScreen;
      showLogs := debugBuild;
      objectInfoScrollState := 0;
      animationState := 0;
      treeState := TreeState([], {});
      nodeIdToAnalysis := map[];
      spawned := [];
      this.ismatch := ismatch;
      this.ext := ext;
    }

    // ---- search query -------------------------------------------------

    /** The whole query text. */
    function SearchQuery(): string
      reads this`searchQueryLeft, this`searchQueryRight
    {
      searchQueryLeft + Reverse(searchQueryRight)
    }

    /** The cursor position in the query text. */
    function Cursor(): nat
      reads this`searchQueryLeft
    {
      |searchQueryLeft|
    }

    /** `search_query_and_cursor`: the text, whose split at the cursor gives
        back the two buffers, and the cursor as the UTF-8 byte length of the
        text before it (the conversion to u16 must not fail). */
    method SearchQueryAndCursor() returns (text: string, cursor: u16)
      requires Utf8Length(searchQueryLeft) <= U16_MAX as int
      ensures text == SearchQuery()
      ensures text[..Cursor()] == searchQueryLeft && Reverse(text[Cursor()..]) == searchQueryRight
      ensures cursor as int == Utf8Length(searchQueryLeft) >= Cursor()
      ensures IsAscii(searchQueryLeft) ==> cursor as int == Cursor()
    {
      text := searchQueryLeft + Reverse(searchQueryRight);
      cursor := Utf8Length(searchQueryLeft) as u16;
      if IsAscii(searchQueryLeft) {
        AsciiLengthIsCharCount(searchQueryLeft);
      }
      assert text[|searchQueryLeft|..] == Reverse(searchQueryRight);
      ReverseReverse(searchQueryRight);
    }

    /** `Char(c)`: insert at the cursor and move past it. */
    method InsertChar(c: char)
      modifies this`searchQueryLeft
      ensures SearchQuery() == old(SearchQuery()[..Cursor()]) + [c] + old(SearchQuery()[Cursor()..])
      ensures Cursor() == old(Cursor()) + 1
    {
      searchQueryLeft := searchQueryLeft + [c];
    }

    /** Plain Left: move the cursor one character left, if possible. */
    method CursorLeft()
      modifies this`searchQueryLeft, this`searchQueryRight
      ensures SearchQuery() == old(SearchQuery())
      ensures Cursor() == if old(Cursor()) == 0 then 0 else old(Cursor()) - 1
    {
      if searchQueryLeft != [] {
        var c := searchQueryLeft[|searchQueryLeft| - 1];
        ReversePush(searchQueryRight, c);
        searchQueryLeft := searchQueryLeft[..|searchQueryLeft| - 1];
        searchQueryRight := searchQueryRight + [c];
      }
    }

    /** Plain Right: move the cursor one character right, if possible. */
    method CursorRight()
      modifies this`searchQueryLeft, this`searchQueryRight
      ensures SearchQuery() == old(SearchQuery())
      ensures Cursor() == if old(Cursor()) == |SearchQuery()| then old(Cursor()) else old(Cursor()) + 1
    {
      if searchQueryRight != [] {
        var c := searchQueryRight[|searchQueryRight| - 1];
        searchQueryRight := searchQueryRight[..|searchQueryRight| - 1];
        searchQueryLeft := searchQueryLeft + [c];
      }
    }

    /** Ctrl+Left: move characters across the cursor one at a time, stopping
        after the first whitespace character moved or at the start. The cursor
        lands on the last whitespace before it, or at 0. */
    method WordLeft()
      modifies this`searchQueryLeft, this`searchQueryRight
      ensures SearchQuery() == old(SearchQuery())
      ensures WordLeftStop(SearchQuery(), old(Cursor()), Cursor())
    {
      while searchQueryLeft != []
        invariant SearchQuery() == old(SearchQuery())
        invariant Cursor() <= old(Cursor())
        invariant forall j :: Cursor() <= j < old(Cursor()) ==> !IsWhitespace(SearchQuery()[j])
        decreases |searchQueryLeft|
      {
        var c := searchQueryLeft[|searchQueryLeft| - 1];
        ReversePush(searchQueryRight, c);
        searchQueryLeft := searchQueryLeft[..|searchQueryLeft| - 1];
        searchQueryRight := searchQueryRight + [c];
        assert SearchQuery()[Cursor()] == c;
        if IsWhitespace(c) {
          break;
        }
      }
    }

    /** Ctrl+Right: move characters across the cursor one at a time, stopping
        after the first whitespace character moved or at the end. The cursor
        lands just past the first whitespace after it, or at the end. */
    method WordRight()
      modifies this`searchQueryLeft, this`searchQueryRight
      ensures SearchQuery() == old(SearchQuery())
      ensures WordRightStop(SearchQuery(), old(Cursor()), Cursor())
    {
      while searchQueryRight != []
        invariant SearchQuery() == old(SearchQuery())
        invariant old(Cursor()) <= Cursor() <= |SearchQuery()|
        invariant forall j :: old(Cursor()) <= j < Cursor() ==> !IsWhitespace(SearchQuery()[j])
        decreases |searchQueryRight|
      {
        var c := searchQueryRight[|searchQueryRight| - 1];
        searchQueryRight := searchQueryRight[..|searchQueryRight| - 1];
        searchQueryLeft := searchQueryLeft + [c];
        assert SearchQuery()[Cursor() - 1] == c;
        if IsWhitespace(c) {
          break;
        }
      }
    }

    /** Home: move the whole text after the cursor. */
    method CursorHome()
      modifies this`searchQueryLeft, this`searchQueryRight
      ensures SearchQuery() == old(SearchQuery()) && Cursor() == 0
    {
      ReverseAppend(searchQueryRight, Reverse(searchQueryLeft));
      ReverseReverse(searchQueryLeft);
      searchQueryRight := searchQueryRight + Reverse(searchQueryLeft);
      searchQueryLeft := "";
    }

    /** End: move the whole text before the cursor. */
    method CursorEnd()
      modifies this`searchQueryLeft, this`searchQueryRight
      ensures SearchQuery() == old(SearchQuery()) && Cursor() == |SearchQuery()|
    {
      searchQueryLeft := searchQueryLeft + Reverse(searchQueryRight);
      searchQueryRight := "";
    }

    /** Backspace: remove the character before the cursor, if any. */
    method DeleteBeforeCursor()
      modifies this`searchQueryLeft
      ensures old(Cursor()) > 0 ==>
        && SearchQuery() == old(SearchQuery()[..Cursor() - 1] + SearchQuery()[Cursor()..])
        && Cursor() == old(Cursor()) - 1
      ensures old(Cursor()) == 0 ==> SearchQuery() == old(SearchQuery()) && Cursor() == 0
    {
      if searchQueryLeft != [] {
        searchQueryLeft := searchQueryLeft[..|searchQueryLeft| - 1];
      }
    }

    /** Delete: remove the character after the cursor, if any. */
    method DeleteAfterCursor()
      modifies this`searchQueryRight
      ensures old(Cursor()) < old(|SearchQuery()|) ==>
        SearchQuery() == old(SearchQuery()[..Cursor()] + SearchQuery()[Cursor() + 1..])
      ensures old(Cursor()) == old(|SearchQuery()|) ==> SearchQuery() == old(SearchQuery())
      ensures Cursor() == old(Cursor())
    {
      if searchQueryRight != [] {
        searchQueryRight := searchQueryRight[..|searchQueryRight| - 1];
      }
    }

    // ---- filtering and reconciliation ---------------------------------

    /** `update_selected_tree_item`. */
    method UpdateSelectedTreeItem()
      modifies this`treeState
      ensures treeState == Reconcile(ext, filteredTree, old(treeState))
    {
      match filteredTree
      case Some(ft) =>
        var nothingSelected := treeState.selected == [];
        var selectedItem := ext.getSelectedNode(ft, treeState.selected);
        var selectedItemIsDirectMatch := selectedItem.Some? && ext.isDirectMatch(selectedItem.value);
        if nothingSelected || selectedItem.None? || !selectedItemIsDirectMatch {
          var firstMatch := ext.pathToFirstMatch(ft);
          treeState := treeState.(selected := firstMatch);
          for i := 0 to |firstMatch|
            invariant treeState.selected == firstMatch
            invariant treeState.openPaths == old(treeState.openPaths) + set j | 0 <= j < i :: firstMatch[..j]
          {
            treeState := treeState.(openPaths := treeState.openPaths + {firstMatch[..i]});
          }
        }
      case None =>
        treeState := treeState.(selected := []);
    }

    /** `update_filtered_tree`: re-filter the tree for the current query and
        reconcile the selection; without a tree there is no filtered tree. */
    method UpdateFilteredTree()
      modifies this`filteredTree, this`treeState
      ensures filteredTree == if tree.Some? then Filter(tree.value, SearchQuery(), ismatch) else None
      ensures treeState == if tree.Some? then Reconcile(ext, filteredTree, old(treeState)) else old(treeState)
    {
      var query := searchQueryLeft + Reverse(searchQueryRight);
      match tree
      case Some(t) =>
        filteredTree := Filter(t, query, ismatch);
        UpdateSelectedTreeItem();
      case None =>
        filteredTree := None;
    }

    /** `open_all_tree_nodes`: open the root-to-node id path of every node of
        the tree, and nothing else. */
    method OpenAllTreeNodes()
      modifies this`treeState
      ensures treeState.selected == old(treeState.selected)
      ensures treeState.openPaths == old(treeState.openPaths) + (if tree.Some? then AllIdPaths(tree.value) else {})
    {
      if tree.Some? {
        var root := tree.value;
        var toVisit: seq<WorkItem> := [(root, [root.id])];
        assert toVisit[..0] == [];
        while toVisit != []
          invariant treeState.selected == old(treeState.selected)
          invariant treeState.openPaths + Pending(toVisit) == old(treeState.openPaths) + AllIdPaths(root)
          invariant old(treeState.openPaths) <= treeState.openPaths
          decreases PendingNodes(toVisit)
        {
          var rest := toVisit[..|toVisit| - 1];
          var (current, idPath) := toVisit[|toVisit| - 1];
          toVisit := rest;
          treeState := treeState.(openPaths := treeState.openPaths + {idPath});
          PendingAppend(rest, ChildItems(current.children, idPath));
          PendingChildItems(current.children, idPath);
          toVisit := toVisit + ChildItems(current.children, idPath);
        }
      }
    }

    // ---- key handling -------------------------------------------------

    /** The effect of a key on the tree-browsing handler: mode, log flag and
        widget state change as the key says; the query and the filtered tree
        stay as they were. */
    twostate predicate TreeKeyHandled(code: KeyCode)
      reads this
    {
      && mode == TreeKeyMode(old(mode), code)
      && showLogs == LogsAfterKey(old(showLogs), code)
      && treeState == TreeStateAfterTreeKey(ext, tree, filteredTree, old(treeState), code)
      && filteredTree == old(filteredTree)
      && SearchQuery() == old(SearchQuery()) && Cursor() == old(Cursor())
    }

    /** The edit a key makes to the query: the text and cursor afterwards, in
        terms of the text and cursor before. Keys that are not query keys
        leave both alone. */
    twostate predicate QueryEdited(key: KeyEvent)
      reads this`searchQueryLeft, this`searchQueryRight
    {
      var text, cursor := old(SearchQuery()), old(Cursor());
      && cursor <= |text|
      && (!IsQueryKey(key.code) ==> SearchQuery() == text && Cursor() == cursor)
      && (key.code.Char? ==>
            SearchQuery() == text[..cursor] + [key.code.c] + text[cursor..] && Cursor() == cursor + 1)
      && (key.code == Left && Control !in key.modifiers ==>
            SearchQuery() == text && Cursor() == if cursor == 0 then 0 else cursor - 1)
      && (key.code == Left && Control in key.modifiers ==>
            SearchQuery() == text && WordLeftStop(text, cursor, Cursor()))
      && (key.code == Right && Control !in key.modifiers ==>
            SearchQuery() == text && Cursor() == if cursor == |text| then cursor else cursor + 1)
      && (key.code == Right && Control in key.modifiers ==>
            SearchQuery() == text && WordRightStop(text, cursor, Cursor()))
      && (key.code == Home ==> SearchQuery() == text && Cursor() == 0)
      && (key.code == End ==> SearchQuery() == text && Cursor() == |text|)
      && (key.code == Backspace ==>
            if cursor > 0 then SearchQuery() == text[..cursor - 1] + text[cursor..] && Cursor() == cursor - 1
            else SearchQuery() == text && Cursor() == 0)
      && (key.code == Delete ==>
            && (if cursor < |text| then SearchQuery() == text[..cursor] + text[cursor + 1..] else SearchQuery() == text)
            && Cursor() == cursor)
    }

    /** The effect of a key on the search-query handler: each query key makes
        its edit, then the tree is re-filtered and the selection reconciled;
        any other key is handled as in tree browsing. */
    twostate predicate SearchKeyHandled(key: KeyEvent)
      reads this
    {
      && QueryEdited(key)
      && (IsQueryKey(key.code) ==>
            && mode == old(mode) && showLogs == old(showLogs)
            && filteredTree == (if tree.Some? then Filter(tree.value, SearchQuery(), ismatch) else None)
            && treeState == (if tree.Some? then Reconcile(ext, filteredTree, old(treeState)) else old(treeState)))
      && (!IsQueryKey(key.code) ==> TreeKeyHandled(key.code))
    }

    /** `on_keypress_tree_mode`. */
    method OnKeypressTreeMode(code: KeyCode)
      modifies this`mode, this`showLogs, this`treeState
      ensures TreeKeyHandled(code)
    {
      if code == Right || code == Char('l') {
        mode := ObjectInfoInspecting;
      } else if code == Char('f') {
        OpenAllTreeNodes();
      } else if code == Char('L') {
        showLogs := !showLogs;
      } else if code == Char('?') {
        mode := HelpScreen;
      } else {
        var command := WidgetCommandFor(code);
        if filteredTree.Some? && command.Some? {
          treeState := ext.navigate(treeState, command.value);
        }
      }
    }

    /** `on_keypress_search_mode`: query keys edit the query and re-filter,
        every other key goes to the tree-browsing handler. */
    method OnKeypressSearchMode(key: KeyEvent)
      modifies this`searchQueryLeft, this`searchQueryRight, this`filteredTree, this`treeState
      modifies this`mode, this`showLogs
      ensures SearchKeyHandled(key)
    {
      var edited := EditSearchQuery(key);
      if edited {
        UpdateFilteredTree();
      } else {
        OnKeypressTreeMode(key.code);
      }
    }

    /** The query edits of `on_keypress_search_mode`: a query key edits the
        gap buffer, any other key leaves it alone and is reported back. */
    method EditSearchQuery(key: KeyEvent) returns (edited: bool)
      modifies this`searchQueryLeft, this`searchQueryRight
      ensures edited == IsQueryKey(key.code)
      ensures QueryEdited(key)
    {
      edited := true;
      match key.code {
        case Char(toInsert) => InsertChar(toInsert);
        case Left =>
          if Control in key.modifiers {
            WordLeft();
          } else {
            CursorLeft();
          }
        case Right =>
          if Control in key.modifiers {
            WordRight();
          } else {
            CursorRight();
          }
        case Home => CursorHome();
        case End => CursorEnd();
        case Backspace => DeleteBeforeCursor();
        case Delete => DeleteAfterCursor();
        case _ => edited := false;
      }
    }

    /** `on_keypress_object_info_mode`. */
    method OnKeypressObjectInfoMode(code: KeyCode)
      modifies this`objectInfoScrollState, this`mode, this`showLogs
      ensures objectInfoScrollState == ScrollAfter(old(objectInfoScrollState), code)
      ensures mode == ObjectInfoKeyMode(old(mode), code)
      ensures showLogs == (if code == Char('L') then !old(showLogs) else old(showLogs))
    {
      if code == Up || code == Char('k') {
        objectInfoScrollState := SaturatingSub(objectInfoScrollState, 1);
      } else if code == Down || code == Char('j') {
        objectInfoScrollState := SaturatingAdd(objectInfoScrollState, 1);
      } else if code == Left || code == Char('h') {
        mode := TreeBrowsing;
      } else if code == PageDown {
        objectInfoScrollState := SaturatingAdd(objectInfoScrollState, 50);
      } else if code == PageUp {
        objectInfoScrollState := SaturatingSub(objectInfoScrollState, 50);
      } else if code == End {
        objectInfoScrollState := U16_MAX;
      } else if code == Home {
        objectInfoScrollState := 0;
      } else if code == Char('?') {
        mode := HelpScreen;
      } else if code == Char('L') {
        showLogs := !showLogs;
      }
    }

    /** `handle_keypress`: only key presses count; Ctrl+C stops the
        application and is then handled like any other key of the mode. */
    method HandleKeypress(key: KeyEvent)
      modifies this`running, this`mode, this`showLogs, this`objectInfoScrollState, this`treeState
      modifies this`searchQueryLeft, this`searchQueryRight, this`filteredTree
      ensures key.kind != Press ==> unchanged(this)
      ensures key.kind == Press ==> running == (old(running) && !StopsRunning(old(mode), key))
      ensures key.kind == Press ==> mode == ModeAfterKey(old(mode), key.code)
      ensures old(mode) != SearchQueryEditing ==> SearchQuery() == old(SearchQuery()) && Cursor() == old(Cursor())
      ensures key.kind == Press && old(mode) == ObjectInfoInspecting && key.code !in {Char('q'), Char('/')} ==>
        objectInfoScrollState == ScrollAfter(old(objectInfoScrollState), key.code)
      ensures !(key.kind == Press && old(mode) == ObjectInfoInspecting) ==>
        objectInfoScrollState == old(objectInfoScrollState)
      ensures key.kind == Press && old(mode) == TreeBrowsing && key.code !in {Char('q'), Char('/')} ==>
        TreeKeyHandled(key.code)
      ensures key.kind == Press && old(mode) == SearchQueryEditing && key.code !in {Esc, Enter} ==>
        SearchKeyHandled(key)
      ensures key.kind == Press && old(mode) == ObjectInfoInspecting && key.code !in {Char('q'), Char('/')} ==>
        showLogs == LogsAfterKey(old(showLogs), key.code)
      ensures key.kind == Press && (old(mode) == ObjectInfoInspecting || old(mode) == HelpScreen) ==>
        treeState == old(treeState) && filteredTree == old(filteredTree)
      ensures key.kind == Press && old(mode) == HelpScreen ==> showLogs == old(showLogs)
      ensures key.kind == Press
              && ((key.code in {Char('q'), Char('/')} && (old(mode) == TreeBrowsing || old(mode) == ObjectInfoInspecting))
                  || (key.code in {Esc, Enter} && old(mode) == SearchQueryEditing)) ==>
        showLogs == old(showLogs) && treeState == old(treeState) && filteredTree == old(filteredTree)
        && SearchQuery() == old(SearchQuery()) && Cursor() == old(Cursor())
    {
      if key.kind == Press {
        if IsCtrlC(key) {
          running := false;
        }
        match mode
        case TreeBrowsing =>
          if key.code == Char('q') {
            running := false;
          } else if key.code == Char('/') {
            mode := SearchQueryEditing;
          } else {
            OnKeypressTreeMode(key.code);
          }
        case SearchQueryEditing =>
          if key.code == Esc || key.code == Enter {
            mode := TreeBrowsing;
          } else {
            OnKeypressSearchMode(key);
          }
        case ObjectInfoInspecting =>
          if key.code == Char('q') {
            running := false;
          } else if key.code == Char('/') {
            mode := SearchQueryEditing;
          } else {
            OnKeypressObjectInfoMode(key.code);
          }
        case HelpScreen =>
          if key.code in {Esc, Enter, Char('q'), Char('?')} {
            mode := TreeBrowsing;
          }
      }
    }

    /** The arrival of the tree built in the background: store it, open every
        node and filter it for the current query. */
    method OnTreeLoaded(t: TreeNode<NodeId>)
      modifies this`tree, this`filteredTree, this`treeState
      ensures tree == Some(t)
      ensures filteredTree == Filter(t, SearchQuery(), ismatch)
      ensures treeState == Reconcile(ext, filteredTree,
                                     old(treeState).(openPaths := old(treeState.openPaths) + AllIdPaths(t)))
    {
      tree := Some(t);
      OpenAllTreeNodes();
      UpdateFilteredTree();
    }

    /** An animation tick: the counter wraps around at 256. */
    method OnAnimationTick()
      modifies this`animationState
      ensures animationState as int == (old(animationState) as int + 1) % 0x100
    {
      animationState := ((animationState as int + 1) % 0x100) as u8;
    }

    // ---- analysis cache -----------------------------------------------

    /** The statistics part of `get_text_for` for dataset `k`: an absent key
        gets a `Loading` entry and exactly one spawned task; a present key
        spawns nothing and changes nothing, and its entry is shown. */
    method RequestAnalysis(k: NodeId) returns (stats: seq<(string, string)>, hist: Option<HistogramData>)
      requires Valid()
      modifies this`nodeIdToAnalysis, this`spawned
      ensures Valid()
      ensures k in old(nodeIdToAnalysis) ==>
        && nodeIdToAnalysis == old(nodeIdToAnalysis) && spawned == old(spawned)
        && (stats, hist) == EntryText(old(nodeIdToAnalysis)[k], animationState)
      ensures k !in old(nodeIdToAnalysis) ==>
        && nodeIdToAnalysis == old(nodeIdToAnalysis)[k := Loading]
        && spawned == old(spawned) + [k]
        && stats == LoadingText(animationState) && hist.None?
    {
      if k in nodeIdToAnalysis {
        stats, hist := EntryText(nodeIdToAnalysis[k], animationState).0, EntryText(nodeIdToAnalysis[k], animationState).1;
      } else {
        stats, hist := LoadingText(animationState), None;
        nodeIdToAnalysis := nodeIdToAnalysis[k := Loading];
        spawned := spawned + [k];
      }
    }

    /** The object the selected path names in the (unfiltered) tree. */
    function ObjectAt(path: seq<NodeId>): Option<(TreeNode<NodeId>, Hdf5Object)>
      reads this`tree
    {
      if tree.None? then None
      else match ext.getSelectedNode(tree.value, path)
        case None => None
        case Some(n) =>
          match ext.hdf5Object(n)
          case None => None
          case Some(o) => Some((n, o))
    }

    /** `get_text_for`: nothing for an unknown path or a node without an HDF5
        object, the group text for a group, and for a dataset its statistics,
        requesting the analysis once. */
    method GetTextFor(path: seq<NodeId>) returns (r: Option<ObjectText>)
      requires Valid()
      modifies this`nodeIdToAnalysis, this`spawned
      ensures Valid()
      ensures r.Some? <==> ObjectAt(path).Some?
      ensures ObjectAt(path).Some? && ObjectAt(path).value.1 == Group ==> r == Some(GroupText)
      ensures ObjectAt(path).Some? && ObjectAt(path).value.1 == Dataset ==>
        var k := ObjectAt(path).value.0.id;
        && r.value.DatasetText?
        && (k in old(nodeIdToAnalysis) ==>
             && nodeIdToAnalysis == old(nodeIdToAnalysis) && spawned == old(spawned)
             && (r.value.stats, r.value.histogram) == EntryText(old(nodeIdToAnalysis)[k], animationState))
        && (k !in old(nodeIdToAnalysis) ==>
             && nodeIdToAnalysis == old(nodeIdToAnalysis)[k := Loading] && spawned == old(spawned) + [k]
             && r.value.stats == LoadingText(animationState) && r.value.histogram.None?)
      ensures !(ObjectAt(path).Some? && ObjectAt(path).value.1 == Dataset) ==>
        nodeIdToAnalysis == old(nodeIdToAnalysis) && spawned == old(spawned)
    {
      r := None;
      if tree.Some? {
        var selected := ext.getSelectedNode(tree.value, path);
        if selected.Some? {
          var treeNode := selected.value;
          match ext.hdf5Object(treeNode) {
            case Some(Dataset) =>
              var stats, hist := RequestAnalysis(treeNode.id);
              r := Some(DatasetText(stats, hist));
            case Some(Group) =>
              r := Some(GroupText);
            case None =>
          }
        }
      }
    }

    /** The background task for `k` finishing: its outcome, errors as
        `Failed`, replaces the `Loading` entry. */
    method CompleteAnalysis(k: NodeId, outcome: AnalysisOutcome)
      requires Valid() && k in nodeIdToAnalysis && nodeIdToAnalysis[k] == Loading
      modifies this`nodeIdToAnalysis
      ensures Valid()
      ensures nodeIdToAnalysis == old(nodeIdToAnalysis)[k := Ready(Processed(outcome))]
    {
      nodeIdToAnalysis := nodeIdToAnalysis[k := Ready(Processed(outcome))];
    }

    /** `get_num_active_data_analysis_tasks`: the number of `Loading`
        entries; never more than the tasks spawned, and zero exactly when
        every requested analysis has finished. */
    function NumActiveDataAnalysisTasks(): (n: nat)
      reads this
      requires Valid()
      ensures n <= |spawned|
      ensures n == 0 <==> forall k :: k in nodeIdToAnalysis ==> nodeIdToAnalysis[k].Ready?
    {
      ActiveTasksBounded(nodeIdToAnalysis, spawned);
      NoActiveTasks(nodeIdToAnalysis);
      |LoadingKeys(nodeIdToAnalysis)|
    }
  }
}
