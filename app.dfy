/**
 * The editor's application state and the operations that change it: the
 * compare-and-swap edit transaction (`edit_gamefile`), undo, opening,
 * relabelling and closing tabs, and the error popup.
 *
 * Object identity matters here (`===` on archives, on the tab list, on tabs
 * and on addresses), so each such object is a value with an `id`; a newly
 * built object takes its id from the `nextId` counter.
 */
module AppModel {
  import opened Wrappers
  import opened Archive

  /** An archive object. */
  datatype GamefileRef = GamefileRef(id: nat, value: Gamefile)

  /** An address object; `text` is its `toString()`. */
  datatype PathRef = PathRef(id: nat, text: string)

  /** `OpenTab`, an object in the tab list. */
  datatype Tab = Tab(id: nat, path: PathRef, ready: bool, title: string)

  /**
   * The part of `AppState` the core touches. `tabsId` is the identity of the
   * tab array, `current` is `current_tab` (`None` for `false`) and `error` the
   * error popup's content.
   */
  datatype AppState = AppState(
    gamefile: Option<GamefileRef>,
    undo: seq<GamefileRef>,
    tabs: seq<Tab>,
    tabsId: nat,
    current: Option<PathRef>,
    error: Option<Error>,
    nextId: nat)

  /** Every object already built has an id below the counter. */
  predicate Valid(s: AppState) {
    s.tabsId < s.nextId && forall j :: 0 <= j < |s.tabs| ==> s.tabs[j].id < s.nextId
  }

  /** `show_error`: the popup shows `e`. */
  function WithError(s: AppState, e: Error): (t: AppState)
    ensures t.error == Some(e) && t.(error := s.error) == s
    ensures Valid(s) ==> Valid(t)
  {
    s.(error := Some(e))
  }

  /**
   * An entry of a tab list handed in from outside the tab operations: a tab
   * object that already exists, or a new object literal with these fields.
   */
  datatype TabEntry = Kept(tab: Tab) | Made(path: PathRef, ready: bool, title: string)

  /**
   * The tab objects a list of entries denotes: existing objects stay
   * themselves, and the `k`-th entry, when new, becomes an object with id
   * `base + k`.
   */
  function Minted(es: seq<TabEntry>, base: nat): (ts: seq<Tab>)
    ensures |ts| == |es|
    ensures forall k :: 0 <= k < |es| && es[k].Kept? ==> ts[k] == es[k].tab
    ensures forall k :: 0 <= k < |es| && es[k].Made? ==>
              base <= ts[k].id < base + |es| && ts[k].path == es[k].path &&
              ts[k].ready == es[k].ready && ts[k].title == es[k].title
    ensures forall j, k :: 0 <= j < k < |es| && es[j].Made? && es[k].Made? ==> ts[j].id != ts[k].id
  {
    seq(|es|, k requires 0 <= k < |es| =>
      match es[k]
      case Kept(t) => t
      case Made(p, r, title) => Tab(base + k, p, r, title))
  }

  /** Every existing object the entries name has an id below `n`. */
  predicate KnownEntries(es: seq<TabEntry>, n: nat) {
    forall k :: 0 <= k < |es| && es[k].Kept? ==> es[k].tab.id < n
  }

  /** The new tab list after `es` is installed: fresh ids for the new objects, then one for the array. */
  function Installed(s: AppState, es: seq<TabEntry>): (t: AppState)
    ensures t.tabs == Minted(es, s.nextId) && t.tabsId == s.nextId + |es| && t.nextId == t.tabsId + 1
    ensures t.(tabs := s.tabs, tabsId := s.tabsId, nextId := s.nextId) == s
    ensures Valid(s) && KnownEntries(es, s.nextId) ==> Valid(t) && t.tabsId != s.tabsId
  {
    var n := s.nextId + |es|;
    s.(tabs := Minted(es, s.nextId), tabsId := n, nextId := n + 1)
  }

  // ---------------------------------------------------------------------
  // Undo

  /** `undo`: pop the last archive off the undo stack into the live state; an empty stack changes nothing. */
  function Undone(s: AppState): (t: AppState)
    ensures s.undo == [] ==> t == s
    ensures s.undo != [] ==> t.gamefile == Some(s.undo[|s.undo| - 1]) && t.undo + [s.undo[|s.undo| - 1]] == s.undo
    ensures t.(gamefile := s.gamefile, undo := s.undo) == s
    ensures Valid(s) ==> Valid(t)
  {
    if s.undo == [] then s
    else s.(gamefile := Some(s.undo[|s.undo| - 1]), undo := s.undo[..|s.undo| - 1])
  }

  // ---------------------------------------------------------------------
  // The edit transaction

  /** What an attempt read before calling the callback. */
  datatype Snapshot = Snapshot(gamefile: GamefileRef, tabs: seq<Tab>, tabsId: nat)

  /** A callback's answer: the new archive and, optionally, a new tab list. */
  datatype Reply = Reply(gamefile: GamefileRef, tabs: Option<seq<TabEntry>>)

  /** The callback: given archive and tabs, an answer, `None` for `null`, or a thrown error. */
  type Callback = (GamefileRef, seq<Tab>) -> Result<Option<Reply>>

  /** The compare half of the swap: the live archive is the one read and, when tabs are supplied, so is the tab list. */
  predicate Current(s: AppState, snap: Snapshot, reply: Reply) {
    s.gamefile == Some(snap.gamefile) && (reply.tabs.None? || s.tabsId == snap.tabsId)
  }

  /**
   * The swap half: the answer becomes the live archive, the replaced one is
   * pushed on the undo stack, and the tab list is replaced only when the
   * answer supplies one (a new array object).
   */
  function Committed(s: AppState, reply: Reply): (t: AppState)
    requires s.gamefile.Some?
    ensures t.gamefile == Some(reply.gamefile) && t.undo == s.undo + [s.gamefile.value]
    ensures reply.tabs.None? ==> t.tabs == s.tabs && t.tabsId == s.tabsId
    ensures reply.tabs.Some? ==> t.tabs == Minted(reply.tabs.value, s.nextId) && (Valid(s) ==> t.tabsId != s.tabsId)
    ensures t.current == s.current && t.error == s.error && t.nextId >= s.nextId
    ensures Valid(s) && (reply.tabs.Some? ==> KnownEntries(reply.tabs.value, s.nextId)) ==> Valid(t)
  {
    var s1 := s.(gamefile := Some(reply.gamefile), undo := s.undo + [s.gamefile.value]);
    match reply.tabs
    case None => s1
    case Some(es) => Installed(s1, es)
  }

  /** The `setState` updater of one attempt: swap if nothing moved, else leave the state alone. */
  function Attempted(s: AppState, snap: Snapshot, reply: Reply): (out: (bool, AppState))
    ensures out.0 <==> Current(s, snap, reply)
    ensures !out.0 ==> out.1 == s
    ensures out.0 ==> out.1 == Committed(s, reply)
  {
    if Current(s, snap, reply) then (true, Committed(s, reply)) else (false, s)
  }

  /** A committed edit followed by an undo restores the archive and the undo stack. */
  lemma CommitThenUndo(s: AppState, snap: Snapshot, reply: Reply)
    requires Current(s, snap, reply)
    ensures var t := Undone(Attempted(s, snap, reply).1);
            t.gamefile == s.gamefile && t.undo == s.undo
  {
    var t := Attempted(s, snap, reply).1;
    assert t.undo[..|t.undo| - 1] == s.undo;
  }

  /** What else happens while the callback runs: another edit commits, an undo, a new tab list, or nothing. */
  datatype Rival = Quiet | RivalEdit(g: GamefileRef) | RivalUndo | RivalTabs(entries: seq<TabEntry>)

  function Interleaved(s: AppState, r: Rival): (t: AppState)
    ensures t.nextId >= s.nextId
    ensures Valid(s) && (r.RivalTabs? ==> KnownEntries(r.entries, s.nextId)) ==> Valid(t)
  {
    match r
    case Quiet => s
    case RivalEdit(g) => if s.gamefile.Some? then Committed(s, Reply(g, None)) else s
    case RivalUndo => Undone(s)
    case RivalTabs(es) => Installed(s, es)
  }

  function RivalAt(rivals: seq<Rival>, i: nat): Rival {
    if i < |rivals| then rivals[i] else Quiet
  }

  /** How many times `edit_gamefile` tries before giving up. */
  const MaxAttempts: nat := 20

  /** How an edit that did not throw ended. */
  datatype EditEnd = Done | Cancelled

  /**
   * `edit_gamefile` from attempt `i` on: read the archive (throwing if there
   * is none), ask the callback, let `rivals[i]` happen, then try the swap;
   * retry on a conflict. Every thrown error is shown before it propagates.
   */
  function EditFrom(s: AppState, cb: Callback, rivals: seq<Rival>, i: nat): (out: (Result<EditEnd>, AppState))
    ensures out.0.Err? ==> out.1.error == Some(out.0.error)
    ensures out.1.nextId >= s.nextId
    decreases MaxAttempts - i
  {
    if i >= MaxAttempts then (Err(EditConflict), WithError(s, EditConflict))
    else if s.gamefile.None? then (Err(NoGamefile), WithError(s, NoGamefile))
    else
      var snap := Snapshot(s.gamefile.value, s.tabs, s.tabsId);
      match cb(snap.gamefile, snap.tabs)
      case Err(e) => (Err(e), WithError(s, e))
      case Ok(None) => (Ok(Cancelled), s)
      case Ok(Some(reply)) =>
        var s1 := Interleaved(s, RivalAt(rivals, i));
        var (ok, s2) := Attempted(s1, snap, reply);
        if ok then (Ok(Done), s2) else EditFrom(s2, cb, rivals, i + 1)
  }

  /** With no archive loaded the edit throws at once, whatever the callback would have said. */
  lemma {:induction false} EditWithoutGamefile(s: AppState, cb: Callback, rivals: seq<Rival>)
    requires s.gamefile.None?
    ensures EditFrom(s, cb, rivals, 0) == (Err(NoGamefile), s.(error := Some(NoGamefile)))
  {
  }

  /** A callback answering `null` ends the edit with no state change. */
  lemma {:induction false} EditCancelled(s: AppState, cb: Callback, rivals: seq<Rival>)
    requires s.gamefile.Some? && cb(s.gamefile.value, s.tabs) == Ok(None)
    ensures EditFrom(s, cb, rivals, 0) == (Ok(Cancelled), s)
  {
  }

  /** Nothing happening meanwhile, the first attempt commits the callback's answer. */
  lemma {:induction false} EditUncontended(s: AppState, cb: Callback, rivals: seq<Rival>, reply: Reply)
    requires s.gamefile.Some? && cb(s.gamefile.value, s.tabs) == Ok(Some(reply))
    requires RivalAt(rivals, 0) == Quiet
    ensures var (r, t) := EditFrom(s, cb, rivals, 0);
            r == Ok(Done) && t.gamefile == Some(reply.gamefile) && t.undo == s.undo + [s.gamefile.value] &&
            t.tabs == (if reply.tabs.Some? then Minted(reply.tabs.value, s.nextId) else s.tabs)
  {
  }

  /** From attempt `i` on, each attempt is overtaken by another edit committing a different archive. */
  predicate AlwaysOvertaken(rivals: seq<Rival>, first: GamefileRef, i: nat) {
    |rivals| >= MaxAttempts &&
    forall j :: i <= j < MaxAttempts ==>
      rivals[j].RivalEdit? &&
      (j == i ==> rivals[j].g != first) &&
      (j > i ==> rivals[j - 1].RivalEdit? && rivals[j].g != rivals[j - 1].g)
  }

  /** When every attempt loses the race, the edit gives up after the last one and throws. */
  lemma {:induction false} EditGivesUp(s: AppState, cb: Callback, rivals: seq<Rival>, i: nat)
    requires s.gamefile.Some? && i <= MaxAttempts
    requires forall g, ts :: cb(g, ts).Ok? && cb(g, ts).value.Some?
    requires AlwaysOvertaken(rivals, s.gamefile.value, i)
    ensures EditFrom(s, cb, rivals, i).0 == Err(EditConflict)
    decreases MaxAttempts - i
  {
    if i < MaxAttempts {
      var snap := Snapshot(s.gamefile.value, s.tabs, s.tabsId);
      var reply := cb(snap.gamefile, snap.tabs).value.value;
      var s1 := Interleaved(s, RivalAt(rivals, i));
      assert s1.gamefile == Some(rivals[i].g);
      assert !Attempted(s1, snap, reply).0;
      assert AlwaysOvertaken(rivals, rivals[i].g, i + 1);
      EditGivesUp(s1, cb, rivals, i + 1);
      assert EditFrom(s, cb, rivals, i) == EditFrom(s1, cb, rivals, i + 1);
    }
  }

  /** The tab entries of a callback's answer, none when it supplies no tab list. */
  function ReplyEntries(r: Result<Option<Reply>>): seq<TabEntry> {
    if r.Ok? && r.value.Some? && r.value.value.tabs.Some? then r.value.value.tabs.value else []
  }

  /** The callback hands back, as existing tab objects, only tabs from the list it was given. */
  ghost predicate HandsBackGiven(cb: Callback) {
    forall g, ts, k :: 0 <= k < |ReplyEntries(cb(g, ts))| && ReplyEntries(cb(g, ts))[k].Kept? ==>
      ReplyEntries(cb(g, ts))[k].tab in ts
  }

  /** Every existing tab object a rival installs was built before id `n` was issued. */
  predicate RivalsKnown(rivals: seq<Rival>, n: nat) {
    forall i :: 0 <= i < |rivals| && rivals[i].RivalTabs? ==> KnownEntries(rivals[i].entries, n)
  }

  /**
   * The edit transaction keeps every object's id below the counter, so a
   * newly built object is never equal to one that existed before.
   */
  lemma {:induction false} EditKeepsValid(s: AppState, cb: Callback, rivals: seq<Rival>, i: nat)
    requires Valid(s) && HandsBackGiven(cb) && RivalsKnown(rivals, s.nextId)
    ensures Valid(EditFrom(s, cb, rivals, i).1)
    decreases MaxAttempts - i
  {
    if i < MaxAttempts && s.gamefile.Some? {
      var snap := Snapshot(s.gamefile.value, s.tabs, s.tabsId);
      var answer := cb(snap.gamefile, snap.tabs);
      if answer.Ok? && answer.value.Some? {
        var reply := answer.value.value;
        var s1 := Interleaved(s, RivalAt(rivals, i));
        assert Valid(s1);
        if reply.tabs.Some? {
          var es := reply.tabs.value;
          assert es == ReplyEntries(answer);
          forall k | 0 <= k < |es| && es[k].Kept?
            ensures es[k].tab.id < s1.nextId
          {
            assert ReplyEntries(cb(snap.gamefile, snap.tabs))[k].tab in s.tabs;
          }
        }
        var (ok, s2) := Attempted(s1, snap, reply);
        assert Valid(s2);
        if !ok {
          assert RivalsKnown(rivals, s2.nextId);
          EditKeepsValid(s2, cb, rivals, i + 1);
        }
      }
    }
  }

  // ---------------------------------------------------------------------
  // Tabs

  /** The first tab whose address prints as `text`. */
  function FindByText(tabs: seq<Tab>, text: string): (r: Option<nat>)
    ensures r.Some? ==> r.value < |tabs| && tabs[r.value].path.text == text
    ensures r.Some? ==> forall j :: 0 <= j < r.value ==> tabs[j].path.text != text
    ensures r.None? ==> forall j :: 0 <= j < |tabs| ==> tabs[j].path.text != text
    decreases |tabs|
  {
    if tabs == [] then None
    else if tabs[0].path.text == text then Some(0)
    else match FindByText(tabs[1..], text)
      case None => None
      case Some(k) => Some(k + 1)
  }

  /**
   * `open_file`: an address printing like an open tab's makes that tab's
   * address object current and adds nothing; otherwise a new unready,
   * untitled tab is appended and made current.
   */
  function Opened(s: AppState, p: PathRef): (t: AppState)
    ensures t.current.Some? && t.current.value.text == p.text
    ensures exists j :: 0 <= j < |t.tabs| && t.tabs[j].path == t.current.value
    ensures |s.tabs| <= |t.tabs| <= |s.tabs| + 1 && t.tabs[..|s.tabs|] == s.tabs
    ensures FindByText(s.tabs, p.text).Some? ==> t.tabs == s.tabs && t.tabsId == s.tabsId
    ensures FindByText(s.tabs, p.text).None? ==> t.current == Some(p) && t.tabs[|s.tabs|].path == p
    ensures t.gamefile == s.gamefile && t.undo == s.undo && t.error == s.error
    ensures Valid(s) ==> Valid(t)
  {
    match FindByText(s.tabs, p.text)
    case Some(i) => s.(current := Some(s.tabs[i].path))
    case None =>
      var tabs := s.tabs + [Tab(s.nextId, p, false, "")];
      assert tabs[|s.tabs|].path == p;
      s.(tabs := tabs, tabsId := s.nextId + 1, current := Some(p), nextId := s.nextId + 2)
  }

  /** No two tabs print the same address. */
  predicate DistinctTexts(tabs: seq<Tab>) {
    forall i, j :: 0 <= i < j < |tabs| ==> tabs[i].path.text != tabs[j].path.text
  }

  /** Opening never creates a second tab for an address already open. */
  lemma OpenKeepsTextsDistinct(s: AppState, p: PathRef)
    requires DistinctTexts(s.tabs)
    ensures DistinctTexts(Opened(s, p).tabs)
  {
  }

  /** Opening the same address twice is the same as opening it once. */
  lemma OpenTwice(s: AppState, p: PathRef)
    ensures Opened(Opened(s, p), p) == Opened(s, p)
  {
    var t := Opened(s, p);
    match FindByText(s.tabs, p.text)
    case Some(i) =>
      assert t.tabs == s.tabs;
    case None =>
      assert forall j :: 0 <= j < |s.tabs| ==> t.tabs[j] == s.tabs[j];
      assert t.tabs[|s.tabs|].path.text == p.text;
      assert FindByText(t.tabs, p.text) == Some(|s.tabs|);
  }

  /** The first tab holding the very address object `p`. */
  function FindByPath(tabs: seq<Tab>, p: PathRef): (r: Option<nat>)
    ensures r.Some? ==> r.value < |tabs| && tabs[r.value].path == p
    ensures r.Some? ==> forall j :: 0 <= j < r.value ==> tabs[j].path != p
    ensures r.None? ==> forall j :: 0 <= j < |tabs| ==> tabs[j].path != p
    decreases |tabs|
  {
    if tabs == [] then None
    else if tabs[0].path == p then Some(0)
    else match FindByPath(tabs[1..], p)
      case None => None
      case Some(k) => Some(k + 1)
  }

  /**
   * `set_tab_properties`: the first tab holding exactly this address object
   * gets a copy with the given title and readiness (an absent one kept); no
   * such tab, no change.
   */
  function Relabelled(s: AppState, p: PathRef, title: Option<string>, ready: Option<bool>): (t: AppState)
    ensures FindByPath(s.tabs, p).None? ==> t == s
    ensures |t.tabs| == |s.tabs| && forall j :: 0 <= j < |s.tabs| ==> t.tabs[j].path == s.tabs[j].path
    ensures forall j :: 0 <= j < |s.tabs| && FindByPath(s.tabs, p) != Some(j) ==> t.tabs[j] == s.tabs[j]
    ensures FindByPath(s.tabs, p).Some? ==>
              var i := FindByPath(s.tabs, p).value;
              t.tabs[i].title == title.GetOr(s.tabs[i].title) && t.tabs[i].ready == ready.GetOr(s.tabs[i].ready)
    ensures Valid(s) && FindByPath(s.tabs, p).Some? ==>
              forall j :: 0 <= j < |s.tabs| ==> t.tabs[FindByPath(s.tabs, p).value] != s.tabs[j]
    ensures t.gamefile == s.gamefile && t.undo == s.undo && t.current == s.current && t.error == s.error
    ensures Valid(s) ==> Valid(t)
  {
    match FindByPath(s.tabs, p)
    case None => s
    case Some(i) =>
      var old_ := s.tabs[i];
      var tab := Tab(s.nextId, old_.path, ready.GetOr(old_.ready), title.GetOr(old_.title));
      s.(tabs := s.tabs[i := tab], tabsId := s.nextId + 1, nextId := s.nextId + 2)
  }

  /** The first occurrence of the very tab object `tab`. */
  function FindTab(tabs: seq<Tab>, tab: Tab): (r: Option<nat>)
    ensures r.Some? ==> r.value < |tabs| && tabs[r.value] == tab
    ensures r.Some? ==> forall j :: 0 <= j < r.value ==> tabs[j] != tab
    ensures r.None? ==> forall j :: 0 <= j < |tabs| ==> tabs[j] != tab
    decreases |tabs|
  {
    if tabs == [] then None
    else if tabs[0] == tab then Some(0)
    else match FindTab(tabs[1..], tab)
      case None => None
      case Some(k) => Some(k + 1)
  }

  /**
   * The close button's updater: remove that tab object, and clear the
   * current tab if it was this tab's address; a tab no longer listed
   * changes nothing.
   */
  function Closed(s: AppState, tab: Tab): (t: AppState)
    ensures FindTab(s.tabs, tab).None? ==> t == s
    ensures FindTab(s.tabs, tab).Some? ==>
              var i := FindTab(s.tabs, tab).value;
              t.tabs == s.tabs[..i] + s.tabs[i + 1..] && |t.tabs| == |s.tabs| - 1 &&
              t.current == (if s.current == Some(tab.path) then None else s.current)
    ensures t.gamefile == s.gamefile && t.undo == s.undo && t.error == s.error
    ensures Valid(s) ==> Valid(t)
  {
    match FindTab(s.tabs, tab)
    case None => s
    case Some(i) =>
      s.(tabs := s.tabs[..i] + s.tabs[i + 1..], tabsId := s.nextId, nextId := s.nextId + 1,
         current := if s.current == Some(tab.path) then None else s.current)
  }

  /**
   * A tab replaced by `set_tab_properties` is a stale object: closing it
   * afterwards finds nothing and changes nothing, when it was listed once.
   */
  lemma StaleCloseChangesNothing(s: AppState, p: PathRef, title: Option<string>, ready: Option<bool>)
    requires Valid(s) && FindByPath(s.tabs, p).Some?
    requires forall j :: 0 <= j < |s.tabs| && j != FindByPath(s.tabs, p).value ==> s.tabs[j] != s.tabs[FindByPath(s.tabs, p).value]
    ensures var t := Relabelled(s, p, title, ready);
            Closed(t, s.tabs[FindByPath(s.tabs, p).value]) == t
  {
    var i := FindByPath(s.tabs, p).value;
    var t := Relabelled(s, p, title, ready);
    forall j | 0 <= j < |t.tabs|
      ensures t.tabs[j] != s.tabs[i]
    {
      if j != i {
        assert t.tabs[j] == s.tabs[j];
      }
    }
    assert FindTab(t.tabs, s.tabs[i]).None?;
  }

  /** Opening a new address and closing the tab it made gives back the old tab list and no current tab. */
  lemma OpenThenClose(s: AppState, p: PathRef)
    requires FindByText(s.tabs, p.text).None?
    ensures var t := Closed(Opened(s, p), Tab(s.nextId, p, false, ""));
            t.tabs == s.tabs && t.current == None
  {
    var o := Opened(s, p);
    var tab := Tab(s.nextId, p, false, "");
    assert o.tabs == s.tabs + [tab];
    assert forall j :: 0 <= j < |s.tabs| ==> o.tabs[j] == s.tabs[j] && s.tabs[j].path.text != p.text;
    assert FindTab(o.tabs, tab) == Some(|s.tabs|);
    assert o.tabs[..|s.tabs|] + o.tabs[|s.tabs| + 1..] == s.tabs;
  }

  // ---------------------------------------------------------------------
  // The component, its fields updated by `setState`

  class App {
    var gamefile: Option<GamefileRef>
    var undo: seq<GamefileRef>
    var tabs: seq<Tab>
    var tabsId: nat
    var current: Option<PathRef>
    var error: Option<Error>
    var nextId: nat

    function State(): AppState
      reads this
    {
      AppState(gamefile, undo, tabs, tabsId, current, error, nextId)
    }

    /** No archive, empty undo stack, no tabs, no current tab. */
    constructor ()
      ensures State() == AppState(None, [], [], 0, None, None, 1)
      ensures Valid(State())
    {
      gamefile := None;
      undo := [];
      tabs := [];
      tabsId := 0;
      current := None;
      error := None;
      nextId := 1;
    }

    method ShowError(e: Error)
      modifies this
      ensures State() == WithError(old(State()), e)
    {
      error := Some(e);
    }

    method Undo()
      modifies this
      ensures State() == Undone(old(State()))
    {
      if |undo| == 0 {
        return;
      }
      var stack := undo;
      var last := stack[|stack| - 1];
      stack := stack[..|stack| - 1];
      gamefile := Some(last);
      undo := stack;
    }

    /** One attempt's `setState`: compare and, when nothing moved, swap. */
    method TryCommit(snap: Snapshot, reply: Reply) returns (success: bool)
      modifies this
      ensures (success, State()) == Attempted(old(State()), snap, reply)
    {
      if gamefile == Some(snap.gamefile) && (reply.tabs.None? || tabsId == snap.tabsId) {
        undo := undo + [gamefile.value];
        gamefile := Some(reply.gamefile);
        if reply.tabs.Some? {
          var es := reply.tabs.value;
          tabs := Minted(es, nextId);
          tabsId := nextId + |es|;
          nextId := nextId + |es| + 1;
        }
        success := true;
      } else {
        success := false;
      }
    }

    /** Whatever else runs while the callback is pending. */
    method Interfere(r: Rival)
      modifies this
      ensures State() == Interleaved(old(State()), r)
    {
      match r
      case Quiet =>
      case RivalEdit(g) =>
        if gamefile.Some? {
          var _ := TryCommit(Snapshot(gamefile.value, tabs, tabsId), Reply(g, None));
        }
      case RivalUndo => Undo();
      case RivalTabs(es) =>
        tabs := Minted(es, nextId);
        tabsId := nextId + |es|;
        nextId := nextId + |es| + 1;
    }

    /** `edit_gamefile`: the retry loop of at most `MaxAttempts` compare-and-swap attempts. */
    method EditGamefile(cb: Callback, rivals: seq<Rival>) returns (r: Result<EditEnd>)
      modifies this
      ensures (r, State()) == EditFrom(old(State()), cb, rivals, 0)
    {
      ghost var goal := EditFrom(State(), cb, rivals, 0);
      var i := 0;
      while i < MaxAttempts
        invariant 0 <= i <= MaxAttempts
        invariant EditFrom(State(), cb, rivals, i) == goal
      {
        if gamefile.None? {
          ShowError(NoGamefile);
          return Err(NoGamefile);
        }
        var snap := Snapshot(gamefile.value, tabs, tabsId);
        var replacement := cb(snap.gamefile, snap.tabs);
        if replacement.Err? {
          ShowError(replacement.error);
          return Err(replacement.error);
        }
        if replacement.value.None? {
          return Ok(Cancelled);
        }
        Interfere(RivalAt(rivals, i));
        var success := TryCommit(snap, replacement.value.value);
        if success {
          return Ok(Done);
        }
        i := i + 1;
      }
      ShowError(EditConflict);
      return Err(EditConflict);
    }

    /** `open_file`: scan for a tab printing the same address, else append one. */
    method OpenFile(path: PathRef)
      modifies this
      ensures State() == Opened(old(State()), path)
    {
      var ts := tabs;
      var p := path;
      var i := 0;
      while i < |ts| && ts[i].path.text != path.text
        invariant 0 <= i <= |ts| && ts == tabs
        invariant forall j :: 0 <= j < i ==> ts[j].path.text != path.text
      {
        i := i + 1;
      }
      if i < |ts| {
        assert FindByText(ts, path.text) == Some(i);
        p := ts[i].path;
      } else {
        ts := ts + [Tab(nextId, path, false, "")];
        tabs := ts;
        tabsId := nextId + 1;
        nextId := nextId + 2;
      }
      current := Some(p);
    }

    /** `set_tab_properties`: copy the list, replace the first tab holding this address object. */
    method SetTabProperties(path: PathRef, title: Option<string>, ready: Option<bool>)
      modifies this
      ensures State() == Relabelled(old(State()), path, title, ready)
    {
      var ts := tabs;
      var i := 0;
      while i < |ts|
        invariant 0 <= i <= |ts| && ts == tabs
        invariant forall j :: 0 <= j < i ==> ts[j].path != path
      {
        if ts[i].path == path {
          assert FindByPath(ts, path) == Some(i);
          ts := ts[i := Tab(nextId, ts[i].path, ready.GetOr(ts[i].ready), title.GetOr(ts[i].title))];
          tabs := ts;
          tabsId := nextId + 1;
          nextId := nextId + 2;
          return;
        }
        i := i + 1;
      }
    }

    /** The close button: find the tab object, splice it out of a copy, clear the current tab if it was this one. */
    method CloseTab(tab: Tab)
      modifies this
      ensures State() == Closed(old(State()), tab)
    {
      var i := 0;
      while i < |tabs|
        invariant 0 <= i <= |tabs|
        invariant forall j :: 0 <= j < i ==> tabs[j] != tab
      {
        if tabs[i] == tab {
          assert FindTab(tabs, tab) == Some(i);
          var without := tabs[..i] + tabs[i + 1..];
          tabs := without;
          tabsId := nextId;
          nextId := nextId + 1;
          if current == Some(tab.path) {
            current := None;
          }
          return;
        }
        i := i + 1;
      }
    }
  }
}
