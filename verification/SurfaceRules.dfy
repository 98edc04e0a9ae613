/** Which surface shows which session: the rules the steps of `apps/vscode/src/extension.ts` keep between the Agent panel
    and the editor tabs. A step is the synchronous part of one callback; what a callback does after an `await` is a step
    of its own. */
module SurfaceRules {
  import opened Options

  /** A past conversation is shown read-only; none is the current one. */
  datatype SessionRef = SessionRef(hostId: string, sessionId: string, cwd: Option<string>, conversation: Option<int>)

  datatype Key = Key(hostId: string, sessionId: string, conversation: Option<int>)

  function KeyOf(ref: SessionRef): Key {
    Key(ref.hostId, ref.sessionId, ref.conversation)
  }

  /** `focused` is the session of the focused tab, none where the panel is focused. `remembered` is what the workspace
      keeps of the panel for the next window. */
  datatype Surfaces = Surfaces(
    panel: Option<SessionRef>, held: Option<SessionRef>, tabs: seq<SessionRef>, focused: Option<SessionRef>,
    remembered: Option<SessionRef>)

  datatype Target = Editor | EditorBeside

  /** References arrive as the extension resolves them: none for a host that is gone, and without a conversation where
      the one asked for is the current one. */
  datatype Event =
    | Select(ref: Option<SessionRef>, target: Option<Target>)
    | Move(tab: nat)
    | Close(tab: nat)
    | Delete(hostId: string, sessionId: string)
    | Deserialize(ref: Option<SessionRef>, active: bool)
    | FocusHeld
    | FocusTab(tab: nat)
    | FocusPanel

  predicate Shows(session: Option<SessionRef>, key: Key) {
    session.Some? && KeyOf(session.value) == key
  }

  predicate OnSession(ref: SessionRef, hostId: string, sessionId: string) {
    ref.hostId == hostId && ref.sessionId == sessionId
  }

  /** The first tab that holds the key; their number where none does. */
  function TabFor(tabs: seq<SessionRef>, key: Key): (r: nat)
    ensures r <= |tabs|
    ensures r < |tabs| ==> KeyOf(tabs[r]) == key
    ensures forall i :: 0 <= i < r ==> KeyOf(tabs[i]) != key
  {
    if tabs == [] || KeyOf(tabs[0]) == key then 0 else 1 + TabFor(tabs[1..], key)
  }

  // ----- the steps

  function Remember(session: Option<SessionRef>): Option<SessionRef> {
    if session.Some? then Some(session.value.(conversation := None)) else None
  }

  function ShowInPanel(s: Surfaces, session: Option<SessionRef>): Surfaces {
    s.(panel := session, held := None, remembered := Remember(session))
  }

  function Held(s: Surfaces, ref: SessionRef): Surfaces {
    s.(panel := None, held := Some(ref), remembered := None)
  }

  function TabOpened(s: Surfaces, ref: SessionRef): Surfaces {
    var s' := if Shows(s.panel, KeyOf(ref)) then Held(s, ref) else s;
    s'.(tabs := s.tabs + [ref])
  }

  function TabRemoved(s: Surfaces, i: nat): Surfaces
    requires i < |s.tabs|
  {
    s.(tabs := s.tabs[..i] + s.tabs[i + 1..], focused := if s.focused == Some(s.tabs[i]) then None else s.focused)
  }

  function Without(tabs: seq<SessionRef>, hostId: string, sessionId: string): (r: seq<SessionRef>)
    ensures forall ref :: ref in r <==> ref in tabs && !OnSession(ref, hostId, sessionId)
  {
    if tabs == [] then
      []
    else
      var front, last := Without(tabs[..|tabs| - 1], hostId, sessionId), tabs[|tabs| - 1];
      assert tabs == tabs[..|tabs| - 1] + [last];
      if OnSession(last, hostId, sessionId) then front else front + [last]
  }

  function SessionGone(s: Surfaces, hostId: string, sessionId: string): Surfaces {
    var focusGone := s.focused.Some? && OnSession(s.focused.value, hostId, sessionId);
    s.(tabs := Without(s.tabs, hostId, sessionId), focused := if focusGone then None else s.focused)
  }

  function Next(s: Surfaces, e: Event): Surfaces {
    match e
    case Select(None, _) => s
    case Select(Some(ref), target) =>
      var tab := TabFor(s.tabs, KeyOf(ref));
      if tab < |s.tabs| then s.(focused := Some(s.tabs[tab]))
      else if target.Some? || ref.conversation.Some? then TabOpened(s, ref).(focused := Some(ref))
      else ShowInPanel(s, Some(ref))
    case Move(i) =>
      if i < |s.tabs| && s.tabs[i].conversation.None? then ShowInPanel(TabRemoved(s, i), Some(s.tabs[i])) else s
    case Close(i) =>
      if i >= |s.tabs| then s
      else if s.tabs[i].conversation.None? && Shows(s.held, KeyOf(s.tabs[i])) then
        ShowInPanel(TabRemoved(s, i), Some(s.tabs[i]))
      else TabRemoved(s, i)
    case Delete(hostId, sessionId) =>
      var key, s' := Key(hostId, sessionId, None), SessionGone(s, hostId, sessionId);
      if Shows(s.panel, key) || Shows(s.held, key) then ShowInPanel(s', None) else s'
    case Deserialize(None, _) => s
    case Deserialize(Some(ref), active) =>
      if TabFor(s.tabs, KeyOf(ref)) < |s.tabs| then s
      else TabOpened(s, ref).(focused := if active then Some(ref) else s.focused)
    case FocusHeld =>
      if s.held.None? then s
      else
        var tab := TabFor(s.tabs, Key(s.held.value.hostId, s.held.value.sessionId, None));
        if tab < |s.tabs| then s.(focused := Some(s.tabs[tab])) else s
    case FocusTab(i) => if i < |s.tabs| then s.(focused := Some(s.tabs[i])) else s
    case FocusPanel => s.(focused := None)
  }

  /** A window comes up with no tabs; the panel takes on what was remembered, without materializing. */
  function Start(remembered: Option<SessionRef>): Surfaces {
    Restored(Surfaces(None, None, [], None, None), remembered)
  }

  function Restored(s: Surfaces, remembered: Option<SessionRef>): Surfaces {
    if s.panel.Some? || remembered.None? then s else s.(panel := remembered, remembered := Remember(remembered))
  }

  function Run(s: Surfaces, events: seq<Event>): Surfaces {
    if events == [] then s else Next(Run(s, events[..|events| - 1]), events[|events| - 1])
  }

  // ----- what every run keeps

  ghost predicate NoTabHolds(tabs: seq<SessionRef>, key: Key) {
    forall i :: 0 <= i < |tabs| ==> KeyOf(tabs[i]) != key
  }

  ghost predicate TabsDiffer(tabs: seq<SessionRef>) {
    forall i, j :: 0 <= i < j < |tabs| ==> KeyOf(tabs[i]) != KeyOf(tabs[j])
  }

  /** The panel shows a current conversation that no tab holds. */
  ghost predicate PanelApart(s: Surfaces) {
    s.panel.Some? ==> s.panel.value.conversation.None? && NoTabHolds(s.tabs, KeyOf(s.panel.value))
  }

  /** A held reference means the panel is empty and waits for a tab that is there. */
  ghost predicate HeldByATab(s: Surfaces) {
    s.held.Some? ==>
      s.panel.None? && s.held.value.conversation.None? && !NoTabHolds(s.tabs, KeyOf(s.held.value))
  }

  ghost predicate FocusIsThere(s: Surfaces) {
    s.focused.Some? ==> s.focused.value in s.tabs
  }

  ghost predicate Exclusive(s: Surfaces) {
    TabsDiffer(s.tabs) && PanelApart(s) && HeldByATab(s) && FocusIsThere(s) && s.remembered == s.panel
  }

  lemma {:induction false} RemovedTabs(tabs: seq<SessionRef>, i: nat)
    requires i < |tabs| && TabsDiffer(tabs)
    ensures var rest := tabs[..i] + tabs[i + 1..];
            && TabsDiffer(rest) && NoTabHolds(rest, KeyOf(tabs[i]))
            && (forall key :: NoTabHolds(tabs, key) ==> NoTabHolds(rest, key))
            && (forall key :: !NoTabHolds(tabs, key) && key != KeyOf(tabs[i]) ==> !NoTabHolds(rest, key))
            && (forall ref :: ref in tabs && ref != tabs[i] ==> ref in rest)
  {
    var rest := tabs[..i] + tabs[i + 1..];
    assert forall k :: 0 <= k < |rest| ==> rest[k] == tabs[if k < i then k else k + 1];
    forall key | !NoTabHolds(tabs, key) && key != KeyOf(tabs[i])
      ensures !NoTabHolds(rest, key)
    {
      var j :| 0 <= j < |tabs| && KeyOf(tabs[j]) == key;
      assert rest[if j < i then j else j - 1] == tabs[j];
    }
    forall ref | ref in tabs && ref != tabs[i]
      ensures ref in rest
    {
      var j :| 0 <= j < |tabs| && tabs[j] == ref;
      assert rest[if j < i then j else j - 1] == tabs[j];
    }
  }

  lemma {:induction false} RemainingTabs(tabs: seq<SessionRef>, hostId: string, sessionId: string)
    requires TabsDiffer(tabs)
    ensures TabsDiffer(Without(tabs, hostId, sessionId))
  {
    if tabs != [] {
      var front, last := tabs[..|tabs| - 1], tabs[|tabs| - 1];
      RemainingTabs(front, hostId, sessionId);
      var rest := Without(front, hostId, sessionId);
      forall i | 0 <= i < |rest|
        ensures KeyOf(rest[i]) != KeyOf(last)
      {
        assert rest[i] in front;
      }
    }
  }

  lemma TabRemovedKeeps(s: Surfaces, i: nat)
    requires Exclusive(s) && i < |s.tabs|
    ensures TabsDiffer(TabRemoved(s, i).tabs) && PanelApart(TabRemoved(s, i)) && FocusIsThere(TabRemoved(s, i))
    ensures NoTabHolds(TabRemoved(s, i).tabs, KeyOf(s.tabs[i]))
    ensures !Shows(s.held, KeyOf(s.tabs[i])) ==> HeldByATab(TabRemoved(s, i))
  {
    RemovedTabs(s.tabs, i);
  }

  lemma TabOpenedKeeps(s: Surfaces, ref: SessionRef)
    requires Exclusive(s) && NoTabHolds(s.tabs, KeyOf(ref))
    ensures Exclusive(TabOpened(s, ref)) && Exclusive(TabOpened(s, ref).(focused := Some(ref)))
  {
    var tabs := s.tabs + [ref];
    assert KeyOf(tabs[|s.tabs|]) == KeyOf(ref);
    assert forall i :: 0 <= i < |s.tabs| ==> tabs[i] == s.tabs[i];
    if s.held.Some? {
      var j :| 0 <= j < |s.tabs| && KeyOf(s.tabs[j]) == KeyOf(s.held.value);
      assert KeyOf(tabs[j]) == KeyOf(s.held.value);
    }
  }

  lemma SessionGoneKeeps(s: Surfaces, hostId: string, sessionId: string)
    requires Exclusive(s)
    ensures TabsDiffer(SessionGone(s, hostId, sessionId).tabs)
    ensures PanelApart(SessionGone(s, hostId, sessionId)) && FocusIsThere(SessionGone(s, hostId, sessionId))
    ensures !Shows(s.held, Key(hostId, sessionId, None)) ==> HeldByATab(SessionGone(s, hostId, sessionId))
  {
    var rest := Without(s.tabs, hostId, sessionId);
    RemainingTabs(s.tabs, hostId, sessionId);
    assert forall i :: 0 <= i < |rest| ==> rest[i] in s.tabs;
    if s.held.Some? && !Shows(s.held, Key(hostId, sessionId, None)) {
      var j :| 0 <= j < |s.tabs| && KeyOf(s.tabs[j]) == KeyOf(s.held.value);
      assert s.tabs[j] in rest;
      var k :| 0 <= k < |rest| && rest[k] == s.tabs[j];
      assert KeyOf(rest[k]) == KeyOf(s.held.value);
    }
  }

  /** Every step keeps the surfaces exclusive. */
  lemma NextKeepsExclusive(s: Surfaces, e: Event)
    requires Exclusive(s)
    ensures Exclusive(Next(s, e))
  {
    match e
    case Select(Some(ref), target) =>
      if TabFor(s.tabs, KeyOf(ref)) == |s.tabs| && (target.Some? || ref.conversation.Some?) {
        TabOpenedKeeps(s, ref);
      }
    case Move(i) =>
      if i < |s.tabs| {
        TabRemovedKeeps(s, i);
      }
    case Close(i) =>
      if i < |s.tabs| {
        TabRemovedKeeps(s, i);
      }
    case Delete(hostId, sessionId) => SessionGoneKeeps(s, hostId, sessionId);
    case Deserialize(Some(ref), _) =>
      if TabFor(s.tabs, KeyOf(ref)) == |s.tabs| {
        TabOpenedKeeps(s, ref);
      }
    case _ =>
  }

  /** In every run of a window, no session is on two surfaces: no two tabs hold the same conversation, the panel shows no
      past one and none a tab holds, and it waits only for a tab that is there. */
  lemma {:induction false} RunsAreExclusive(remembered: Option<SessionRef>, events: seq<Event>)
    requires remembered.Some? ==> remembered.value.conversation.None?
    ensures Exclusive(Run(Start(remembered), events))
  {
    hide Next, Exclusive;
    if events == [] {
      StartIsExclusive(remembered);
    } else {
      RunsAreExclusive(remembered, events[..|events| - 1]);
      NextKeepsExclusive(Run(Start(remembered), events[..|events| - 1]), events[|events| - 1]);
    }
  }

  lemma StartIsExclusive(remembered: Option<SessionRef>)
    requires remembered.Some? ==> remembered.value.conversation.None?
    ensures Exclusive(Start(remembered))
  {
  }

  /** Taking a remembered session on asks no tab, so it keeps the surfaces exclusive exactly when the panel already has a
      session, or no tab holds the remembered one and none is waited for. */
  lemma RestoringIsExclusiveIff(s: Surfaces, ref: SessionRef)
    requires Exclusive(s) && ref.conversation.None?
    ensures Exclusive(Restored(s, Some(ref)))
            <==> s.panel.Some? || (s.held.None? && NoTabHolds(s.tabs, KeyOf(ref)))
  {
  }

  // ----- what the steps are for

  /** How many surfaces show a conversation. */
  function Showing(s: Surfaces, key: Key): nat {
    (if Shows(s.panel, key) then 1 else 0) + |TabsOn(s.tabs, key)|
  }

  function TabsOn(tabs: seq<SessionRef>, key: Key): (r: seq<SessionRef>)
    ensures forall i :: 0 <= i < |r| ==> r[i] in tabs && KeyOf(r[i]) == key
  {
    if tabs == [] then [] else (if KeyOf(tabs[0]) == key then [tabs[0]] else []) + TabsOn(tabs[1..], key)
  }

  lemma {:induction false} AtMostOneTab(tabs: seq<SessionRef>, key: Key)
    requires TabsDiffer(tabs)
    ensures |TabsOn(tabs, key)| == if NoTabHolds(tabs, key) then 0 else 1
  {
    if tabs != [] {
      AtMostOneTab(tabs[1..], key);
      if KeyOf(tabs[0]) == key {
        assert NoTabHolds(tabs[1..], key);
      } else if !NoTabHolds(tabs, key) {
        var i :| 0 <= i < |tabs| && KeyOf(tabs[i]) == key;
        assert tabs[1..][i - 1] == tabs[i];
      }
    }
  }

  /** Exclusive surfaces show every conversation at most once. */
  lemma ShownAtMostOnce(s: Surfaces, key: Key)
    requires Exclusive(s)
    ensures Showing(s, key) <= 1
  {
    AtMostOneTab(s.tabs, key);
  }

  /** Keys tell conversations apart: a current one from every past one, and sessions by host and id. */
  lemma KeysTell(a: SessionRef, b: SessionRef)
    ensures KeyOf(a) == KeyOf(b) <==> a.hostId == b.hostId && a.sessionId == b.sessionId && a.conversation == b.conversation
  {
  }

  /** What the workspace remembers of a session is enough to find it again, at its current conversation. */
  lemma RememberedIsCurrent(ref: SessionRef)
    ensures Remember(Some(ref)) == Some(SessionRef(ref.hostId, ref.sessionId, ref.cwd, None)) && Remember(None) == None
  {
  }

  lemma {:induction false} TabsOnAppend(a: seq<SessionRef>, b: seq<SessionRef>, key: Key)
    ensures TabsOn(a + b, key) == TabsOn(a, key) + TabsOn(b, key)
  {
    if a == [] {
      assert a + b == b;
    } else {
      hide TabsOn, KeyOf;
      assert (a + b)[1..] == a[1..] + b;
      TabsOnAppend(a[1..], b, key);
      FirstTab(a, key);
      FirstTab(a + b, key);
    }
  }

  lemma FirstTab(tabs: seq<SessionRef>, key: Key)
    requires tabs != []
    ensures TabsOn(tabs, key) == (if KeyOf(tabs[0]) == key then [tabs[0]] else []) + TabsOn(tabs[1..], key)
  {
  }

  lemma {:induction false} TabsOnOne(ref: SessionRef, key: Key)
    ensures |TabsOn([ref], key)| == if KeyOf(ref) == key then 1 else 0
  {
    assert [ref][1..] == [];
  }

  /** Tabs without one of them. */
  lemma {:induction false} ShownWithout(tabs: seq<SessionRef>, i: nat, key: Key)
    requires i < |tabs|
    ensures |TabsOn(tabs[..i] + tabs[i + 1..], key)| == |TabsOn(tabs, key)| - if KeyOf(tabs[i]) == key then 1 else 0
  {
    TabsOnAppend(tabs[..i], tabs[i + 1..], key);
    TabsOnAppend(tabs[..i], [tabs[i]], key);
    TabsOnAppend(tabs[..i] + [tabs[i]], tabs[i + 1..], key);
    TabsOnOne(tabs[i], key);
    assert tabs == tabs[..i] + [tabs[i]] + tabs[i + 1..];
  }

  /** Every conversation but these is shown as often after as before. */
  ghost predicate OthersStay(s: Surfaces, s': Surfaces, keys: set<Key>) {
    forall key :: key !in keys ==> Showing(s', key) == Showing(s, key)
  }

  /** What the panel shows. */
  function PanelKeys(s: Surfaces): set<Key> {
    if s.panel.Some? then {KeyOf(s.panel.value)} else {}
  }

  /** Selecting a session shows it on exactly one surface: the tab that has it, else the tab asked for, else the panel,
      unless the conversation is a past one. A tab is focused at once. No other session moves, but for the one the panel
      gives up for it; and a panel that loses its session to a tab waits for that tab. */
  lemma {:induction false} SelectingShows(s: Surfaces, ref: SessionRef, target: Option<Target>)
    requires Exclusive(s)
    ensures var s' := Next(s, Select(Some(ref), target));
            && Showing(s', KeyOf(ref)) == 1
            && (if NoTabHolds(s.tabs, KeyOf(ref)) && target.None? && ref.conversation.None? then
                  && s'.panel == Some(ref) && s'.held.None? && s'.tabs == s.tabs && s'.focused == s.focused
                  && OthersStay(s, s', {KeyOf(ref)} + PanelKeys(s))
                else
                  && s'.tabs == (if NoTabHolds(s.tabs, KeyOf(ref)) then s.tabs + [ref] else s.tabs)
                  && Shows(s'.focused, KeyOf(ref)) && OthersStay(s, s', {KeyOf(ref)})
                  && (if Shows(s.panel, KeyOf(ref)) then s'.panel.None? && s'.held == Some(ref)
                      else s'.panel == s.panel && s'.held == s.held))
  {
    var s' := Next(s, Select(Some(ref), target));
    NextKeepsExclusive(s, Select(Some(ref), target));
    AtMostOneTab(s'.tabs, KeyOf(ref));
    var tab := TabFor(s.tabs, KeyOf(ref));
    if tab < |s.tabs| {
      assert KeyOf(s'.tabs[tab]) == KeyOf(ref);
    } else if target.Some? || ref.conversation.Some? {
      assert KeyOf(s'.tabs[|s.tabs|]) == KeyOf(ref);
      forall key | key != KeyOf(ref)
        ensures Showing(s', key) == Showing(s, key)
      {
        TabsOnAppend(s.tabs, [ref], key);
        TabsOnOne(ref, key);
      }
    }
  }

  /** Moving a tab on a current conversation to the panel shows that conversation there and nowhere else; the tab is closed,
      and only the session the panel gives up goes. A tab on a past conversation stays. */
  lemma {:induction false} MovingShows(s: Surfaces, i: nat)
    requires Exclusive(s) && i < |s.tabs|
    ensures var ref, s' := s.tabs[i], Next(s, Move(i));
            if ref.conversation.Some? then s' == s
            else
              && Showing(s', KeyOf(ref)) == 1
              && s'.panel == Some(ref) && s'.held.None? && s'.tabs == s.tabs[..i] + s.tabs[i + 1..]
              && OthersStay(s, s', {KeyOf(ref)} + PanelKeys(s))
  {
    var ref, s' := s.tabs[i], Next(s, Move(i));
    if ref.conversation.None? {
      NextKeepsExclusive(s, Move(i));
      AtMostOneTab(s'.tabs, KeyOf(ref));
      forall key
        ensures |TabsOn(s'.tabs, key)| == |TabsOn(s.tabs, key)| - if KeyOf(ref) == key then 1 else 0
      {
        ShownWithout(s.tabs, i, key);
      }
    }
  }

  /** Closing a tab takes its conversation off the screen, unless the panel waits for it and takes it back. Nothing else
      moves. */
  lemma {:induction false} ClosingShows(s: Surfaces, i: nat)
    requires Exclusive(s) && i < |s.tabs|
    ensures var ref, s' := s.tabs[i], Next(s, Close(i));
            && s'.tabs == s.tabs[..i] + s.tabs[i + 1..]
            && Showing(s', KeyOf(ref)) == (if Shows(s.held, KeyOf(ref)) then 1 else 0)
            && (if Shows(s.held, KeyOf(ref)) then s'.panel == Some(ref) && s'.held.None?
                else s'.panel == s.panel && s'.held == s.held)
            && OthersStay(s, s', {KeyOf(ref)})
  {
    var ref, s' := s.tabs[i], Next(s, Close(i));
    AtMostOneTab(s.tabs, KeyOf(ref));
    forall key
      ensures |TabsOn(s'.tabs, key)| == |TabsOn(s.tabs, key)| - if KeyOf(ref) == key then 1 else 0
    {
      ShownWithout(s.tabs, i, key);
    }
  }

  lemma {:induction false} WithoutAppend(a: seq<SessionRef>, b: seq<SessionRef>, hostId: string, sessionId: string)
    ensures Without(a + b, hostId, sessionId) == Without(a, hostId, sessionId) + Without(b, hostId, sessionId)
  {
    if b == [] {
      assert a + b == a;
    } else {
      assert (a + b)[..|a + b| - 1] == a + b[..|b| - 1];
      WithoutAppend(a, b[..|b| - 1], hostId, sessionId);
    }
  }

  /** The tabs that stay, in the order they had. */
  lemma {:induction false} WithoutOne(ref: SessionRef, hostId: string, sessionId: string)
    ensures Without([ref], hostId, sessionId)
         == if ref.hostId == hostId && ref.sessionId == sessionId then [] else [ref]
  {
    assert [ref][..0] == [];
  }

  lemma {:induction false} ShownAfterDeletion(tabs: seq<SessionRef>, hostId: string, sessionId: string, key: Key)
    ensures |TabsOn(Without(tabs, hostId, sessionId), key)|
         == if key.hostId == hostId && key.sessionId == sessionId then 0 else |TabsOn(tabs, key)|
  {
    if tabs != [] {
      var first, rest := tabs[0], tabs[1..];
      assert tabs == [first] + rest;
      WithoutAppend([first], rest, hostId, sessionId);
      WithoutOne(first, hostId, sessionId);
      ShownAfterDeletion(rest, hostId, sessionId, key);
      TabsOnAppend([first], rest, key);
      TabsOnAppend(Without([first], hostId, sessionId), Without(rest, hostId, sessionId), key);
      TabsOnOne(first, key);
    }
  }

  /** Deleting a session takes every conversation of it off the screen and leaves every other where it is. */
  lemma {:induction false} DeletingLeavesOthers(s: Surfaces, hostId: string, sessionId: string)
    requires Exclusive(s)
    ensures var s' := Next(s, Delete(hostId, sessionId));
            && (forall key :: Showing(s', key)
                              == if key.hostId == hostId && key.sessionId == sessionId then 0 else Showing(s, key))
            && (s.panel.Some? && (s.panel.value.hostId != hostId || s.panel.value.sessionId != sessionId) ==> s'.panel == s.panel)
            && (s.held.Some? && (s.held.value.hostId != hostId || s.held.value.sessionId != sessionId) ==> s'.held == s.held)
  {
    var s' := Next(s, Delete(hostId, sessionId));
    forall key
      ensures |TabsOn(s'.tabs, key)| == if key.hostId == hostId && key.sessionId == sessionId then 0 else |TabsOn(s.tabs, key)|
    {
      ShownAfterDeletion(s.tabs, hostId, sessionId, key);
    }
  }

  /** A tab that VS Code hands back is taken on exactly where no tab has its conversation, behind the others, and takes it
      from a panel that shows it. */
  lemma {:induction false} DeserializingShows(s: Surfaces, ref: SessionRef, active: bool)
    requires Exclusive(s)
    ensures var s' := Next(s, Deserialize(Some(ref), active));
            && Showing(s', KeyOf(ref)) == 1 && OthersStay(s, s', {KeyOf(ref)})
            && (if NoTabHolds(s.tabs, KeyOf(ref)) then
                  && s'.tabs == s.tabs + [ref] && s'.focused == (if active then Some(ref) else s.focused)
                  && (if Shows(s.panel, KeyOf(ref)) then s'.panel.None? && s'.held == Some(ref)
                      else s'.panel == s.panel && s'.held == s.held)
                else s' == s)
  {
    var s' := Next(s, Deserialize(Some(ref), active));
    NextKeepsExclusive(s, Deserialize(Some(ref), active));
    AtMostOneTab(s'.tabs, KeyOf(ref));
    if NoTabHolds(s.tabs, KeyOf(ref)) {
      assert KeyOf(s'.tabs[|s.tabs|]) == KeyOf(ref);
      forall key | key != KeyOf(ref)
        ensures Showing(s', key) == Showing(s, key)
      {
        TabsOnAppend(s.tabs, [ref], key);
        TabsOnOne(ref, key);
      }
    }
  }

  /** Focus events move the focus and nothing else: to the tab itself, to the tab the panel waits for, to the panel. */
  lemma {:induction false} FocusOnlyMoves(s: Surfaces, i: nat)
    requires Exclusive(s)
    ensures Next(s, FocusPanel) == s.(focused := None)
    ensures Next(s, FocusTab(i)) == if i < |s.tabs| then s.(focused := Some(s.tabs[i])) else s
    ensures var s' := Next(s, FocusHeld);
            s' == s.(focused := s'.focused)
            && (if s.held.Some? then Shows(s'.focused, KeyOf(s.held.value)) else s'.focused == s.focused)
  {
    if s.held.Some? {
      assert Key(s.held.value.hostId, s.held.value.sessionId, None) == KeyOf(s.held.value);
    }
  }

  /** References that did not resolve, and tabs that are gone, change nothing. */
  lemma NothingHappens(s: Surfaces, target: Option<Target>, active: bool, i: nat)
    requires i >= |s.tabs|
    ensures Next(s, Select(None, target)) == s && Next(s, Deserialize(None, active)) == s
    ensures Next(s, Move(i)) == s && Next(s, Close(i)) == s
  {
  }

  /** Focus is sticky: closing, moving and deleting leave it where it is, or give it to the panel where its tab is gone. */
  lemma FocusIsSticky(s: Surfaces, e: Event)
    requires Exclusive(s) && (e.Move? || e.Close? || e.Delete?)
    ensures Next(s, e).focused == if s.focused.Some? && s.focused.value in Next(s, e).tabs then s.focused else None
  {
    if e.Delete? {
      SessionGoneKeeps(s, e.hostId, e.sessionId);
    } else if e.tab < |s.tabs| {
      TabRemovedKeeps(s, e.tab);
      RemovedTabs(s.tabs, e.tab);
    }
  }

  /** A deleted session is nowhere: no conversation of it is shown, and nothing waits for it. */
  lemma {:induction false} DeletedIsNowhere(s: Surfaces, hostId: string, sessionId: string, conversation: Option<int>)
    requires Exclusive(s)
    ensures var s', key := Next(s, Delete(hostId, sessionId)), Key(hostId, sessionId, conversation);
            Showing(s', key) == 0 && !Shows(s'.held, key)
  {
    NextKeepsExclusive(s, Delete(hostId, sessionId));
    var s', key := Next(s, Delete(hostId, sessionId)), Key(hostId, sessionId, conversation);
    AtMostOneTab(s'.tabs, key);
    assert forall i :: 0 <= i < |s'.tabs| ==> s'.tabs[i] in s'.tabs;
  }

  /** Opening the panel's session in a tab and closing that tab gives the session back to the panel. */
  lemma {:induction false} ClosingHandsBack(s: Surfaces, ref: SessionRef, target: Target)
    requires Exclusive(s) && s.panel.Some? && KeyOf(ref) == KeyOf(s.panel.value)
    ensures var moved := Next(s, Select(Some(ref), Some(target)));
            && moved.panel.None? && moved.held == Some(ref)
            && Next(moved, Close(|s.tabs|)) == s.(panel := Some(ref), held := None, remembered := Some(ref), focused := None)
  {
    var moved := Next(s, Select(Some(ref), Some(target)));
    assert moved.tabs[..|s.tabs|] + moved.tabs[|s.tabs| + 1..] == s.tabs;
    assert ref.(conversation := None) == ref;
  }

  /** What ends the waiting for a tab: the tab closing, the session going, or the panel taking a session on. */
  predicate EndsHolding(s: Surfaces, e: Event, held: Key) {
    match e
    case Select(Some(ref), target) =>
      target.None? && ref.conversation.None? && TabFor(s.tabs, KeyOf(ref)) == |s.tabs|
    case Move(i) => i < |s.tabs| && s.tabs[i].conversation.None?
    case Close(i) => i < |s.tabs| && KeyOf(s.tabs[i]) == held
    case Delete(hostId, sessionId) => held == Key(hostId, sessionId, None)
    case _ => false
  }

  /** The panel goes on waiting through every other step, and through no more than these. */
  lemma HeldUntil(s: Surfaces, e: Event)
    requires Exclusive(s) && s.held.Some?
    ensures Next(s, e).held == s.held <==> !EndsHolding(s, e, KeyOf(s.held.value))
  {
    if e.Close? && e.tab < |s.tabs| {
      assert KeyOf(s.tabs[e.tab]) == KeyOf(s.held.value) ==> s.tabs[e.tab].conversation.None?;
    }
  }

  // ----- a window reload

  /** What a new window does with what the last one left: the panel first, then the tabs in the order VS Code hands them
      back, the active editor among them as active. */
  function Reloaded(remembered: Option<SessionRef>, tabs: seq<SessionRef>, active: Option<SessionRef>): Surfaces {
    if tabs == [] then
      Start(remembered)
    else
      var last := tabs[|tabs| - 1];
      Next(Reloaded(remembered, tabs[..|tabs| - 1], active), Deserialize(Some(last), active == Some(last)))
  }

  function FocusAmong(tabs: seq<SessionRef>, active: Option<SessionRef>): Option<SessionRef> {
    if active.Some? && active.value in tabs then active else None
  }

  lemma TabComesBack(s: Surfaces, ref: SessionRef, active: bool)
    requires NoTabHolds(s.tabs, KeyOf(ref)) && !Shows(s.panel, KeyOf(ref))
    ensures Next(s, Deserialize(Some(ref), active))
         == s.(tabs := s.tabs + [ref], focused := if active then Some(ref) else s.focused)
  {
  }

  lemma NotLast(remembered: Option<SessionRef>, tabs: seq<SessionRef>)
    requires tabs != [] && (remembered.Some? ==> NoTabHolds(tabs, KeyOf(remembered.value)))
    ensures !Shows(remembered, KeyOf(tabs[|tabs| - 1]))
  {
  }

  lemma {:induction false} ReloadingTabs(remembered: Option<SessionRef>, tabs: seq<SessionRef>, active: Option<SessionRef>)
    requires TabsDiffer(tabs) && (remembered.Some? ==> NoTabHolds(tabs, KeyOf(remembered.value)))
    requires remembered.Some? ==> remembered.value.conversation.None?
    ensures Reloaded(remembered, tabs, active)
         == Surfaces(remembered, None, tabs, FocusAmong(tabs, active), remembered)
  {
    hide Next, Shows;
    if tabs == [] {
      assert remembered.Some? ==> remembered.value.(conversation := None) == remembered.value;
    } else {
      var front, last := tabs[..|tabs| - 1], tabs[|tabs| - 1];
      ReloadingTabs(remembered, front, active);
      TabComesBack(Reloaded(remembered, front, active), last, active == Some(last)) by {
        assert !Shows(remembered, KeyOf(last)) by { NotLast(remembered, tabs); }
      }
      assert front + [last] == tabs;
    }
  }

  lemma TwiceCounts<T>(s: seq<T>, i: nat, j: nat)
    requires i < j < |s| && s[i] == s[j]
    ensures multiset(s)[s[i]] >= 2
  {
    assert s == s[..i] + [s[i]] + s[i + 1..j] + [s[j]] + s[j + 1..];
  }

  lemma {:induction false} CountedOnce(tabs: seq<SessionRef>, ref: SessionRef)
    requires TabsDiffer(tabs)
    ensures multiset(tabs)[ref] <= 1
  {
    if tabs != [] {
      var front, last := tabs[..|tabs| - 1], tabs[|tabs| - 1];
      CountedOnce(front, ref);
      assert tabs == front + [last];
      assert ref == last ==> ref !in front;
    }
  }

  lemma ReorderedTabsDiffer(tabs: seq<SessionRef>, order: seq<SessionRef>)
    requires TabsDiffer(tabs) && multiset(order) == multiset(tabs)
    ensures TabsDiffer(order) && forall ref :: ref in order <==> ref in tabs
  {
    assert forall ref :: ref in order <==> ref in multiset(order);
    assert forall ref :: ref in tabs <==> ref in multiset(tabs);
    forall i, j | 0 <= i < j < |order|
      ensures KeyOf(order[i]) != KeyOf(order[j])
    {
      assert order[i] in tabs && order[j] in tabs;
      CountedOnce(tabs, order[i]);
      if order[i] == order[j] {
        TwiceCounts(order, i, j);
      }
    }
  }

  /** A reload brings the same sessions back to the same surfaces in whatever order the tabs come, with the focus on the
      active tab. What the panel waited for is forgotten, and so is the focus of a tab that is not the active editor. */
  lemma ReloadKeepsTheSurfaces(s: Surfaces, order: seq<SessionRef>, active: Option<SessionRef>)
    requires Exclusive(s) && multiset(order) == multiset(s.tabs)
    ensures Reloaded(s.remembered, order, active) == s.(held := None, tabs := order, focused := FocusAmong(s.tabs, active))
    ensures Reloaded(s.remembered, s.tabs, s.focused) == s.(held := None)
  {
    ReorderedTabsDiffer(s.tabs, order);
    assert forall i :: 0 <= i < |order| ==> order[i] in order;
    ReloadingTabs(s.remembered, order, active);
    ReloadingTabs(s.remembered, s.tabs, s.focused);
  }
}
