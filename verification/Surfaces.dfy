/** The objects behind the rules: tabs (`apps/vscode/src/session-tab.ts`), the panel (`panel.ts`), the registry
    (`surfaces.ts`) and the steps of `extension.ts` that move sessions between them. */
module SessionSurfaces {
  import opened Options
  import opened SurfaceRules

  class Tab {
    const session: SessionRef
    var disposed: bool

    constructor (session: SessionRef)
      ensures this.session == session && !disposed
    {
      this.session := session;
      disposed := false;
    }

    predicate Holds(key: Key) {
      KeyOf(session) == key
    }

    /** The view went away: `closed` fires unless the extension disposed the tab itself, and never twice. */
    method ViewDisposed() returns (closed: bool)
      modifies this
      ensures disposed && closed == !old(disposed)
    {
      closed := !disposed;
      disposed := true;
    }

    method Dispose()
      modifies this
      ensures disposed
    {
      disposed := true;
    }
  }

  class Panel {
    var session: Option<SessionRef>
    var held: Option<SessionRef>
    /** What the workspace is told whenever the session changes. */
    var remembered: Option<SessionRef>

    constructor ()
      ensures session == None && held == None && remembered == None
    {
      session, held, remembered := None, None, None;
    }

    predicate Holds(key: Key)
      reads this
    {
      Shows(session, key)
    }

    predicate HoldsOrHeld(hostId: string, sessionId: string)
      reads this
    {
      Holds(Key(hostId, sessionId, None)) || Shows(held, Key(hostId, sessionId, None))
    }

    method Show(session: Option<SessionRef>)
      modifies this
      ensures this.session == session && held == None && remembered == Remember(session)
    {
      held := None;
      this.session := session;
      remembered := Remember(session);
    }

    method Restore(session: SessionRef)
      modifies this
      ensures held == old(held)
      ensures old(this.session).Some? ==> this.session == old(this.session) && remembered == old(remembered)
      ensures old(this.session).None? ==> this.session == Some(session) && remembered == Remember(Some(session))
    {
      if this.session.Some? {
        return;
      }
      this.session := Some(session);
      remembered := Remember(Some(session));
    }

    method Hold(session: SessionRef)
      modifies this
      ensures this.session == None && held == Some(session) && remembered == None
    {
      held := Some(session);
      this.session := None;
      remembered := None;
    }
  }

  function Refs(tabs: seq<Tab>): (r: seq<SessionRef>)
    ensures |r| == |tabs| && forall i :: 0 <= i < |tabs| ==> r[i] == tabs[i].session
  {
    if tabs == [] then [] else Refs(tabs[..|tabs| - 1]) + [tabs[|tabs| - 1].session]
  }

  /** The tabs in their order, but for some. */
  function Kept(tabs: seq<Tab>, gone: set<Tab>): (r: seq<Tab>)
    ensures forall i :: 0 <= i < |r| ==> r[i] in tabs && r[i] !in gone
    ensures forall i :: 0 <= i < |tabs| && tabs[i] !in gone ==> tabs[i] in r
  {
    if tabs == [] then
      []
    else
      var front, last := Kept(tabs[..|tabs| - 1], gone), tabs[|tabs| - 1];
      assert tabs == tabs[..|tabs| - 1] + [last];
      if last in gone then front else front + [last]
  }

  /** The registry's tabs are a set in the order they were added. */
  class Registry {
    const panel: Panel
    var tabs: seq<Tab>
    /** Null while the panel is focused. */
    var focused: Tab?

    constructor (panel: Panel)
      ensures this.panel == panel && tabs == [] && focused == null
    {
      this.panel := panel;
      tabs, focused := [], null;
    }

    function TabFor(key: Key): (r: Tab?)
      reads this
      ensures var i := SurfaceRules.TabFor(Refs(tabs), key);
              if i < |tabs| then r == tabs[i] else r == null
      ensures if r == null then forall i :: 0 <= i < |tabs| ==> !tabs[i].Holds(key) else r in tabs && r.Holds(key)
    {
      var i := SurfaceRules.TabFor(Refs(tabs), key);
      if i < |tabs| then tabs[i] else null
    }

    method TabsOf(hostId: string, sessionId: string) returns (found: seq<Tab>)
      ensures forall t :: t in found <==> t in tabs && OnSession(t.session, hostId, sessionId)
      ensures Distinct(tabs) ==> Distinct(found)
    {
      found := [];
      for i := 0 to |tabs|
        invariant forall t :: t in found <==> t in tabs[..i] && OnSession(t.session, hostId, sessionId)
        invariant Distinct(tabs) ==> Distinct(found)
      {
        assert tabs[..i + 1] == tabs[..i] + [tabs[i]];
        if OnSession(tabs[i].session, hostId, sessionId) {
          found := found + [tabs[i]];
        }
      }
      assert tabs[..|tabs|] == tabs;
    }

    method Add(tab: Tab)
      modifies this`tabs
      ensures tabs == if tab in old(tabs) then old(tabs) else old(tabs) + [tab]
    {
      if tab !in tabs {
        tabs := tabs + [tab];
      }
    }

    method Remove(tab: Tab)
      modifies this
      ensures tabs == if tab in old(tabs) then Kept(old(tabs), {tab}) else old(tabs)
      ensures focused == if tab in old(tabs) && old(focused) == tab then null else old(focused)
    {
      if tab !in tabs {
        return;
      }
      tabs := Kept(tabs, {tab});
      if focused == tab {
        SetFocused(null);
      }
    }

    method SetFocused(surface: Tab?)
      modifies this`focused
      ensures focused == surface
    {
      focused := surface;
    }
  }

  predicate Distinct(tabs: seq<Tab>) {
    forall i, j :: 0 <= i < j < |tabs| ==> tabs[i] != tabs[j]
  }

  lemma {:induction false} KeptNone(tabs: seq<Tab>, gone: set<Tab>)
    requires forall t :: t in tabs ==> t !in gone
    ensures Kept(tabs, gone) == tabs
  {
    if tabs != [] {
      assert forall t :: t in tabs[..|tabs| - 1] ==> t in tabs;
      KeptNone(tabs[..|tabs| - 1], gone);
      assert tabs == tabs[..|tabs| - 1] + [tabs[|tabs| - 1]];
    }
  }

  lemma {:induction false} KeptLast(tabs: seq<Tab>, gone: set<Tab>)
    requires tabs != []
    ensures var front, last := tabs[..|tabs| - 1], tabs[|tabs| - 1];
            Kept(tabs, gone) == Kept(front, gone) + if last in gone then [] else [last]
  {
  }

  lemma {:induction false} KeptOne(tabs: seq<Tab>, i: nat)
    requires Distinct(tabs) && i < |tabs|
    ensures Kept(tabs, {tabs[i]}) == tabs[..i] + tabs[i + 1..]
  {
    hide Kept;
    var front, last := tabs[..|tabs| - 1], tabs[|tabs| - 1];
    KeptLast(tabs, {tabs[i]});
    if i == |tabs| - 1 {
      KeptNone(front, {tabs[i]});
    } else {
      KeptOne(front, i);
      assert tabs[i + 1..] == front[i + 1..] + [last];
    }
  }

  lemma {:induction false} KeptTwice(tabs: seq<Tab>, gone: set<Tab>, more: set<Tab>)
    ensures Kept(Kept(tabs, gone), more) == Kept(tabs, gone + more)
  {
    if tabs != [] {
      KeptTwice(tabs[..|tabs| - 1], gone, more);
      var kept, last := Kept(tabs[..|tabs| - 1], gone), tabs[|tabs| - 1];
      assert (kept + [last])[..|kept|] == kept;
    }
  }

  lemma RefsLast(tabs: seq<Tab>, tab: Tab)
    ensures Refs(tabs + [tab]) == Refs(tabs) + [tab.session]
  {
    assert (tabs + [tab])[..|tabs|] == tabs;
  }

  lemma {:induction false} KeptRefs(tabs: seq<Tab>, gone: set<Tab>, hostId: string, sessionId: string)
    requires forall i :: 0 <= i < |tabs| ==> (tabs[i] in gone <==> OnSession(tabs[i].session, hostId, sessionId))
    ensures Refs(Kept(tabs, gone)) == Without(Refs(tabs), hostId, sessionId)
  {
    hide Refs, Kept;
    if tabs == [] {
      NothingKept(gone);
    } else {
      var front, last := tabs[..|tabs| - 1], tabs[|tabs| - 1];
      KeptRefs(front, gone, hostId, sessionId);
      KeptLast(tabs, gone);
      RefsLast(front, last);
      RefsLast(Kept(front, gone), last);
      assert front + [last] == tabs;
      assert Refs(tabs)[..|front|] == Refs(front);
    }
  }

  lemma NothingKept(gone: set<Tab>)
    ensures Kept([], gone) == [] && Refs([]) == []
  {
  }

  lemma {:induction false} KeptDistinct(tabs: seq<Tab>, gone: set<Tab>)
    requires Distinct(tabs)
    ensures Distinct(Kept(tabs, gone))
  {
    if tabs != [] {
      KeptDistinct(tabs[..|tabs| - 1], gone);
      assert tabs[|tabs| - 1] !in tabs[..|tabs| - 1];
    }
  }

  function IndexOf(tabs: seq<Tab>, tab: Tab): (r: nat)
    requires tab in tabs
    ensures r < |tabs| && tabs[r] == tab
  {
    if tabs[0] == tab then 0 else 1 + IndexOf(tabs[1..], tab)
  }

  /** Focus is told apart by reference; where no two tabs hold the same conversation, their sessions tell it as well. */
  lemma SameTab(tabs: seq<Tab>, a: Tab, b: Tab)
    requires TabsDiffer(Refs(tabs)) && a in tabs && b in tabs && a.session == b.session
    ensures a == b
  {
  }

  function FocusOf(focused: Tab?): Option<SessionRef> {
    if focused == null then None else Some(focused.session)
  }

  class Extension {
    const panel: Panel
    const registry: Registry

    function State(): Surfaces
      reads this, panel, registry
    {
      Surfaces(panel.session, panel.held, Refs(registry.tabs), FocusOf(registry.focused), panel.remembered)
    }

    ghost predicate Valid()
      reads this, panel, registry, registry.tabs
    {
      && Exclusive(State()) && Distinct(registry.tabs)
      && (registry.focused != null ==> registry.focused in registry.tabs)
      && forall i :: 0 <= i < |registry.tabs| ==> !registry.tabs[i].disposed
    }

    /** Activation: the panel takes on what was remembered, before any tab comes back. */
    constructor (remembered: Option<SessionRef>)
      requires remembered.Some? ==> remembered.value.conversation.None?
      ensures Valid() && State() == Start(remembered) && fresh(panel) && fresh(registry) && registry.tabs == []
    {
      var p := new Panel();
      panel := p;
      registry := new Registry(p);
      new;
      if remembered.Some? {
        panel.Restore(remembered.value);
      }
      StartIsExclusive(remembered);
    }

    /** A new tab reports itself focused while it is being made, before it is registered. */
    method OpenTab(ref: SessionRef, active: bool) returns (tab: Tab)
      requires Valid() && NoTabHolds(State().tabs, KeyOf(ref))
      modifies panel, registry
      ensures Valid() && fresh(tab) && tab.session == ref && registry.tabs == old(registry.tabs) + [tab]
      ensures State() == TabOpened(old(State()), ref).(focused := if active then Some(ref) else old(State().focused))
      ensures !active ==> registry.focused == old(registry.focused)
    {
      hide Kept, Refs, IndexOf, PanelApart, HeldByATab, TabsDiffer, FocusIsThere;
      ghost var before := State();
      if panel.Holds(KeyOf(ref)) {
        panel.Hold(ref);
      }
      tab := new Tab(ref);
      if active {
        registry.SetFocused(tab);
      }
      registry.Add(tab);
      assert Refs(registry.tabs) == before.tabs + [ref];
      TabOpenedKeeps(before, ref);
    }

    method CloseTab(tab: Tab)
      requires tab in registry.tabs
      modifies registry, tab
      ensures tab.disposed && registry.tabs == Kept(old(registry.tabs), {tab})
      ensures registry.focused == if old(registry.focused) == tab then null else old(registry.focused)
      ensures old(Valid()) ==> State() == TabRemoved(old(State()), IndexOf(old(registry.tabs), tab))
    {
      hide Kept, Refs, IndexOf, FocusOf, PanelApart, HeldByATab, TabsDiffer, Distinct, FocusIsThere;
      ghost var i := IndexOf(registry.tabs, tab);
      if Valid() {
        TakenOut(registry.tabs, i, registry.focused);
      }
      tab.Dispose();
      registry.Remove(tab);
    }

    /** The view of a tab went away. Closing a tab hands its session back to a panel still waiting for it. */
    method ViewDisposed(tab: Tab)
      requires Valid() && (tab in registry.tabs || tab.disposed)
      modifies panel, registry, tab
      ensures Valid() && registry.tabs == Kept(old(registry.tabs), {tab})
      ensures State() == if tab in old(registry.tabs) then Next(old(State()), Close(IndexOf(old(registry.tabs), tab)))
                         else old(State())
    {
      hide Refs, IndexOf, FocusOf, PanelApart, HeldByATab, TabsDiffer, Distinct, FocusIsThere, Next;
      var closed := tab.ViewDisposed();
      if closed {
        Closed(tab);
      } else {
        KeptNone(registry.tabs, {tab});
      }
    }

    method Closed(tab: Tab)
      requires Exclusive(State()) && Distinct(registry.tabs) && tab in registry.tabs
      requires registry.focused != null ==> registry.focused in registry.tabs
      modifies panel, registry
      ensures registry.tabs == Kept(old(registry.tabs), {tab})
      ensures State() == Next(old(State()), Close(IndexOf(old(registry.tabs), tab)))
      ensures registry.focused != null ==> registry.focused in registry.tabs
      ensures Exclusive(State()) && Distinct(registry.tabs)
    {
      hide Kept, Refs, IndexOf, FocusOf, PanelApart, HeldByATab, TabsDiffer, Distinct, FocusIsThere;
      ghost var before, i := State(), IndexOf(registry.tabs, tab);
      TakenOut(registry.tabs, i, registry.focused);
      KeptDistinct(registry.tabs, {tab});
      NextKeepsExclusive(before, Close(i));
      registry.Remove(tab);
      assert State() == TabRemoved(before, i);
      var session := tab.session;
      if session.conversation.None? && Shows(panel.held, KeyOf(session)) {
        panel.Show(Some(session));
      }
    }

    /** A tab on a past conversation does not move: the panel shows only current ones. */
    method MoveToPanel(tab: Tab)
      requires Valid() && tab in registry.tabs
      modifies panel, registry, tab
      ensures Valid() && State() == Next(old(State()), Move(IndexOf(old(registry.tabs), tab)))
      ensures Stayed(old(registry.tabs), registry.tabs)
    {
      hide Kept, Refs, IndexOf, FocusOf, PanelApart, HeldByATab, TabsDiffer, Distinct, FocusIsThere;
      ghost var before, i := State(), IndexOf(registry.tabs, tab);
      NextKeepsExclusive(before, Move(i));
      var session := tab.session;
      if session.conversation.Some? {
        return;
      }
      KeptDistinct(registry.tabs, {tab});
      CloseTab(tab);
      panel.Show(Some(session));
    }

    method SelectSession(ref: Option<SessionRef>, target: Option<Target>, active: bool)
      requires Valid()
      modifies panel, registry
      ensures Valid() && State() == Next(old(State()), Select(ref, target))
      ensures forall i :: 0 <= i < |registry.tabs| ==> registry.tabs[i] in old(registry.tabs) || fresh(registry.tabs[i])
    {
      hide Refs, PanelApart, HeldByATab, TabsDiffer, FocusIsThere;
      NextKeepsExclusive(State(), Select(ref, target));
      if ref.None? {
        return;
      }
      var session := ref.value;
      var wanted := if target.Some? then target else if session.conversation.None? then None else Some(Editor);
      var tab := registry.TabFor(KeyOf(session));
      if tab != null {
        assert tab in registry.tabs;
        registry.SetFocused(tab);
      } else if wanted.Some? {
        tab := OpenTab(session, active);
        registry.SetFocused(tab);
      } else {
        panel.Show(Some(session));
      }
    }

    /** VS Code hands a tab back on a window reload; a second one for the same conversation is refused. */
    method Deserialize(ref: Option<SessionRef>, active: bool) returns (adopted: bool)
      requires Valid()
      modifies panel, registry
      ensures Valid() && State() == Next(old(State()), SurfaceRules.Deserialize(ref, active))
      ensures forall i :: 0 <= i < |registry.tabs| ==> registry.tabs[i] in old(registry.tabs) || fresh(registry.tabs[i])
      ensures adopted == (ref.Some? && NoTabHolds(old(State().tabs), KeyOf(ref.value)))
    {
      hide Refs, PanelApart, HeldByATab, TabsDiffer, FocusIsThere;
      NextKeepsExclusive(State(), SurfaceRules.Deserialize(ref, active));
      adopted := ref.Some? && registry.TabFor(KeyOf(ref.value)) == null;
      if adopted {
        var tab := OpenTab(ref.value, active);
      }
    }

    method SessionDeleted(hostId: string, sessionId: string)
      requires Valid()
      modifies panel, registry, registry.tabs
      ensures Valid() && State() == Next(old(State()), Delete(hostId, sessionId))
      ensures Stayed(old(registry.tabs), registry.tabs)
    {
      hide Kept, Refs, IndexOf, PanelApart, HeldByATab, TabsDiffer, Distinct, FocusIsThere, Without, Exclusive;
      NextKeepsExclusive(State(), Delete(hostId, sessionId));
      CloseAllOf(hostId, sessionId);
      if panel.HoldsOrHeld(hostId, sessionId) {
        panel.Show(None);
      }
    }

    /** Focuses the tab the panel waits for. */
    method FocusHeld()
      requires Valid()
      modifies registry
      ensures Valid() && State() == Next(old(State()), SurfaceRules.FocusHeld) && registry.tabs == old(registry.tabs)
    {
      hide Refs, PanelApart, HeldByATab, TabsDiffer;
      NextKeepsExclusive(State(), SurfaceRules.FocusHeld);
      if panel.held.Some? {
        var tab := registry.TabFor(Key(panel.held.value.hostId, panel.held.value.sessionId, None));
        if tab != null {
          registry.SetFocused(tab);
        }
      }
    }

    /** A surface reports itself active, or a callback's `await` on the panel is over. */
    method Focused(surface: Tab?)
      requires Valid() && (surface != null ==> surface in registry.tabs)
      modifies registry
      ensures Valid() && registry.tabs == old(registry.tabs)
      ensures State() == Next(old(State()), if surface == null then FocusPanel
                                            else FocusTab(IndexOf(old(registry.tabs), surface)))
    {
      hide Refs, PanelApart, HeldByATab, TabsDiffer;
      NextKeepsExclusive(State(), if surface == null then FocusPanel else FocusTab(IndexOf(registry.tabs, surface)));
      registry.SetFocused(surface);
    }

    /** The callback behind an event. Whether VS Code makes a new tab the active one is its own affair. */
    method TakeStep(e: Event)
      requires Valid()
      modifies panel, registry, registry.tabs
      ensures Valid() && State() == Next(old(State()), e)
      ensures forall i :: 0 <= i < |registry.tabs| ==> registry.tabs[i] in old(registry.tabs) || fresh(registry.tabs[i])
    {
      hide Next, Exclusive, Refs, Kept, Distinct;
      match e {
        case Select(ref, target) =>
          var active := *;
          SelectSession(ref, target, active);
        case Move(i) =>
          NoSuchTab(State(), e);
          if i < |registry.tabs| {
            IndexOfEntry(registry.tabs, i);
            MoveToPanel(registry.tabs[i]);
          }
        case Close(i) =>
          NoSuchTab(State(), e);
          if i < |registry.tabs| {
            IndexOfEntry(registry.tabs, i);
            ViewDisposed(registry.tabs[i]);
          }
        case Delete(hostId, sessionId) => SessionDeleted(hostId, sessionId);
        case Deserialize(ref, active) =>
          var adopted := Deserialize(ref, active);
        case FocusHeld => FocusHeld();
        case FocusTab(i) =>
          NoSuchTab(State(), e);
          if i < |registry.tabs| {
            IndexOfEntry(registry.tabs, i);
            Focused(registry.tabs[i]);
          }
        case FocusPanel => Focused(null);
      }
    }

    method CloseAllOf(hostId: string, sessionId: string)
      requires Valid()
      modifies registry, registry.tabs
      ensures State() == SessionGone(old(State()), hostId, sessionId)
      ensures Distinct(registry.tabs) && (registry.focused != null ==> registry.focused in registry.tabs)
      ensures Stayed(old(registry.tabs), registry.tabs)
      ensures forall i :: 0 <= i < |registry.tabs| ==> !registry.tabs[i].disposed
    {
      hide Kept, Refs, IndexOf, FocusOf, PanelApart, HeldByATab, TabsDiffer, FocusIsThere, Exclusive, Distinct;
      ghost var tabs, focused, closed: set<Tab> := registry.tabs, registry.focused, {};
      var gone := registry.TabsOf(hostId, sessionId);
      KeptNone(tabs, {});
      for k := 0 to |gone|
        invariant registry.tabs == Kept(tabs, closed)
        invariant registry.focused == if focused in closed then null else focused
        invariant forall t :: t in closed <==> t in gone[..k]
        invariant forall i :: 0 <= i < |tabs| && tabs[i] !in closed ==> !tabs[i].disposed
      {
        assert gone[k] in gone && gone[..k + 1] == gone[..k] + [gone[k]];
        KeptTwice(tabs, closed, {gone[k]});
        CloseTab(gone[k]);
        closed := closed + {gone[k]};
      }
      assert gone[..|gone|] == gone;
      KeptRefs(tabs, closed, hostId, sessionId);
      KeptDistinct(tabs, closed);
      FocusGone(tabs, closed, focused, hostId, sessionId);
    }
  }

  lemma FocusGone(tabs: seq<Tab>, gone: set<Tab>, focused: Tab?, hostId: string, sessionId: string)
    requires focused != null ==> focused in tabs
    requires forall i :: 0 <= i < |tabs| ==> (tabs[i] in gone <==> OnSession(tabs[i].session, hostId, sessionId))
    ensures FocusOf(if focused in gone then null else focused)
         == if FocusOf(focused).Some? && OnSession(FocusOf(focused).value, hostId, sessionId) then None else FocusOf(focused)
  {
  }

  lemma IndexOfEntry(tabs: seq<Tab>, i: nat)
    requires Distinct(tabs) && i < |tabs|
    ensures IndexOf(tabs, tabs[i]) == i
  {
  }

  lemma NoSuchTab(s: Surfaces, e: Event)
    ensures (e.Move? || e.Close? || e.FocusTab?) && e.tab >= |s.tabs| ==> Next(s, e) == s
  {
  }

  /** No tab but those there were. */
  predicate Stayed(before: seq<Tab>, after: seq<Tab>) {
    forall i :: 0 <= i < |after| ==> after[i] in before
  }

  /** Taking one tab out, on the objects and on their sessions. */
  lemma TakenOut(tabs: seq<Tab>, i: nat, focused: Tab?)
    requires Distinct(tabs) && i < |tabs| && TabsDiffer(Refs(tabs)) && (focused != null ==> focused in tabs)
    ensures Kept(tabs, {tabs[i]}) == tabs[..i] + tabs[i + 1..]
    ensures Refs(Kept(tabs, {tabs[i]})) == Refs(tabs)[..i] + Refs(tabs)[i + 1..]
    ensures FocusOf(if focused == tabs[i] then null else focused)
         == if FocusOf(focused) == Some(Refs(tabs)[i]) then None else FocusOf(focused)
  {
    hide Kept, Refs, TabsDiffer, Distinct;
    KeptOne(tabs, i);
    TakenFocus(tabs, i, focused);
    RefsCut(tabs, i);
  }

  lemma RefsCut(tabs: seq<Tab>, i: nat)
    requires i < |tabs|
    ensures Refs(tabs[..i] + tabs[i + 1..]) == Refs(tabs)[..i] + Refs(tabs)[i + 1..]
  {
    hide Refs;
  }

  lemma TakenFocus(tabs: seq<Tab>, i: nat, focused: Tab?)
    requires i < |tabs| && TabsDiffer(Refs(tabs)) && (focused != null ==> focused in tabs)
    ensures FocusOf(if focused == tabs[i] then null else focused)
         == if FocusOf(focused) == Some(Refs(tabs)[i]) then None else FocusOf(focused)
  {
    hide Refs, TabsDiffer;
    if focused != null && focused.session == tabs[i].session {
      SameTab(tabs, focused, tabs[i]);
    }
  }

  /** The objects go through every run of a window as the rules say. */
  method Replay(remembered: Option<SessionRef>, events: seq<Event>) returns (window: Extension)
    requires remembered.Some? ==> remembered.value.conversation.None?
    ensures window.Valid() && window.State() == Run(Start(remembered), events)
  {
    hide Exclusive, Next, Refs, Distinct;
    window := new Extension(remembered);
    for k := 0 to |events|
      invariant fresh(window) && fresh(window.panel) && fresh(window.registry)
      invariant forall i :: 0 <= i < |window.registry.tabs| ==> fresh(window.registry.tabs[i])
      invariant window.Valid() && window.State() == Run(Start(remembered), events[..k])
    {
      window.TakeStep(events[k]);
      assert events[..k + 1][..k] == events[..k];
    }
    assert events[..|events|] == events;
  }
}
