/** The tab container's selection state machine: the props it receives, the
    active key it keeps, and the `change` events it emits, with the
    transitions that run on mount, on a prop update, on a tab click and on a
    key press, plus the order in which the bar and the content are laid out.
 */
module Tabs {
  import opened JsValues
  import opened Children
  import opened Navigation

  /** The props the selection logic reads. `activeKey` and `defaultActiveKey`
      are `None` when the caller does not pass them. */
  datatype Props = Props(
    children: Children,
    activeKey: Option<string>,
    defaultActiveKey: Option<string>,
    tabBarPosition: string)

  /** An event emitted upward. */
  datatype Event = Change(key: KeyValue)

  /** A mounted container: its current props, its internal `_activeKey`, and
      the log of events emitted so far. */
  datatype Component = Component(props: Props, activeKey: KeyValue, emitted: seq<Event>)

  /** Controlled mode: the caller passes `activeKey`. */
  predicate Controlled(p: Props) {
    p.activeKey.Some?
  }

  /** In controlled mode the internal key is the caller's key. */
  predicate Synced(c: Component) {
    Controlled(c.props) ==> c.activeKey == Str(c.props.activeKey.value)
  }

  /** In uncontrolled mode the internal key names a current child, or is
      `undefined` because no child is eligible for the default. */
  predicate Settled(c: Component) {
    !Controlled(c.props) ==>
      ActiveKeyIsValid(c.props.children, c.activeKey)
      || (c.activeKey == Undefined && forall i :: 0 <= i < |c.props.children| ==> !DefaultEligible(c.props.children[i]))
  }

  // ---------------------------------------------------------------------
  // Mount
  // ---------------------------------------------------------------------

  /** The component as first created: the caller's `activeKey` takes
      precedence over `defaultActiveKey`, which takes precedence over the
      key computed from the children. Nothing is emitted. */
  function Init(p: Props): (c: Component)
    ensures c.props == p && c.emitted == []
    ensures Synced(c)
    ensures !Controlled(p) && p.defaultActiveKey.Some? ==> c.activeKey == Str(p.defaultActiveKey.value)
    ensures c.activeKey == Undefined <==>
      p.activeKey.None? && p.defaultActiveKey.None? && forall i :: 0 <= i < |p.children| ==> !DefaultEligible(p.children[i])
    ensures p.activeKey.None? && p.defaultActiveKey.None? ==>
      c.activeKey == DefaultActiveKey(p.children) && (c.activeKey == Undefined || ActiveKeyIsValid(p.children, c.activeKey))
  {
    DefaultUndefinedIffNoneEligible(p.children);
    var key :=
      if p.activeKey.Some? then Str(p.activeKey.value)
      else if p.defaultActiveKey.Some? then Str(p.defaultActiveKey.value)
      else DefaultActiveKey(p.children);
    Component(p, key, [])
  }

  /** Without either key prop, the initial key is the first eligible child's
      key, when every non-null child has a non-empty key. */
  lemma InitUncontrolledDefault(p: Props, i: nat)
    requires p.activeKey.None? && p.defaultActiveKey.None?
    requires forall j :: 0 <= j < |p.children| && p.children[j].Some? ==> p.children[j].value.key != ""
    requires i < |p.children| && DefaultEligible(p.children[i])
    requires forall j :: 0 <= j < i ==> !DefaultEligible(p.children[j])
    ensures Init(p).activeKey == Str(p.children[i].value.key)
  {
    DefaultIsFirstEligible(p.children, i);
  }

  // ---------------------------------------------------------------------
  // Prop update
  // ---------------------------------------------------------------------

  /** The watcher run when the props change: in controlled mode copy the
      caller's key; otherwise keep a key that still names a child, and reset
      a stale key to the default of the new children. Nothing is emitted. */
  function Resync(c: Component, next: Props): (d: Component)
    ensures d.props == next && d.emitted == c.emitted
    ensures Synced(d) && Settled(d)
    ensures !Controlled(next) && ActiveKeyIsValid(next.children, c.activeKey) ==> d.activeKey == c.activeKey
    ensures !Controlled(next) && !ActiveKeyIsValid(next.children, c.activeKey) ==> d.activeKey == DefaultActiveKey(next.children)
  {
    DefaultUndefinedIffNoneEligible(next.children);
    var key :=
      if next.activeKey.Some? then Str(next.activeKey.value)
      else if !ActiveKeyIsValid(next.children, c.activeKey) then DefaultActiveKey(next.children)
      else c.activeKey;
    Component(next, key, c.emitted)
  }

  /** Receiving the same props twice changes nothing the second time. */
  lemma ResyncIdempotent(c: Component, next: Props)
    ensures Resync(Resync(c, next), next) == Resync(c, next)
  {
    DefaultIsValidOrUndefined(next.children);
  }

  /** In uncontrolled mode, a prop update that keeps the current key among
      the children leaves the whole component as it was apart from the props. */
  lemma ResyncKeepsValidKey(c: Component, next: Props)
    requires !Controlled(next)
    requires exists i :: 0 <= i < |next.children| && next.children[i].Some? && c.activeKey == Str(next.children[i].value.key)
    ensures Resync(c, next) == c.(props := next)
  {
  }

  /** In uncontrolled mode, a prop update whose children no longer carry the
      current key selects the first eligible child of the new list. */
  lemma ResyncResetsStaleKey(c: Component, next: Props, i: nat)
    requires !Controlled(next)
    requires forall j :: 0 <= j < |next.children| && next.children[j].Some? ==> c.activeKey != Str(next.children[j].value.key)
    requires forall j :: 0 <= j < |next.children| && next.children[j].Some? ==> next.children[j].value.key != ""
    requires i < |next.children| && DefaultEligible(next.children[i])
    requires forall j :: 0 <= j < i ==> !DefaultEligible(next.children[j])
    ensures Resync(c, next).activeKey == Str(next.children[i].value.key)
  {
    DefaultIsFirstEligible(next.children, i);
  }

  // ---------------------------------------------------------------------
  // Selecting a key
  // ---------------------------------------------------------------------

  /** Ask for `key` to become active. An equal key is a no-op. A different
      key emits exactly one `change` carrying it; the internal key follows
      only in uncontrolled mode, and nothing else changes. */
  function SetActiveKey(c: Component, key: KeyValue): (d: Component)
    ensures c.activeKey == key ==> d == c
    ensures c.activeKey != key ==> d.emitted == c.emitted + [Change(key)]
    ensures d.props == c.props
    ensures !Controlled(c.props) ==> d.activeKey == key
    ensures Controlled(c.props) ==> d.activeKey == c.activeKey
  {
    if c.activeKey != key then
      var activeKey := if !Controlled(c.props) then key else c.activeKey;
      Component(c.props, activeKey, c.emitted + [Change(key)])
    else c
  }

  /** A tab click selects the clicked key; the forwarding to the tab bar's
      own `tabClick` listener is not modelled. */
  function OnTabClick(c: Component, key: KeyValue): (d: Component)
    ensures c.activeKey == key ==> d == c
    ensures c.activeKey != key ==> d.emitted == c.emitted + [Change(key)]
    ensures d.props == c.props
    ensures !Controlled(c.props) ==> d.activeKey == key
    ensures Controlled(c.props) ==> d.activeKey == c.activeKey
  {
    SetActiveKey(c, key)
  }

  /** In uncontrolled mode selecting the same key twice emits once: the
      second request finds the key already active. */
  lemma SetActiveKeyIdempotentUncontrolled(c: Component, key: KeyValue)
    requires !Controlled(c.props)
    ensures SetActiveKey(SetActiveKey(c, key), key) == SetActiveKey(c, key)
  {
  }

  /** In controlled mode the internal key waits for the caller, so asking
      twice for a different key emits `change` twice. */
  lemma SetActiveKeyControlledReemits(c: Component, key: KeyValue)
    requires Controlled(c.props) && c.activeKey != key
    ensures SetActiveKey(SetActiveKey(c, key), key).emitted == c.emitted + [Change(key), Change(key)]
    ensures SetActiveKey(SetActiveKey(c, key), key).activeKey == c.activeKey
  {
  }

  /** The caller's next prop update completes a controlled selection: the
      internal key becomes the key that was emitted. */
  lemma ControlledRoundTrip(c: Component, key: string)
    requires Controlled(c.props) && c.activeKey != Str(key)
    ensures var d := SetActiveKey(c, Str(key));
            d.emitted[|d.emitted| - 1] == Change(Str(key))
            && Resync(d, d.props.(activeKey := Some(key))).activeKey == Str(key)
  {
  }

  // ---------------------------------------------------------------------
  // Keyboard
  // ---------------------------------------------------------------------

  /** The key codes the dispatcher tells apart; every other code is `Other`. */
  datatype KeyCode = Right | Down | Left | Up | Other

  /** Right and down move forward, left and up move backward. */
  predicate MovesForward(k: KeyCode) {
    k == Right || k == Down
  }

  predicate MovesBackward(k: KeyCode) {
    k == Left || k == Up
  }

  /** A key press on the tab bar: an arrow key clicks the neighbouring
      enabled tab, any other key does nothing. */
  function OnNavKeyDown(c: Component, code: KeyCode): (d: Component)
    ensures !MovesForward(code) && !MovesBackward(code) ==> d == c
    ensures MovesForward(code) ==> d == SetActiveKey(c, NextActiveKey(c.props.children, c.activeKey, true))
    ensures MovesBackward(code) ==> d == SetActiveKey(c, NextActiveKey(c.props.children, c.activeKey, false))
  {
    match code
    case Right | Down => OnTabClick(c, NextActiveKey(c.props.children, c.activeKey, true))
    case Left | Up => OnTabClick(c, NextActiveKey(c.props.children, c.activeKey, false))
    case Other => c
  }

  /** In uncontrolled mode, an arrow key with at least one enabled child
      leaves the component on an enabled child's key and emits at most one
      event. */
  lemma ArrowLandsOnEnabled(c: Component, code: KeyCode)
    requires !Controlled(c.props)
    requires MovesForward(code) || MovesBackward(code)
    requires |Enabled(c.props.children)| > 0
    ensures var d := OnNavKeyDown(c, code);
            (exists j :: 0 <= j < |Enabled(c.props.children)| && d.activeKey == Str(Enabled(c.props.children)[j].key))
            && |d.emitted| <= |c.emitted| + 1
  {
    var k := NextActiveKey(c.props.children, c.activeKey, MovesForward(code));
    assert OnNavKeyDown(c, code) == SetActiveKey(c, k);
    assert k != Zero;
  }

  /** In uncontrolled mode with distinct enabled keys, right then left (or
      up then down) returns to the enabled key the component started on. */
  lemma ArrowRoundTrip(c: Component, i: nat)
    requires !Controlled(c.props)
    requires DistinctKeys(Enabled(c.props.children)) && i < |Enabled(c.props.children)|
    requires c.activeKey == Str(Enabled(c.props.children)[i].key)
    ensures OnNavKeyDown(OnNavKeyDown(c, Right), Left).activeKey == c.activeKey
    ensures OnNavKeyDown(OnNavKeyDown(c, Up), Down).activeKey == c.activeKey
  {
    BackwardUndoesForward(c.props.children, i);
  }

  /** With no enabled child, an arrow key yields the number 0. Unless the
      active key is already 0, that 0 is emitted and, in uncontrolled mode,
      stored as the active key; when it is already 0 nothing happens. */
  lemma ArrowWithoutEnabledYieldsZero(c: Component, code: KeyCode)
    requires MovesForward(code) || MovesBackward(code)
    requires |Enabled(c.props.children)| == 0
    ensures c.activeKey != Zero ==> OnNavKeyDown(c, code).emitted == c.emitted + [Change(Zero)]
    ensures c.activeKey == Zero ==> OnNavKeyDown(c, code) == c
    ensures !Controlled(c.props) ==> OnNavKeyDown(c, code).activeKey == Zero
  {
  }

  /** No transition lets a controlled component drift from its caller's key. */
  lemma TransitionsKeepSynced(c: Component, code: KeyCode, key: KeyValue, next: Props)
    requires Synced(c)
    ensures Synced(SetActiveKey(c, key))
    ensures Synced(OnNavKeyDown(c, code))
    ensures Synced(Resync(c, next))
  {
  }

  // ---------------------------------------------------------------------
  // Layout
  // ---------------------------------------------------------------------

  /** The two rendered parts. */
  datatype Part = TabBar | TabContent

  /** The order of the rendered parts: bar then content, reversed when the
      bar sits at the bottom. */
  function Contents(tabBarPosition: string): (r: seq<Part>)
    ensures |r| == 2 && multiset(r) == multiset{TabBar, TabContent}
    ensures r[0] == TabContent <==> tabBarPosition == "bottom"
  {
    var contents := [TabBar, TabContent];
    assert Reverse(contents) == [TabContent, TabBar];
    if tabBarPosition == "bottom" then Reverse(contents) else contents
  }
}
