# Tab selection state machine of `vc-tabs`

This project models the selection logic of the `Tabs` container component in
`components/vc-tabs/src/Tabs.jsx`, and proves properties about it. The
container keeps one active key. That key is either dictated by the caller
(controlled mode, the `activeKey` prop) or managed by the component itself
(uncontrolled mode, seeded by `defaultActiveKey` or by the first eligible
child). The container emits `change` when a new key is asked for, and arrow
keys move between enabled tabs cyclically.

The model is purely functional:

- `JsValues` holds `Option` and `KeyValue`. `KeyValue` is what `_activeKey`
  can hold: `undefined`, the number 0, or a string key. It also holds
  JavaScript truthiness of a key and `Reverse`.
- `Children` models the child list. Each slot is a null child (`None`) or a
  record of key plus a tri-state `disabled`: `Off` (absent or falsy), `On`
  (truthy) or `EmptyString`. This module also holds the default-key lookup
  and the key-validity test.
- `Navigation` models the enabled-child collection, which pushes going forward
  and unshifts going backward. It also models the successor scan, both as the
  loop written in the source (`ScanNext`) and as a reference function
  (`Successor`), and proves the two equal.
- `Tabs` models the component as props, the internal key and a log of
  emitted events. It holds the transitions for mount (`Init`), prop update
  (`Resync`), selection (`SetActiveKey`, `OnTabClick`) and key press
  (`OnNavKeyDown`), and the order of the bar and the content (`Contents`).

These JavaScript quirks are kept as written:

- A child with `disabled: ''` is eligible for the default key, because
  `!''` is true. Navigation skips it, because it also tests
  `disabled !== ''`.
- The default lookup only stops on a truthy candidate. So an eligible child
  with the empty key is overwritten by the next eligible child. If every
  eligible child has the empty key, the default is `''`, not `undefined`.
- Navigation with no enabled child returns the number 0
  (`length && children[0].key`). The key-press handler passes that 0 on to
  `setActiveKey`. Unless the active key is already 0, that call emits
  `change(0)` and, in uncontrolled mode, stores 0; a second press with no
  enabled child then finds 0 already active and does nothing.
  The model keeps 0 as its own value (`Zero`) instead of folding it into
  `undefined`, so this behaviour is visible (`Tabs.ArrowWithoutEnabledYieldsZero`).
- The navigation scan has no `break`. With duplicate keys, the last match
  wins. The lemmas about neighbours assume distinct enabled keys
  (`Navigation.DistinctKeys`); the functions themselves do not.

## Model

| member | source | states |
|---|---|---|
| Children.DefaultScan | components/vc-tabs/src/Tabs.jsx:8-15 | the lookup loop never drops a truthy candidate; its result is the starting candidate or the key of an eligible (non-null, not truthily disabled) child |
| Children.DefaultActiveKey | components/vc-tabs/src/Tabs.jsx:7-16 | the default key is `undefined` or the key of an eligible child |
| Children.DefaultUndefinedIffNoneEligible | components/vc-tabs/src/Tabs.jsx:7-16 | the default key is `undefined` exactly when no child is non-null and not disabled |
| Children.DefaultIsFirstNonEmpty | components/vc-tabs/src/Tabs.jsx:10-14 | the default key is the key of the first eligible child with a non-empty key; earlier eligible children with the empty key are overwritten |
| Children.DefaultAllEmptyKeys | components/vc-tabs/src/Tabs.jsx:10-15 | if some child is eligible and every eligible key is empty, the default is the empty string, not `undefined` |
| Children.DefaultIsFirstEligible | components/vc-tabs/src/Tabs.jsx:7-16 | with non-empty keys, the default is the key of the first child that is non-null and not disabled (a `disabled: ''` child counts as enabled) |
| Children.IndexOf | components/vc-tabs/src/Tabs.jsx:21 | `indexOf` returns the first position holding the key, or -1 exactly when no slot holds it; a null slot matches nothing |
| Children.ActiveKeyIsValid | components/vc-tabs/src/Tabs.jsx:18-22 | a key is valid exactly when some non-null child carries it, disabled or not |
| Children.DefaultIsValidOrUndefined | components/vc-tabs/src/Tabs.jsx:7-22 | the default key is never stale: it is `undefined` or valid for the same children |
| Navigation.CollectIsEnabled | components/vc-tabs/src/Tabs.jsx:109-118 | pushing collects the navigable children in order; unshifting collects the same children in reverse order |
| Navigation.NavList | components/vc-tabs/src/Tabs.jsx:109-118 | the list scanned backward is the reverse of the list scanned forward |
| Navigation.LastMatch | components/vc-tabs/src/Tabs.jsx:121-129 | the last position whose key equals the active key, or -1 exactly when none does |
| Navigation.Successor | components/vc-tabs/src/Tabs.jsx:119-130 | the result is 0 exactly when the list is empty, and otherwise the key of an entry of the list |
| Navigation.ScanNext | components/vc-tabs/src/Tabs.jsx:119-130 | the loop as written, starting from `length && ks[0].key` and overwriting on each match, computes the successor of the last match, or the first entry when nothing matches |
| Navigation.NextActiveKey | components/vc-tabs/src/Tabs.jsx:107-131 | navigation yields 0 exactly when no child is enabled, and otherwise the key of an enabled child |
| Navigation.ForwardFromEnabled | components/vc-tabs/src/Tabs.jsx:119-130 | with distinct keys, forward navigation moves to the next enabled child, wrapping from the last to the first |
| Navigation.BackwardFromEnabled | components/vc-tabs/src/Tabs.jsx:110-130 | with distinct keys, backward navigation moves to the previous enabled child, wrapping from the first to the last |
| Navigation.ForwardFromUnknown | components/vc-tabs/src/Tabs.jsx:120 | when the active key is not an enabled key, forward navigation yields the first enabled child |
| Navigation.BackwardFromUnknown | components/vc-tabs/src/Tabs.jsx:110-120 | when the active key is not an enabled key, backward navigation yields the last enabled child |
| Navigation.BackwardUndoesForward | components/vc-tabs/src/Tabs.jsx:107-131 | with distinct keys, a backward step undoes a forward step and a forward step undoes a backward step |
| Tabs.Init | components/vc-tabs/src/Tabs.jsx:43-56 | `activeKey` wins over `defaultActiveKey`, which wins over the computed default; the initial key is `undefined` only when neither prop is given and no child is eligible; nothing is emitted |
| Tabs.InitUncontrolledDefault | components/vc-tabs/src/Tabs.jsx:43-56 | without either key prop and with non-empty keys, the initial key is the first eligible child's key |
| Tabs.Resync | components/vc-tabs/src/Tabs.jsx:57-71 | after a prop update a controlled component holds the caller's key; an uncontrolled one keeps a still-valid key, and otherwise holds the new children's default, so its key is valid or `undefined` with no eligible child; nothing is emitted |
| Tabs.ResyncIdempotent | components/vc-tabs/src/Tabs.jsx:57-71 | applying the same prop update twice changes nothing the second time |
| Tabs.ResyncKeepsValidKey | components/vc-tabs/src/Tabs.jsx:64 | in uncontrolled mode a key still carried by a child survives the update, and only the props change |
| Tabs.ResyncResetsStaleKey | components/vc-tabs/src/Tabs.jsx:64-68 | in uncontrolled mode and with non-empty keys, a key absent from the new children is replaced by the first eligible child's key |
| Tabs.SetActiveKey | components/vc-tabs/src/Tabs.jsx:95-105 | an equal key changes nothing and emits nothing; a different key emits exactly one `change` carrying it; the internal key follows only when uncontrolled; the props never change |
| Tabs.OnTabClick | components/vc-tabs/src/Tabs.jsx:73-80 | a tab click is `setActiveKey` of the clicked key: an equal key changes nothing, a different key emits one `change` and is stored only when uncontrolled; the listener forwarding is left out |
| Tabs.SetActiveKeyIdempotentUncontrolled | components/vc-tabs/src/Tabs.jsx:95-105 | in uncontrolled mode asking for the same key twice acts once |
| Tabs.SetActiveKeyControlledReemits | components/vc-tabs/src/Tabs.jsx:95-105 | in controlled mode the internal key does not move, so asking twice emits `change` twice |
| Tabs.ControlledRoundTrip | components/vc-tabs/src/Tabs.jsx:57-63 | the caller feeding the emitted key back as `activeKey` makes it the internal key |
| Tabs.OnNavKeyDown | components/vc-tabs/src/Tabs.jsx:82-93 | right and down click the forward neighbour, left and up click the backward neighbour, any other key changes nothing |
| Tabs.ArrowLandsOnEnabled | components/vc-tabs/src/Tabs.jsx:82-131 | in uncontrolled mode with an enabled child, an arrow key leaves the component on an enabled child's key and emits at most one event |
| Tabs.ArrowRoundTrip | components/vc-tabs/src/Tabs.jsx:82-131 | with distinct enabled keys, right then left (or up then down) returns to the starting key |
| Tabs.ArrowWithoutEnabledYieldsZero | components/vc-tabs/src/Tabs.jsx:82-105 | with no enabled child, an arrow key emits `change(0)` and, in uncontrolled mode, stores 0, unless the active key is already 0, in which case nothing changes |
| Tabs.TransitionsKeepSynced | components/vc-tabs/src/Tabs.jsx:57-105 | no transition lets a controlled component's internal key differ from the caller's key |
| Tabs.Contents | components/vc-tabs/src/Tabs.jsx:149-180 | the bar and the content each appear once, and the content comes first exactly when the bar position is `"bottom"` |

## Left out

- Rendering (`render`, lines 133-188): the vnode cloning, the class object and the wrapper `<div>` are virtual-DOM plumbing. Only the order of the two parts is modelled (`Tabs.Contents`).
- Framework wiring: `BaseMixin.setState`, `getOptionProps`, `__emit` and the PropTypes declarations. A state update is a new `Component` value and an emit is an append to its event log.
- `onTabClick` forwarding to `this.tabBar.componentOptions.listeners.tabClick` (lines 74-78). This calls a listener on a framework object that the model cannot see. `Tabs.OnTabClick` is only `setActiveKey`.
- `e.preventDefault()` in the key handler is a browser side effect.
- The numeric `KeyCode` values live in `KeyCode.js`, which is not part of this model. Key codes are the abstract `Tabs.KeyCode` with `Other` for every other code.
- Child keys are strings. A child without a key (`undefined`) and numeric keys are not modelled. `undefined` and `0` occur only as values of the active key.
- A null child is modelled; an `undefined` child slot is not. The two differ in `activeKeyIsValid`, because `child && child.key` maps `undefined` to `undefined`.
- When the `__propsSymbol__` watcher runs is decided by the framework. `Tabs.Resync` is the watcher's body, applied to the new props.
- Whether a controlled `activeKey` prop can be present but `undefined` depends on `getOptionProps`, which is not part of this model. Controlled mode is a present string prop.
