/** Keyboard navigation between tabs: the enabled children are collected in
    order (or in reverse order when moving backward), and the key after the
    current one is taken, wrapping from the last entry to the first.
 */
module Navigation {
  import opened JsValues
  import opened Children

  /** A child navigation may land on: non-null, `!c.disabled` and
      `c.disabled !== ''`. */
  predicate NavEligible(c: Option<Child>) {
    c.Some? && c.value.disabled == Off
  }

  /** The navigable children in their original order. */
  function Enabled(cs: Children): (es: seq<Child>)
    ensures |es| <= |cs|
    ensures forall e :: e in es ==> Some(e) in cs && NavEligible(Some(e))
    decreases |cs|
  {
    if |cs| == 0 then []
    else (if NavEligible(cs[0]) then [cs[0].value] else []) + Enabled(cs[1..])
  }

  /** The collecting loop: an eligible child is pushed at the end when moving
      forward and unshifted at the front when moving backward. */
  function Collect(cs: Children, forward: bool, acc: seq<Child>): seq<Child>
    decreases |cs|
  {
    if |cs| == 0 then acc
    else
      var acc' := if !NavEligible(cs[0]) then acc
                  else if forward then acc + [cs[0].value]
                  else [cs[0].value] + acc;
      Collect(cs[1..], forward, acc')
  }

  /** Pushing collects the navigable children in order, unshifting collects
      them in reverse order. */
  lemma {:induction false} CollectIsEnabled(cs: Children, acc: seq<Child>)
    ensures Collect(cs, true, acc) == acc + Enabled(cs)
    ensures Collect(cs, false, acc) == Reverse(Enabled(cs)) + acc
    decreases |cs|
  {
    if |cs| > 0 {
      if NavEligible(cs[0]) {
        CollectIsEnabled(cs[1..], acc + [cs[0].value]);
        CollectIsEnabled(cs[1..], [cs[0].value] + acc);
        ReverseCons(cs[0].value, Enabled(cs[1..]));
      } else {
        CollectIsEnabled(cs[1..], acc);
      }
    }
  }

  /** The list navigation scans: forward is the enabled children in order,
      backward is the same list reversed. */
  function NavList(cs: Children, forward: bool): (ks: seq<Child>)
    ensures forward ==> ks == Enabled(cs)
    ensures !forward ==> ks == Reverse(Enabled(cs))
  {
    CollectIsEnabled(cs, []);
    Collect(cs, forward, [])
  }

  /** The entry that follows position `i` cyclically. */
  function After(ks: seq<Child>, i: nat): KeyValue
    requires i < |ks|
  {
    if i == |ks| - 1 then Str(ks[0].key) else Str(ks[i + 1].key)
  }

  /** The last position whose key equals `active`, or -1 when there is none. */
  function LastMatch(ks: seq<Child>, active: KeyValue): (r: int)
    ensures -1 <= r < |ks|
    ensures r >= 0 ==> Str(ks[r].key) == active && forall j :: r < j < |ks| ==> Str(ks[j].key) != active
    ensures r == -1 <==> forall j :: 0 <= j < |ks| ==> Str(ks[j].key) != active
    decreases |ks|
  {
    if |ks| == 0 then -1
    else if Str(ks[|ks| - 1].key) == active then |ks| - 1
    else
      var r := LastMatch(ks[..|ks| - 1], active);
      assert forall j :: 0 <= j < |ks| - 1 ==> ks[..|ks| - 1][j] == ks[j];
      r
  }

  /** The key the scan settles on: the successor of the last entry equal to
      `active`, the first entry when none is equal, and 0 when the list is
      empty. */
  function Successor(ks: seq<Child>, active: KeyValue): (r: KeyValue)
    ensures r == Zero <==> |ks| == 0
    ensures r != Zero ==> exists j :: 0 <= j < |ks| && r == Str(ks[j].key)
  {
    if |ks| == 0 then Zero
    else
      var m := LastMatch(ks, active);
      if m == -1 then Str(ks[0].key) else After(ks, m)
  }

  /** The scanning loop as written: `ret` starts as `length && ks[0].key` and
      every entry equal to the active key overwrites it with that entry's
      cyclic successor. */
  method ScanNext(ks: seq<Child>, active: KeyValue) returns (ret: KeyValue)
    ensures ret == Successor(ks, active)
  {
    var length := |ks|;
    ret := if length == 0 then Zero else Str(ks[0].key);
    var i := 0;
    while i < length
      invariant 0 <= i <= length
      invariant var m := LastMatch(ks[..i], active);
                ret == (if m == -1 then (if length == 0 then Zero else Str(ks[0].key)) else After(ks, m))
    {
      assert ks[..i + 1][..i] == ks[..i];
      if Str(ks[i].key) == active {
        if i == length - 1 {
          ret := Str(ks[0].key);
        } else {
          ret := Str(ks[i + 1].key);
        }
      }
      i := i + 1;
    }
    assert ks[..i] == ks;
  }

  /** The key navigation proposes from `active`, moving forward or backward. */
  function NextActiveKey(cs: Children, active: KeyValue, forward: bool): (r: KeyValue)
    ensures r == Zero <==> |Enabled(cs)| == 0
    ensures r != Zero ==> exists j :: 0 <= j < |Enabled(cs)| && r == Str(Enabled(cs)[j].key)
  {
    var ks := NavList(cs, forward);
    var r := Successor(ks, active);
    assert r != Zero && !forward ==> exists j :: 0 <= j < |Enabled(cs)| && r == Str(Enabled(cs)[j].key) by {
      if r != Zero && !forward {
        var j :| 0 <= j < |ks| && r == Str(ks[j].key);
        assert ks[j] == Enabled(cs)[|ks| - 1 - j];
      }
    }
    r
  }

  /** No two entries share a key. */
  predicate DistinctKeys(ks: seq<Child>) {
    forall a, b :: 0 <= a < b < |ks| ==> ks[a].key != ks[b].key
  }

  /** The position after `i` in a cyclic list of `n` entries. */
  function NextIndex(i: nat, n: nat): nat
    requires i < n
  {
    if i == n - 1 then 0 else i + 1
  }

  /** The position before `i` in a cyclic list of `n` entries. */
  function PrevIndex(i: nat, n: nat): nat
    requires i < n
  {
    if i == 0 then n - 1 else i - 1
  }

  /** With distinct keys, the successor of entry `i` is entry `i + 1`,
      wrapping around at the end. */
  lemma SuccessorOfDistinct(ks: seq<Child>, i: nat)
    requires DistinctKeys(ks) && i < |ks|
    ensures Successor(ks, Str(ks[i].key)) == Str(ks[NextIndex(i, |ks|)].key)
  {
  }

  /** Forward navigation from an enabled key moves to the next enabled key,
      and from the last enabled key wraps around to the first. */
  lemma ForwardFromEnabled(cs: Children, i: nat)
    requires DistinctKeys(Enabled(cs)) && i < |Enabled(cs)|
    ensures NextActiveKey(cs, Str(Enabled(cs)[i].key), true) == Str(Enabled(cs)[NextIndex(i, |Enabled(cs)|)].key)
  {
    SuccessorOfDistinct(Enabled(cs), i);
  }

  /** Backward navigation from an enabled key moves to the previous enabled
      key, and from the first enabled key wraps around to the last. */
  lemma BackwardFromEnabled(cs: Children, i: nat)
    requires DistinctKeys(Enabled(cs)) && i < |Enabled(cs)|
    ensures NextActiveKey(cs, Str(Enabled(cs)[i].key), false) == Str(Enabled(cs)[PrevIndex(i, |Enabled(cs)|)].key)
  {
    var es := Enabled(cs);
    var n := |es|;
    var rs := Reverse(es);
    assert DistinctKeys(rs) by {
      forall a, b | 0 <= a < b < n ensures rs[a].key != rs[b].key {
        assert rs[a] == es[n - 1 - a] && rs[b] == es[n - 1 - b];
      }
    }
    assert rs[n - 1 - i] == es[i];
    SuccessorOfDistinct(rs, n - 1 - i);
    assert rs[NextIndex(n - 1 - i, n)] == es[PrevIndex(i, n)];
  }

  /** From a key that is not an enabled key, forward navigation proposes the
      first enabled child. */
  lemma ForwardFromUnknown(cs: Children, active: KeyValue)
    requires |Enabled(cs)| > 0
    requires forall j :: 0 <= j < |Enabled(cs)| ==> Str(Enabled(cs)[j].key) != active
    ensures NextActiveKey(cs, active, true) == Str(Enabled(cs)[0].key)
  {
  }

  /** From a key that is not an enabled key, backward navigation proposes the
      last enabled child. */
  lemma BackwardFromUnknown(cs: Children, active: KeyValue)
    requires |Enabled(cs)| > 0
    requires forall j :: 0 <= j < |Enabled(cs)| ==> Str(Enabled(cs)[j].key) != active
    ensures NextActiveKey(cs, active, false) == Str(Enabled(cs)[|Enabled(cs)| - 1].key)
  {
    var es := Enabled(cs);
    var rs := Reverse(es);
    assert forall j :: 0 <= j < |rs| ==> rs[j] == es[|es| - 1 - j];
  }

  /** With distinct enabled keys, a step backward undoes a step forward and
      a step forward undoes a step backward. */
  lemma BackwardUndoesForward(cs: Children, i: nat)
    requires DistinctKeys(Enabled(cs)) && i < |Enabled(cs)|
    ensures NextActiveKey(cs, NextActiveKey(cs, Str(Enabled(cs)[i].key), true), false) == Str(Enabled(cs)[i].key)
    ensures NextActiveKey(cs, NextActiveKey(cs, Str(Enabled(cs)[i].key), false), true) == Str(Enabled(cs)[i].key)
  {
    var es := Enabled(cs);
    var n := |es|;
    var f := NextIndex(i, n);
    ForwardFromEnabled(cs, i);
    BackwardFromEnabled(cs, f);
    assert PrevIndex(f, n) == i;
    var b := PrevIndex(i, n);
    BackwardFromEnabled(cs, i);
    ForwardFromEnabled(cs, b);
    assert NextIndex(b, n) == i;
  }
}
