/** The tab children and the two questions the container asks of them on
    their own: which key is selected by default, and whether a key still
    names a child.
 */
module Children {
  import opened JsValues

  /** How a child's `disabled` attribute reads. `Off` is absent or any falsy
      value except the empty string, `On` is any truthy value, and
      `EmptyString` is exactly `''`. The two lookups below disagree on
      `EmptyString`: the default lookup tests `!child.disabled`, which is
      true of `''`, while navigation also excludes `disabled === ''`. */
  datatype Disabled = Off | On | EmptyString

  datatype Child = Child(key: string, disabled: Disabled)

  /** The `children` prop: an ordered list in which a slot may be null. */
  type Children = seq<Option<Child>>

  // ---------------------------------------------------------------------
  // Default key
  // ---------------------------------------------------------------------

  /** A child the default lookup may pick: non-null and `!child.disabled`. */
  predicate DefaultEligible(c: Option<Child>) {
    c.Some? && c.value.disabled != On
  }

  /** One iteration of the default lookup: an eligible child overwrites the
      candidate while the candidate is still falsy. */
  function DefaultStep(acc: KeyValue, c: Option<Child>): KeyValue {
    if DefaultEligible(c) && !Truthy(acc) then Str(c.value.key) else acc
  }

  /** The default lookup run over `cs` from the candidate `acc`. Once the
      candidate is truthy it is final; otherwise the result is `acc` or the
      key of an eligible child. */
  function DefaultScan(cs: Children, acc: KeyValue): (r: KeyValue)
    ensures Truthy(acc) ==> r == acc
    ensures acc.Str? ==> r.Str?
    ensures r == acc || (r.Str? && exists i :: 0 <= i < |cs| && DefaultEligible(cs[i]) && cs[i].value.key == r.s)
    decreases |cs|
  {
    if |cs| == 0 then acc
    else
      var r := DefaultScan(cs[1..], DefaultStep(acc, cs[0]));
      assert r != DefaultStep(acc, cs[0]) ==> exists i :: 1 <= i < |cs| && DefaultEligible(cs[i]) && cs[i].value.key == r.s by {
        if r != DefaultStep(acc, cs[0]) {
          var j :| 0 <= j < |cs[1..]| && DefaultEligible(cs[1..][j]) && cs[1..][j].value.key == r.s;
          assert cs[j + 1] == cs[1..][j];
        }
      }
      r
  }

  /** The default active key of a list of children: `undefined` when no
      child is eligible, otherwise the key of an eligible child. */
  function DefaultActiveKey(cs: Children): (r: KeyValue)
    ensures r == Undefined || r.Str?
    ensures r.Str? ==> exists i :: 0 <= i < |cs| && DefaultEligible(cs[i]) && cs[i].value.key == r.s
  {
    DefaultScan(cs, Undefined)
  }

  /** Scanning children none of which is eligible leaves the candidate
      alone; scanning past an eligible child always leaves a string. */
  lemma {:induction false} DefaultScanNoneEligible(cs: Children, acc: KeyValue)
    ensures (forall i :: 0 <= i < |cs| ==> !DefaultEligible(cs[i])) ==> DefaultScan(cs, acc) == acc
    ensures (exists i :: 0 <= i < |cs| && DefaultEligible(cs[i])) ==> DefaultScan(cs, acc).Str?
    decreases |cs|
  {
    if |cs| > 0 {
      DefaultScanNoneEligible(cs[1..], DefaultStep(acc, cs[0]));
      if forall i :: 0 <= i < |cs| ==> !DefaultEligible(cs[i]) {
        assert forall i :: 0 <= i < |cs[1..]| ==> !DefaultEligible(cs[1..][i]) by {
          forall i | 0 <= i < |cs[1..]| ensures !DefaultEligible(cs[1..][i]) {
            assert cs[1..][i] == cs[i + 1];
          }
        }
      }
      if exists i :: 0 <= i < |cs| && DefaultEligible(cs[i]) {
        var i :| 0 <= i < |cs| && DefaultEligible(cs[i]);
        if i > 0 {
          assert cs[1..][i - 1] == cs[i];
        }
      }
    }
  }

  /** From a falsy candidate, the lookup ends on the first eligible child
      whose key is non-empty: eligible children before it only had empty
      keys, which are falsy and get overwritten. */
  lemma {:induction false} DefaultScanFirstNonEmpty(cs: Children, acc: KeyValue, i: nat)
    requires !Truthy(acc)
    requires i < |cs| && DefaultEligible(cs[i]) && cs[i].value.key != ""
    requires forall j :: 0 <= j < i && DefaultEligible(cs[j]) ==> cs[j].value.key == ""
    ensures DefaultScan(cs, acc) == Str(cs[i].value.key)
    decreases |cs|
  {
    if i > 0 {
      var cs' := cs[1..];
      assert forall j :: 0 <= j < i - 1 && DefaultEligible(cs'[j]) ==> cs'[j].value.key == "" by {
        forall j | 0 <= j < i - 1 && DefaultEligible(cs'[j]) ensures cs'[j].value.key == "" {
          assert cs'[j] == cs[j + 1];
        }
      }
      assert cs'[i - 1] == cs[i];
      DefaultScanFirstNonEmpty(cs', DefaultStep(acc, cs[0]), i - 1);
    }
  }

  /** From a falsy candidate, when every eligible child has the empty key,
      the lookup ends on the empty key if any child is eligible. */
  lemma {:induction false} DefaultScanAllEmpty(cs: Children, acc: KeyValue)
    requires !Truthy(acc)
    requires forall i :: 0 <= i < |cs| && DefaultEligible(cs[i]) ==> cs[i].value.key == ""
    requires exists i :: 0 <= i < |cs| && DefaultEligible(cs[i])
    ensures DefaultScan(cs, acc) == Str("")
    decreases |cs|
  {
    var cs' := cs[1..];
    assert forall i :: 0 <= i < |cs'| && DefaultEligible(cs'[i]) ==> cs'[i].value.key == "" by {
      forall i | 0 <= i < |cs'| && DefaultEligible(cs'[i]) ensures cs'[i].value.key == "" {
        assert cs'[i] == cs[i + 1];
      }
    }
    if DefaultEligible(cs[0]) {
      DefaultScanNoneEligible(cs', Str(""));
    } else {
      var i :| 0 <= i < |cs| && DefaultEligible(cs[i]);
      assert cs'[i - 1] == cs[i];
      DefaultScanAllEmpty(cs', acc);
    }
  }

  /** The default key is `undefined` exactly when no child is eligible. */
  lemma DefaultUndefinedIffNoneEligible(cs: Children)
    ensures DefaultActiveKey(cs) == Undefined <==> forall i :: 0 <= i < |cs| ==> !DefaultEligible(cs[i])
  {
    DefaultScanNoneEligible(cs, Undefined);
  }

  /** The default key is the key of the first eligible child with a
      non-empty key; eligible children before it with the empty key are
      passed over. */
  lemma DefaultIsFirstNonEmpty(cs: Children, i: nat)
    requires i < |cs| && DefaultEligible(cs[i]) && cs[i].value.key != ""
    requires forall j :: 0 <= j < i && DefaultEligible(cs[j]) ==> cs[j].value.key == ""
    ensures DefaultActiveKey(cs) == Str(cs[i].value.key)
  {
    DefaultScanFirstNonEmpty(cs, Undefined, i);
  }

  /** When some child is eligible but every eligible child has the empty
      key, the default key is the empty string rather than `undefined`. */
  lemma DefaultAllEmptyKeys(cs: Children)
    requires forall i :: 0 <= i < |cs| && DefaultEligible(cs[i]) ==> cs[i].value.key == ""
    requires exists i :: 0 <= i < |cs| && DefaultEligible(cs[i])
    ensures DefaultActiveKey(cs) == Str("")
  {
    DefaultScanAllEmpty(cs, Undefined);
  }

  /** With non-empty keys the default is simply the first eligible child. */
  lemma DefaultIsFirstEligible(cs: Children, i: nat)
    requires forall j :: 0 <= j < |cs| && cs[j].Some? ==> cs[j].value.key != ""
    requires i < |cs| && DefaultEligible(cs[i])
    requires forall j :: 0 <= j < i ==> !DefaultEligible(cs[j])
    ensures DefaultActiveKey(cs) == Str(cs[i].value.key)
  {
    DefaultIsFirstNonEmpty(cs, i);
  }

  // ---------------------------------------------------------------------
  // Key validity
  // ---------------------------------------------------------------------

  /** `children.map(child => child && child.key)`: a null child maps to
      null, written `None`. */
  function KeyList(cs: Children): seq<Option<string>> {
    seq(|cs|, i requires 0 <= i < |cs| => if cs[i].Some? then Some(cs[i].value.key) else None)
  }

  /** `slot === v` for one slot of the key list: null equals no key value. */
  predicate SameKey(slot: Option<string>, v: KeyValue) {
    slot.Some? && v == Str(slot.value)
  }

  /** `keys.indexOf(v)`: the first position holding `v`, or -1. */
  function IndexOf(keys: seq<Option<string>>, v: KeyValue): (r: int)
    ensures -1 <= r < |keys|
    ensures r >= 0 ==> SameKey(keys[r], v) && forall j :: 0 <= j < r ==> !SameKey(keys[j], v)
    ensures r == -1 <==> forall j :: 0 <= j < |keys| ==> !SameKey(keys[j], v)
    decreases |keys|
  {
    if |keys| == 0 then -1
    else if SameKey(keys[0], v) then 0
    else
      var r := IndexOf(keys[1..], v);
      assert forall j :: 1 <= j < |keys| ==> keys[j] == keys[1..][j - 1];
      if r == -1 then -1 else r + 1
  }

  /** A key is valid when some non-null child carries it, whether or not
      that child is disabled. `undefined` and 0 are never valid. */
  function ActiveKeyIsValid(cs: Children, v: KeyValue): (b: bool)
    ensures b <==> exists i :: 0 <= i < |cs| && cs[i].Some? && v == Str(cs[i].value.key)
  {
    var keys := KeyList(cs);
    assert forall i :: 0 <= i < |cs| ==> (SameKey(keys[i], v) <==> cs[i].Some? && v == Str(cs[i].value.key));
    IndexOf(keys, v) >= 0
  }

  /** The default key is never a stale key: it is `undefined` or valid. */
  lemma DefaultIsValidOrUndefined(cs: Children)
    ensures DefaultActiveKey(cs) == Undefined || ActiveKeyIsValid(cs, DefaultActiveKey(cs))
  {
  }
}
