/** The JavaScript values the tab container handles: an optional value
    (a null child, an absent prop), the values its active key can hold,
    and `Reverse`, which specifies the list that backward navigation builds
    by unshifting and models the `reverse` call in rendering.
 */
module JsValues {

  /** `None` stands for a null child or a prop that is not passed. */
  datatype Option<+T> = None | Some(value: T)

  /** What `_activeKey` can hold. `Undefined` is the absence of a key, `Zero`
      is the number 0 that keyboard navigation yields when no tab is enabled,
      and `Str` is a tab key. Strict equality `===` on these values is
      Dafny's `==`. */
  datatype KeyValue = Undefined | Zero | Str(s: string)

  /** JavaScript truthiness of a key value: only a non-empty string is truthy. */
  predicate Truthy(v: KeyValue) {
    v.Str? && v.s != ""
  }

  /** The reversed copy of a sequence. */
  function Reverse<T>(s: seq<T>): (r: seq<T>)
    ensures |r| == |s|
    ensures forall i :: 0 <= i < |s| ==> r[i] == s[|s| - 1 - i]
  {
    seq(|s|, i requires 0 <= i < |s| => s[|s| - 1 - i])
  }

  /** Reversing a sequence that starts with `x` puts `x` last. */
  lemma ReverseCons<T>(x: T, s: seq<T>)
    ensures Reverse([x] + s) == Reverse(s) + [x]
  {
    assert Reverse([x] + s)[|s|] == x;
  }
}
