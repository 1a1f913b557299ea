/** Option and Result wrappers, the Python exceptions the triangulation code
    can raise, and Python's `list.remove`. */
module Wrappers {

  datatype Option<+T> = None | Some(value: T)

  /** The exceptions raised by the modelled code.  `OutOfFuel` is not a Python
      exception: it marks a walk that the model bounds and the source would
      continue forever. */
  datatype PyError =
    | IndexError
    | ValueError
    | AttributeError
    | ZeroDivisionError
    | KeyError
    | OutOfFuel

  datatype Result<+T> = Ok(value: T) | Err(error: PyError)

  /** The position of the first occurrence of `x` in `s`. */
  function FirstIndex<T(==)>(s: seq<T>, x: T): (i: nat)
    requires x in s
    ensures i < |s| && s[i] == x && x !in s[..i]
  {
    if s[0] == x then 0
    else
      var i := FirstIndex(s[1..], x);
      assert s[..i + 1] == [s[0]] + s[1..][..i];
      i + 1
  }

  /** Python's `s.remove(x)`: drops the first occurrence of `x`, or raises
      ValueError (None here) when `x` does not occur. */
  function Remove<T(==)>(s: seq<T>, x: T): (r: Option<seq<T>>)
    ensures r.None? <==> x !in s
    ensures r.Some? ==> |r.value| == |s| - 1 && multiset(r.value) == multiset(s) - multiset{x}
    ensures r.Some? ==> forall y :: y in r.value ==> y in s
    ensures r.Some? ==> forall j :: 0 <= j < |r.value| ==>
      r.value[j] == s[if j < FirstIndex(s, x) then j else j + 1]
    ensures r.Some? ==> r.value == s[..FirstIndex(s, x)] + s[FirstIndex(s, x) + 1..]
  {
    if x !in s then None
    else
      var i := FirstIndex(s, x);
      assert s == s[..i] + [x] + s[i + 1..];
      Some(s[..i] + s[i + 1..])
  }
}
