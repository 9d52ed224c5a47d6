/** Small shared vocabulary: an optional value, and the "walk a list of ids
    and stop at the first one that fails validation" loop that the menu and
    order stores both run before they mutate anything. */
module Common {

  /** A value that may be absent: the model of a nullable pointer result. */
  datatype Option<+T> = None | Some(value: T)

  /** Index of the first element of `s` that does not pass `ok`, or None when
      every element passes. This is the validation loop shape
      `for (i = 0; i < n; i++) if (!ok(s[i])) return false;`. */
  function FirstFailing<T>(s: seq<T>, ok: T -> bool): (r: Option<nat>)
    ensures r.None? <==> forall i :: 0 <= i < |s| ==> ok(s[i])
    ensures r.Some? ==> r.value < |s| && !ok(s[r.value])
    ensures r.Some? ==> forall i :: 0 <= i < r.value ==> ok(s[i])
    decreases |s|
  {
    if |s| == 0 then None
    else if !ok(s[0]) then Some(0)
    else match FirstFailing(s[1..], ok)
      case None => None
      case Some(i) => Some(i + 1)
  }
}
