/** Small shared vocabulary: optional values, bytes, and searching a sequence. */
module Common {

  datatype Option<+T> = None | Some(value: T)

  /** An octet, as read from and written to a TCP stream. */
  newtype byte = x: int | 0 <= x < 0x100

  /** The index of the first occurrence of `x` in `s`, if there is one. */
  function FirstIndex<T(==)>(s: seq<T>, x: T): (r: Option<nat>)
    ensures r.Some? ==> r.value < |s| && s[r.value] == x && x !in s[..r.value]
    ensures r.None? <==> x !in s
  {
    if |s| == 0 then None
    else if s[0] == x then Some(0)
    else
      match FirstIndex(s[1..], x)
      case None => None
      case Some(k) =>
        assert s[1..][..k] == s[1..k + 1];
        assert s[..k + 1] == [s[0]] + s[1..k + 1];
        Some(k + 1)
  }

  /** The first occurrence is unique: if `x` sits at `i` and nowhere before it, `i` is the first index. */
  lemma FirstIndexAt<T>(s: seq<T>, x: T, i: nat)
    requires i < |s| && s[i] == x && x !in s[..i]
    ensures FirstIndex(s, x) == Some(i)
  {
  }
}
