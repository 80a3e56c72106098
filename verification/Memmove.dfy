/** memmove (libc/string/memmove.c), on array elements instead of bytes. */
module Memmove {

  /** The array contents after `n` elements from `src` were copied to `dst`, as if through
      a buffer. */
  function Moved<T>(s: seq<T>, dst: nat, src: nat, n: nat): (r: seq<T>)
    requires dst + n <= |s| && src + n <= |s|
    ensures |r| == |s|
    ensures forall i :: 0 <= i < |s| ==> r[i] == if dst <= i < dst + n then s[src + i - dst] else s[i]
  {
    s[..dst] + s[src..src + n] + s[dst + n..]
  }

  /** Overlapping ranges are handled by copying forwards when the destination is lower and
      backwards otherwise. */
  method Move<T>(a: array<T>, dst: nat, src: nat, n: nat)
    requires dst + n <= a.Length && src + n <= a.Length
    modifies a
    ensures a[..] == Moved(old(a[..]), dst, src, n)
  {
    if dst < src {
      var i := 0;
      while i < n
        invariant i <= n
        invariant forall j :: 0 <= j < a.Length ==>
          a[j] == if dst <= j < dst + i then old(a[src + j - dst]) else old(a[j])
      {
        a[dst + i] := a[src + i];
        i := i + 1;
      }
    } else {
      var i := n;
      while i != 0
        invariant 0 <= i <= n
        invariant forall j :: 0 <= j < a.Length ==>
          a[j] == if dst + i <= j < dst + n then old(a[src + j - dst]) else old(a[j])
      {
        a[dst + i - 1] := a[src + i - 1];
        i := i - 1;
      }
    }
  }

  /** Deletes entry `k` of the `len` entries in use by moving the later ones down. */
  method Delete<T>(a: array<T>, k: nat, len: nat)
    requires k < len <= a.Length
    modifies a
    ensures a[..len - 1] == old(a[..k]) + old(a[k + 1..len])
  {
    Move(a, k, k + 1, len - k - 1);
  }
}
