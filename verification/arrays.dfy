/** `realloc` for arrays. */
module Arrays {
  /** An array of `length` elements, when memory is granted; what fits is kept. */
  method Reallocate<T(0)>(a: array<T>, length: nat) returns (b: array<T>)
    ensures fresh(b) && b.Length == length
    ensures forall i :: 0 <= i < length && i < a.Length ==> b[i] == a[i]
  {
    b := new T[length];
    var n := if length < a.Length then length else a.Length;
    for i := 0 to n
      invariant forall j :: 0 <= j < i ==> b[j] == a[j]
    {
      b[i] := a[i];
    }
  }
}
