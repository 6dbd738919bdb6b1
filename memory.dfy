/** Model of `realloc` on a growable buffer: a fresh, larger block whose prefix is the old block. */
module Memory {

  method Realloc<T>(a: array<T>, n: nat, fill: T) returns (b: array<T>)
    requires a.Length <= n
    ensures fresh(b) && b.Length == n
    ensures b[..a.Length] == a[..]
  {
    b := new T[n](_ => fill);
    var i := 0;
    while i < a.Length
      invariant 0 <= i <= a.Length
      invariant b[..i] == a[..i]
    {
      b[i] := a[i];
      i := i + 1;
    }
  }
}
