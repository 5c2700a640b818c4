/** The C library's byte-buffer primitives used by the editor, over `array<char>`:
    memmove (overlapping copy), memset, and realloc (which here never fails). */
module Memory {

  /** memmove(&a[dst], &a[src], n): the regions may overlap; every byte is read
      before any is written. */
  method MemMove(a: array<char>, dst: nat, src: nat, n: nat)
    requires dst + n <= a.Length && src + n <= a.Length
    modifies a
    ensures forall i :: 0 <= i < a.Length ==>
              a[i] == if dst <= i < dst + n then old(a[i - dst + src]) else old(a[i])
  {
    forall i | 0 <= i < n {
      a[dst + i] := a[src + i];
    }
  }

  /** memset(&a[at], c, n). */
  method MemSet(a: array<char>, at: nat, c: char, n: nat)
    requires at + n <= a.Length
    modifies a
    ensures forall i :: 0 <= i < a.Length ==> a[i] == if at <= i < at + n then c else old(a[i])
  {
    forall i | at <= i < at + n {
      a[i] := c;
    }
  }

  /** realloc to a larger size: the old bytes are kept, the new ones are unspecified. */
  method Realloc(a: array<char>, size: nat) returns (b: array<char>)
    requires a.Length <= size
    ensures fresh(b) && b.Length == size
    ensures forall i :: 0 <= i < a.Length ==> b[i] == a[i]
  {
    b := new char[size];
    forall i | 0 <= i < a.Length {
      b[i] := a[i];
    }
  }
}
