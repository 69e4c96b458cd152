/** What several modules share: optional values, byte copies and sequence bookkeeping. */
module Common {
  import opened Digits

  datatype Option<+T> = None | Some(value: T)

  function Min(a: nat, b: nat): nat
  {
    if a < b then a else b
  }

  lemma Regroup(a: seq<u8>, b: seq<u8>, c: seq<u8>)
    ensures (a + b) + c == a + (b + c)
  {}

  /** memcpy into a buffer. */
  method CopyTo(a: array<u8>, off: nat, s: seq<u8>)
    requires off + |s| <= a.Length
    modifies a
    ensures forall k :: 0 <= k < a.Length ==> a[k] == if off <= k < off + |s| then s[k - off] else old(a[k])
  {
    for i := 0 to |s|
      invariant forall k :: 0 <= k < a.Length ==> a[k] == if off <= k < off + i then s[k - off] else old(a[k])
    {
      a[off + i] := s[i];
    }
  }
}
