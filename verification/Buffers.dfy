/** Byte buffers: reversing one in place, and joining byte strings. */
module Buffers {
  import opened Arith
  import opened Decimal

  function Reversed(s: bytes): (r: bytes)
    ensures |r| == |s|
    decreases |s|
  {
    if s == [] then [] else [s[|s| - 1]] + Reversed(s[..|s| - 1])
  }

  lemma {:induction false} ReversedSnoc(s: bytes, d: byte)
    ensures Reversed(s + [d]) == [d] + Reversed(s)
  {
    assert (s + [d])[..|s|] == s;
  }

  lemma {:induction false} ReversedAt(s: bytes, k: nat)
    requires k < |s|
    ensures Reversed(s)[k] == s[|s| - 1 - k]
    decreases |s|
  {
    if k > 0 {
      ReversedAt(s[..|s| - 1], k - 1);
    }
  }

  method ReverseBuffer(buffer: array<byte>, n: nat)
    requires n <= buffer.Length
    modifies buffer
    ensures buffer[..n] == Reversed(old(buffer[..n]))
  {
    var first, last := 0, n;
    while first < last && first < last - 1
      invariant 0 <= first <= last <= n && first + last == n
      invariant forall k | 0 <= k < n ::
                  buffer[k] == if k < first || last <= k then old(buffer[n - 1 - k]) else old(buffer[k])
    {
      last := last - 1;
      buffer[first], buffer[last] := buffer[last], buffer[first];
      first := first + 1;
    }
    ghost var s := old(buffer[..n]);
    forall k | 0 <= k < n ensures buffer[k] == Reversed(s)[k] {
      ReversedAt(s, k);
    }
    hide Reversed;
  }

  lemma {:induction false} Regroup(a: bytes, b: bytes, c: bytes)
    ensures (a + b) + c == a + (b + c)
  {}
}
