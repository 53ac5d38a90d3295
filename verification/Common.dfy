/** What several modules share. */
module Common {
  datatype Option<+T> = None | Some(value: T)

  lemma Assoc<T>(a: seq<T>, b: seq<T>, c: seq<T>)
    ensures (a + b) + c == a + (b + c)
  {}

  lemma Distribute(x: nat, n: nat)
    ensures x * (n + 1) == x * n + x
  {}

  // memcpy into a buffer, and std::ifstream::read into its front.
  method Put<T>(buffer: array<T>, at: nat, data: seq<T>)
    requires at + |data| <= buffer.Length
    modifies buffer
    ensures buffer[..at + |data|] == old(buffer[..at]) + data
  {
    forall i | 0 <= i < |data| {
      buffer[at + i] := data[i];
    }
  }
}
