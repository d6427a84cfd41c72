/**
 C strings inside buffers that are cut in place.
 */
module CString {
  import opened Bytes

  /** The buffer holds the C string t from position p. */
  ghost predicate Holds(a: seq<byte>, p: nat, t: bytes)
  {
    p + |t| < |a| && a[p..p + |t|] == t && a[p + |t|] == NUL && NulFree(t)
  }

  /** A string ends where a NUL is put into it, and another one starts behind. */
  lemma HoldsCut(a: seq<byte>, p: nat, t: bytes, n: nat)
    requires Holds(a, p, t) && n < |t|
    ensures Holds(a[p + n := NUL], p, t[..n]) && Holds(a[p + n := NUL], p + n + 1, t[n + 1..])
  {
    assert a[p + n := NUL][p..p + n] == a[p..p + |t|][..n];
    assert a[p + n := NUL][p + n + 1..p + |t|] == a[p..p + |t|][n + 1..];
  }

  lemma HoldsBehind(a: seq<byte>, p: nat, t: bytes, n: nat)
    requires Holds(a, p, t) && n <= |t|
    ensures Holds(a, p + n, t[n..])
  {
    assert a[p + n..p + |t|] == a[p..p + |t|][n..];
  }

  method StrLen(line: array<byte>, s: nat, ghost t: bytes) returns (n: nat)
    requires Holds(line[..], s, t)
    ensures n == |t|
  {
    n := 0;
    while line[s + n] != NUL
      invariant n <= |t|
      decreases |t| - n
    {
      assert n < |t|;
      n := n + 1;
    }
  }

  /** The string at a position, as strdup copies it. */
  method StrDup(line: array<byte>, s: nat, ghost t: bytes) returns (r: bytes)
    requires Holds(line[..], s, t)
    ensures r == t
  {
    var n := StrLen(line, s, t);
    r := line[s..s + n];
  }

  lemma HoldsStays(a: seq<byte>, b: seq<byte>, p: nat, t: bytes)
    requires Holds(a, p, t) && |a| == |b| && forall i | p <= i <= p + |t| :: a[i] == b[i]
    ensures Holds(b, p, t)
  {
    assert b[p..p + |t|] == a[p..p + |t|];
  }
}
