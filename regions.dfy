/**
  Byte regions of a shared message buffer: the pure effect of writing a run
  of bytes at an offset, and the memcpy/memset loops that the buffer views
  use to change the buffer in place.
 */
module Regions {
  import opened Bytes

  /** The buffer s with the bytes w written from offset p on. */
  function Write(s: seq<Byte>, p: nat, w: seq<Byte>): (r: seq<Byte>)
    requires p + |w| <= |s|
    ensures |r| == |s| && r[p..p + |w|] == w
    ensures forall i :: 0 <= i < |s| && !(p <= i < p + |w|) ==> r[i] == s[i]
  {
    s[..p] + w + s[p + |w|..]
  }

  /** Writing back the bytes already there changes nothing. */
  lemma WriteSame(s: seq<Byte>, p: nat, n: nat)
    requires p + n <= |s|
    ensures Write(s, p, s[p..p + n]) == s
  {
    var r := Write(s, p, s[p..p + n]);
    forall i | 0 <= i < |s| ensures r[i] == s[i] {
      if p <= i < p + n {
        assert r[i] == r[p..p + n][i - p];
      }
    }
  }

  /** Two writes side by side are one write of both runs. */
  lemma WriteAdjacent(s: seq<Byte>, p: nat, a: seq<Byte>, b: seq<Byte>)
    requires p + |a| + |b| <= |s|
    ensures Write(Write(s, p, a), p + |a|, b) == Write(s, p, a + b)
  {
    var r := Write(Write(s, p, a), p + |a|, b);
    var t := Write(s, p, a + b);
    forall i | 0 <= i < |s| ensures r[i] == t[i] {
      if p <= i < p + |a| {
        assert t[i] == t[p..p + |a| + |b|][i - p] == (a + b)[i - p];
        assert Write(s, p, a)[i] == Write(s, p, a)[p..p + |a|][i - p];
      } else if p + |a| <= i < p + |a| + |b| {
        assert t[i] == t[p..p + |a| + |b|][i - p] == (a + b)[i - p];
        assert r[i] == r[p + |a|..p + |a| + |b|][i - p - |a|];
      }
    }
  }

  /** A write leaves the bytes of every region that it does not overlap. */
  lemma WriteFrame(s: seq<Byte>, p: nat, w: seq<Byte>, q: nat, n: nat)
    requires p + |w| <= |s| && q + n <= |s|
    requires q + n <= p || p + |w| <= q
    ensures Write(s, p, w)[q..q + n] == s[q..q + n]
  {
    var r := Write(s, p, w);
    var x, y := r[q..q + n], s[q..q + n];
    forall k | 0 <= k < n ensures x[k] == y[k] {
      assert r[q + k] == s[q + k];
    }
  }

  /** memcpy(a + p, w, |w|): copies the bytes w into the array from offset p on. */
  method CopyInto(a: array<Byte>, p: nat, w: seq<Byte>)
    requires p + |w| <= a.Length
    modifies a
    ensures a[..] == Write(old(a[..]), p, w)
  {
    var i := 0;
    while i < |w|
      invariant i <= |w|
      invariant forall j :: 0 <= j < a.Length && !(p <= j < p + i) ==> a[j] == old(a[j])
      invariant forall j :: 0 <= j < i ==> a[p + j] == w[j]
    {
      a[p + i] := w[i];
      i := i + 1;
    }
    var r := Write(old(a[..]), p, w);
    forall j | 0 <= j < a.Length ensures a[..][j] == r[j] {
      if p <= j < p + |w| {
        assert r[j] == r[p..p + |w|][j - p];
      }
    }
  }

  /** memset(a + p, x, n): sets n bytes of the array from offset p on to x. */
  method Fill(a: array<Byte>, p: nat, n: nat, x: Byte)
    requires p + n <= a.Length
    modifies a
    ensures a[..] == Write(old(a[..]), p, Repeat(x, n))
  {
    var i := 0;
    while i < n
      invariant i <= n
      invariant forall j :: 0 <= j < a.Length && !(p <= j < p + i) ==> a[j] == old(a[j])
      invariant forall j :: p <= j < p + i ==> a[j] == x
    {
      a[p + i] := x;
      i := i + 1;
    }
    var r := Write(old(a[..]), p, Repeat(x, n));
    forall j | 0 <= j < a.Length ensures a[..][j] == r[j] {
      if p <= j < p + n {
        assert r[j] == r[p..p + n][j - p];
      }
    }
  }
}
