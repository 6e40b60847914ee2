/** Byte buffers: copying a run of bytes over part of a buffer. */
module Memory {
  import opened Bits

  datatype Option<+T> = None | Some(value: T)

  /** The buffer with src laid over it from position at, byte after byte. */
  function Spliced(was: seq<u8>, at: nat, src: seq<u8>): (now: seq<u8>)
    requires at + |src| <= |was|
    ensures |now| == |was|
    decreases |src|
  {
    if |src| == 0 then was else Spliced(was[at := src[0]], at + 1, src[1..])
  }

  lemma {:induction false} SplicedAt(was: seq<u8>, at: nat, src: seq<u8>, k: nat)
    requires at + |src| <= |was| && k < |was|
    ensures Spliced(was, at, src)[k] == if at <= k < at + |src| then src[k - at] else was[k]
    decreases |src|
  {
    if |src| > 0 {
      SplicedAt(was[at := src[0]], at + 1, src[1..], k);
    }
  }

  /** The bytes outside the copied range stay, those inside are replaced. */
  lemma SplicedParts(was: seq<u8>, at: nat, src: seq<u8>)
    requires at + |src| <= |was|
    ensures Spliced(was, at, src) == was[..at] + src + was[at + |src|..]
  {
    forall k | 0 <= k < |was|
      ensures Spliced(was, at, src)[k] == (was[..at] + src + was[at + |src|..])[k]
    {
      SplicedAt(was, at, src, k);
    }
  }

  /** Two adjacent copies are one copy. */
  lemma SplicedTwice(was: seq<u8>, at: nat, a: seq<u8>, b: seq<u8>)
    requires at + |a| + |b| <= |was|
    ensures Spliced(Spliced(was, at, a), at + |a|, b) == Spliced(was, at, a + b)
  {
    SplicedParts(was, at, a);
    SplicedParts(Spliced(was, at, a), at + |a|, b);
    SplicedParts(was, at, a + b);
  }

  lemma SplicedNothing(was: seq<u8>, at: nat)
    requires at <= |was|
    ensures Spliced(was, at, []) == was
  {
  }

  lemma SplicedAll(was: seq<u8>, src: seq<u8>)
    requires |src| == |was|
    ensures Spliced(was, 0, src) == src
  {
    SplicedParts(was, 0, src);
  }

  /** What was copied in can be cut out again; the bytes outside stay. */
  lemma SplicedSlice(was: seq<u8>, at: nat, src: seq<u8>)
    requires at + |src| <= |was|
    ensures Spliced(was, at, src)[at..at + |src|] == src
    ensures Spliced(was, at, src)[..at] == was[..at]
    ensures Spliced(was, at, src)[at + |src|..] == was[at + |src|..]
  {
    SplicedParts(was, at, src);
  }

  function Zeros(n: nat): (z: seq<u8>)
    ensures |z| == n
  {
    seq(n, _ => 0)
  }

  function PadTo(s: seq<u8>, n: nat): (t: seq<u8>)
    requires |s| <= n
    ensures |t| == n
  {
    s + Zeros(n - |s|)
  }

  lemma ZerosAppend(m: nat, n: nat)
    ensures Zeros(m) + Zeros(n) == Zeros(m + n)
  {
  }

  lemma {:induction false} ZeroBytes(n: nat)
    ensures LeBytes(0, n) == Zeros(n)
  {
    if n > 0 {
      ZeroBytes(n - 1);
      ZerosAppend(1, n - 1);
      assert LeBytes(0, n) == Zeros(1) + LeBytes(0, n - 1);
    }
  }

  /** n bytes from position at. */
  function Cut(s: seq<u8>, at: nat, n: nat): (t: seq<u8>)
    requires at + n <= |s|
    ensures |t| == n
  {
    s[at..at + n]
  }

  lemma CutLeft(a: seq<u8>, b: seq<u8>, at: nat, n: nat)
    requires at + n <= |a|
    ensures Cut(a + b, at, n) == Cut(a, at, n)
  {
  }

  lemma CutRight(a: seq<u8>, b: seq<u8>)
    ensures Cut(a + b, |a|, |b|) == b
  {
  }

  lemma CutWhole(s: seq<u8>)
    ensures Cut(s, 0, |s|) == s
  {
  }

  lemma CutAt(s: seq<u8>, at: nat, n: nat, i: nat)
    requires at + n <= |s| && i < n
    ensures Cut(s, at, n)[i] == s[at + i]
  {
  }

  lemma CutCut(s: seq<u8>, at: nat, n: nat, o: nat, k: nat)
    requires at + n <= |s| && o + k <= n
    ensures Cut(Cut(s, at, n), o, k) == Cut(s, at + o, k)
  {
    hide Cut;
    forall i | 0 <= i < k
      ensures Cut(Cut(s, at, n), o, k)[i] == Cut(s, at + o, k)[i]
    {
      CutAt(Cut(s, at, n), o, k, i);
      CutAt(s, at, n, o + i);
      CutAt(s, at + o, k, i);
    }
  }

  /** A run beside the copied one stays. */
  lemma SplicedBeside(was: seq<u8>, at: nat, src: seq<u8>, from: nat, n: nat)
    requires at + |src| <= |was| && from + n <= |was|
    requires from + n <= at || at + |src| <= from
    ensures Cut(Spliced(was, at, src), from, n) == Cut(was, from, n)
  {
    forall k | 0 <= k < n
      ensures Cut(Spliced(was, at, src), from, n)[k] == Cut(was, from, n)[k]
    {
      SplicedAt(was, at, src, from + k);
    }
  }

  /** The bytes up to the end of a copied run. */
  lemma SplicedFront(was: seq<u8>, at: nat, src: seq<u8>)
    requires at + |src| <= |was|
    ensures Cut(Spliced(was, at, src), 0, at + |src|) == Cut(was, 0, at) + src
  {
    SplicedParts(was, at, src);
  }

  /** Appending to a sequence appends to every cut that reaches its end. */
  lemma CutAppend(s: seq<u8>, more: seq<u8>, at: nat, n: nat)
    requires at + n == |s|
    ensures Cut(s + more, at, n + |more|) == Cut(s, at, n) + more
  {
  }

  lemma AppendAssociates<T>(a: seq<T>, b: seq<T>, c: seq<T>)
    ensures a + (b + c) == (a + b) + c
  {
  }

  lemma AppendNothing<T>(a: seq<T>)
    ensures a + [] == a
  {
  }

  /** An in-place pass has reached position n: final values below it, old values from it on. */
  ghost predicate Progress<T>(now: seq<T>, was: seq<T>, target: seq<T>, n: nat) {
    && |now| == |was| == |target| && n <= |now|
    && (forall k :: 0 <= k < n ==> now[k] == target[k])
    && (forall k :: n <= k < |now| ==> now[k] == was[k])
  }

  lemma ProgressStart<T>(was: seq<T>, target: seq<T>)
    requires |was| == |target|
    ensures Progress(was, was, target, 0)
  {
  }

  lemma ProgressDone<T>(now: seq<T>, was: seq<T>, target: seq<T>)
    requires Progress(now, was, target, |now|)
    ensures now == target
  {
  }

  /** memcpy: byte by byte into a buffer. */
  method CopyBytes(src: seq<u8>, out: array<u8>, at: nat)
    requires at + |src| <= out.Length
    modifies out
    ensures out[..] == Spliced(old(out[..]), at, src)
  {
    ghost var was := out[..];
    SplicedNothing(was, at);
    for k := 0 to |src|
      invariant out[..] == Spliced(was, at, src[..k])
    {
      assert src[..k + 1] == src[..k] + [src[k]];
      SplicedTwice(was, at, src[..k], [src[k]]);
      out[at + k] := src[k];
      assert out[..] == Spliced(was, at, src[..k])[at + k := src[k]];
    }
    assert src[..|src|] == src;
  }
}
