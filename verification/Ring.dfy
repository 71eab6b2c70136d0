/**
 Index arithmetic shared by the two single-reader, single-writer rings of the HAL
 library (ports and streams).  A ring has `n` slots and two indices below `n`; the
 slots from the read index up to the write index, going round, hold the queue.
 */
module Ring {

  /** The number of slots from `a` forward to `b`. */
  function Dist(a: nat, b: nat, n: nat): (d: nat)
    requires a < n && b < n
    ensures d < n
  {
    if a <= b then b - a else n - a + b
  }

  /** The slot `k` places after `a`. */
  function At(a: nat, k: nat, n: nat): (p: nat)
    requires a < n && k <= n
    ensures p < n
  {
    if a + k < n then a + k else a + k - n
  }

  /** The queue held by the slots from `r` up to (not including) `w`. */
  function Window<T>(b: seq<T>, r: nat, w: nat): (q: seq<T>)
    requires r < |b| && w < |b|
    ensures |q| == Dist(r, w, |b|)
  {
    if r <= w then b[r..w] else b[r..] + b[..w]
  }

  lemma WindowElements<T>(b: seq<T>, r: nat, w: nat)
    requires r < |b| && w < |b|
    ensures forall k :: 0 <= k < Dist(r, w, |b|) ==> Window(b, r, w)[k] == b[At(r, k, |b|)]
  {
  }

  /** Moving the read index forward inside the window moves a prefix out of the queue. */
  lemma WindowDrop<T>(b: seq<T>, r: nat, w: nat, k: nat)
    requires r < |b| && w < |b| && k <= Dist(r, w, |b|)
    ensures Dist(At(r, k, |b|), w, |b|) == Dist(r, w, |b|) - k
    ensures Window(b, At(r, k, |b|), w) == Window(b, r, w)[k..]
    ensures Window(b, r, At(r, k, |b|)) == Window(b, r, w)[..k]
    ensures Window(b, r, w) == Window(b, r, At(r, k, |b|)) + Window(b, At(r, k, |b|), w)
  {
    assert Window(b, r, w) == Window(b, r, w)[..k] + Window(b, r, w)[k..];
  }

  /** Stores outside the window leave the queue alone. */
  lemma WindowFrame<T>(b: seq<T>, b': seq<T>, r: nat, w: nat)
    requires |b'| == |b| && r < |b| && w < |b|
    requires forall k :: 0 <= k < Dist(r, w, |b|) ==> b'[At(r, k, |b|)] == b[At(r, k, |b|)]
    ensures Window(b', r, w) == Window(b, r, w)
  {
    WindowElements(b, r, w);
    WindowElements(b', r, w);
  }

  /** Moving the write index past freshly filled free slots appends exactly what they hold. */
  lemma WindowAppend<T>(b: seq<T>, r: nat, w: nat, src: seq<T>)
    requires r < |b| && w < |b|
    requires |src| < |b| - Dist(r, w, |b|)
    requires forall k :: 0 <= k < |src| ==> b[At(w, k, |b|)] == src[k]
    ensures Dist(r, At(w, |src|, |b|), |b|) == Dist(r, w, |b|) + |src|
    ensures Window(b, r, At(w, |src|, |b|)) == Window(b, r, w) + src
  {
    var n, d, w' := |b|, Dist(r, w, |b|), At(w, |src|, |b|);
    WindowDrop(b, r, w', d);
    assert At(r, d, n) == w;
    WindowElements(b, w, w');
    assert Window(b, w, w') == src;
  }

  /** A slot at or after the write index that is still free is outside the window. */
  lemma FreeSlotOutside(r: nat, w: nat, n: nat, i: nat, k: nat)
    requires r < n && w < n
    requires i < n - Dist(r, w, n) && k < Dist(r, w, n)
    ensures At(w, i, n) != At(r, k, n)
  {
  }
}
