/** internal/util/lists.go: the generic slice helpers. */
module Lists {
  import opened Wrappers

  /** The reference reversal: last element first. */
  function Reversal<X>(s: seq<X>): (r: seq<X>)
    ensures |r| == |s|
    ensures |s| <= 1 ==> r == s
  {
    if |s| == 0 then [] else [s[|s| - 1]] + Reversal(s[..|s| - 1])
  }

  lemma {:induction false} ReversalAt<X>(s: seq<X>, k: int)
    requires 0 <= k < |s|
    ensures Reversal(s)[k] == s[|s| - 1 - k]
  {
    if k > 0 {
      ReversalAt(s[..|s| - 1], k - 1);
    }
  }

  lemma {:induction false} ReversalAppend<X>(a: seq<X>, b: seq<X>)
    ensures Reversal(a + b) == Reversal(b) + Reversal(a)
  {
    var r, l := Reversal(a + b), Reversal(b) + Reversal(a);
    forall k | 0 <= k < |r| ensures r[k] == l[k] {
      ReversalAt(a + b, k);
      if k < |b| { ReversalAt(b, k); } else { ReversalAt(a, k - |b|); }
    }
  }

  /** Reversing twice restores the original order. */
  lemma {:induction false} ReversalInvolutive<X>(s: seq<X>)
    ensures Reversal(Reversal(s)) == s
  {
    var r := Reversal(Reversal(s));
    forall k | 0 <= k < |s| ensures r[k] == s[k] {
      ReversalAt(Reversal(s), k);
      ReversalAt(s, |s| - 1 - k);
    }
  }

  /** `Reverse`: swaps from both ends towards the middle, in place, and hands
      back the very slice it was given. */
  method Reverse<X>(xs: array<X>) returns (ys: array<X>)
    modifies xs
    ensures ys == xs
    ensures xs[..] == Reversal(old(xs[..]))
  {
    ghost var was := xs[..];
    var n := xs.Length;
    var i, j := 0, n - 1;
    while i < j
      invariant 0 <= i <= j + 1 && j == n - 1 - i
      invariant forall k :: 0 <= k < i ==> xs[k] == was[n - 1 - k] && xs[n - 1 - k] == was[k]
      invariant forall k :: i <= k <= j ==> xs[k] == was[k]
    {
      xs[i], xs[j] := xs[j], xs[i];
      i := i + 1;
      j := j - 1;
    }
    forall k | 0 <= k < n ensures xs[..][k] == Reversal(was)[k] {
      ReversalAt(was, k);
    }
    ys := xs;
  }

  /** The reference zip: pairs up to the shorter input. */
  function Zipped<A, B, C>(f: (A, B) -> C, xs: seq<A>, bs: seq<B>): (cs: seq<C>)
    ensures |cs| == Min(|xs|, |bs|)
    ensures forall i :: 0 <= i < |cs| ==> cs[i] == f(xs[i], bs[i])
  {
    if |xs| == 0 || |bs| == 0 then [] else [f(xs[0], bs[0])] + Zipped(f, xs[1..], bs[1..])
  }

  /** `ZipApply`: fills a slice of length `MinInt(len(as), len(bs))`. */
  method ZipApply<A, B, C(0)>(f: (A, B) -> C, xs: seq<A>, bs: seq<B>) returns (cs: seq<C>)
    ensures cs == Zipped(f, xs, bs)
  {
    var n := Min(|xs|, |bs|);
    var out := new C[n];
    for i := 0 to n
      invariant forall k :: 0 <= k < i ==> out[k] == f(xs[k], bs[k])
    {
      out[i] := f(xs[i], bs[i]);
    }
    cs := out[..];
  }

  /** The reference map. */
  function Mapped<A, B>(f: A -> B, xs: seq<A>): (bs: seq<B>)
    ensures |bs| == |xs|
    ensures forall i :: 0 <= i < |xs| ==> bs[i] == f(xs[i])
  {
    if |xs| == 0 then [] else [f(xs[0])] + Mapped(f, xs[1..])
  }

  /** `Apply`: fills a slice of length `len(as)`. */
  method Apply<A, B(0)>(xs: seq<A>, f: A -> B) returns (bs: seq<B>)
    ensures bs == Mapped(f, xs)
  {
    var out := new B[|xs|];
    for i := 0 to |xs|
      invariant forall k :: 0 <= k < i ==> out[k] == f(xs[k])
    {
      out[i] := f(xs[i]);
    }
    bs := out[..];
  }

  /** `Any`: stops at the first element satisfying `f`. */
  method Any<X>(xs: seq<X>, f: X -> bool) returns (found: bool)
    ensures found <==> exists i :: 0 <= i < |xs| && f(xs[i])
  {
    for i := 0 to |xs|
      invariant forall k :: 0 <= k < i ==> !f(xs[k])
    {
      if f(xs[i]) {
        return true;
      }
    }
    return false;
  }
}
