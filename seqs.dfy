/** Generic sequence folds used by several readers. */
module Seqs {

  import opened Options

  /** The present results of `f` over `xs`, in order. */
  function FilterMap<A, B>(f: A -> Option<B>, xs: seq<A>): (ys: seq<B>)
    ensures |ys| <= |xs|
    decreases |xs|
  {
    if xs == [] then []
    else
      var init := FilterMap(f, xs[..|xs| - 1]);
      match f(xs[|xs| - 1])
      case Some(y) => init + [y]
      case None => init
  }

  /** Every result comes from its own item, in item order, and every other
      item gives none. */
  lemma {:induction false} FilterMapOrigin<A, B>(f: A -> Option<B>, xs: seq<A>) returns (idx: seq<nat>)
    ensures |idx| == |FilterMap(f, xs)|
    ensures forall k :: 0 <= k < |idx| ==> idx[k] < |xs| && f(xs[idx[k]]) == Some(FilterMap(f, xs)[k])
    ensures forall k, j :: 0 <= k < j < |idx| ==> idx[k] < idx[j]
    ensures forall j :: 0 <= j < |xs| && j !in idx ==> f(xs[j]).None?
    decreases |xs|
  {
    if xs == [] {
      return [];
    }
    var init := xs[..|xs| - 1];
    var last := |xs| - 1;
    var prev := FilterMapOrigin(f, init);
    assert forall j :: 0 <= j < |init| ==> init[j] == xs[j];
    if f(xs[last]).Some? {
      idx := prev + [last];
    } else {
      idx := prev;
    }
  }

  lemma FilterMapNext<A, B>(f: A -> Option<B>, xs: seq<A>, k: nat)
    requires k < |xs|
    ensures FilterMap(f, xs[..k + 1]) ==
      FilterMap(f, xs[..k]) + (if f(xs[k]).Some? then [f(xs[k]).value] else [])
  {
    assert xs[..k + 1][..k] == xs[..k];
  }

  /** The concatenation of the pieces, in order. */
  function Concat<T>(pieces: seq<seq<T>>): (r: seq<T>)
    decreases |pieces|
  {
    if pieces == [] then [] else Concat(pieces[..|pieces| - 1]) + pieces[|pieces| - 1]
  }

  lemma ConcatNext<T>(pieces: seq<seq<T>>, piece: seq<T>)
    ensures Concat(pieces + [piece]) == Concat(pieces) + piece
  {
    assert (pieces + [piece])[..|pieces|] == pieces;
  }

  lemma ConcatOne<T>(a: seq<T>)
    ensures Concat([a]) == a
  {
    assert [a][..0] == [];
  }

  lemma ConcatTwo<T>(a: seq<T>, b: seq<T>)
    ensures Concat([a, b]) == a + b
  {
    assert [a, b][..1] == [a];
    ConcatOne(a);
  }

  lemma {:induction false} ConcatAppend<T>(a: seq<seq<T>>, b: seq<seq<T>>)
    ensures Concat(a + b) == Concat(a) + Concat(b)
    decreases |b|
  {
    if b != [] {
      var init := b[..|b| - 1];
      assert a + b == (a + init) + [b[|b| - 1]];
      ConcatNext(a + init, b[|b| - 1]);
      ConcatAppend(a, init);
      ConcatNext(init, b[|b| - 1]);
      assert init + [b[|b| - 1]] == b;
    } else {
      assert a + b == a;
    }
  }

  /** Two lists of pieces, one after the other, concatenate to the two
      concatenations joined, and the lists are recovered by slicing. */
  lemma ConcatParts<T>(a: seq<seq<T>>, b: seq<seq<T>>, x: seq<T>, y: seq<T>, whole: seq<T>)
    requires Concat(a) == x && Concat(b) == y && x + y == whole
    ensures Concat(a + b) == whole
    ensures (a + b)[..|a|] == a && (a + b)[|a|..] == b
  {
    ConcatAppend(a, b);
  }

  /** A prefix one longer is the prefix and the next element. */
  lemma TakeNext<T>(s: seq<T>, k: nat)
    requires k < |s|
    ensures s[..k + 1] == s[..k] + [s[k]]
  {
  }

  /** The two parts of a concatenation are recovered by slicing. */
  lemma AppendParts<T>(a: seq<T>, b: seq<T>)
    ensures (a + b)[..|a|] == a && (a + b)[|a|..] == b
  {
  }

  /** A slice of a slice is a slice of the whole. */
  lemma SliceOfSlice<T>(s: seq<T>, a: nat, b: nat, lo: nat, hi: nat)
    requires a <= b <= |s| && lo <= hi <= b - a
    ensures s[a..b][lo..hi] == s[a + lo..a + hi]
  {
    forall i | 0 <= i < hi - lo
      ensures s[a..b][lo..hi][i] == s[a + lo..a + hi][i]
    {
    }
  }
}
