/** The `ZipWith` iterator adaptor: it wraps a left and a right iterator and
    a binary `zipper` function, and each pull yields `zipper(l, r)` for the
    next element `l` of the left side and `r` of the right side, stopping as
    soon as either side is exhausted. */
module ZipWithAdaptor {
  import opened Iterators

  function Min(x: nat, y: nat): nat {
    if x <= y then x else y
  }

  /** What collecting `zip_with(a, b, f)` produces: one element per matched
      pair, as long as the shorter input. */
  function ZipWithSeq<A, B, R>(a: seq<A>, b: seq<B>, f: (A, B) -> R): (r: seq<R>)
    ensures |r| == Min(|a|, |b|)
    ensures forall i :: 0 <= i < |r| ==> r[i] == f(a[i], b[i])
    decreases |a|
  {
    if a == [] || b == [] then [] else [f(a[0], b[0])] + ZipWithSeq(a[1..], b[1..], f)
  }

  /** The upper bounds a size hint reports, as a set: empty when it has none. */
  function KnownUpper(h: SizeHint): set<nat> {
    if h.upper.Some? then {h.upper.value} else {}
  }

  /** The size hint of the adaptor, from the hints of its two sides. */
  function CombineHints(l: SizeHint, r: SizeHint): (h: SizeHint)
    ensures h.lower <= l.lower && h.lower <= r.lower
    ensures h.lower == l.lower || h.lower == r.lower
    ensures h.upper.None? <==> l.upper.None? && r.upper.None?
    ensures h.upper.Some? ==> h.upper.value in KnownUpper(l) + KnownUpper(r)
    ensures h.upper.Some? ==> forall u :: u in KnownUpper(l) + KnownUpper(r) ==> h.upper.value <= u
  {
    SizeHint(Min(l.lower, r.lower),
      match l.upper
      case Some(lu) => (match r.upper
        case Some(ru) => Some(Min(lu, ru))
        case None => Some(lu))
      case None => (match r.upper
        case Some(ru) => Some(ru)
        case None => None))
  }

  /** If each side's hint is a correct estimate of what that side has left,
      the combined hint is a correct estimate of what the adaptor has left. */
  lemma CombineHintsSound(l: SizeHint, r: SizeHint, m: nat, n: nat)
    requires Sound(l, m) && Sound(r, n)
    ensures Sound(CombineHints(l, r), Min(m, n))
  {
  }

  class ZipWith<A, B, R> {
    const left: SeqIter<A>
    const right: SeqIter<B>
    const zipper: (A, B) -> R

    /** The adaptor owns two distinct iterators. */
    ghost predicate Valid()
      reads this, left, right
    {
      left as object != right as object && left.Valid() && right.Valid()
    }

    /** The elements the adaptor has still to yield. */
    ghost function Rest(): seq<R>
      reads this, left, right
      requires Valid()
    {
      ZipWithSeq(left.Remaining(), right.Remaining(), zipper)
    }

    /** The free function `zip_with`: it only stores its three arguments, so
        neither iterator is pulled. */
    constructor (left: SeqIter<A>, right: SeqIter<B>, zipper: (A, B) -> R)
      requires left.Valid() && right.Valid() && left as object != right as object
      ensures Valid()
      ensures this.left == left && this.right == right && this.zipper == zipper
      ensures unchanged(left, right)
      ensures Rest() == ZipWithSeq(left.Remaining(), right.Remaining(), zipper)
    {
      this.left, this.right, this.zipper := left, right, zipper;
    }

    /** `Iterator::next`: pulls the left side; only if it yields, pulls the
        right side; only if both yield, applies the zipper. */
    method Next() returns (x: Option<R>)
      requires Valid()
      modifies left, right
      ensures Valid()
      ensures left.pulls == old(left.pulls) + 1
      // left exhausted: the right side is not pulled at all
      ensures old(left.Remaining()) == [] ==>
        x == None && left.pos == old(left.pos) && unchanged(right)
      // left yields: exactly one left element is consumed and the right side is pulled once
      ensures old(left.Remaining()) != [] ==>
        left.pos == old(left.pos) + 1 && right.pulls == old(right.pulls) + 1
      // left yields, right exhausted
      ensures old(left.Remaining()) != [] && old(right.Remaining()) == [] ==>
        x == None && right.pos == old(right.pos)
      // both yield
      ensures old(left.Remaining()) != [] && old(right.Remaining()) != [] ==>
        x == Some(zipper(old(left.Remaining())[0], old(right.Remaining())[0])) &&
        right.pos == old(right.pos) + 1
      // in terms of what is left to yield
      ensures x.None? <==> old(Rest()) == []
      ensures x.Some? ==> x.value == old(Rest())[0]
      ensures Rest() == if x.Some? then old(Rest())[1..] else []
    {
      var l := left.Next();
      match l {
        case Some(lv) =>
          var r := right.Next();
          match r {
            case Some(rv) => x := Some(zipper(lv, rv));
            case None => x := None;
          }
        case None => x := None;
      }
    }

    /** `Iterator::size_hint`. */
    function Hint(): (h: SizeHint)
      reads this, left, right
      requires Valid()
      ensures Sound(h, |Rest()|)
      ensures h == CombineHints(left.Hint(), right.Hint())
    {
      CombineHints(left.Hint(), right.Hint())
    }

    /** `collect()` over the adaptor: pulls until the first `None`. */
    method Collect() returns (out: seq<R>)
      requires Valid()
      modifies left, right
      ensures Valid()
      ensures out == old(Rest()) && Rest() == []
      // the right side is pulled once per element, and once more only when
      // the left side outlasts it; the left side is pulled once more than that
      ensures right.pos == old(right.pos) + |out|
      ensures left.pulls == old(left.pulls) + |out| + 1
      ensures left.pos == old(left.pos) + |out| +
        (if |old(left.Remaining())| <= |old(right.Remaining())| then 0 else 1)
      ensures right.pulls == old(right.pulls) + |out| +
        (if |old(left.Remaining())| <= |old(right.Remaining())| then 0 else 1)
    {
      out := [];
      ghost var p0, q0 := left.pos, right.pos;
      ghost var m0, n0 := |left.Remaining()|, |right.Remaining()|;
      while true
        invariant Valid()
        invariant left.pos == p0 + |out| && right.pos == q0 + |out|
        invariant left.pulls == old(left.pulls) + |out| && right.pulls == old(right.pulls) + |out|
        invariant |out| <= m0 && |out| <= n0
        invariant forall i :: 0 <= i < |out| ==> out[i] == zipper(left.items[p0 + i], right.items[q0 + i])
        decreases m0 - |out|
      {
        var x := Next();
        if x.None? {
          break;
        }
        out := out + [x.value];
      }
      assert |out| == Min(m0, n0);
    }
  }

  /** The method form `it.zip_with(other, zipper)`, defined as the free
      function on the same arguments: it builds the same adaptor. */
  method IntoZipWith<A, B, R>(it: SeqIter<A>, other: SeqIter<B>, zipper: (A, B) -> R)
    returns (z: ZipWith<A, B, R>)
    requires it.Valid() && other.Valid() && it as object != other as object
    ensures fresh(z) && z.Valid()
    ensures z.left == it && z.right == other && z.zipper == zipper
    ensures unchanged(it, other)
    ensures z.Rest() == ZipWithSeq(it.Remaining(), other.Remaining(), zipper)
  {
    z := new ZipWith(it, other, zipper);
  }

  /** Collecting `zip_with` over two finite sequences. */
  method ZipWithCollect<A, B, R>(a: seq<A>, b: seq<B>, f: (A, B) -> R) returns (out: seq<R>)
    ensures |out| == Min(|a|, |b|)
    ensures forall i :: 0 <= i < |out| ==> out[i] == f(a[i], b[i])
  {
    var l := new SeqIter(a);
    var r := new SeqIter(b);
    var z := new ZipWith(l, r, f);
    out := z.Collect();
  }
}
