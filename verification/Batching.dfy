/** Packing a list of vector elements into requests a server accepts. */
module Batching {
  import opened Bytes

  const MAX_CHUNKS: nat := 1024
  const MAX_BYTES: nat := 2097152

  function Flatten<T>(lists: seq<seq<T>>): seq<T>
  {
    if lists == [] then [] else lists[0] + Flatten(lists[1..])
  }

  lemma FlattenNothing<T>()
    ensures Flatten<T>([]) == []
  {
  }

  lemma {:induction false} FlattenAppend<T>(a: seq<seq<T>>, b: seq<seq<T>>)
    ensures Flatten(a + b) == Flatten(a) + Flatten(b)
  {
    if a == [] {
      assert a + b == b;
    } else {
      FlattenAppend(a[1..], b);
      assert (a + b)[1..] == a[1..] + b;
    }
  }

  lemma FlattenSnoc<T>(a: seq<seq<T>>, x: seq<T>)
    ensures Flatten(a + [x]) == Flatten(a) + x
  {
    FlattenAppend(a, [x]);
    assert Flatten([x]) == x + Flatten([x][1..]);
  }

  lemma FlattenNext<T>(lists: seq<seq<T>>, n: nat)
    requires n < |lists|
    ensures Flatten(lists[..n + 1]) == Flatten(lists[..n]) + lists[n]
  {
    FlattenSnoc(lists[..n], lists[n]);
    assert lists[..n + 1] == lists[..n] + [lists[n]];
  }

  function Weight<T>(items: seq<T>, size: T -> nat): nat
  {
    if items == [] then 0 else Weight(items[..|items| - 1], size) + size(items[|items| - 1])
  }

  /** One request: at most 1024 elements, and over 2 MiB only if a single element is. */
  ghost predicate Fits<T>(batch: seq<T>, size: T -> nat)
  {
    0 < |batch| <= MAX_CHUNKS && (|batch| == 1 || Weight(batch, size) <= MAX_BYTES)
  }

  /** `next` would not have fitted in `batch`. */
  ghost predicate Full<T>(batch: seq<T>, next: T, size: T -> nat)
  {
    |batch| >= MAX_CHUNKS || Weight(batch, size) + size(next) > MAX_BYTES
  }

  /** Every batch is sent only because the element after it did not fit. */
  ghost predicate Greedy<T>(batches: seq<seq<T>>, size: T -> nat)
  {
    forall i, k | 0 <= i < k < |batches| && k == i + 1 ::
      batches[k] != [] && Full(batches[i], batches[k][0], size)
  }

  /** A batch may still grow only while it is the last. */
  ghost predicate Follows<T>(batches: seq<seq<T>>, batch: seq<T>, size: T -> nat)
  {
    batches != [] ==> batch != [] && Full(batches[|batches| - 1], batch[0], size)
  }

  /** `taken` has been packed, the last of it in a batch still open. */
  ghost predicate Packed<T>(out: seq<seq<T>>, batch: seq<T>, taken: seq<T>, size: T -> nat)
  {
    && Flatten(out) + batch == taken && (taken != [] ==> Fits(batch, size))
    && (forall i | 0 <= i < |out| :: Fits(out[i], size))
    && Greedy(out, size) && Follows(out, batch, size)
  }

  lemma WeightSnoc<T>(batch: seq<T>, item: T, size: T -> nat)
    ensures Weight(batch + [item], size) == Weight(batch, size) + size(item)
  {
    assert (batch + [item])[..|batch|] == batch;
  }

  lemma PackedGrows<T>(out: seq<seq<T>>, batch: seq<T>, taken: seq<T>, item: T, size: T -> nat)
    requires Packed(out, batch, taken, size)
    requires batch == [] || !Full(batch, item, size)
    ensures Packed(out, batch + [item], taken + [item], size)
  {
    hide Weight, Flatten;
    WeightSnoc(batch, item, size);
  }

  lemma PackedCloses<T>(out: seq<seq<T>>, batch: seq<T>, taken: seq<T>, size: T -> nat)
    requires Packed(out, batch, taken, size) && batch != []
    ensures Flatten(out + [batch]) == taken && Greedy(out + [batch], size)
    ensures forall i | 0 <= i < |out + [batch]| :: Fits((out + [batch])[i], size)
  {
    hide Weight, Flatten;
    FlattenSnoc(out, batch);
  }

  lemma PackedOpens<T>(out: seq<seq<T>>, batch: seq<T>, taken: seq<T>, item: T, size: T -> nat)
    requires Packed(out, batch, taken, size) && batch != [] && Full(batch, item, size)
    ensures Packed(out + [batch], [item], taken + [item], size)
  {
    hide Weight, Flatten;
    PackedCloses(out, batch, taken, size);
  }

  /**
    The items in order, in as few requests as taking each while it fits gives:
    nothing lost, repeated or moved, and every request within the ceilings.
   */
  method Batches<T>(items: seq<T>, size: T -> nat) returns (out: seq<seq<T>>)
    ensures Flatten(out) == items
    ensures forall i | 0 <= i < |out| :: Fits(out[i], size)
    ensures Greedy(out, size)
  {
    out := [];
    var batch: seq<T> := [];
    var total := 0;
    for n := 0 to |items|
      invariant Packed(out, batch, items[..n], size) && total == Weight(batch, size)
    {
      hide Packed, Greedy, Fits, Follows;
      var item := items[n];
      assert items[..n + 1] == items[..n] + [item];
      if batch != [] && (|batch| >= MAX_CHUNKS || total + size(item) > MAX_BYTES) {
        PackedOpens(out, batch, items[..n], item, size);
        out := out + [batch];
        batch, total := [], 0;
      } else {
        PackedGrows(out, batch, items[..n], item, size);
      }
      WeightSnoc(batch, item, size);
      batch := batch + [item];
      total := total + size(item);
    }
    assert items[..|items|] == items;
    if batch != [] {
      PackedCloses(out, batch, items, size);
      out := out + [batch];
    }
  }

  /** With no element over the byte ceiling, no request is over it either. */
  lemma FitsBytes<T>(batch: seq<T>, size: T -> nat)
    requires Fits(batch, size) && forall i | 0 <= i < |batch| :: size(batch[i]) <= MAX_BYTES
    ensures Weight(batch, size) <= MAX_BYTES
  {
    if |batch| == 1 { assert Weight(batch[..0], size) == 0; }
  }

  /** Every element of a batch is one of the items. */
  lemma {:induction false} BatchWithin<T>(batches: seq<seq<T>>, b: nat, i: nat) returns (k: nat)
    requires b < |batches| && i < |batches[b]|
    ensures k < |Flatten(batches)| && Flatten(batches)[k] == batches[b][i]
  {
    if b == 0 { k := i; }
    else {
      k := BatchWithin(batches[1..], b - 1, i);
      k := k + |batches[0]|;
    }
  }
}
