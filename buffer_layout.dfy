/**
 * A vertex buffer layout: the attributes of one vertex in order, each
 * placed at the byte offset where the previous ones end, and the stride
 * from one vertex to the next.
 */
module ShelterLayout {
  import opened ShelterBuffer

  /** Offsets are unsigned 32-bit numbers: their sums wrap around. */
  const Uint32Modulus: int := 0x1_0000_0000

  /** `x` cast to `std::uint32_t`: its remainder modulo 2^32. */
  function Wrap32(x: int): (w: int)
    ensures 0 <= w < Uint32Modulus
  {
    x % Uint32Modulus
  }

  /** A value that fits is kept as it is. */
  lemma Wrap32Small(x: int)
    requires 0 <= x < Uint32Modulus
    ensures Wrap32(x) == x
  {
  }

  /** Adding in 32 bits: wrapping after every step is wrapping the total. */
  lemma Wrap32Add(w: int, x: int, y: int)
    requires w == Wrap32(x)
    ensures Wrap32(w + y) == Wrap32(x + y)
  {
  }

  /** One attribute: its type, its name in the shader, whether it is normalized, and where it starts. */
  datatype BufferElement = BufferElement(kind: DataType, name: string, normalized: bool, offset: int)

  /** `compute_stride`: the sizes of the elements added up from the first. */
  function Stride(es: seq<BufferElement>): (s: nat)
    ensures s <= 64 * |es|
  {
    if es == [] then 0 else Stride(es[..|es| - 1]) + TypeSize(es[|es| - 1].kind)
  }

  /** The elements, each with its offset set to where the elements before it end. */
  function Placed(es: seq<BufferElement>): (ps: seq<BufferElement>)
    ensures |ps| == |es|
    ensures forall i :: 0 <= i < |es| ==>
      ps[i].kind == es[i].kind && ps[i].name == es[i].name && ps[i].normalized == es[i].normalized
  {
    seq(|es|, i requires 0 <= i < |es| => es[i].(offset := Wrap32(Stride(es[..i]))))
  }

  /** The first `i` elements of `es` are placed, the rest are still those of `es0`. */
  ghost predicate PlacedUpTo(es0: seq<BufferElement>, es: seq<BufferElement>, i: nat)
  {
    |es| == |es0| && i <= |es0| &&
    forall k :: 0 <= k < |es0| ==> es[k] == if k < i then Placed(es0)[k] else es0[k]
  }

  /** Setting element `i`'s offset to the running total places one more element. */
  lemma PlaceNext(es0: seq<BufferElement>, es: seq<BufferElement>, i: nat, offset: int)
    requires PlacedUpTo(es0, es, i) && i < |es0| && offset == Wrap32(Stride(es0[..i]))
    ensures PlacedUpTo(es0, es[i := es[i].(offset := offset)], i + 1)
  {
    var es' := es[i := es[i].(offset := offset)];
    forall k | 0 <= k < |es0|
      ensures es'[k] == if k < i + 1 then Placed(es0)[k] else es0[k]
    {
      if k == i {
        assert Placed(es0)[i] == es0[i].(offset := offset);
      }
    }
  }

  /** The running offset after element `i`, wrapped as the source's is. */
  lemma OffsetStep(es: seq<BufferElement>, i: nat, offset: int)
    requires i < |es| && offset == Wrap32(Stride(es[..i]))
    ensures Wrap32(offset + TypeSize(es[i].kind)) == Wrap32(Stride(es[..i + 1]))
  {
    StrideStep(es, i);
    Wrap32Add(offset, Stride(es[..i]), TypeSize(es[i].kind));
  }

  /** Once every element is placed the sequence is the placed layout. */
  lemma PlacedAll(es0: seq<BufferElement>, es: seq<BufferElement>)
    requires PlacedUpTo(es0, es, |es0|)
    ensures es == Placed(es0)
  {
  }

  /** The stride of a longer prefix is at least as large. */
  lemma {:induction false} StrideMonotone(es: seq<BufferElement>, i: nat, j: nat)
    requires i <= j <= |es|
    ensures Stride(es[..i]) <= Stride(es[..j])
    decreases j - i
  {
    if i < j {
      StrideMonotone(es, i, j - 1);
      assert es[..j][..j - 1] == es[..j - 1];
    }
  }

  /** The stride is 0 exactly when no element has a size: an empty layout, or only types without an entry. */
  lemma {:induction false} StrideZero(es: seq<BufferElement>)
    ensures Stride(es) == 0 <==> forall i :: 0 <= i < |es| ==> IsUnsized(es[i].kind)
  {
    if es != [] {
      var front := es[..|es| - 1];
      StrideZero(front);
      assert forall i :: 0 <= i < |front| ==> front[i] == es[i];
    }
  }

  /** The element after element `i` starts where element `i` ends. */
  lemma StrideStep(es: seq<BufferElement>, i: nat)
    requires i < |es|
    ensures Stride(es[..i + 1]) == Stride(es[..i]) + TypeSize(es[i].kind)
  {
    assert es[..i + 1][..i] == es[..i];
  }

  /** Without wrap-around the offset of element `i` is the stride of the elements before it. */
  lemma PlacedOffset(es: seq<BufferElement>, i: nat)
    requires i < |es| && Stride(es) < Uint32Modulus
    ensures Placed(es)[i].offset == Stride(es[..i])
  {
    StrideMonotone(es, i, |es|);
    assert es[..|es|] == es;
    Wrap32Small(Stride(es[..i]));
  }

  /** Without wrap-around the offsets never go down, and the first one is 0. */
  lemma PlacedOffsetsMonotone(es: seq<BufferElement>, i: nat, j: nat)
    requires i <= j < |es| && Stride(es) < Uint32Modulus
    ensures Placed(es)[i].offset <= Placed(es)[j].offset
    ensures Placed(es)[0].offset == 0
  {
    PlacedOffset(es, i);
    PlacedOffset(es, j);
    PlacedOffset(es, 0);
    StrideMonotone(es, i, j);
  }

  /** Without wrap-around every element starts right where the one before ends. */
  lemma PlacedContiguous(es: seq<BufferElement>, i: nat)
    requires i + 1 < |es| && Stride(es) < Uint32Modulus
    ensures Placed(es)[i + 1].offset == Placed(es)[i].offset + TypeSize(es[i].kind)
  {
    PlacedOffset(es, i);
    PlacedOffset(es, i + 1);
    StrideStep(es, i);
  }

  /** Without wrap-around the last element ends exactly at the stride. */
  lemma PlacedEndsAtStride(es: seq<BufferElement>)
    requires |es| > 0 && Stride(es) < Uint32Modulus
    ensures Placed(es)[|es| - 1].offset + TypeSize(es[|es| - 1].kind) == Stride(es)
  {
    PlacedOffset(es, |es| - 1);
    StrideStep(es, |es| - 1);
    assert es[..|es|] == es;
  }

  class BufferLayout {
    var stride: nat
    var elements: seq<BufferElement>

    /** Keeps the elements in order and sets the stride and every offset. */
    constructor (es: seq<BufferElement>)
      ensures stride == Stride(es) && elements == Placed(es)
    {
      elements := es;
      new;
      stride := Stride(elements);
      ComputeOffset();
    }

    /** Rewrites each element's offset to the running total of the sizes before it. */
    method ComputeOffset()
      modifies this`elements
      ensures elements == Placed(old(elements))
    {
      ghost var es0 := elements;
      var es := elements;
      var offset := 0;
      for i := 0 to |es|
        invariant PlacedUpTo(es0, es, i)
        invariant offset == Wrap32(Stride(es0[..i]))
      {
        PlaceNext(es0, es, i, offset);
        OffsetStep(es0, i, offset);
        var size := TypeSize(es[i].kind);
        es := es[i := es[i].(offset := offset)];
        offset := Wrap32(offset + size);
      }
      PlacedAll(es0, es);
      elements := es;
    }
  }
}
