/*
 * The bulk array transfers of CompareAndCopy for memory whose byte order is not the
 * platform's: every element is read with Unsafe.getX and byte-reversed into a Java
 * array, or byte-reversed and written with Unsafe.putX, in chunks of at most
 * UNSAFE_COPY_THRESHOLD_BYTES.
 *
 * The six element types share one model, parametrised by the element type. Float and
 * double elements are modelled by their raw bit patterns (Float.floatToRawIntBits,
 * Double.doubleToRawLongBits), which the transfers move unchanged, so they behave
 * like int and long elements.
 */
module NonNativeCopy {
  import opened Primitives
  import UnsafeUtil
  import CompareAndCopy

  /** The element type of a Java array moved to or from non-native memory. */
  datatype Prim = CharType | ShortType | IntType | LongType | FloatType | DoubleType

  /** The element size in bytes (1 << CHAR_SHIFT, 1 << SHORT_SHIFT, ...). */
  function Width(p: Prim): (w: nat)
    ensures w == 2 || w == 4 || w == 8
  {
    match p
    case CharType => 2
    case ShortType => 2
    case IntType => 4
    case FloatType => 4
    case LongType => 8
    case DoubleType => 8
  }

  /** v is a value of the element type: an unsigned 16-bit char, or a signed value of Width(p) bytes. */
  predicate Fits(p: Prim, v: int)
  {
    match p
    case CharType => 0 <= v < 0x1_0000
    case ShortType => -0x8000 <= v < 0x8000
    case IntType | FloatType => -0x8000_0000 <= v < 0x8000_0000
    case LongType | DoubleType => -0x8000_0000_0000_0000 <= v < 0x8000_0000_0000_0000
  }

  /** The bounds of a signed element type are those of a signed value of Width(p) bytes. */
  lemma FitsIsSigned(p: Prim, v: int)
    requires p != CharType
    ensures Fits(p, v) <==> FitsSigned(v, Width(p))
  {
    assert Pow256(1) == 0x100;
    assert Pow256(3) == 0x100_0000 by { assert Pow256(2) == 0x1_0000; }
    if p == LongType || p == DoubleType {
      assert Pow256(7) == 0x100_0000_0000_0000 by {
        assert Pow256(5) == 0x100_0000_0000;
      }
    }
  }

  /** The native layout of an element value: what Unsafe.putX writes. */
  function NativeLayout(p: Prim, v: int): (b: seq<bv8>)
    requires Fits(p, v)
    ensures |b| == Width(p)
  {
    if p == CharType then ToLe(v, 2) else Store(v, Width(p))
  }

  /** The element value whose native layout is b: what Unsafe.getX reads. */
  function NativeValue(p: Prim, b: seq<bv8>): (v: int)
    requires |b| == Width(p)
    ensures Fits(p, v)
  {
    if p == CharType then FromLe(b)
    else
      var v := LoadSigned(b);
      FitsIsSigned(p, v);
      v
  }

  /** Character/Short/Integer/Long.reverseBytes for the element type. */
  function ReverseOf(p: Prim, v: int): (r: int)
    requires Fits(p, v)
  {
    if p == CharType then ReverseChar(v)
    else
      FitsIsSigned(p, v);
      ReverseBytes(v, Width(p))
  }

  /** Reading an element back from its native layout gives the element. */
  lemma NativeValueLayout(p: Prim, v: int)
    requires Fits(p, v)
    ensures NativeValue(p, NativeLayout(p, v)) == v
  {
    if p == CharType {
      FromLeToLe(v, 2);
    } else {
      FitsIsSigned(p, v);
      LoadStore(v, Width(p));
    }
  }

  /** Writing the element read from b writes b again. */
  lemma NativeLayoutValue(p: Prim, b: seq<bv8>)
    requires |b| == Width(p)
    ensures NativeLayout(p, NativeValue(p, b)) == b
  {
    if p == CharType { ToLeFromLe(b); } else { StoreLoad(b); }
  }

  /** A reversed element is a value of the type whose layout is the reversed layout. */
  lemma ReverseOfLayout(p: Prim, v: int)
    requires Fits(p, v)
    ensures Fits(p, ReverseOf(p, v))
    ensures NativeLayout(p, ReverseOf(p, v)) == Reverse(NativeLayout(p, v))
  {
    if p != CharType {
      FitsIsSigned(p, ReverseOf(p, v));
      StoreLoad(Reverse(Store(v, Width(p))));
    }
  }

  /** The element a non-native get reads from the bytes b: reverseBytes(getX). */
  function GetElem(p: Prim, b: seq<bv8>): (v: int)
    requires |b| == Width(p)
    ensures Fits(p, v)
  {
    ReverseOfLayout(p, NativeValue(p, b));
    ReverseOf(p, NativeValue(p, b))
  }

  /** The bytes a non-native put writes for the element v: putX(reverseBytes(v)). */
  function PutElem(p: Prim, v: int): (b: seq<bv8>)
    requires Fits(p, v)
    ensures |b| == Width(p)
  {
    ReverseOfLayout(p, v);
    NativeLayout(p, ReverseOf(p, v))
  }

  /** A non-native put writes the element in the opposite byte order: big-endian. */
  lemma PutElemReversed(p: Prim, v: int)
    requires Fits(p, v)
    ensures PutElem(p, v) == Reverse(NativeLayout(p, v))
  {
    ReverseOfLayout(p, v);
  }

  /** A non-native get reads the element whose native layout is the reversed bytes. */
  lemma GetElemReversed(p: Prim, b: seq<bv8>)
    requires |b| == Width(p)
    ensures GetElem(p, b) == NativeValue(p, Reverse(b))
  {
    var v := NativeValue(p, b);
    ReverseOfLayout(p, v);
    NativeLayoutValue(p, b);
    NativeValueLayout(p, ReverseOf(p, v));
  }

  /** Getting an element that was put gives the element back. */
  lemma GetPutElem(p: Prim, v: int)
    requires Fits(p, v)
    ensures GetElem(p, PutElem(p, v)) == v
  {
    ReverseOfLayout(p, v);
    GetElemReversed(p, PutElem(p, v));
    ReverseInvolutive(NativeLayout(p, v));
    NativeValueLayout(p, v);
  }

  /** Putting an element that was got writes the same bytes. */
  lemma PutGetElem(p: Prim, b: seq<bv8>)
    requires |b| == Width(p)
    ensures PutElem(p, GetElem(p, b)) == b
  {
    GetElemReversed(p, b);
    PutElemReversed(p, GetElem(p, b));
    NativeLayoutValue(p, Reverse(b));
    ReverseInvolutive(b);
  }

  // ---------------------------------------------------------------------------------
  // Runs of bytes cut into elements

  /** The bytes taken by n elements of w bytes: w * n, counted one element at a time. */
  function Times(w: nat, n: nat): (bytes: nat)
  {
    if n == 0 then 0 else Times(w, n - 1) + w
  }

  /** Times is the product the source computes with a shift (n << SHIFT). */
  lemma {:induction false} TimesIsProduct(w: nat, n: nat)
    ensures Times(w, n) == w * n
  {
    if n > 0 {
      TimesIsProduct(w, n - 1);
    }
  }

  /** Element i of a run of n ends within the run. */
  lemma {:induction false} TimesStep(w: nat, i: nat, n: nat)
    requires i < n
    ensures Times(w, i + 1) == Times(w, i) + w <= Times(w, n)
    decreases n
  {
    if i + 1 < n {
      TimesStep(w, i, n - 1);
    }
  }

  /** The bytes b cut into consecutive pieces of w bytes; a short tail is dropped. */
  function Chunks(w: nat, b: seq<bv8>): (cs: seq<seq<bv8>>)
    requires w > 0
    ensures Pieces(w, cs)
    decreases |b|
  {
    if |b| < w then [] else [b[..w]] + Chunks(w, b[w..])
  }

  /** The pieces cs written one after the other. */
  function Flatten(cs: seq<seq<bv8>>): (b: seq<bv8>)
    decreases |cs|
  {
    if |cs| == 0 then [] else cs[0] + Flatten(cs[1..])
  }

  /** Bytes for n elements cut into n pieces. */
  lemma {:induction false} ChunksLength(w: nat, b: seq<bv8>, n: nat)
    requires w > 0 && |b| == Times(w, n)
    ensures |Chunks(w, b)| == n
    decreases n
  {
    if n > 0 {
      ChunksLength(w, b[w..], n - 1);
    }
  }

  /** Piece i of bytes for n elements is the w bytes from Times(w, i) onward. */
  lemma {:induction false} ChunksAt(w: nat, b: seq<bv8>, n: nat, i: nat)
    requires w > 0 && |b| == Times(w, n) && i < n
    ensures |Chunks(w, b)| == n
    ensures Times(w, i) + w <= |b|
    ensures Chunks(w, b)[i] == b[Times(w, i)..Times(w, i) + w]
    decreases n
  {
    ChunksLength(w, b, n);
    TimesStep(w, i, n);
    if i > 0 {
      ChunksAt(w, b[w..], n - 1, i - 1);
      TimesShift(w, i);
    }
  }

  /** Times(w, i) is w more than Times(w, i - 1), counted from the front. */
  lemma {:induction false} TimesShift(w: nat, i: nat)
    requires i > 0
    ensures Times(w, i) == w + Times(w, i - 1)
  {
  }

  /** Cutting whole pieces and then more bytes cuts the two parts one after the other. */
  lemma {:induction false} ChunksConcat(w: nat, a: seq<bv8>, b: seq<bv8>, n: nat)
    requires w > 0 && |a| == Times(w, n)
    ensures Chunks(w, a + b) == Chunks(w, a) + Chunks(w, b)
    decreases n
  {
    if n == 0 {
      assert a + b == b;
    } else {
      assert (a + b)[..w] == a[..w];
      assert (a + b)[w..] == a[w..] + b;
      ChunksConcat(w, a[w..], b, n - 1);
    }
  }

  /** One more piece of bytes is one more piece. */
  lemma ChunksAppend(w: nat, a: seq<bv8>, e: seq<bv8>, n: nat)
    requires w > 0 && |a| == Times(w, n) && |e| == w
    ensures Chunks(w, a + e) == Chunks(w, a) + [e]
  {
    ChunksConcat(w, a, e, n);
    ChunksOne(w, e);
  }

  /** The bytes of one element are one piece. */
  lemma ChunksOne(w: nat, e: seq<bv8>)
    requires w > 0 && |e| == w
    ensures Chunks(w, e) == [e]
  {
    assert e[..w] == e;
    assert |e[w..]| == 0;
  }

  /** Writing one more piece appends its bytes. */
  lemma {:induction false} FlattenAppend(cs: seq<seq<bv8>>, c: seq<bv8>)
    ensures Flatten(cs + [c]) == Flatten(cs) + c
    decreases |cs|
  {
    if |cs| > 0 {
      assert (cs + [c])[1..] == cs[1..] + [c];
      FlattenAppend(cs[1..], c);
    }
  }

  /** Pieces of w bytes take Times(w, |cs|) bytes. */
  lemma {:induction false} FlattenLength(w: nat, cs: seq<seq<bv8>>)
    requires Pieces(w, cs)
    ensures |Flatten(cs)| == Times(w, |cs|)
    decreases |cs|
  {
    if |cs| > 0 {
      FlattenLength(w, cs[1..]);
    }
  }

  /** Cutting pieces of w bytes that were written one after the other gives the pieces back. */
  lemma {:induction false} ChunksFlatten(w: nat, cs: seq<seq<bv8>>)
    requires w > 0
    requires Pieces(w, cs)
    ensures Chunks(w, Flatten(cs)) == cs
    decreases |cs|
  {
    if |cs| > 0 {
      var b := Flatten(cs);
      assert b == cs[0] + Flatten(cs[1..]);
      assert b[..w] == cs[0];
      assert b[w..] == Flatten(cs[1..]);
      ChunksFlatten(w, cs[1..]);
      assert cs == [cs[0]] + cs[1..];
    }
  }

  /** Writing the pieces of bytes for whole elements gives the bytes back. */
  lemma {:induction false} FlattenChunks(w: nat, b: seq<bv8>, n: nat)
    requires w > 0 && |b| == Times(w, n)
    ensures Flatten(Chunks(w, b)) == b
    decreases n
  {
    if n > 0 {
      var cs := Chunks(w, b);
      assert cs == [b[..w]] + Chunks(w, b[w..]);
      assert cs[1..] == Chunks(w, b[w..]);
      FlattenChunks(w, b[w..], n - 1);
      assert b == b[..w] + b[w..];
    }
  }

  /** Every piece of cs holds w bytes. */
  predicate Pieces(w: nat, cs: seq<seq<bv8>>)
  {
    forall i :: 0 <= i < |cs| ==> |cs[i]| == w
  }

  /**
   * The images of the items of xs under f, in order: the elements read from pieces of
   * bytes when f is a getter, the pieces written for elements when f is a putter.
   */
  function MapSeq<A, B>(f: A -> B, xs: seq<A>): (ys: seq<B>)
    ensures |ys| == |xs|
    decreases |xs|
  {
    if |xs| == 0 then [] else [f(xs[0])] + MapSeq(f, xs[1..])
  }

  /** Item i of the images is the image of item i. */
  lemma {:induction false} MapSeqAt<A, B>(f: A -> B, xs: seq<A>, i: nat)
    requires i < |xs|
    ensures MapSeq(f, xs)[i] == f(xs[i])
    decreases |xs|
  {
    if i > 0 {
      MapSeqAt(f, xs[1..], i - 1);
    }
  }

  /** One more item is one more image. */
  lemma {:induction false} MapSeqAppend<A, B>(f: A -> B, xs: seq<A>, x: A)
    ensures MapSeq(f, xs + [x]) == MapSeq(f, xs) + [f(x)]
    decreases |xs|
  {
    if |xs| > 0 {
      assert (xs + [x])[1..] == xs[1..] + [x];
      MapSeqAppend(f, xs[1..], x);
    }
  }

  /** The images of two runs are the two runs of images one after the other. */
  lemma {:induction false} MapSeqConcat<A, B>(f: A -> B, xs: seq<A>, ys: seq<A>)
    ensures MapSeq(f, xs + ys) == MapSeq(f, xs) + MapSeq(f, ys)
    decreases |xs|
  {
    if |xs| == 0 {
      assert xs + ys == ys;
    } else {
      assert (xs + ys)[1..] == xs[1..] + ys;
      MapSeqConcat(f, xs[1..], ys);
    }
  }

  /**
   * Mapping g over the images under f gives the items back when g undoes f on each:
   * reading the pieces written for elements, or writing the elements read from pieces.
   */
  lemma {:induction false} MapSeqInverse<A, B>(f: A -> B, g: B -> A, xs: seq<A>)
    requires forall i :: 0 <= i < |xs| ==> g(f(xs[i])) == xs[i]
    ensures MapSeq(g, MapSeq(f, xs)) == xs
    decreases |xs|
  {
    if |xs| > 0 {
      assert g(f(xs[0])) == xs[0];
      assert forall i :: 0 <= i < |xs[1..]| ==> xs[1..][i] == xs[i + 1];
      MapSeqInverse(f, g, xs[1..]);
    }
  }

  /** When put always writes w bytes, every piece written has w bytes. */
  lemma {:induction false} PutsPieces(put: int -> seq<bv8>, w: nat, vals: seq<int>)
    requires forall v :: |put(v)| == w
    ensures Pieces(w, MapSeq(put, vals))
    decreases |vals|
  {
    if |vals| > 0 {
      PutsPieces(put, w, vals[1..]);
    }
  }

  /** When Times(w, c) bytes fit in Times(w, n), so do c elements in n, and the rest is Times(w, n - c). */
  lemma {:induction false} TimesSplit(w: nat, n: nat, c: nat)
    requires w > 0 && Times(w, c) <= Times(w, n)
    ensures c <= n && Times(w, n) - Times(w, c) == Times(w, n - c)
    decreases c
  {
    if c > 0 {
      assert n > 0;
      TimesSplit(w, n - 1, c - 1);
    }
  }

  /** n = a + b elements take the bytes of a elements and then those of b. */
  lemma {:induction false} TimesAdd(w: nat, a: nat, b: nat, n: nat)
    requires n == a + b
    ensures Times(w, n) == Times(w, a) + Times(w, b)
    decreases b
  {
    if b > 0 {
      TimesAdd(w, a, b - 1, n - 1);
    }
  }

  /** Two runs of pieces are written one after the other. */
  lemma {:induction false} FlattenConcat(cs: seq<seq<bv8>>, ds: seq<seq<bv8>>)
    ensures Flatten(cs + ds) == Flatten(cs) + Flatten(ds)
    decreases |cs|
  {
    if |cs| == 0 {
      assert cs + ds == ds;
    } else {
      assert (cs + ds)[1..] == cs[1..] + ds;
      FlattenConcat(cs[1..], ds);
    }
  }

  // ---------------------------------------------------------------------------------
  // Runs of elements of one type

  /** Every value of vals is a value of the element type. */
  predicate AllFit(p: Prim, vals: seq<int>)
  {
    forall i :: 0 <= i < |vals| ==> Fits(p, vals[i])
  }

  /** The bytes taken by n elements of type p: the offset (long) n << SHIFT. */
  function Span(p: Prim, n: nat): (bytes: nat)
    ensures bytes == Width(p) * n
  {
    TimesIsProduct(Width(p), n);
    Times(Width(p), n)
  }

  /**
   * GetElem made total: a piece of the wrong width never occurs, since Decode only reads
   * pieces cut by Chunks.
   */
  function Getter(p: Prim): (get: seq<bv8> -> int)
  {
    b => if |b| == Width(p) then GetElem(p, b) else 0
  }

  /**
   * PutElem made total: a Java array of the element type only holds values of the type,
   * so the value written for the others is never used.
   */
  function Putter(p: Prim): (put: int -> seq<bv8>)
  {
    v => if Fits(p, v) then PutElem(p, v) else seq(Width(p), _ => 0)
  }

  /** Getter is GetElem on pieces of the element's width. */
  lemma GetterIs(p: Prim, b: seq<bv8>)
    requires |b| == Width(p)
    ensures Getter(p)(b) == GetElem(p, b)
  {
  }

  /** Putter is PutElem on values of the element type. */
  lemma PutterIs(p: Prim, v: int)
    requires Fits(p, v)
    ensures Putter(p)(v) == PutElem(p, v)
  {
  }

  /** Putter always writes one element's width. */
  lemma PutterWidth(p: Prim)
    ensures forall v :: |Putter(p)(v)| == Width(p)
  {
    forall v ensures |Putter(p)(v)| == Width(p) {
      if Fits(p, v) {
        PutterIs(p, v);
      }
    }
  }

  /** The run of elements a non-native get reads from b, one element per Width(p) bytes. */
  function Decode(p: Prim, b: seq<bv8>): (vals: seq<int>)
  {
    MapSeq(Getter(p), Chunks(Width(p), b))
  }

  /** The bytes a non-native put writes for a run of elements, one after the other. */
  function Layout(p: Prim, vals: seq<int>): (b: seq<bv8>)
  {
    Flatten(MapSeq(Putter(p), vals))
  }

  /** Every element a get reads is a value of the element type. */
  lemma DecodeFits(p: Prim, b: seq<bv8>)
    ensures AllFit(p, Decode(p, b))
  {
    var cs := Chunks(Width(p), b);
    forall i | 0 <= i < |cs| ensures Fits(p, Decode(p, b)[i]) {
      MapSeqAt(Getter(p), cs, i);
      GetterIs(p, cs[i]);
    }
  }

  /** Bytes for n elements decode to n elements. */
  lemma DecodeLength(p: Prim, b: seq<bv8>, n: nat)
    requires |b| == Times(Width(p), n)
    ensures |Decode(p, b)| == n
  {
    ChunksLength(Width(p), b, n);
  }

  /** Element i of the run read from bytes for n elements is read from byte Times(w, i) onward. */
  lemma DecodeAt(p: Prim, b: seq<bv8>, n: nat, i: nat)
    requires |b| == Times(Width(p), n) && i < n
    ensures |Decode(p, b)| == n
    ensures Times(Width(p), i) + Width(p) <= |b|
    ensures Decode(p, b)[i] == GetElem(p, b[Times(Width(p), i)..Times(Width(p), i) + Width(p)])
  {
    var w, cs := Width(p), Chunks(Width(p), b);
    ChunksAt(w, b, n, i);
    MapSeqAt(Getter(p), cs, i);
    GetterIs(p, cs[i]);
  }

  /** A run of n elements is laid out in Times(Width(p), n) bytes. */
  lemma LayoutLength(p: Prim, vals: seq<int>)
    ensures |Layout(p, vals)| == Times(Width(p), |vals|)
  {
    PutterWidth(p);
    PutsPieces(Putter(p), Width(p), vals);
    FlattenLength(Width(p), MapSeq(Putter(p), vals));
  }

  /** Decoding one more element's bytes appends that element. */
  lemma DecodeAppend(p: Prim, a: seq<bv8>, e: seq<bv8>, n: nat)
    requires |a| == Times(Width(p), n) && |e| == Width(p)
    ensures Decode(p, a + e) == Decode(p, a) + [GetElem(p, e)]
  {
    ChunksAppend(Width(p), a, e, n);
    MapSeqAppend(Getter(p), Chunks(Width(p), a), e);
    GetterIs(p, e);
  }

  /** Laying out one more element appends its bytes. */
  lemma LayoutAppend(p: Prim, vals: seq<int>, v: int)
    requires Fits(p, v)
    ensures Layout(p, vals + [v]) == Layout(p, vals) + PutElem(p, v)
  {
    MapSeqAppend(Putter(p), vals, v);
    FlattenAppend(MapSeq(Putter(p), vals), Putter(p)(v));
    PutterIs(p, v);
  }

  /** Getting a run that was put gives the run back. */
  lemma DecodeLayout(p: Prim, vals: seq<int>)
    requires AllFit(p, vals)
    ensures Decode(p, Layout(p, vals)) == vals
  {
    var get, put := Getter(p), Putter(p);
    PutterWidth(p);
    forall i | 0 <= i < |vals| ensures get(put(vals[i])) == vals[i] {
      PutterIs(p, vals[i]);
      GetterIs(p, PutElem(p, vals[i]));
      GetPutElem(p, vals[i]);
    }
    MapSeqInverse(put, get, vals);
    PutsPieces(put, Width(p), vals);
    ChunksFlatten(Width(p), MapSeq(put, vals));
  }

  /** Putting a run that was got writes the same bytes. */
  lemma LayoutDecode(p: Prim, b: seq<bv8>, n: nat)
    requires |b| == Times(Width(p), n)
    ensures Layout(p, Decode(p, b)) == b
  {
    var get, put := Getter(p), Putter(p);
    var cs := Chunks(Width(p), b);
    forall i | 0 <= i < |cs| ensures put(get(cs[i])) == cs[i] {
      GetterIs(p, cs[i]);
      PutterIs(p, GetElem(p, cs[i]));
      PutGetElem(p, cs[i]);
    }
    MapSeqInverse(get, put, cs);
    FlattenChunks(Width(p), b, n);
  }

  /** Decoding whole elements and then more bytes decodes the two parts one after the other. */
  lemma DecodeConcat(p: Prim, a: seq<bv8>, b: seq<bv8>, n: nat)
    requires |a| == Times(Width(p), n)
    ensures Decode(p, a + b) == Decode(p, a) + Decode(p, b)
  {
    ChunksConcat(Width(p), a, b, n);
    MapSeqConcat(Getter(p), Chunks(Width(p), a), Chunks(Width(p), b));
  }

  /** Laying out two runs lays out their bytes one after the other. */
  lemma LayoutConcat(p: Prim, xs: seq<int>, ys: seq<int>)
    ensures Layout(p, xs + ys) == Layout(p, xs) + Layout(p, ys)
  {
    MapSeqConcat(Putter(p), xs, ys);
    FlattenConcat(MapSeq(Putter(p), xs), MapSeq(Putter(p), ys));
  }

  /** Nothing decodes to nothing. */
  lemma DecodeEmpty(p: Prim)
    ensures Decode(p, []) == []
  {
  }

  /** Nothing is laid out in no bytes. */
  lemma LayoutEmpty(p: Prim)
    ensures Layout(p, []) == []
  {
  }

  // ---------------------------------------------------------------------------------
  // Writing a run into a longer sequence

  /** a is before with vals written from offset off onward, and nothing else changed. */
  ghost predicate Spliced<T>(a: seq<T>, before: seq<T>, off: int, vals: seq<T>)
  {
    |a| == |before| && 0 <= off && off + |vals| <= |a| &&
    forall k {:trigger a[k]} :: 0 <= k < |a| ==>
      a[k] == (if off <= k < off + |vals| then vals[k - off] else before[k])
  }

  /** Writing nothing changes nothing. */
  lemma SplicedNone<T>(a: seq<T>, off: int)
    requires 0 <= off <= |a|
    ensures Spliced(a, a, off, [])
  {
  }

  /** Writing one entry is writing a run of one. */
  lemma SplicedOne<T>(a: seq<T>, k: int, x: T)
    requires 0 <= k < |a|
    ensures Spliced(a[k := x], a, k, [x])
  {
  }

  /** Writing one more run right after the first writes the two runs one after the other. */
  lemma SplicedCompose<T>(a2: seq<T>, a1: seq<T>, a0: seq<T>, off: int, v1: seq<T>, v2: seq<T>)
    requires Spliced(a1, a0, off, v1) && Spliced(a2, a1, off + |v1|, v2)
    ensures Spliced(a2, a0, off, v1 + v2)
  {
    forall k | 0 <= k < |a2|
      ensures a2[k] == (if off <= k < off + |v1 + v2| then (v1 + v2)[k - off] else a0[k])
    {
      if off + |v1| <= k < off + |v1| + |v2| {
        assert a2[k] == v2[k - off - |v1|];
      } else {
        assert a2[k] == a1[k];
      }
    }
  }

  /** The written run can be read back from the result. */
  lemma SplicedSlice<T>(a: seq<T>, before: seq<T>, off: int, vals: seq<T>)
    requires Spliced(a, before, off, vals)
    ensures a[off..off + |vals|] == vals
    ensures a[..off] == before[..off] && a[off + |vals|..] == before[off + |vals|..]
  {
    forall k | 0 <= k < |vals| ensures a[off..off + |vals|][k] == vals[k] {
      assert a[off + k] == vals[k];
    }
  }

  /** The array after the write is the array before with the run put in place of its entries. */
  lemma SplicedIsSplice<T>(a: seq<T>, before: seq<T>, off: int, vals: seq<T>)
    requires Spliced(a, before, off, vals)
    ensures a == before[..off] + vals + before[off + |vals|..]
  {
    SplicedSlice(a, before, off, vals);
    assert a == a[..off] + a[off..off + |vals|] + a[off + |vals|..];
  }

  /** Writes v into the entry right after the run already written. */
  method WriteNext<T>(a: array<T>, ghost before: seq<T>, ghost off: int, ghost vals: seq<T>, k: int, v: T)
    requires Spliced(a[..], before, off, vals) && k == off + |vals| < a.Length
    modifies a
    ensures Spliced(a[..], before, off, vals + [v])
  {
    ghost var a0 := a[..];
    a[k] := v;
    assert a[..] == a0[k := v];
    SplicedOne(a0, k, v);
    SplicedCompose(a[..], a0, before, off, vals, [v]);
  }

  /** Writes the bytes e right after the run already written, as one Unsafe.putX does. */
  method WriteBytes(m: array<bv8>, ghost before: seq<bv8>, off: int, ghost written: seq<bv8>, k: int, e: seq<bv8>)
    requires Spliced(m[..], before, off, written) && k == off + |written| && k + |e| <= m.Length
    modifies m
    ensures Spliced(m[..], before, off, written + e)
  {
    ghost var m0 := m[..];
    forall j | 0 <= j < |e| {
      m[k + j] := e[j];
    }
    assert Spliced(m[..], m0, k, e);
    SplicedCompose(m[..], m0, before, off, written, e);
  }

  // ---------------------------------------------------------------------------------
  // Runs read and written one element at a time

  /** The n elements read with get from s at byte at onward, w bytes each. */
  function ReadRun(get: seq<bv8> -> int, w: nat, s: seq<bv8>, at: nat, n: nat): (vals: seq<int>)
    requires at + Times(w, n) <= |s|
    ensures |vals| == n
    decreases n
  {
    if n == 0 then [] else [get(s[at..at + w])] + ReadRun(get, w, s, at + w, n - 1)
  }

  /** Reading k elements and then c more, from byte mid onward, reads the n = k + c elements. */
  lemma {:induction false} ReadRunConcat(get: seq<bv8> -> int, w: nat, s: seq<bv8>, at: nat, k: nat,
                                         mid: nat, c: nat, n: nat)
    requires n == k + c && mid == at + Times(w, k) && at + Times(w, n) <= |s|
    ensures mid + Times(w, c) == at + Times(w, n)
    ensures ReadRun(get, w, s, at, n) == ReadRun(get, w, s, at, k) + ReadRun(get, w, s, mid, c)
    decreases k
  {
    if k > 0 {
      ReadRunConcat(get, w, s, at + w, k - 1, mid, c, n - 1);
      var x := get(s[at..at + w]);
      var a, b := ReadRun(get, w, s, at + w, k - 1), ReadRun(get, w, s, mid, c);
      assert [x] + (a + b) == ([x] + a) + b;
    }
  }

  /** Reading one more element, from byte mid, appends it. */
  lemma ReadRunNext(get: seq<bv8> -> int, w: nat, s: seq<bv8>, at: nat, i: nat, mid: nat)
    requires mid == at + Times(w, i) && mid + w <= |s|
    ensures mid + w == at + Times(w, i + 1)
    ensures ReadRun(get, w, s, at, i + 1) == ReadRun(get, w, s, at, i) + [get(s[mid..mid + w])]
  {
    TimesStep(w, i, i + 1);
    ReadRunConcat(get, w, s, at, i, mid, 1, i + 1);
    assert ReadRun(get, w, s, mid, 1) == [get(s[mid..mid + w])] + ReadRun(get, w, s, mid + w, 0);
  }

  /** Reading elements one at a time reads what cutting the bytes into pieces reads. */
  lemma {:induction false} ReadRunElems(get: seq<bv8> -> int, w: nat, s: seq<bv8>, at: nat, n: nat, end: nat)
    requires w > 0 && end == at + Times(w, n) <= |s|
    ensures ReadRun(get, w, s, at, n) == MapSeq(get, Chunks(w, s[at..end]))
    decreases n
  {
    if n > 0 {
      var b := s[at..end];
      assert b[..w] == s[at..at + w];
      assert b[w..] == s[at + w..end];
      ReadRunElems(get, w, s, at + w, n - 1, end);
      var cs := Chunks(w, b);
      assert cs == [b[..w]] + Chunks(w, b[w..]);
      assert cs[0] == b[..w] && cs[1..] == Chunks(w, b[w..]);
    }
  }

  /** The bytes put writes for a run of elements take Times(w, |vals|) bytes. */
  lemma WrittenLength(put: int -> seq<bv8>, w: nat, vals: seq<int>)
    requires forall v :: |put(v)| == w
    ensures |Flatten(MapSeq(put, vals))| == Times(w, |vals|)
  {
    PutsPieces(put, w, vals);
    FlattenLength(w, MapSeq(put, vals));
  }

  /** Writing the bytes for two runs of a sequence writes the bytes of their join. */
  lemma WrittenConcat(put: int -> seq<bv8>, t: seq<int>, a: nat, b: nat, c: nat)
    requires a <= b <= c <= |t|
    ensures Flatten(MapSeq(put, t[a..c])) == Flatten(MapSeq(put, t[a..b])) + Flatten(MapSeq(put, t[b..c]))
  {
    assert t[a..c] == t[a..b] + t[b..c];
    MapSeqConcat(put, t[a..b], t[b..c]);
    FlattenConcat(MapSeq(put, t[a..b]), MapSeq(put, t[b..c]));
  }

  /** Writing the bytes for one more element of a sequence appends its bytes. */
  lemma WrittenNext(put: int -> seq<bv8>, t: seq<int>, a: nat, b: nat)
    requires a <= b < |t|
    ensures Flatten(MapSeq(put, t[a..b + 1])) == Flatten(MapSeq(put, t[a..b])) + put(t[b])
  {
    assert t[a..b + 1] == t[a..b] + [t[b]];
    MapSeqAppend(put, t[a..b], t[b]);
    FlattenAppend(MapSeq(put, t[a..b]), put(t[b]));
  }

  // ---------------------------------------------------------------------------------
  // The transfers

  /**
   * getXArrayChunk: entry dstOff + i of the destination becomes the element read from
   * the w bytes at cumOff + (i << SHIFT); pos carries that offset from one element to
   * the next. get is the element read of the array's type, reverseBytes(getX).
   */
  method GetArrayChunk(get: seq<bv8> -> int, w: nat, m: array<bv8>, cumOff: int,
                       dst: array<int>, dstOff: int, n: int)
    requires m as object != dst as object
    requires 0 <= n && 0 <= cumOff && cumOff + Times(w, n) <= m.Length
    requires 0 <= dstOff && dstOff + n <= dst.Length
    modifies dst
    ensures Spliced(dst[..], old(dst[..]), dstOff, ReadRun(get, w, m[..], cumOff, n))
  {
    ghost var d, s := dst[..], m[..];
    var i, pos := 0, 0;
    SplicedNone(d, dstOff);
    while i < n
      invariant 0 <= i <= n && pos == Times(w, i) && cumOff + pos <= |s|
      invariant m[..] == s
      invariant Spliced(dst[..], d, dstOff, ReadRun(get, w, s, cumOff, i))
    {
      TimesStep(w, i, n);
      var v := get(m[cumOff + pos..cumOff + pos + w]);
      WriteNext(dst, d, dstOff, ReadRun(get, w, s, cumOff, i), dstOff + i, v);
      ReadRunNext(get, w, s, cumOff, i, cumOff + pos);
      i, pos := i + 1, pos + w;
    }
  }

  /**
   * putXArrayChunk: the element put writes for entry srcOff + i of the source goes to
   * the w bytes at cumOff + (i << SHIFT). put is the element write of the array's type,
   * putX(reverseBytes(x)).
   */
  method PutArrayChunk(put: int -> seq<bv8>, w: nat, src: array<int>, srcOff: int, n: int,
                       m: array<bv8>, cumOff: int)
    requires m as object != src as object
    requires forall v :: |put(v)| == w
    requires 0 <= n && 0 <= srcOff && srcOff + n <= src.Length
    requires 0 <= cumOff && cumOff + Times(w, n) <= m.Length
    modifies m
    ensures Spliced(m[..], old(m[..]), cumOff, Flatten(MapSeq(put, src[srcOff..srcOff + n])))
  {
    ghost var d, t := m[..], src[..];
    var i, pos := 0, 0;
    SplicedNone(d, cumOff);
    while i < n
      invariant 0 <= i <= n && pos == Times(w, i)
      invariant src[..] == t
      invariant forall v :: |put(v)| == w
      invariant |Flatten(MapSeq(put, t[srcOff..srcOff + i]))| == pos
      invariant Spliced(m[..], d, cumOff, Flatten(MapSeq(put, t[srcOff..srcOff + i])))
    {
      TimesStep(w, i, n);
      ghost var written := Flatten(MapSeq(put, t[srcOff..srcOff + i]));
      var e := put(src[srcOff + i]);
      assert |e| == w;
      WriteBytes(m, d, cumOff, written, cumOff + pos, e);
      WrittenNext(put, t, srcOff, srcOff + i);
      i, pos := i + 1, pos + w;
    }
  }

  /** A chunk of UNSAFE_COPY_THRESHOLD_BYTES holds a whole number of elements of any type. */
  lemma ThresholdElems(w: nat)
    requires w == 2 || w == 4 || w == 8
    ensures Times(w, CompareAndCopy.UNSAFE_COPY_THRESHOLD_BYTES / w) == CompareAndCopy.UNSAFE_COPY_THRESHOLD_BYTES
  {
    TimesIsProduct(w, CompareAndCopy.UNSAFE_COPY_THRESHOLD_BYTES / w);
  }

  /**
   * One chunk of getNonNativeX: c more elements, read from the bytes right after the k
   * elements already copied, go right after them in the destination.
   */
  method GetChunk(get: seq<bv8> -> int, w: nat, m: array<bv8>, ghost s: seq<bv8>, ghost start: nat,
                  cumOff: int, dst: array<int>, ghost d: seq<int>, ghost dstOff0: int, dstOff: int,
                  ghost k: nat, c: int, ghost n: nat)
    requires m as object != dst as object && m[..] == s
    requires 0 <= c && n == k + c && cumOff == start + Times(w, k)
    requires cumOff + Times(w, c) == start + Times(w, n) <= |s|
    requires dstOff == dstOff0 + k && dstOff + c <= dst.Length
    requires Spliced(dst[..], d, dstOff0, ReadRun(get, w, s, start, k))
    modifies dst
    ensures Spliced(dst[..], d, dstOff0, ReadRun(get, w, s, start, n))
  {
    ghost var before := dst[..];
    ReadRunConcat(get, w, s, start, k, cumOff, c, n);
    GetArrayChunk(get, w, m, cumOff, dst, dstOff, c);
    SplicedCompose(dst[..], before, d, dstOff0, ReadRun(get, w, s, start, k), ReadRun(get, w, s, cumOff, c));
  }

  /**
   * The loop every getNonNativeX shares: len elements of w bytes each, read with get
   * from the memory at cumOff onward, go into dst from dstOff onward, in chunks of at
   * most UNSAFE_COPY_THRESHOLD_BYTES bytes.
   */
  method GetRun(get: seq<bv8> -> int, w: nat, m: array<bv8>, cumOff: int, copyBytes: int,
                dst: array<int>, dstOff: int, len: int)
    requires m as object != dst as object
    requires w == 2 || w == 4 || w == 8
    requires 0 <= len && copyBytes == Times(w, len)
    requires 0 <= cumOff && cumOff + copyBytes <= m.Length
    requires 0 <= dstOff && dstOff + len <= dst.Length
    modifies dst
    ensures Spliced(dst[..], old(dst[..]), dstOff, ReadRun(get, w, m[..], cumOff, len))
  {
    ghost var d, s := dst[..], m[..];
    ghost var done: nat := 0;
    var cumulativeOffsetBytes, dstOffset, lengthElems, remaining := cumOff, dstOff, len, copyBytes;
    SplicedNone(d, dstOff);
    while remaining > CompareAndCopy.UNSAFE_COPY_THRESHOLD_BYTES
      invariant m[..] == s
      invariant dstOffset == dstOff + done && done + lengthElems == len
      invariant 0 <= lengthElems && remaining == Times(w, lengthElems)
      invariant cumulativeOffsetBytes == cumOff + Times(w, done)
      invariant cumulativeOffsetBytes + remaining == cumOff + copyBytes
      invariant Spliced(dst[..], d, dstOff, ReadRun(get, w, s, cumOff, done))
      decreases remaining
    {
      var chunkBytes := if remaining <= CompareAndCopy.UNSAFE_COPY_THRESHOLD_BYTES
                        then remaining else CompareAndCopy.UNSAFE_COPY_THRESHOLD_BYTES;
      var chunkElems := chunkBytes / w;
      ThresholdElems(w);
      TimesSplit(w, lengthElems, chunkElems);
      TimesAdd(w, done, chunkElems, done + chunkElems);
      GetChunk(get, w, m, s, cumOff, cumulativeOffsetBytes, dst, d, dstOff, dstOffset,
               done, chunkElems, done + chunkElems);
      cumulativeOffsetBytes := cumulativeOffsetBytes + chunkBytes;
      dstOffset := dstOffset + chunkElems;
      remaining := remaining - chunkBytes;
      lengthElems := lengthElems - chunkElems;
      done := done + chunkElems;
    }
    TimesAdd(w, done, lengthElems, len);
    GetChunk(get, w, m, s, cumOff, cumulativeOffsetBytes, dst, d, dstOff, dstOffset,
             done, lengthElems, len);
  }

  /** The run GetNonNative reads is the run Decode cuts from the same bytes. */
  lemma ReadRunDecode(p: Prim, s: seq<bv8>, start: nat, n: nat, end: nat)
    requires end == start + Span(p, n) <= |s|
    ensures ReadRun(Getter(p), Width(p), s, start, n) == Decode(p, s[start..end])
  {
    ReadRunElems(Getter(p), Width(p), s, start, n, end);
  }

  /**
   * getNonNativeX: copies len elements of type p from the non-native memory at
   * cumBase + offsetBytes into dst from dstOff onward, byte-reversing each. The caller
   * has already checked the memory range of copyBytes = len << SHIFT bytes; the
   * destination range is checked here.
   */
  method GetNonNative(p: Prim, m: array<bv8>, cumBase: int, offsetBytes: int, copyBytes: int,
                      dst: array<int>, dstOff: i32, len: i32) returns (o: Outcome)
    requires m as object != dst as object
    requires dst.Length <= MAX_INT
    requires 0 <= len && copyBytes == Span(p, len)
    requires 0 <= cumBase + offsetBytes && cumBase + offsetBytes + copyBytes <= m.Length
    modifies dst
    ensures o == UnsafeUtil.CheckBounds(dstOff, len, dst.Length)
    ensures o != Pass ==> unchanged(dst)
    ensures o == Pass ==>
              Spliced(dst[..], old(dst[..]), dstOff as int,
                      Decode(p, old(m[cumBase + offsetBytes..cumBase + offsetBytes + copyBytes])))
  {
    o := UnsafeUtil.CheckBounds(dstOff, len, dst.Length);
    if o != Pass {
      return;
    }
    ghost var start, end := cumBase + offsetBytes, cumBase + offsetBytes + copyBytes;
    ReadRunDecode(p, m[..], start, len as int, end);
    GetRun(Getter(p), Width(p), m, cumBase + offsetBytes, copyBytes, dst, dstOff as int, len as int);
  }

  /**
   * One chunk of putNonNativeX: the bytes for c more source entries, right after the k
   * already written, go right after theirs in the memory.
   */
  method PutChunk(put: int -> seq<bv8>, w: nat, src: array<int>, ghost t: seq<int>, ghost srcOff0: int,
                  srcOff: int, m: array<bv8>, ghost d: seq<bv8>, ghost start: int, cumOff: int,
                  ghost k: nat, c: int, ghost n: nat)
    requires m as object != src as object && src[..] == t
    requires forall v :: |put(v)| == w
    requires 0 <= c && n == k + c && 0 <= srcOff0 && srcOff == srcOff0 + k && srcOff0 + n <= |t|
    requires 0 <= start && cumOff == start + Times(w, k) && cumOff + Times(w, c) <= m.Length
    requires Spliced(m[..], d, start, Flatten(MapSeq(put, t[srcOff0..srcOff0 + k])))
    modifies m
    ensures Spliced(m[..], d, start, Flatten(MapSeq(put, t[srcOff0..srcOff0 + n])))
  {
    ghost var before := m[..];
    WrittenLength(put, w, t[srcOff0..srcOff0 + k]);
    PutArrayChunk(put, w, src, srcOff, c, m, cumOff);
    assert src[srcOff..srcOff + c] == t[srcOff0 + k..srcOff0 + n];
    SplicedCompose(m[..], before, d, start, Flatten(MapSeq(put, t[srcOff0..srcOff0 + k])),
                   Flatten(MapSeq(put, t[srcOff0 + k..srcOff0 + n])));
    WrittenConcat(put, t, srcOff0, srcOff0 + k, srcOff0 + n);
  }

  /**
   * The loop every putNonNativeX shares: the bytes put writes for len entries of src
   * from srcOff onward go to the memory at cumOff onward, in chunks of at most
   * UNSAFE_COPY_THRESHOLD_BYTES bytes.
   */
  method PutRun(put: int -> seq<bv8>, w: nat, src: array<int>, srcOff: int, len: int,
                m: array<bv8>, cumOff: int, copyBytes: int)
    requires m as object != src as object
    requires w == 2 || w == 4 || w == 8
    requires forall v :: |put(v)| == w
    requires 0 <= len && copyBytes == Times(w, len)
    requires 0 <= srcOff && srcOff + len <= src.Length
    requires 0 <= cumOff && cumOff + copyBytes <= m.Length
    modifies m
    ensures Spliced(m[..], old(m[..]), cumOff, Flatten(MapSeq(put, src[srcOff..srcOff + len])))
  {
    ghost var d, t := m[..], src[..];
    ghost var done: nat := 0;
    var cumulativeOffsetBytes, srcOffset, lengthElems, remaining := cumOff, srcOff, len, copyBytes;
    SplicedNone(d, cumOff);
    while remaining > CompareAndCopy.UNSAFE_COPY_THRESHOLD_BYTES
      invariant src[..] == t
      invariant forall v :: |put(v)| == w
      invariant srcOffset == srcOff + done && done + lengthElems == len
      invariant 0 <= lengthElems && remaining == Times(w, lengthElems)
      invariant cumulativeOffsetBytes == cumOff + Times(w, done)
      invariant cumulativeOffsetBytes + remaining == cumOff + copyBytes
      invariant Spliced(m[..], d, cumOff, Flatten(MapSeq(put, t[srcOff..srcOff + done])))
      decreases remaining
    {
      var chunkBytes := if remaining <= CompareAndCopy.UNSAFE_COPY_THRESHOLD_BYTES
                        then remaining else CompareAndCopy.UNSAFE_COPY_THRESHOLD_BYTES;
      var chunkElems := chunkBytes / w;
      ThresholdElems(w);
      TimesSplit(w, lengthElems, chunkElems);
      TimesAdd(w, done, chunkElems, done + chunkElems);
      PutChunk(put, w, src, t, srcOff, srcOffset, m, d, cumOff, cumulativeOffsetBytes,
               done, chunkElems, done + chunkElems);
      cumulativeOffsetBytes := cumulativeOffsetBytes + chunkBytes;
      srcOffset := srcOffset + chunkElems;
      remaining := remaining - chunkBytes;
      lengthElems := lengthElems - chunkElems;
      done := done + chunkElems;
    }
    PutChunk(put, w, src, t, srcOff, srcOffset, m, d, cumOff, cumulativeOffsetBytes,
             done, lengthElems, len);
  }

  /**
   * putNonNativeX: writes len elements of type p from src, srcOff onward, to the
   * non-native memory at cumBase + offsetBytes, byte-reversing each. The caller has
   * already checked the memory range of copyBytes = len << SHIFT bytes; the source range
   * is checked here.
   */
  method PutNonNative(p: Prim, src: array<int>, srcOff: i32, len: i32, copyBytes: int,
                      m: array<bv8>, cumBase: int, offsetBytes: int) returns (o: Outcome)
    requires m as object != src as object
    requires src.Length <= MAX_INT
    requires 0 <= len && copyBytes == Span(p, len)
    requires 0 <= cumBase + offsetBytes && cumBase + offsetBytes + copyBytes <= m.Length
    modifies m
    ensures o == UnsafeUtil.CheckBounds(srcOff, len, src.Length)
    ensures o != Pass ==> unchanged(m)
    ensures o == Pass ==>
              Spliced(m[..], old(m[..]), cumBase + offsetBytes,
                      Layout(p, old(src[srcOff..srcOff + len])))
  {
    o := UnsafeUtil.CheckBounds(srcOff, len, src.Length);
    if o != Pass {
      return;
    }
    PutterWidth(p);
    PutRun(Putter(p), Width(p), src, srcOff as int, len as int, m, cumBase + offsetBytes, copyBytes);
  }
}
