/** Bytes, the fixed-width integers the readers decode, and their two byte orders. */
module Bytes {

  type byte = b: int | 0 <= b < 0x100
  type bytes = seq<byte>
  type uint16 = n: int | 0 <= n < 0x1_0000
  type uint32 = n: int | 0 <= n < 0x1_0000_0000
  type uint64 = n: int | 0 <= n < 0x1_0000_0000_0000_0000

  datatype Option<+T> = None | Some(value: T) {
    predicate IsFailure() {
      None?
    }

    function PropagateFailure<U>(): Option<U>
      requires None?
    {
      None
    }

    function Extract(): T
      requires Some?
    {
      value
    }
  }

  const NUL: byte := 0

  /** The bytes of a text literal; a character beyond ASCII would become a question mark. */
  function Ascii(s: string): (r: bytes)
    ensures |r| == |s|
    ensures forall i :: 0 <= i < |s| && s[i] < 128 as char ==> r[i] == s[i] as int
  {
    seq(|s|, i requires 0 <= i < |s| => if s[i] < 128 as char then s[i] as int else 63)
  }

  /** `n` zero bytes. */
  function Zeros(n: nat): (r: bytes)
    ensures |r| == n && forall i :: 0 <= i < n ==> r[i] == 0
  {
    seq(n, _ => 0)
  }

  // ----- C strings -----

  /** The index of the first NUL, or the length. */
  function FirstNul(s: bytes): (n: nat)
    ensures n <= |s| && (forall i :: 0 <= i < n ==> s[i] != NUL) && (n < |s| ==> s[n] == NUL)
  {
    if s == [] || s[0] == NUL then 0 else 1 + FirstNul(s[1..])
  }

  lemma {:induction false} FirstNulIs(s: bytes, n: nat)
    requires n <= |s| && (forall i :: 0 <= i < n ==> s[i] != NUL) && (n < |s| ==> s[n] == NUL)
    ensures FirstNul(s) == n
  {
    if n == 0 {
    } else {
      FirstNulIs(s[1..], n - 1);
    }
  }

  /** What a C string function sees of a buffer. */
  function CString(s: bytes): bytes {
    s[..FirstNul(s)]
  }

  lemma NulFreeIsWhole(s: bytes)
    requires NUL !in s
    ensures CString(s) == s
  {
    FirstNulIs(s, |s|);
  }

  // ----- fields whose byte order is that of the image -----

  function U16(s: bytes, p: nat, bigEndian: bool): uint16
    requires p + 2 <= |s|
  {
    var b0: int, b1: int := s[p], s[p + 1];
    if bigEndian then b0 * 0x100 + b1 else b1 * 0x100 + b0
  }

  /** Four base-256 digits, most significant first. */
  function Digits(b3: int, b2: int, b1: int, b0: int): int {
    b3 * 0x100_0000 + b2 * 0x1_0000 + b1 * 0x100 + b0
  }

  lemma SplitDigit(high: int, low: byte)
    ensures (high * 0x100 + low) / 0x100 == high && (high * 0x100 + low) % 0x100 == low
  {
  }

  lemma DigitsUnique(b3: byte, b2: byte, b1: byte, b0: byte, v: uint32)
    ensures Digits(b3, b2, b1, b0) == v <==> [b0, b1, b2, b3] == PutU32(v, false)
  {
    var high3: int := b3;
    var high2 := high3 * 0x100 + b2;
    var high1 := high2 * 0x100 + b1;
    assert Digits(b3, b2, b1, b0) == high1 * 0x100 + b0;
    SplitDigit(high1, b0);
    SplitDigit(high2, b1);
    SplitDigit(high3, b2);
  }

  function U32(s: bytes, p: nat, bigEndian: bool): uint32
    requires p + 4 <= |s|
  {
    if bigEndian then Digits(s[p], s[p + 1], s[p + 2], s[p + 3])
    else Digits(s[p + 3], s[p + 2], s[p + 1], s[p])
  }

  function PutU16(v: uint16, bigEndian: bool): (s: bytes)
    ensures |s| == 2
  {
    if bigEndian then [v / 0x100, v % 0x100] else [v % 0x100, v / 0x100]
  }

  function PutU32(v: uint32, bigEndian: bool): (s: bytes)
    ensures |s| == 4
  {
    var high1 := v / 0x100;
    var high2 := high1 / 0x100;
    var b3, b2, b1, b0 := high2 / 0x100, high2 % 0x100, high1 % 0x100, v % 0x100;
    if bigEndian then [b3, b2, b1, b0] else [b0, b1, b2, b3]
  }

  /** Decoding at `p` gives `v` exactly when the two bytes there are the encoding of `v`. */
  lemma U16Codec(s: bytes, p: nat, v: uint16, bigEndian: bool)
    requires p + 2 <= |s|
    ensures U16(s, p, bigEndian) == v <==> s[p..p + 2] == PutU16(v, bigEndian)
  {
    assert s[p..p + 2] == [s[p], s[p + 1]];
  }

  /** Decoding at `p` gives `v` exactly when the four bytes there are the encoding of `v`. */
  lemma U32Codec(s: bytes, p: nat, v: uint32, bigEndian: bool)
    requires p + 4 <= |s|
    ensures U32(s, p, bigEndian) == v <==> s[p..p + 4] == PutU32(v, bigEndian)
  {
    assert s[p..p + 4] == [s[p], s[p + 1], s[p + 2], s[p + 3]];
    if bigEndian {
      DigitsUnique(s[p], s[p + 1], s[p + 2], s[p + 3], v);
    } else {
      DigitsUnique(s[p + 3], s[p + 2], s[p + 1], s[p], v);
    }
  }

  // ----- what lies where -----

  function Window(img: bytes, pos: nat, n: nat): Option<bytes> {
    if pos + n <= |img| then Some(img[pos..pos + n]) else None
  }

  /** `s` is in the image at `pos`. */
  ghost predicate At(img: bytes, pos: nat, s: bytes) {
    Window(img, pos, |s|) == Some(s)
  }

  lemma Peel(img: bytes, pos: nat, a: bytes, b: bytes)
    requires At(img, pos, a + b)
    ensures At(img, pos, a) && At(img, pos + |a|, b) && pos + |a| + |b| <= |img|
  {
    var whole := img[pos..pos + |a + b|];
    assert a == whole[..|a|] == img[pos..pos + |a|];
    assert b == whole[|a|..] == img[pos + |a|..pos + |a| + |b|];
  }

  lemma PeelU32(img: bytes, pos: nat, v: uint32, b: bytes, bigEndian: bool)
    requires At(img, pos, PutU32(v, bigEndian) + b)
    ensures U32(img, pos, bigEndian) == v && At(img, pos + 4, b) && pos + 4 + |b| <= |img|
  {
    Peel(img, pos, PutU32(v, bigEndian), b);
    U32Codec(img, pos, v, bigEndian);
  }

  lemma PeelU16(img: bytes, pos: nat, v: uint16, b: bytes, bigEndian: bool)
    requires At(img, pos, PutU16(v, bigEndian) + b)
    ensures U16(img, pos, bigEndian) == v && At(img, pos + 2, b) && pos + 2 + |b| <= |img|
  {
    Peel(img, pos, PutU16(v, bigEndian), b);
    U16Codec(img, pos, v, bigEndian);
  }

  lemma PeelByte(img: bytes, pos: nat, v: byte, b: bytes)
    requires At(img, pos, [v] + b)
    ensures pos + 1 + |b| <= |img| && img[pos] == v && At(img, pos + 1, b)
  {
    Peel(img, pos, [v], b);
    assert img[pos] == img[pos..pos + 1][0];
  }

  lemma AtSplits(img: bytes, pos: nat, a: bytes, b: bytes)
    ensures At(img, pos, a + b) <==> At(img, pos, a) && At(img, pos + |a|, b)
  {
    var n := pos + |a| + |b|;
    if n <= |img| {
      var s := img[pos..n];
      assert s[..|a|] == img[pos..pos + |a|] && s[|a|..] == img[pos + |a|..n];
      assert s == s[..|a|] + s[|a|..];
    }
  }

  lemma PushU32(img: bytes, pos: nat, v: uint32, b: bytes, bigEndian: bool)
    requires pos + 4 <= |img| && U32(img, pos, bigEndian) == v && At(img, pos + 4, b)
    ensures At(img, pos, PutU32(v, bigEndian) + b)
  {
    U32Codec(img, pos, v, bigEndian);
    AtSplits(img, pos, PutU32(v, bigEndian), b);
  }

  lemma PushU16(img: bytes, pos: nat, v: uint16, b: bytes, bigEndian: bool)
    requires pos + 2 <= |img| && U16(img, pos, bigEndian) == v && At(img, pos + 2, b)
    ensures At(img, pos, PutU16(v, bigEndian) + b)
  {
    U16Codec(img, pos, v, bigEndian);
    AtSplits(img, pos, PutU16(v, bigEndian), b);
  }

  /** The bytes of the image from `pos` up to where `b` begins, and then `b`. */
  lemma PushSlice(img: bytes, pos: nat, end: nat, b: bytes)
    requires pos <= end <= |img| && At(img, end, b)
    ensures At(img, pos, img[pos..end] + b)
  {
    AtSplits(img, pos, img[pos..end], b);
  }

  // ----- little-endian fields of any width -----

  function Pow256(n: nat): (r: nat)
    ensures r >= 1
  {
    if n == 0 then 1 else 256 * Pow256(n - 1)
  }

  function Le(s: bytes): (v: nat)
    ensures v < Pow256(|s|)
  {
    if s == [] then 0 else s[0] + 256 * Le(s[1..])
  }

  function PutLe(v: nat, n: nat): (s: bytes)
    ensures |s| == n
  {
    if n == 0 then [] else [v % 256] + PutLe(v / 256, n - 1)
  }

  lemma {:induction false} LeRoundTrip(v: nat, n: nat)
    requires v < Pow256(n)
    ensures Le(PutLe(v, n)) == v
  {
    if n == 0 {
    } else {
      LeRoundTrip(v / 256, n - 1);
    }
  }

  lemma {:induction false} PutLeRoundTrip(s: bytes)
    ensures PutLe(Le(s), |s|) == s
  {
    if s == [] {
    } else {
      PutLeRoundTrip(s[1..]);
      SplitDigit(Le(s[1..]), s[0]);
    }
  }

  /** The widths the SquashFS fields use. */
  lemma Pow256Widths()
    ensures Pow256(2) == 0x1_0000 && Pow256(4) == 0x1_0000_0000 && Pow256(8) == 0x1_0000_0000_0000_0000
  {
    assert Pow256(3) == 0x100_0000;
    assert Pow256(5) == 0x100_0000_0000;
    assert Pow256(6) == 0x1_0000_0000_0000;
    assert Pow256(7) == 0x100_0000_0000_0000;
  }

  // ----- concatenation of many pieces -----

  function Flatten(parts: seq<bytes>): bytes {
    if parts == [] then [] else parts[0] + Flatten(parts[1..])
  }

  lemma {:induction false} FlattenAppend(a: seq<bytes>, b: seq<bytes>)
    ensures Flatten(a + b) == Flatten(a) + Flatten(b)
  {
    if a == [] {
      assert a + b == b;
    } else {
      assert (a + b)[1..] == a[1..] + b;
      FlattenAppend(a[1..], b);
    }
  }

  /** Where one of the pieces of a concatenation lies. */
  lemma FlattenSplits(parts: seq<bytes>, i: nat)
    requires i < |parts|
    ensures Flatten(parts) == Flatten(parts[..i]) + (parts[i] + Flatten(parts[i + 1..]))
    ensures Flatten(parts[..i + 1]) == Flatten(parts[..i]) + parts[i]
  {
    assert parts == parts[..i] + parts[i..];
    FlattenAppend(parts[..i], parts[i..]);
    assert parts[i..][1..] == parts[i + 1..];
    assert parts[..i + 1] == parts[..i] + [parts[i]];
    FlattenAppend(parts[..i], [parts[i]]);
    assert Flatten([parts[i]]) == parts[i] + Flatten([parts[i]][1..]) == parts[i];
  }

  lemma AtPiece(img: bytes, p: nat, parts: seq<bytes>, i: nat)
    requires i < |parts| && At(img, p, Flatten(parts))
    ensures At(img, p + |Flatten(parts[..i])|, parts[i])
  {
    hide At;
    FlattenSplits(parts, i);
    Peel(img, p, Flatten(parts[..i]), parts[i] + Flatten(parts[i + 1..]));
    Peel(img, p + |Flatten(parts[..i])|, parts[i], Flatten(parts[i + 1..]));
  }

  // ----- lists whose reading can fail -----

  /** `a` and then `b`, unless reading `b` failed. */
  function Prepended<T>(a: seq<T>, b: Option<seq<T>>): Option<seq<T>> {
    if b.None? then None else Some(a + b.value)
  }

  lemma PrependNothing<T>(b: Option<seq<T>>)
    ensures Prepended([], b) == b
  {
    if b.Some? {
      assert [] + b.value == b.value;
    }
  }

  lemma PrependAssoc<T>(done: seq<T>, x: T, more: Option<seq<T>>)
    ensures Prepended(done, Prepended([x], more)) == Prepended(done + [x], more)
  {
    if more.Some? {
      assert done + ([x] + more.value) == done + [x] + more.value;
    }
  }

  // ----- what does not depend on the order of a list -----

  function FlatMap<A, B>(s: seq<A>, f: A -> seq<B>): seq<B> {
    if s == [] then [] else f(s[0]) + FlatMap(s[1..], f)
  }

  lemma {:induction false} FlatMapAppend<A, B>(s: seq<A>, t: seq<A>, f: A -> seq<B>)
    ensures FlatMap(s + t, f) == FlatMap(s, f) + FlatMap(t, f)
  {
    if s == [] {
      assert s + t == t;
    } else {
      assert (s + t)[1..] == s[1..] + t;
      FlatMapAppend(s[1..], t, f);
    }
  }

  lemma WithoutOne<A>(s: seq<A>, i: nat)
    requires i < |s|
    ensures multiset(s[..i] + s[i + 1..]) == multiset(s) - multiset{s[i]}
  {
    assert s == s[..i] + [s[i]] + s[i + 1..];
  }

  lemma FlatMapWithoutOne<A, B>(s: seq<A>, i: nat, f: A -> seq<B>)
    requires i < |s|
    ensures multiset(FlatMap(s, f)) == multiset(FlatMap(s[..i] + s[i + 1..], f)) + multiset(f(s[i]))
  {
    var before, after := s[..i], s[i + 1..];
    FlatMapAppend(before, after, f);
    FlatMapAppend(before, s[i..], f);
    assert s == before + s[i..] && s[i..][1..] == after;
    assert FlatMap(s[i..], f) == f(s[i]) + FlatMap(after, f);
  }

  lemma Occurrence<A>(x: A, s: seq<A>) returns (i: nat)
    requires x in multiset(s)
    ensures i < |s| && s[i] == x
  {
    i :| 0 <= i < |s| && s[i] == x;
  }

  /** Permuting a list permutes what its elements stand for. */
  lemma {:induction false} FlatMapPermutes<A, B>(s: seq<A>, t: seq<A>, f: A -> seq<B>)
    requires multiset(s) == multiset(t)
    ensures multiset(FlatMap(s, f)) == multiset(FlatMap(t, f))
    decreases |s|
  {
    hide *;
    if s == [] {
      assert |t| == |multiset(t)| == 0;
    } else {
      var i := Occurrence(s[0], t);
      WithoutOne(s, 0);
      WithoutOne(t, i);
      FlatMapPermutes(s[..0] + s[1..], t[..i] + t[i + 1..], f);
      FlatMapWithoutOne(s, 0, f);
      FlatMapWithoutOne(t, i, f);
    }
  }

  lemma {:induction false} FlatMapOfSingles<A(!new), B>(s: seq<A>, f: A -> seq<B>)
    requires forall x :: |f(x)| == 1
    ensures |FlatMap(s, f)| == |s| && forall i :: 0 <= i < |s| ==> FlatMap(s, f)[i] == f(s[i])[0]
  {
    if s == [] {
    } else {
      FlatMapOfSingles(s[1..], f);
    }
  }

  lemma {:induction false} SameOnAll<A(!new), B>(s: seq<A>, f: A -> seq<B>, g: A -> seq<B>)
    requires forall x :: x in s ==> f(x) == g(x)
    ensures FlatMap(s, f) == FlatMap(s, g)
  {
    if s == [] {
    } else {
      assert s[0] in s && forall x :: x in s[1..] ==> x in s;
      SameOnAll(s[1..], f, g);
    }
  }
}
