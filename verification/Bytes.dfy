/**
 Bytes, fixed-width integers in either byte order, and images assembled by slice
 writes. Every binary format of the repository is built on these.
 */
module Bytes {

  type byte = b: int | 0 <= b < 256
  type bytes = seq<byte>

  const U16_LIMIT := 0x1_0000
  const U32_LIMIT := 0x1_0000_0000
  const U64_LIMIT := 0x1_0000_0000_0000_0000

  function Zeros(n: nat): (s: bytes)
    ensures |s| == n
    ensures forall i | 0 <= i < n :: s[i] == 0
  {
    seq(n, _ => 0)
  }

  /** The code points of an ASCII literal; anything else becomes a question mark. */
  function Ascii(s: string): (r: bytes)
    ensures |r| == |s|
  {
    seq(|s|, i requires 0 <= i < |s| => if s[i] < 128 as char then s[i] as int else 63)
  }

  // ---------------------------------------------------------------- integers

  function Pow256(n: nat): (p: nat)
    ensures p > 0
  {
    if n == 0 then 1 else 256 * Pow256(n - 1)
  }

  lemma Pow256Values()
    ensures Pow256(1) == 256
    ensures Pow256(2) == U16_LIMIT
    ensures Pow256(4) == U32_LIMIT
    ensures Pow256(8) == U64_LIMIT
  {
    assert Pow256(2) == 256 * Pow256(1);
    assert Pow256(3) == 256 * Pow256(2);
    assert Pow256(4) == 256 * Pow256(3);
    assert Pow256(5) == 256 * Pow256(4);
    assert Pow256(6) == 256 * Pow256(5);
    assert Pow256(7) == 256 * Pow256(6);
  }

  function FromLE(s: bytes): (v: nat)
    ensures v < Pow256(|s|)
  {
    if s == [] then 0 else s[0] + 256 * FromLE(s[1..])
  }

  function ToLE(v: nat, n: nat): (s: bytes)
    requires v < Pow256(n)
    ensures |s| == n
    ensures FromLE(s) == v
  {
    if n == 0 then []
    else
      var rest := ToLE(v / 256, n - 1);
      assert ([v % 256] + rest)[1..] == rest;
      [v % 256] + rest
  }

  lemma SplitByte(low: byte, high: nat)
    ensures (low + 256 * high) % 256 == low && (low + 256 * high) / 256 == high
  {
  }

  /** Decoding loses nothing: the bytes are the encoding of their own value. */
  lemma {:induction false} ToLEFromLE(s: bytes)
    ensures ToLE(FromLE(s), |s|) == s
  {
    if s != [] {
      var rest := FromLE(s[1..]);
      ToLEFromLE(s[1..]);
      SplitByte(s[0], rest);
      assert ToLE(s[0] + 256 * rest, |s|) == [s[0]] + s[1..];
    }
  }

  function Reversed(s: bytes): (r: bytes)
    ensures |r| == |s|
    ensures forall i | 0 <= i < |s| :: r[i] == s[|s| - 1 - i]
  {
    seq(|s|, i requires 0 <= i < |s| => s[|s| - 1 - i])
  }

  lemma ReversedTwice(s: bytes)
    ensures Reversed(Reversed(s)) == s
  {
  }

  function FromBE(s: bytes): (v: nat)
    ensures v < Pow256(|s|)
  {
    FromLE(Reversed(s))
  }

  function ToBE(v: nat, n: nat): (s: bytes)
    requires v < Pow256(n)
    ensures |s| == n
    ensures FromBE(s) == v
  {
    ReversedTwice(ToLE(v, n));
    Reversed(ToLE(v, n))
  }

  lemma ToBEFromBE(s: bytes)
    ensures ToBE(FromBE(s), |s|) == s
  {
    ToLEFromLE(Reversed(s));
    ReversedTwice(s);
  }

  function LE16(v: nat): (s: bytes)
    requires v < U16_LIMIT
    ensures |s| == 2 && FromLE(s) == v
  {
    Pow256Values();
    ToLE(v, 2)
  }

  function LE32(v: nat): (s: bytes)
    requires v < U32_LIMIT
    ensures |s| == 4 && FromLE(s) == v
  {
    Pow256Values();
    ToLE(v, 4)
  }

  function LE64(v: nat): (s: bytes)
    requires v < U64_LIMIT
    ensures |s| == 8 && FromLE(s) == v
  {
    Pow256Values();
    ToLE(v, 8)
  }

  lemma LE16Of(s: bytes)
    requires |s| == 2
    ensures FromLE(s) < U16_LIMIT && LE16(FromLE(s)) == s
  {
    Pow256Values();
    ToLEFromLE(s);
  }

  lemma LE32Of(s: bytes)
    requires |s| == 4
    ensures FromLE(s) < U32_LIMIT && LE32(FromLE(s)) == s
  {
    Pow256Values();
    ToLEFromLE(s);
  }

  lemma LE64Of(s: bytes)
    requires |s| == 8
    ensures FromLE(s) < U64_LIMIT && LE64(FromLE(s)) == s
  {
    Pow256Values();
    ToLEFromLE(s);
  }

  lemma {:induction false} ZerosDecode(n: nat)
    ensures FromLE(Zeros(n)) == 0
  {
    if n > 0 {
      assert Zeros(n)[1..] == Zeros(n - 1);
      ZerosDecode(n - 1);
    }
  }

  lemma {:induction false} ZeroIsZeros(s: bytes)
    requires FromLE(s) == 0
    ensures s == Zeros(|s|)
  {
    if s != [] {
      ZeroIsZeros(s[1..]);
      assert Zeros(|s|) == [0] + Zeros(|s| - 1) && s == [s[0]] + s[1..];
    }
  }

  function BE16(v: nat): (s: bytes)
    requires v < U16_LIMIT
    ensures |s| == 2 && FromBE(s) == v
  {
    Pow256Values();
    ToBE(v, 2)
  }

  function BE32(v: nat): (s: bytes)
    requires v < U32_LIMIT
    ensures |s| == 4 && FromBE(s) == v
  {
    Pow256Values();
    ToBE(v, 4)
  }

  lemma LE16Parts(a: byte, b: byte)
    ensures FromLE([a, b]) == a + 256 * b
  {
    assert [a, b][1..] == [b];
    assert FromLE([b]) == b + 256 * FromLE([b][1..]);
  }

  lemma BE16Parts(a: byte, b: byte)
    ensures FromBE([a, b]) == 256 * a + b
  {
    assert Reversed([a, b]) == [b, a];
    LE16Parts(b, a);
  }

  // ----------------------------------------------------- slices, as in Python

  function Min(a: int, b: int): int {
    if a <= b then a else b
  }

  /** `s[lo:hi]`: both bounds are clamped to the length. */
  function Slice<T>(s: seq<T>, lo: nat, hi: nat): (r: seq<T>)
    requires lo <= hi
    ensures hi <= |s| ==> r == s[lo..hi]
    ensures |r| == Min(hi, |s|) - Min(lo, |s|)
  {
    s[Min(lo, |s|)..Min(hi, |s|)]
  }

  lemma SliceOfSlice<T>(s: seq<T>, off: nat, end: nat, lo: nat, hi: nat)
    requires off <= end <= |s| && lo <= hi <= end - off
    ensures s[off..end][lo..hi] == s[off + lo..off + hi]
  {
    var inner, outer := s[off..end][lo..hi], s[off + lo..off + hi];
    assert forall i | 0 <= i < hi - lo :: inner[i] == outer[i];
  }

  /** The image after `s[off : off + len(data)] = data`, inside the image. */
  function Splice(s: bytes, off: nat, data: bytes): (r: bytes)
    requires off + |data| <= |s|
    ensures |r| == |s|
  {
    s[..off] + data + s[off + |data|..]
  }

  /** Writing next to what was just written is one longer write. */
  lemma SpliceAdjacent(s: bytes, off: nat, x: bytes, y: bytes)
    requires off + |x| + |y| <= |s|
    ensures Splice(Splice(s, off, x), off + |x|, y) == Splice(s, off, x + y)
  {
  }

  /** Overwriting the middle of three parts. */
  lemma SpliceMiddle(front: bytes, was: bytes, back: bytes, data: bytes)
    requires |was| == |data|
    ensures Splice(front + was + back, |front|, data) == front + data + back
  {
  }

  /** The parts joined in order. */
  function Flatten(parts: seq<bytes>): bytes {
    if parts == [] then [] else parts[0] + Flatten(parts[1..])
  }

  /** Where part i begins in the joined parts. */
  function PartOffset(parts: seq<bytes>, i: nat): nat
    requires i <= |parts|
  {
    if i == 0 then 0 else |parts[0]| + PartOffset(parts[1..], i - 1)
  }

  /** Each part is found again at its offset. */
  lemma {:induction false} FlattenAt(parts: seq<bytes>, i: nat)
    requires i < |parts|
    ensures PartOffset(parts, i) + |parts[i]| <= |Flatten(parts)|
    ensures Flatten(parts)[PartOffset(parts, i)..PartOffset(parts, i) + |parts[i]|] == parts[i]
  {
    if i > 0 {
      FlattenAt(parts[1..], i - 1);
      var rest, off := Flatten(parts[1..]), PartOffset(parts[1..], i - 1);
      assert Flatten(parts)[|parts[0]|..] == rest;
      assert Flatten(parts)[|parts[0]| + off..|parts[0]| + off + |parts[i]|] == rest[off..off + |parts[i]|];
    }
  }

  lemma {:induction false} PartOffsetNext(parts: seq<bytes>, i: nat)
    requires i < |parts|
    ensures PartOffset(parts, i + 1) == PartOffset(parts, i) + |parts[i]|
  {
    if i > 0 {
      PartOffsetNext(parts[1..], i - 1);
    }
  }

  lemma {:induction false} PartOffsetGrows(parts: seq<bytes>, i: nat, j: nat)
    requires i <= j <= |parts|
    ensures PartOffset(parts, i) <= PartOffset(parts, j)
    decreases j - i
  {
    if i < j {
      PartOffsetNext(parts, j - 1);
      PartOffsetGrows(parts, i, j - 1);
    }
  }

  lemma {:induction false} FlattenLength(parts: seq<bytes>)
    ensures |Flatten(parts)| == PartOffset(parts, |parts|)
  {
    if parts != [] {
      FlattenLength(parts[1..]);
    }
  }

  lemma {:induction false} FlattenSnoc(parts: seq<bytes>, part: bytes)
    ensures Flatten(parts + [part]) == Flatten(parts) + part
  {
    if parts == [] {
      assert parts + [part] == [part] && [part][1..] == [];
    } else {
      assert (parts + [part])[1..] == parts[1..] + [part];
      FlattenSnoc(parts[1..], part);
    }
  }

  /** Parts of one size lie at its multiples. */
  lemma {:induction false} PartOffsetUniform(parts: seq<bytes>, width: nat, i: nat)
    requires i <= |parts| && forall j | 0 <= j < |parts| :: |parts[j]| == width
    ensures PartOffset(parts, i) == width * i
  {
    if i > 0 {
      PartOffsetUniform(parts[1..], width, i - 1);
    }
  }

  /** Python's `sum(payload)`. */
  function ByteSum(s: bytes): nat {
    if s == [] then 0 else s[0] + ByteSum(s[1..])
  }

  /** The kernel's fold with `wrapping_add` on 32 bits. */
  function WrappingSum(sum: nat, s: bytes): nat
    requires sum < U32_LIMIT
    decreases |s|
  {
    if s == [] then sum else WrappingSum((sum + s[0]) % U32_LIMIT, s[1..])
  }

  /** Masking once at the end and wrapping at every byte give the same checksum. */
  lemma {:induction false} WrappingSumMasks(sum: nat, s: bytes)
    requires sum < U32_LIMIT
    ensures WrappingSum(sum, s) == (sum + ByteSum(s)) % U32_LIMIT
    decreases |s|
  {
    if s != [] {
      WrappingSumMasks((sum + s[0]) % U32_LIMIT, s[1..]);
      ModAbsorbs(sum + s[0], ByteSum(s[1..]), U32_LIMIT);
    }
  }

  /** Reducing one summand first does not change the remainder. */
  lemma ModAbsorbs(a: nat, b: nat, m: nat)
    requires m > 0
    ensures (a % m + b) % m == (a + b) % m
  {
    var x := a % m + b;
    var q, p := a / m, x / m;
    Distributes(m, q, p);
    RemainderUnique(a + b, q + p, x % m, m);
  }

  lemma Distributes(m: nat, q: int, p: int)
    ensures m * q + m * p == m * (q + p) && m * q - m * p == m * (q - p)
  {
  }

  lemma RemainderUnique(x: nat, q: int, r: nat, m: nat)
    requires r < m && x == m * q + r
    ensures x % m == r
  {
    var d := q - x / m;
    Distributes(m, q, x / m);
    assert m * d == x % m - r == -(m * -d);
    if d > 0 {
      AtLeastOnce(m, d);
    } else if d < 0 {
      AtLeastOnce(m, -d);
    }
  }

  lemma AtLeastOnce(m: nat, d: nat)
    requires d > 0
    ensures m * d >= m
  {
    Distributes(m, d - 1, 1);
  }

  // ------------------------------------------------------- images from writes

  datatype Write = Write(off: nat, data: bytes) {
    function End(): nat {
      off + |data|
    }
  }

  ghost predicate Fits(ws: seq<Write>, n: nat) {
    forall i | 0 <= i < |ws| :: ws[i].End() <= n
  }

  /** Each write begins where the earlier ones have ended, or later. */
  ghost predicate Ordered(ws: seq<Write>) {
    forall i, j | 0 <= i < j < |ws| :: ws[i].End() <= ws[j].off
  }

  ghost function Apply(base: bytes, ws: seq<Write>): (r: bytes)
    requires Fits(ws, |base|)
    ensures |r| == |base|
  {
    if ws == [] then base
    else
      var w := ws[|ws| - 1];
      Splice(Apply(base, ws[..|ws| - 1]), w.off, w.data)
  }

  lemma ApplySnoc(base: bytes, ws: seq<Write>, w: Write)
    requires Fits(ws, |base|) && w.End() <= |base|
    ensures Fits(ws + [w], |base|)
    ensures Apply(base, ws + [w]) == Splice(Apply(base, ws), w.off, w.data)
  {
    assert (ws + [w])[..|ws + [w]| - 1] == ws;
  }

  lemma {:induction false} ApplyAppend(base: bytes, xs: seq<Write>, ys: seq<Write>)
    requires Fits(xs, |base|) && Fits(ys, |base|)
    ensures Fits(xs + ys, |base|)
    ensures Apply(base, xs + ys) == Apply(Apply(base, xs), ys)
  {
    if ys == [] {
      assert xs + ys == xs;
    } else {
      ApplyAppend(base, xs, ys[..|ys| - 1]);
      assert (xs + ys)[..|xs + ys| - 1] == xs + ys[..|ys| - 1];
    }
  }

  /** Bytes that no write covers keep their old value. */
  lemma {:induction false} Untouched(base: bytes, ws: seq<Write>, lo: nat, hi: nat)
    requires Fits(ws, |base|) && lo <= hi <= |base|
    requires forall i | 0 <= i < |ws| :: ws[i].End() <= lo || hi <= ws[i].off
    ensures Apply(base, ws)[lo..hi] == base[lo..hi]
  {
    if ws != [] {
      var w := ws[|ws| - 1];
      Untouched(base, ws[..|ws| - 1], lo, hi);
      var before := Apply(base, ws[..|ws| - 1]);
      assert w.End() <= lo || hi <= w.off;
      assert Splice(before, w.off, w.data)[lo..hi] == before[lo..hi];
    }
  }

  /** In an ordered list of writes every write can be read back whole. */
  lemma {:induction false} ReadBack(base: bytes, ws: seq<Write>, k: nat)
    requires Fits(ws, |base|) && Ordered(ws) && k < |ws|
    ensures Apply(base, ws)[ws[k].off..ws[k].End()] == ws[k].data
  {
    var w := ws[|ws| - 1];
    var before := Apply(base, ws[..|ws| - 1]);
    var after := Splice(before, w.off, w.data);
    if k == |ws| - 1 {
      assert after[w.off..w.End()] == w.data;
    } else {
      ReadBack(base, ws[..|ws| - 1], k);
      assert ws[k].End() <= w.off;
      assert after[ws[k].off..ws[k].End()] == before[ws[k].off..ws[k].End()];
    }
  }

  /** Comparing neighbours is enough. */
  lemma {:induction false} OrderedByNeighbours(ws: seq<Write>)
    requires forall i | 0 <= i < |ws| - 1 :: ws[i].End() <= ws[i + 1].off
    ensures Ordered(ws)
  {
    forall i, j | 0 <= i < j < |ws| ensures ws[i].End() <= ws[j].off {
      OrderedPair(ws, i, j);
    }
  }

  lemma {:induction false} OrderedPair(ws: seq<Write>, i: nat, j: nat)
    requires forall i | 0 <= i < |ws| - 1 :: ws[i].End() <= ws[i + 1].off
    requires i < j < |ws|
    ensures ws[i].End() <= ws[j].off
  {
    assert ws[j - 1].End() <= ws[j - 1 + 1].off;
    if i < j - 1 {
      OrderedPair(ws, i, j - 1);
    }
  }

  /** Each write begins exactly where the one before it ends. */
  ghost predicate Contiguous(ws: seq<Write>) {
    forall i | 0 <= i < |ws| - 1 :: ws[i].End() == ws[i + 1].off
  }

  lemma ContiguousAppend(xs: seq<Write>, ys: seq<Write>)
    requires Contiguous(xs) && Contiguous(ys)
    requires xs != [] && ys != [] ==> xs[|xs| - 1].End() == ys[0].off
    ensures Contiguous(xs + ys)
  {
    var ws := xs + ys;
    forall i | 0 <= i < |ws| - 1 ensures ws[i].End() == ws[i + 1].off {
      if i >= |xs| {
        assert ys[i - |xs|].End() == ys[i - |xs| + 1].off;
      }
    }
  }

  lemma OrderedFits(ws: seq<Write>, n: nat)
    requires Ordered(ws) && (ws != [] ==> ws[|ws| - 1].End() <= n)
    ensures Fits(ws, n)
  {
  }

  lemma ContiguousIsOrdered(ws: seq<Write>, n: nat)
    requires Contiguous(ws) && (ws != [] ==> ws[|ws| - 1].End() <= n)
    ensures Ordered(ws) && Fits(ws, n)
  {
    OrderedByNeighbours(ws);
  }

  /** A zeroed `bytearray` that is filled by slice assignments of unchanged length. */
  class Buffer {
    const data: array<byte>
    ghost var log: seq<Write>

    ghost predicate Valid()
      reads this, data
    {
      && Fits(log, data.Length)
      && data[..] == Apply(Zeros(data.Length), log)
    }

    constructor (size: nat)
      ensures Valid() && fresh(data)
      ensures data.Length == size && log == []
    {
      data := new byte[size](_ => 0);
      log := [];
      new;
      assert data[..] == Zeros(size);
    }

    method Put(off: nat, content: bytes)
      requires Valid() && off + |content| <= data.Length
      modifies this, data
      ensures Valid() && log == old(log) + [Write(off, content)]
      ensures data[..] == Splice(old(data[..]), off, content)
    {
      ghost var before := data[..];
      for i := 0 to |content|
        invariant log == old(log)
        invariant data[..] == before[..off] + content[..i] + before[off + i..]
      {
        data[off + i] := content[i];
        assert data[..] == before[..off] + content[..i + 1] + before[off + i + 1..];
      }
      assert data[..] == Splice(before, off, content);
      log := log + [Write(off, content)];
      ApplySnoc(Zeros(data.Length), old(log), Write(off, content));
    }

    /** A run of slice assignments, first to last. */
    method PutAll(ws: seq<Write>)
      requires Valid() && Fits(ws, data.Length)
      modifies this, data
      ensures Valid() && log == old(log) + ws
    {
      for i := 0 to |ws|
        invariant Valid() && log == old(log) + ws[..i]
      {
        Put(ws[i].off, ws[i].data);
        assert ws[..i + 1] == ws[..i] + [ws[i]];
      }
    }

    function Freeze(): (r: bytes)
      requires Valid()
      reads this, data
      ensures r == Apply(Zeros(data.Length), log)
    {
      data[..]
    }
  }
}
