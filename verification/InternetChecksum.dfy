/**
 The Internet checksum (section 2 of RFC 1071) as the acceptance scripts compute it: a sum of
 16-bit words, folded after every word. It is the complement of a canonical residue modulo
 65535, and everything else follows from that.
 */
module InternetChecksum {
  import opened Bytes
  import opened Results

  const ONES := 0xFFFF

  type u16 = v: int | 0 <= v < U16_LIMIT

  function Word(s: bytes, off: nat): u16
    requires off + 2 <= |s|
  {
    var high: int, low: int := s[off], s[off + 1];
    256 * high + low
  }

  /** The sum of the words, without folding; the last byte of an odd buffer is a high byte. */
  function Sum(s: bytes): nat {
    if s == [] then 0
    else if |s| == 1 then 256 * s[0]
    else Word(s, 0) + Sum(s[2..])
  }

  function Fold(total: nat): nat {
    total % U16_LIMIT + total / U16_LIMIT
  }

  function FoldAll(total: nat, s: bytes): nat
    requires |s| % 2 == 0
    decreases |s|
  {
    if s == [] then total else FoldAll(Fold(total + Word(s, 0)), s[2..])
  }

  /** The representative of a sum modulo 65535 that is zero for the zero sum only. */
  function Residue(sum: nat): u16 {
    if sum == 0 then 0 else (sum - 1) % ONES + 1
  }

  function Checksum(s: bytes): u16 {
    ONES - Residue(Sum(s))
  }

  // ----------------------------------------------------------------- arithmetic

  lemma ResidueUnique(a: nat, r: nat, k: int)
    requires 1 <= r <= ONES && a == r + k * ONES && a > 0
    ensures Residue(a) == r
  {
    assert a - 1 == (r - 1) + k * ONES;
    ModUnique(a - 1, r - 1, k);
  }

  lemma ModUnique(x: nat, r: nat, k: int)
    requires x == r + k * ONES && 0 <= r < ONES
    ensures x % ONES == r
  {
    assert x == (x / ONES) * ONES + x % ONES;
    var d := x / ONES - k;
    assert d * ONES == r - x % ONES;
  }

  /** The quotient that leads from a sum to its residue. */
  lemma ResidueQuotient(a: nat) returns (k: nat)
    ensures a == Residue(a) + k * ONES
    ensures a > 0 ==> 1 <= Residue(a)
  {
    k := if a == 0 then 0 else (a - 1) / ONES;
  }

  lemma FoldKeepsResidue(a: nat)
    ensures Residue(Fold(a)) == Residue(a) && (Fold(a) == 0 <==> a == 0)
    ensures a < 2 * ONES + 1 ==> Fold(a) <= ONES
  {
    if a > 0 {
      var k := ResidueQuotient(a);
      assert Fold(a) == Residue(a) + (k - a / U16_LIMIT) * ONES;
      ResidueUnique(Fold(a), Residue(a), k - a / U16_LIMIT);
    }
  }

  lemma ResidueAdds(a: nat, b: nat, c: nat)
    requires Residue(a) == Residue(b) && (a == 0 <==> b == 0)
    ensures Residue(a + c) == Residue(b + c) && (a + c == 0 <==> b + c == 0)
  {
    if a + c > 0 {
      var i := ResidueQuotient(a);
      var j := ResidueQuotient(b);
      var k := ResidueQuotient(b + c);
      assert a + c == Residue(b + c) + (k + i - j) * ONES;
      ResidueUnique(a + c, Residue(b + c), k + i - j);
    }
  }

  lemma SmallResidue(a: u16)
    ensures Residue(a) == a
  {
  }

  lemma ResidueTwice(a: nat)
    ensures Residue(Residue(a)) == Residue(a) && (Residue(a) == 0 <==> a == 0)
  {
  }

  // ------------------------------------------------------------------- refinement

  /** Folding after every word never leaves 16 bits, so the second loop has nothing to do. */
  lemma {:induction false} FoldAllIsResidue(total: u16, s: bytes)
    requires |s| % 2 == 0
    ensures FoldAll(total, s) == Residue(total + Sum(s)) <= ONES
    decreases |s|
  {
    if s == [] {
      SmallResidue(total);
    } else {
      var next := Fold(total + Word(s, 0));
      FoldKeepsResidue(total + Word(s, 0));
      FoldAllIsResidue(next, s[2..]);
      ResidueAdds(next, total + Word(s, 0), Sum(s[2..]));
    }
  }

  lemma {:induction false} SumPadded(s: bytes)
    requires |s| % 2 == 1
    ensures Sum(s + [0]) == Sum(s)
    decreases |s|
  {
    if |s| > 1 {
      assert (s + [0])[2..] == s[2..] + [0];
      SumPadded(s[2..]);
    } else {
      assert (s + [0])[2..] == [];
    }
  }

  /** The two loops of `ones_complement_checksum`, on an even buffer. */
  method FoldLoops(data: bytes) returns (c: u16)
    requires |data| % 2 == 0
    ensures c == Checksum(data)
  {
    hide Residue, Fold;
    var total: nat := 0;
    var offset := 0;
    while offset < |data|
      invariant 0 <= offset <= |data| && offset % 2 == 0
      invariant FoldAll(total, data[offset..]) == FoldAll(0, data)
    {
      assert Word(data[offset..], 0) == Word(data, offset) && data[offset..][2..] == data[offset + 2..];
      total := total + Word(data, offset);
      total := Fold(total);
      offset := offset + 2;
    }
    assert data[offset..] == [];
    FoldAllIsResidue(0, data);
    ResidueTwice(Sum(data));
    while total / U16_LIMIT != 0
      invariant Residue(total) == Residue(Sum(data)) && (total == 0 <==> Sum(data) == 0)
      decreases total
    {
      FoldKeepsResidue(total);
      FoldShrinks(total);
      total := Fold(total);
    }
    SmallResidue(total);
    c := ONES - total;
  }

  lemma FoldShrinks(total: nat)
    requires total / U16_LIMIT != 0
    ensures Fold(total) < total
  {
  }

  /** The IPv4 variant refuses odd buffers. */
  method OnesComplementChecksum(data: bytes) returns (r: Option<u16>)
    ensures r == if |data| % 2 == 0 then Some(Checksum(data)) else None
  {
    if |data| % 2 != 0 {
      return None;
    }
    var c := FoldLoops(data);
    return Some(c);
  }

  /** The DNS variant pads them. */
  method PaddedChecksum(data: bytes) returns (c: u16)
    ensures c == Checksum(data)
  {
    if |data| % 2 != 0 {
      SumPadded(data);
      c := FoldLoops(data + [0]);
    } else {
      c := FoldLoops(data);
    }
  }

  // ------------------------------------------------------------- laws of RFC 1071

  function SumWords(ws: seq<u16>): nat {
    if ws == [] then 0 else ws[0] + SumWords(ws[1..])
  }

  function Words(s: bytes): (ws: seq<u16>)
    requires |s| % 2 == 0
    decreases |s|
  {
    if s == [] then [] else [Word(s, 0)] + Words(s[2..])
  }

  lemma {:induction false} SumOfWords(s: bytes)
    requires |s| % 2 == 0
    ensures Sum(s) == SumWords(Words(s))
    decreases |s|
  {
    if s != [] {
      SumOfWords(s[2..]);
    }
  }

  lemma {:induction false} SumWordsAround(xs: seq<u16>, w: u16, ys: seq<u16>)
    ensures SumWords(xs + [w] + ys) == w + SumWords(xs + ys)
  {
    if xs == [] {
      assert xs + [w] + ys == [w] + ys && xs + ys == ys;
    } else {
      assert (xs + [w] + ys)[1..] == xs[1..] + [w] + ys && (xs + ys)[1..] == xs[1..] + ys;
      SumWordsAround(xs[1..], w, ys);
    }
  }

  lemma RemovedFromMiddle(xs: seq<u16>, w: u16, ys: seq<u16>)
    ensures multiset(xs + [w] + ys) == multiset{w} + multiset(xs + ys)
  {
    assert multiset(xs + [w] + ys) == multiset(xs) + multiset([w]) + multiset(ys);
  }

  lemma CancelWord(w: u16, x: multiset<u16>, y: multiset<u16>)
    requires multiset{w} + x == multiset{w} + y
    ensures x == y
  {
    assert x == (multiset{w} + x) - multiset{w};
    assert y == (multiset{w} + y) - multiset{w};
  }

  /** Taking the first word of one arrangement out of the other. */
  lemma TakeWordOut(ws: seq<u16>, vs: seq<u16>) returns (xs: seq<u16>, ys: seq<u16>)
    requires ws != [] && multiset(ws) == multiset(vs)
    ensures vs == xs + [ws[0]] + ys && multiset(ws[1..]) == multiset(xs + ys)
  {
    assert ws[0] in multiset(vs);
    var i :| 0 <= i < |vs| && vs[i] == ws[0];
    xs, ys := vs[..i], vs[i + 1..];
    assert vs == xs + [ws[0]] + ys && ws == [ws[0]] + ws[1..];
    RemovedFromMiddle(xs, ws[0], ys);
    CancelWord(ws[0], multiset(ws[1..]), multiset(xs + ys));
  }

  lemma {:induction false} SumWordsPermuted(ws: seq<u16>, vs: seq<u16>)
    requires multiset(ws) == multiset(vs)
    ensures SumWords(ws) == SumWords(vs)
    decreases |ws|
  {
    if ws == [] {
      assert |multiset(vs)| == 0;
    } else {
      var xs, ys := TakeWordOut(ws, vs);
      SumWordsPermuted(ws[1..], xs + ys);
      SumWordsAround(xs, ws[0], ys);
    }
  }

  /** The order of the words does not matter. */
  lemma ChecksumOrderIndependent(s: bytes, t: bytes)
    requires |s| % 2 == 0 && |t| % 2 == 0 && multiset(Words(s)) == multiset(Words(t))
    ensures Checksum(s) == Checksum(t)
  {
    SumOfWords(s);
    SumOfWords(t);
    SumWordsPermuted(Words(s), Words(t));
  }

  function Swap(w: u16): u16 {
    256 * (w % 256) + w / 256
  }

  function SwapAll(s: bytes): (t: bytes)
    requires |s| % 2 == 0
    ensures |t| == |s|
    decreases |s|
  {
    if s == [] then [] else [s[1], s[0]] + SwapAll(s[2..])
  }

  /** Swapping the bytes of a word multiplies it by 256 modulo 65535. */
  lemma SwapIsTimes256(w: u16)
    ensures 256 * w == Swap(w) + ONES * (w / 256)
  {
  }

  lemma SwapComplement(w: u16)
    ensures Swap(ONES - w) == ONES - Swap(w)
    ensures w > 0 ==> Swap(w) > 0
  {
    var high, low := w / 256, w % 256;
    assert ONES - w == 256 * (255 - high) + (255 - low);
  }

  lemma {:induction false} SwapAllSum(s: bytes) returns (k: nat)
    requires |s| % 2 == 0
    ensures 256 * Sum(s) == Sum(SwapAll(s)) + ONES * k
    ensures Sum(SwapAll(s)) == 0 <==> Sum(s) == 0
    decreases |s|
  {
    if s == [] {
      k := 0;
    } else {
      var rest := SwapAllSum(s[2..]);
      var w := Word(s, 0);
      SwapIsTimes256(w);
      assert SwapAll(s)[2..] == SwapAll(s[2..]);
      assert Word(SwapAll(s), 0) == Swap(w);
      k := rest + w / 256;
    }
  }

  lemma SwappedResidue(sum: nat, swapped: nat, k: nat)
    requires 256 * sum == swapped + ONES * k && (swapped == 0 <==> sum == 0)
    ensures Residue(swapped) == Swap(Residue(sum))
  {
    if sum > 0 {
      var q := ResidueQuotient(sum);
      var r := Residue(sum);
      SwapIsTimes256(r);
      SwapComplement(r);
      TimesOnes(sum, r, q, swapped, k, Swap(r), r / 256);
      ResidueUnique(swapped, Swap(r), r / 256 + 256 * q - k);
    }
  }

  lemma TimesOnes(sum: int, r: int, q: int, swapped: int, k: int, w: int, h: int)
    requires sum == r + q * ONES && 256 * sum == swapped + ONES * k && 256 * r == w + ONES * h
    ensures swapped == w + (h + 256 * q - k) * ONES
  {
  }

  /** The checksum of byte-swapped data is the byte-swapped checksum. */
  lemma ChecksumByteOrderIndependent(s: bytes)
    requires |s| % 2 == 0
    ensures Checksum(SwapAll(s)) == Swap(Checksum(s))
  {
    hide Swap, Residue, Sum, SwapAll;
    var k := SwapAllSum(s);
    SwappedResidue(Sum(s), Sum(SwapAll(s)), k);
    SwapComplement(Residue(Sum(s)));
  }

  // --------------------------------------------------------- insertion, detection

  /** What a big-endian word adds to the sum when it is written over zeros. */
  lemma {:induction false} SumInserts(s: bytes, off: nat, a: byte, b: byte)
    requires off + 2 <= |s| && s[off] == s[off + 1] == 0
    ensures Sum(Splice(s, off, [a, b])) == Sum(s) + (if off % 2 == 0 then 256 * a + b else 256 * b + a)
    decreases off
  {
    var t := Splice(s, off, [a, b]);
    if off == 0 {
      assert t[2..] == s[2..];
    } else if off == 1 {
      assert t[1] == a && t[2] == b;
      assert t[2..] == [b] + s[3..] && s[2..] == [0] + s[3..];
      HeadByte(s[3..], b);
    } else {
      assert t[2..] == Splice(s[2..], off - 2, [a, b]) && t[..2] == s[..2];
      SumInserts(s[2..], off - 2, a, b);
    }
  }

  lemma HeadByte(rest: bytes, b: byte)
    ensures Sum([b] + rest) == 256 * b + Sum([0] + rest)
  {
    if rest != [] {
      assert ([b] + rest)[2..] == ([0] + rest)[2..];
    }
  }

  lemma ZeroChecksum(s: bytes)
    ensures Checksum(s) == 0 <==> Sum(s) > 0 && Sum(s) % ONES == 0
  {
    if Sum(s) > 0 {
      var k := ResidueQuotient(Sum(s));
      if Residue(Sum(s)) == ONES {
        ModUnique(Sum(s), 0, k + 1);
      }
      if Sum(s) % ONES == 0 {
        ResidueUnique(Sum(s), ONES, Sum(s) / ONES - 1);
      }
    }
  }

  /** The two bytes of a checksum are equal exactly if 257 divides the sum of the words: 65535 is 255 * 257. */
  lemma EqualBytesIff(s: bytes)
    ensures Checksum(s) / 256 == Checksum(s) % 256 <==> Sum(s) % 257 == 0
  {
    hide Residue;
    var r: nat := Residue(Sum(s));
    var k := ResidueQuotient(Sum(s));
    var c := ONES - r;
    var a, b := c / 256, c % 256;
    assert c == 257 * a + (b - a);
    assert Sum(s) == r + k * ONES == 257 * (255 * k + 255 - a) + (a - b);
    DividedBy257(c, a, b - a);
    DividedBy257(Sum(s), 255 * k + 255 - a, a - b);
  }

  lemma DividedBy257(n: nat, q: int, d: int)
    requires n == 257 * q + d && -257 < d < 257
    ensures n % 257 == 0 <==> d == 0
  {
  }

  /**
   Writing the checksum into a zeroed field makes the buffer verify if and only if the field is
   aligned or 257 divides the sum of the words, which is when the checksum has two equal bytes.
   */
  lemma InsertedVerifiesIff(s: bytes, off: nat)
    requires off + 2 <= |s| && s[off] == s[off + 1] == 0
    ensures var c := Checksum(s);
      Checksum(Splice(s, off, BE16(c))) == 0 <==> off % 2 == 0 || c / 256 == c % 256
    ensures Checksum(Splice(s, off, BE16(Checksum(s)))) == 0 <==> off % 2 == 0 || Sum(s) % 257 == 0
  {
    EqualBytesIff(s);
    var c := Checksum(s);
    var a, b := c / 256, c % 256;
    BE16Is(c);
    SumInserts(s, off, a, b);
    var t := Splice(s, off, [a, b]);
    var k := ResidueQuotient(Sum(s));
    var added := if off % 2 == 0 then c else Swap(c);
    assert Sum(t) == Sum(s) + added == (k + 1) * ONES + (added - c);
    ZeroChecksum(t);
    if added == c {
      ModUnique(Sum(t), 0, k + 1);
    } else {
      assert added - c == 255 * (b - a) && a != b;
      if b > a {
        ModUnique(Sum(t), 255 * (b - a), k + 1);
      } else {
        ModUnique(Sum(t), ONES + 255 * (b - a), k);
      }
    }
  }

  lemma BE16Is(v: u16)
    ensures BE16(v) == [v / 256, v % 256]
  {
    BE16Parts(v / 256, v % 256);
    ToBEFromBE([v / 256, v % 256]);
  }

  lemma {:induction false} SumReplaces(s: bytes, off: nat, a: byte, b: byte)
    requires off % 2 == 0 && off + 2 <= |s|
    ensures Sum(Splice(s, off, [a, b])) == Sum(s) - Word(s, off) + 256 * a + b
    ensures Word(s, off) <= Sum(s)
    decreases off
  {
    var t := Splice(s, off, [a, b]);
    if off == 0 {
      assert t[2..] == s[2..];
    } else {
      assert t[2..] == Splice(s[2..], off - 2, [a, b]) && t[..2] == s[..2];
      SumReplaces(s[2..], off - 2, a, b);
    }
  }

  /**
   Replacing one aligned word of a verifying buffer goes unseen exactly if the word stays, or
   0x0000 becomes 0xFFFF, or 0xFFFF becomes 0x0000 while other words are not all zero.
   */
  lemma ReplacedWordUnseenIff(s: bytes, off: nat, v: u16)
    requires off % 2 == 0 && off + 2 <= |s| && Checksum(s) == 0
    ensures var u := Word(s, off);
      Checksum(Splice(s, off, BE16(v))) == 0 <==>
        u == v || (u == 0 && v == ONES) || (u == ONES && v == 0 && Sum(s) != ONES)
  {
    var u := Word(s, off);
    BE16Is(v);
    SumReplaces(s, off, v / 256, v % 256);
    var t := Splice(s, off, [v / 256, v % 256]);
    ZeroChecksum(s);
    ZeroChecksum(t);
    var k := Sum(s) / ONES;
    assert Sum(t) == k * ONES + (v - u);
    if 0 <= v - u < ONES {
      ModUnique(Sum(t), v - u, k);
    } else if v - u == ONES {
      ModUnique(Sum(t), 0, k + 1);
    } else if v - u == -ONES {
      ModUnique(Sum(t), 0, k - 1);
    } else {
      ModUnique(Sum(t), v - u + ONES, k - 1);
    }
  }

  /** Over a buffer that is not all zero, only one field value verifies, or 0xFFFF in place of 0. */
  lemma FieldUnique(s: bytes, off: nat, v: u16)
    requires off % 2 == 0 && off + 2 <= |s| && s[off] == s[off + 1] == 0 && Sum(s) > 0
    ensures Checksum(s) < ONES
    ensures Checksum(Splice(s, off, BE16(v))) == 0 <==> v == Checksum(s) || (Checksum(s) == 0 && v == ONES)
  {
    var c := Checksum(s);
    BE16Is(v);
    SumInserts(s, off, v / 256, v % 256);
    var t := Splice(s, off, [v / 256, v % 256]);
    var k := ResidueQuotient(Sum(s));
    assert Sum(t) == (k + 1) * ONES + (v - c);
    ZeroChecksum(t);
    if v - c == ONES {
      ModUnique(Sum(t), 0, k + 2);
    } else if v >= c {
      ModUnique(Sum(t), v - c, k + 1);
    } else {
      ModUnique(Sum(t), v - c + ONES, k);
    }
  }
}
