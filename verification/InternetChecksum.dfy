/** unpv13e/libfree/in_cksum.c: the Internet checksum against the one's-complement sum of RFC 1071. */
module InternetChecksum {

  type Byte = x: int | 0 <= x < 0x100
  type Word = x: int | 0 <= x < 0x1_0000

  /** Byte order of the machine. */
  datatype Order = Little | Big

  /** The word that two consecutive bytes of memory hold. */
  function Load(order: Order, first: Byte, second: Byte): Word {
    match order
    case Little => first + 0x100 * second
    case Big => 0x100 * first + second
  }

  /** The plain sum of the words; an odd last byte is followed by a zero byte. */
  function Sum(order: Order, s: seq<Byte>): nat {
    if |s| == 0 then 0
    else if |s| == 1 then Load(order, s[0], 0)
    else Load(order, s[0], s[1]) + Sum(order, s[2..])
  }

  // ----- the reference: section 1 of RFC 1071 -----

  /** One's-complement addition: a carry out of the top bit is added at the bottom. */
  function OnesAdd(a: Word, b: Word): Word {
    if a + b < 0x1_0000 then a + b else a + b - 0xffff
  }

  function OnesSum(order: Order, s: seq<Byte>): Word {
    if |s| == 0 then 0
    else if |s| == 1 then Load(order, s[0], 0)
    else OnesAdd(Load(order, s[0], s[1]), OnesSum(order, s[2..]))
  }

  /** The checksum: the complement of the one's-complement sum. */
  function Checksum(order: Order, s: seq<Byte>): Word {
    0xffff - OnesSum(order, s)
  }

  /** The representative of n modulo 0xffff that is zero only for zero. */
  function Canon(n: nat): (c: Word)
    ensures c == 0 <==> n == 0
    ensures (n - c) % 0xffff == 0
  {
    if n == 0 then 0 else 1 + (n - 1) % 0xffff
  }

  lemma {:induction false} CanonUnique(n: nat, c: Word, q: int)
    requires n == c + 0xffff * q && (c == 0 <==> n == 0)
    ensures Canon(n) == c
  {
    var d := Canon(n);
    var p := (n - d) / 0xffff;
    assert n == d + 0xffff * p;
    assert d - c == 0xffff * (q - p);
    assert q - p == 0 || q - p >= 1 || q - p <= -1;
  }

  lemma CanonQuotient(n: nat) returns (q: nat)
    ensures n == Canon(n) + 0xffff * q
  {
    q := (n - Canon(n)) / 0xffff;
  }

  /** Adding first and reducing later is the same. */
  lemma {:induction false} CanonAdds(w: Word, n: nat)
    ensures OnesAdd(w, Canon(n)) == Canon(w + n)
  {
    var q := CanonQuotient(n);
    if w + Canon(n) < 0x1_0000 {
      CanonUnique(w + n, w + Canon(n), q);
    } else {
      CanonUnique(w + n, w + Canon(n) - 0xffff, q + 1);
    }
  }

  lemma {:induction false} OnesSumIsCanon(order: Order, s: seq<Byte>)
    ensures OnesSum(order, s) == Canon(Sum(order, s))
  {
    if |s| == 1 {
      CanonUnique(Sum(order, s), Sum(order, s), 0);
    } else if |s| > 1 {
      OnesSumIsCanon(order, s[2..]);
      CanonAdds(Load(order, s[0], s[1]), Sum(order, s[2..]));
    }
  }

  // ----- the accumulator -----

  const MAX_BYTES := 131074

  lemma {:induction false} SumBound(order: Order, s: seq<Byte>)
    ensures Sum(order, s) <= 0xffff * ((|s| + 1) / 2)
  {
    if |s| > 1 {
      SumBound(order, s[2..]);
    }
  }

  lemma {:induction false} SumOfOnes(order: Order, n: nat)
    ensures Sum(order, seq(2 * n, _ => 0xff)) == 0xffff * n
  {
    if n > 0 {
      var s: seq<Byte> := seq(2 * n, _ => 0xff);
      assert s[2..] == seq(2 * (n - 1), _ => 0xff);
      SumOfOnes(order, n - 1);
    }
  }

  lemma {:induction false} SumAppend(order: Order, a: seq<Byte>, b: seq<Byte>)
    requires |a| % 2 == 0
    ensures Sum(order, a + b) == Sum(order, a) + Sum(order, b)
  {
    if a == [] {
      assert a + b == b;
    } else {
      assert (a + b)[2..] == a[2..] + b;
      SumAppend(order, a[2..], b);
    }
  }

  /** 65537 words, counting a trailing odd byte as one, are exactly what 32 bits always hold. */
  lemma {:induction false} AccumulatorBound(order: Order, len: nat)
    ensures (forall s: seq<Byte> :: |s| == len ==> Sum(order, s) < 0x1_0000_0000) <==> len <= MAX_BYTES
  {
    forall s: seq<Byte> | |s| == len && len <= MAX_BYTES ensures Sum(order, s) < 0x1_0000_0000 {
      SumBound(order, s);
    }
    if len > MAX_BYTES {
      var a: seq<Byte> := seq(2 * 65537, _ => 0xff);
      var b: seq<Byte> := seq(len - 2 * 65537, _ => 0xff);
      SumOfOnes(order, 65537);
      SumAppend(order, a, b);
      SumPositive(order, b);
      assert |a + b| == len;
      assert Sum(order, a + b) >= 0x1_0000_0000;
    }
  }

  lemma {:induction false} SumPositive(order: Order, s: seq<Byte>)
    requires |s| > 0 && s[0] > 0
    ensures Sum(order, s) > 0
  {
  }

  /** Two folds of a 32-bit sum, truncated to 16 bits, reduce it. */
  lemma TwoFolds(n: nat)
    requires n < 0x1_0000_0000
    ensures var f := n / 0x1_0000 + n % 0x1_0000; (f + f / 0x1_0000) % 0x1_0000 == Canon(n)
  {
    var f := n / 0x1_0000 + n % 0x1_0000;
    assert n == f + 0xffff * (n / 0x1_0000);
    if f < 0x1_0000 {
      CanonUnique(n, f, n / 0x1_0000);
    } else {
      assert f / 0x1_0000 == 1;
      CanonUnique(n, f - 0xffff, n / 0x1_0000 + 1);
    }
  }

  type Word32 = x: int | 0 <= x < 0x1_0000_0000

  /** The value an accumulator of 32 bits keeps of n. */
  function Wrap(n: nat): Word32 {
    n % 0x1_0000_0000
  }

  lemma {:induction false} WrapAdds(n: nat, w: Word)
    ensures Wrap(Wrap(n) + w) == Wrap(n + w)
  {
    var q := n / 0x1_0000_0000;
    assert n + w == (Wrap(n) + w) + 0x1_0000_0000 * q;
  }

  /** What in_cksum returns of a plain sum, for any length: the accumulator wraps at 32 bits. */
  function Folded(n: nat): Word {
    var sum := Wrap(n);
    var f := High(sum) + Low(sum);
    0xffff - Low(f + High(f))
  }

  function High(sum: nat): nat {
    sum / 0x1_0000
  }

  function Low(sum: nat): Word {
    sum % 0x1_0000
  }

  lemma {:induction false} FoldedIsChecksum(order: Order, s: seq<Byte>)
    requires |s| <= MAX_BYTES
    ensures Folded(Sum(order, s)) == Checksum(order, s)
  {
    hide *;
    SumBound(order, s);
    SumWithin(order, s);
    TwoFolds(Sum(order, s));
    FoldedSmall(Sum(order, s));
    OnesSumIsCanon(order, s);
    ChecksumOf(order, s);
  }

  lemma {:induction false} SumWithin(order: Order, s: seq<Byte>)
    requires |s| <= MAX_BYTES
    ensures Sum(order, s) < 0x1_0000_0000
  {
    hide Sum;
    SumBound(order, s);
  }

  lemma FoldedSmall(n: nat)
    requires n < 0x1_0000_0000
    ensures Folded(n) == 0xffff - Canon(n)
  {
    hide Canon;
    TwoFolds(n);
    assert Wrap(n) == n;
  }

  lemma {:induction false} ChecksumOf(order: Order, s: seq<Byte>)
    ensures Checksum(order, s) == 0xffff - OnesSum(order, s)
  {
  }

  lemma {:induction false} SumStep(order: Order, s: seq<Byte>, k: nat)
    requires k % 2 == 0 && k + 2 <= |s|
    ensures Sum(order, s[..k + 2]) == Sum(order, s[..k]) + Load(order, s[k], s[k + 1])
  {
    assert s[..k + 2] == s[..k] + [s[k], s[k + 1]];
    SumAppend(order, s[..k], [s[k], s[k + 1]]);
    assert [s[k], s[k + 1]][2..] == [];
  }

  lemma {:induction false} SumLast(order: Order, s: seq<Byte>)
    requires |s| % 2 == 1
    ensures Sum(order, s) == Sum(order, s[..|s| - 1]) + Load(order, s[|s| - 1], 0)
  {
    assert s == s[..|s| - 1] + [s[|s| - 1]];
    SumAppend(order, s[..|s| - 1], [s[|s| - 1]]);
  }

  lemma WrapZero()
    ensures Wrap(0) == 0
  {
  }

  lemma {:induction false} SumEmpty(order: Order)
    ensures Sum(order, []) == 0
  {
  }

  method InCksum(order: Order, addr: array<Byte>, len: nat) returns (answer: Word)
    requires len <= addr.Length
    ensures answer == Folded(Sum(order, addr[..len]))
    ensures len <= MAX_BYTES ==> answer == Checksum(order, addr[..len])
  {
    hide Sum, Checksum, Load, Wrap, High, Low;
    SumEmpty(order);
    var nleft := len;
    var sum: nat, w := 0, 0;
    assert Wrap(0) == 0 by {
      WrapZero();
    }
    ghost var s := addr[..len];
    while nleft > 1
      invariant 0 <= w && w % 2 == 0 && w + nleft == len && 0 <= nleft
      invariant sum == Wrap(Sum(order, s[..w]))
    {
      SumStep(order, s, w);
      WrapAdds(Sum(order, s[..w]), Load(order, addr[w], addr[w + 1]));
      sum := Wrap(sum + Load(order, addr[w], addr[w + 1]));
      w := w + 2;
      nleft := nleft - 2;
    }
    assert s[..len] == s && nleft <= 1;
    if nleft == 1 {
      SumLast(order, s);
      WrapAdds(Sum(order, s[..w]), Load(order, addr[w], 0));
      sum := Wrap(sum + Load(order, addr[w], 0));
    }
    assert sum == Wrap(Sum(order, s));
    sum := High(sum) + Low(sum);
    sum := sum + High(sum);
    answer := 0xffff - Low(sum);
    if len <= MAX_BYTES {
      FoldedIsChecksum(order, s);
    }
  }

  // ----- storing the checksum and checking it again -----

  /** The bytes of a word in memory. */
  function Bytes(order: Order, w: Word): (b: seq<Byte>)
    ensures |b| == 2
  {
    match order
    case Little => [w % 0x100, w / 0x100]
    case Big => [w / 0x100, w % 0x100]
  }

  /** A buffer with word w at offset k. */
  function Stored(order: Order, s: seq<Byte>, k: nat, w: Word): (r: seq<Byte>)
    requires k + 2 <= |s|
    ensures |r| == |s|
  {
    s[..k] + Bytes(order, w) + s[k + 2..]
  }

  lemma {:induction false} SumStored(order: Order, s: seq<Byte>, k: nat, w: Word)
    requires k % 2 == 0 && k + 2 <= |s|
    ensures Sum(order, Stored(order, s, k, w)) == Sum(order, s[..k]) + w + Sum(order, s[k + 2..])
  {
    var b := Bytes(order, w);
    SumAppend(order, s[..k] + b, s[k + 2..]);
    SumAppend(order, s[..k], b);
    assert b[2..] == [] && Load(order, b[0], b[1]) == w;
  }

  /** A buffer checks to zero exactly when its sum is a positive multiple of 0xffff. */
  lemma {:induction false} ChecksIff(order: Order, s: seq<Byte>)
    ensures Checksum(order, s) == 0 <==> Sum(order, s) > 0 && Sum(order, s) % 0xffff == 0
  {
    OnesSumIsCanon(order, s);
  }

  /** The checksum of a buffer whose field is zero, stored in that field, is accepted on the way back;
      any other word is accepted exactly when it agrees with it modulo 0xffff and not all is zero. */
  lemma {:induction false} RecheckIff(order: Order, s: seq<Byte>, k: nat, w: Word)
    requires k % 2 == 0 && k + 2 <= |s|
    ensures var zeroed := Stored(order, s, k, 0);
            Checksum(order, Stored(order, s, k, w)) == 0 <==>
            (w - Checksum(order, zeroed)) % 0xffff == 0 && (w != 0 || exists i :: 0 <= i < |s| && zeroed[i] != 0)
  {
    var zeroed := Stored(order, s, k, 0);
    var n := Sum(order, zeroed);
    SumStored(order, s, k, 0);
    SumStored(order, s, k, w);
    ChecksIff(order, Stored(order, s, k, w));
    OnesSumIsCanon(order, zeroed);
    SumZeroIff(order, zeroed);
    assert |zeroed| == |s|;
    var q := CanonQuotient(n);
    Residues(n + w, w - Checksum(order, zeroed), q + 1);
  }

  lemma Residues(a: int, b: int, q: int)
    requires a == b + 0xffff * q
    ensures a % 0xffff == 0 <==> b % 0xffff == 0
  {
  }

  lemma {:induction false} SumZeroIff(order: Order, s: seq<Byte>)
    ensures Sum(order, s) == 0 <==> forall i :: 0 <= i < |s| ==> s[i] == 0
  {
    if |s| > 1 {
      SumZeroIff(order, s[2..]);
      assert s == s[..2] + s[2..];
      if forall i :: 0 <= i < |s| ==> s[i] == 0 {
        forall i | 0 <= i < |s[2..]| ensures s[2..][i] == 0 {
          assert s[2..][i] == s[i + 2];
        }
      }
    }
  }

  /** What udp_write stores: the checksum, or 0xffff in place of zero. */
  function Transmitted(c: Word): Word {
    if c == 0 then 0xffff else c
  }

  /** Both the checksum and what udp_write makes of it are accepted. */
  lemma {:induction false} StoredChecksumAccepted(order: Order, s: seq<Byte>, k: nat)
    requires k % 2 == 0 && k + 2 <= |s|
    ensures var c := Checksum(order, Stored(order, s, k, 0));
            && Checksum(order, Stored(order, s, k, c)) == 0
            && Checksum(order, Stored(order, s, k, Transmitted(c))) == 0
  {
    var zeroed := Stored(order, s, k, 0);
    var c := Checksum(order, zeroed);
    RecheckIff(order, s, k, c);
    RecheckIff(order, s, k, Transmitted(c));
    OnesSumIsCanon(order, zeroed);
    SumZeroIff(order, zeroed);
  }

  /** A change of one word is noticed, unless it turns 0x0000 into 0xffff or back. */
  lemma {:induction false} OneWordErrorNoticed(order: Order, s: seq<Byte>, k: nat, w: Word, w': Word)
    requires k % 2 == 0 && k + 2 <= |s| && w != w' && Checksum(order, Stored(order, s, k, w)) == 0
    ensures Checksum(order, Stored(order, s, k, w')) == 0 ==> {w, w'} == {0, 0xffff}
  {
    SumStored(order, s, k, w);
    SumStored(order, s, k, w');
    ChecksIff(order, Stored(order, s, k, w));
    ChecksIff(order, Stored(order, s, k, w'));
    var n := Sum(order, s[..k]) + Sum(order, s[k + 2..]);
    hide Sum, Checksum;
    if (n + w) % 0xffff == 0 && (n + w') % 0xffff == 0 {
      SameResidue(n, w, w');
    }
  }

  lemma {:induction false} SameResidue(n: nat, w: Word, w': Word)
    requires w != w' && (n + w) % 0xffff == 0 && (n + w') % 0xffff == 0
    ensures (w == 0 && w' == 0xffff) || (w == 0xffff && w' == 0)
  {
    var a, b := (n + w) / 0xffff, (n + w') / 0xffff;
    assert w - w' == 0xffff * (a - b);
  }

  /** The numerical example of section 3 of RFC 1071, on machines of either byte order. */
  lemma NumericalExample()
    ensures var s := [0x00, 0x01, 0xf2, 0x03, 0xf4, 0xf5, 0xf6, 0xf7];
            && Sum(Big, s) == 0x2ddf0 && OnesSum(Big, s) == 0xddf2 && Checksum(Big, s) == 0x220d
            && Sum(Little, s) == 0x1f2dc && OnesSum(Little, s) == 0xf2dd && Checksum(Little, s) == 0x0d22
  {
    var s: seq<Byte> := [0x00, 0x01, 0xf2, 0x03, 0xf4, 0xf5, 0xf6, 0xf7];
    var s1: seq<Byte>, s2: seq<Byte>, s3: seq<Byte> := [0xf2, 0x03, 0xf4, 0xf5, 0xf6, 0xf7], [0xf4, 0xf5, 0xf6, 0xf7], [0xf6, 0xf7];
    assert s[2..] == s1 && s1[2..] == s2 && s2[2..] == s3 && s3[2..] == [];
    assert Sum(Big, s3) == 0xf6f7 && Sum(Little, s3) == 0xf7f6;
    assert Sum(Big, s2) == 0x1ebec && Sum(Little, s2) == 0x1edea;
    assert Sum(Big, s1) == 0x2ddef && Sum(Little, s1) == 0x1f1dc;
    assert Sum(Big, s) == 0x2ddf0 && Sum(Little, s) == 0x1f2dc;
    OnesSumIsCanon(Big, s);
    OnesSumIsCanon(Little, s);
  }

  // ----- byte order: section 2 of RFC 1071 -----

  function Swapped(w: Word): Word {
    w % 0x100 * 0x100 + w / 0x100
  }

  lemma {:induction false} SwappedSum(s: seq<Byte>) returns (q: nat)
    ensures 0x100 * Sum(Little, s) == Sum(Big, s) + 0xffff * q
    ensures Sum(Big, s) == 0 <==> Sum(Little, s) == 0
  {
    if |s| == 0 {
      q := 0;
    } else if |s| == 1 {
      q := 0;
    } else {
      q := SwappedSum(s[2..]);
      q := q + s[1];
    }
  }

  /** Both machines compute the same two bytes of memory, for an even and for an odd length. */
  lemma {:induction false} ByteOrderIndependent(s: seq<Byte>)
    ensures Checksum(Big, s) == Swapped(Checksum(Little, s))
    ensures Bytes(Big, Checksum(Big, s)) == Bytes(Little, Checksum(Little, s))
  {
    hide Sum, Canon, OnesSum;
    OnesSumIsCanon(Little, s);
    OnesSumIsCanon(Big, s);
    var q := SwappedSum(s);
    SwappedCanon(Sum(Little, s), Sum(Big, s), q);
    SwappedComplement(Canon(Sum(Little, s)));
    SwappedBytes(Checksum(Little, s));
  }

  lemma {:induction false} SwappedBytes(w: Word)
    ensures Bytes(Big, Swapped(w)) == Bytes(Little, w)
  {
    var hi, lo := w / 0x100, w % 0x100;
    assert Swapped(w) == lo * 0x100 + hi;
  }

  lemma SwappedCanon(l: nat, b: nat, q: int)
    requires 0x100 * l == b + 0xffff * q && (b == 0 <==> l == 0)
    ensures Canon(b) == Swapped(Canon(l))
  {
    hide Canon;
    var p := CanonQuotient(l);
    var c: int := Canon(l);
    var hi, lo := c / 0x100, c % 0x100;
    assert 0x100 * c == Swapped(c) + 0xffff * hi;
    CanonUnique(b, Swapped(c), hi + 0x100 * p - q);
  }

  lemma {:induction false} SwappedComplement(c: Word)
    ensures Swapped(0xffff - c) == 0xffff - Swapped(c)
  {
    var hi, lo := c / 0x100, c % 0x100;
    assert 0xffff - c == 0x100 * (0xff - hi) + (0xff - lo);
    assert (0xffff - c) / 0x100 == 0xff - hi && (0xffff - c) % 0x100 == 0xff - lo;
  }
}
