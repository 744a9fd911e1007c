/** The Internet checksum over byte buffers: the summing loop behind `in_checksum`,
    zero-then-fill, what a receiver accepts, and incremental update.

    Neither builder defines `in_checksum` or `tcp_v4_check`; both follow section 2
    of RFC 1071, read as host-order 16-bit words of a buffer of network bytes. */
module InternetChecksum {
  import opened OnesComplement

  datatype ByteOrder = LittleEndian | BigEndian

  // ------------------------------------------------------------ words in memory

  /** The 16-bit value a machine loads from two consecutive bytes. */
  function Load(order: ByteOrder, x: Byte, y: Byte): Word16 {
    if order.BigEndian? then 0x100 * x + y else x + 0x100 * y
  }

  /** The two bytes a machine stores for a 16-bit value. */
  function Store(order: ByteOrder, w: Word16): (s: seq<Byte>)
    ensures |s| == 2 && Load(order, s[0], s[1]) == w
  {
    if order.BigEndian? then [w / 0x100, w % 0x100] else [w % 0x100, w / 0x100]
  }

  /** Plain (unbounded) sum of the words; an odd last byte is padded with a zero byte. */
  function WordSum(order: ByteOrder, b: seq<Byte>): nat {
    if |b| == 0 then 0
    else if |b| == 1 then Load(order, b[0], 0)
    else Load(order, b[0], b[1]) + WordSum(order, b[2..])
  }

  /** The reference definition: one end-around addition per word. */
  function EndAroundSum(order: ByteOrder, b: seq<Byte>): Word16 {
    if |b| == 0 then 0
    else if |b| == 1 then Load(order, b[0], 0)
    else EndAroundAdd(Load(order, b[0], b[1]), EndAroundSum(order, b[2..]))
  }

  function Checksum(order: ByteOrder, b: seq<Byte>): Word16 {
    Complement(Residue(WordSum(order, b)))
  }

  /** A receiver accepts a header whose words, checksum included, sum to all ones. */
  predicate Verifies(order: ByteOrder, b: seq<Byte>) {
    Residue(WordSum(order, b)) == ALL_ONES
  }

  /** b with the aligned word at p replaced by the bytes x, y. */
  function SetWord(b: seq<Byte>, p: nat, x: Byte, y: Byte): (r: seq<Byte>)
    requires p + 1 < |b|
    ensures |r| == |b| && r[p] == x && r[p + 1] == y
    ensures forall i :: 0 <= i < |b| && i != p && i != p + 1 ==> r[i] == b[i]
  {
    b[p := x][p + 1 := y]
  }

  function PutChecksum(order: ByteOrder, b: seq<Byte>, p: nat, w: Word16): (r: seq<Byte>)
    requires p + 1 < |b|
    ensures |r| == |b| && Load(order, r[p], r[p + 1]) == w
    ensures forall i :: 0 <= i < |b| && i != p && i != p + 1 ==> r[i] == b[i]
  {
    SetWord(b, p, Store(order, w)[0], Store(order, w)[1])
  }

  // ------------------------------------------------------------ the sum itself

  lemma {:induction false} WordSumIsResidueSum(order: ByteOrder, b: seq<Byte>)
    ensures EndAroundSum(order, b) == Residue(WordSum(order, b))
  {
    if |b| >= 2 {
      var w := Load(order, b[0], b[1]);
      WordSumIsResidueSum(order, b[2..]);
      WordIsItsResidue(w);
      EndAroundAddIsResidue(w, WordSum(order, b[2..]));
    } else if |b| == 1 {
      WordIsItsResidue(Load(order, b[0], 0));
    }
  }

  lemma {:induction false} WordSumConcat(order: ByteOrder, a: seq<Byte>, b: seq<Byte>)
    requires |a| % 2 == 0
    ensures WordSum(order, a + b) == WordSum(order, a) + WordSum(order, b)
  {
    if |a| == 0 {
      assert a + b == b;
    } else {
      WordSumConcat(order, a[2..], b);
      assert (a + b)[2..] == a[2..] + b;
    }
  }

  lemma {:induction false} WordSumBound(order: ByteOrder, b: seq<Byte>)
    ensures WordSum(order, b) <= 0xFFFF * ((|b| + 1) / 2)
  {
    if |b| >= 2 {
      WordSumBound(order, b[2..]);
    }
  }

  /** A sum is zero exactly when every byte is. */
  lemma {:induction false} WordSumZero(order: ByteOrder, b: seq<Byte>)
    ensures WordSum(order, b) == 0 <==> forall i :: 0 <= i < |b| ==> b[i] == 0
  {
    if |b| >= 2 {
      WordSumZero(order, b[2..]);
      assert forall i :: 2 <= i < |b| ==> b[i] == b[2..][i - 2];
    }
  }

  lemma {:induction false} WordSumSetWord(order: ByteOrder, b: seq<Byte>, p: nat, x: Byte, y: Byte)
    requires p % 2 == 0 && p + 1 < |b|
    ensures WordSum(order, SetWord(b, p, x, y))
         == WordSum(order, b) - Load(order, b[p], b[p + 1]) + Load(order, x, y)
  {
    var r := SetWord(b, p, x, y);
    if p == 0 {
      assert r[2..] == b[2..];
    } else {
      WordSumSetWord(order, b[2..], p - 2, x, y);
      assert r[2..] == SetWord(b[2..], p - 2, x, y);
    }
  }

  /** The sum by position alone: each byte counts `even` or `odd` times, by where it stands. */
  function PositionSum(even: nat, odd: nat, b: seq<Byte>): nat {
    if b == [] then 0
    else
      var last := |b| - 1;
      PositionSum(even, odd, b[..last]) + if last % 2 == 0 then even * b[last] else odd * b[last]
  }

  lemma {:induction false} PositionSumOfTail(even: nat, odd: nat, x: Byte, y: Byte, b: seq<Byte>)
    ensures PositionSum(even, odd, [x, y] + b) == even * x + odd * y + PositionSum(even, odd, b)
  {
    var all := [x, y] + b;
    if b == [] {
      assert all == [x, y] && all[..1] == [x] && [x][..0] == [];
      assert PositionSum(even, odd, [x]) == even * x;
    } else {
      var last := |b| - 1;
      PositionSumOfTail(even, odd, x, y, b[..last]);
      assert all[..|all| - 1] == [x, y] + b[..last] && all[|all| - 1] == b[last];
    }
  }

  /** In network order a byte counts 256 fold at an even position and once at an odd one, and
      on a little-endian machine the other way round; the length may be odd. */
  lemma {:induction false} WordSumByPosition(b: seq<Byte>)
    ensures WordSum(BigEndian, b) == PositionSum(0x100, 1, b)
    ensures WordSum(LittleEndian, b) == PositionSum(1, 0x100, b)
  {
    if |b| == 1 {
      assert b[..0] == [];
    } else if |b| >= 2 {
      WordSumByPosition(b[2..]);
      PositionSumOfTail(0x100, 1, b[0], b[1], b[2..]);
      PositionSumOfTail(1, 0x100, b[0], b[1], b[2..]);
      assert b == [b[0], b[1]] + b[2..];
    }
  }

  /** What one machine stores as w, a machine of the other byte order loads as its swap. */
  lemma LoadSwapped(order: ByteOrder, x: Byte, y: Byte)
    ensures Load(BigEndian, x, y) == if order.BigEndian? then Load(order, x, y) else Swap(Load(order, x, y))
  {
    if order.LittleEndian? {
      Digits(Load(order, x, y), y, x);
    }
  }

  lemma FourParts(order: ByteOrder, a: seq<Byte>, b: seq<Byte>, c: seq<Byte>, d: seq<Byte>)
    requires |a| % 2 == 0 && |b| % 2 == 0 && |c| % 2 == 0
    ensures WordSum(order, a + (b + (c + d))) == WordSum(order, a) + WordSum(order, b) + WordSum(order, c) + WordSum(order, d)
  {
    WordSumConcat(order, a, b + (c + d));
    WordSumConcat(order, b, c + d);
    WordSumConcat(order, c, d);
  }

  lemma FourBytes(order: ByteOrder, a: Byte, b: Byte, c: Byte, d: Byte)
    ensures WordSum(order, [a, b, c, d]) == Load(order, a, b) + Load(order, c, d)
  {
    assert [a, b, c, d][2..] == [c, d] && [c, d][2..] == [];
    assert WordSum(order, [c, d]) == Load(order, c, d) + WordSum(order, []);
  }

  /** The worked example of section 3 of RFC 1071. */
  lemma WorkedExample()
    ensures var b: seq<Byte> := [0x00, 0x01, 0xF2, 0x03, 0xF4, 0xF5, 0xF6, 0xF7];
            Residue(WordSum(BigEndian, b)) == 0xDDF2 && Checksum(BigEndian, b) == 0x220D
  {
    var front: seq<Byte>, back: seq<Byte> := [0x00, 0x01, 0xF2, 0x03], [0xF4, 0xF5, 0xF6, 0xF7];
    WordSumConcat(BigEndian, front, back);
    FourBytes(BigEndian, 0x00, 0x01, 0xF2, 0x03);
    FourBytes(BigEndian, 0xF4, 0xF5, 0xF6, 0xF7);
    assert front + back == [0x00, 0x01, 0xF2, 0x03, 0xF4, 0xF5, 0xF6, 0xF7];
  }

  /** A checksum from the sum over network-order words, for a machine of either byte order. */
  lemma ChecksumFromNetworkWords(order: ByteOrder, b: seq<Byte>, n: nat)
    requires n == WordSum(BigEndian, b)
    ensures var c := Complement(Residue(n)); Checksum(order, b) == if order.BigEndian? then c else Swap(c)
  {
    ByteOrderIndependence(b);
    SwapOfComplement(Residue(n));
  }

  /** Stored, it is the same two bytes: a receiver loads the network-order checksum. */
  lemma StoredChecksum(order: ByteOrder, b: seq<Byte>, n: nat)
    requires n == WordSum(BigEndian, b)
    ensures var s := Store(order, Checksum(order, b)); Load(BigEndian, s[0], s[1]) == Complement(Residue(n))
  {
    var s := Store(order, Checksum(order, b));
    ChecksumFromNetworkWords(order, b, n);
    LoadSwapped(order, s[0], s[1]);
    SwapTwice(Complement(Residue(n)));
  }

  // ------------------------------------------------------------ byte order

  /** The sum of the bytes at even positions. */
  ghost function EvenBytes(b: seq<Byte>): nat {
    if |b| == 0 then 0 else if |b| == 1 then b[0] else b[0] + EvenBytes(b[2..])
  }

  lemma {:induction false} SwappedSum(b: seq<Byte>)
    ensures 0x100 * WordSum(BigEndian, b) - WordSum(LittleEndian, b) == 0xFFFF * EvenBytes(b)
    ensures WordSum(BigEndian, b) == 0 <==> WordSum(LittleEndian, b) == 0
  {
    if |b| >= 2 {
      SwappedSum(b[2..]);
    }
  }

  /** Summing in the other byte order yields the byte-swapped sum, for every buffer. */
  lemma ByteOrderIndependence(b: seq<Byte>)
    ensures Residue(WordSum(LittleEndian, b)) == Swap(Residue(WordSum(BigEndian, b)))
  {
    var big, little := WordSum(BigEndian, b), WordSum(LittleEndian, b);
    SwappedSum(b);
    SwapIsRotation(big, Residue(big));
    ResidueUnique(little, Residue(little));
    Multiple(0x100 * big, little, EvenBytes(b));
    CongruentTrans(0x100 * big, little, Residue(little));
    ResidueUnique(0x100 * big, Residue(little));
  }

  /** Whoever checks the header, in whichever byte order, reaches the same verdict. */
  lemma VerdictIsOrderFree(o1: ByteOrder, o2: ByteOrder, b: seq<Byte>)
    ensures Verifies(o1, b) == Verifies(o2, b)
  {
    ByteOrderIndependence(b);
    SwapTwice(Residue(WordSum(BigEndian, b)));
    assert Swap(0xFFFF) == 0xFFFF;
  }

  /** The verdict from the sum over network-order words, for a machine of either byte order. */
  lemma VerdictFromNetworkWords(order: ByteOrder, b: seq<Byte>, n: nat)
    requires n == WordSum(BigEndian, b)
    ensures Verifies(order, b) <==> n > 0 && n % 0xFFFF == 0
  {
    VerdictIsOrderFree(order, BigEndian, b);
    ResidueAllOnes(n);
  }

  /** The checksum bytes themselves do not depend on the byte order of the machine that fills them. */
  lemma ChecksumBytesOrderFree(b: seq<Byte>)
    ensures Store(LittleEndian, Checksum(LittleEndian, b)) == Store(BigEndian, Checksum(BigEndian, b))
  {
    ByteOrderIndependence(b);
    ComplementOfSwap(Residue(WordSum(BigEndian, b)));
  }

  // ------------------------------------------------------------ zero, then fill

  /** Which words, stored in a zeroed checksum field, make the header verify:
      the computed one, and its other spelling when the computed one is zero. */
  lemma FillIsTheOnlyFill(order: ByteOrder, b: seq<Byte>, p: nat, w: Word16)
    requires p % 2 == 0 && p + 1 < |b| && b[p] == 0 && b[p + 1] == 0
    ensures Verifies(order, PutChecksum(order, b, p, w))
       <==> w == Checksum(order, b) || (Checksum(order, b) == 0 && w == 0xFFFF)
  {
    var bytes := Store(order, w);
    WordSumSetWord(order, b, p, bytes[0], bytes[1]);
    OnlyCompletion(WordSum(order, b), w);
  }

  /** Zero-then-fill: filled by a machine of one byte order, checked by one of any other. */
  lemma FillVerifies(order: ByteOrder, reader: ByteOrder, b: seq<Byte>, p: nat)
    requires p % 2 == 0 && p + 1 < |b| && b[p] == 0 && b[p + 1] == 0
    ensures Verifies(reader, PutChecksum(order, b, p, Checksum(order, b)))
  {
    FillIsTheOnlyFill(order, b, p, Checksum(order, b));
    VerdictIsOrderFree(order, reader, PutChecksum(order, b, p, Checksum(order, b)));
  }

  // ------------------------------------------------------------ error detection

  /** Replacing one aligned word of a header that verified is noticed, unless the
      word only changes between the two spellings of zero and something else is non-zero. */
  lemma SingleWordChange(order: ByteOrder, b: seq<Byte>, p: nat, x: Byte, y: Byte)
    requires p % 2 == 0 && p + 1 < |b| && Verifies(order, b)
    ensures Verifies(order, SetWord(b, p, x, y))
       <==> (Load(order, x, y) - Load(order, b[p], b[p + 1])) % 0xFFFF == 0
            && exists i :: 0 <= i < |b| && SetWord(b, p, x, y)[i] != 0
  {
    var r := SetWord(b, p, x, y);
    var n, n' := WordSum(order, b), WordSum(order, r);
    WordSumSetWord(order, b, p, x, y);
    ResidueAllOnes(n);
    ResidueAllOnes(n');
    WordSumZero(order, r);
    ShiftedMultiple(n, n', Load(order, x, y) - Load(order, b[p], b[p + 1]));
  }

  lemma ShiftedMultiple(n: int, n': int, d: int)
    requires n % 0xFFFF == 0 && n' == n + d
    ensures n' % 0xFFFF == 0 <==> d % 0xFFFF == 0
  {
    assert n == 0xFFFF * (n / 0xFFFF);
  }

  // ------------------------------------------------------------ incremental update

  /** Equation 3 of section 3 of RFC 1624. */
  function IncrementalUpdate(hc: Word16, m: Word16, m': Word16): Word16 {
    Complement(Residue(UpdateTotal(hc, m, m')))
  }

  function UpdateTotal(hc: Word16, m: Word16, m': Word16): nat {
    (0xFFFF - hc as int) + (0xFFFF - m as int) + m' as int
  }

  lemma ZeroField(order: ByteOrder, b: seq<Byte>, p: nat)
    requires p % 2 == 0 && p + 1 < |b|
    ensures WordSum(order, SetWord(b, p, 0, 0)) == WordSum(order, b) - Load(order, b[p], b[p + 1])
  {
    WordSumSetWord(order, b, p, 0, 0);
  }

  lemma OtherWord(b: seq<Byte>, p: nat, q: nat, x: Byte, y: Byte)
    requires p % 2 == 0 && q % 2 == 0 && p != q && p + 1 < |b| && q + 1 < |b|
    ensures SetWord(b, q, x, y)[p] == b[p] && SetWord(b, q, x, y)[p + 1] == b[p + 1]
  {
    var i, j := p / 2, q / 2;
    assert p == 2 * i && q == 2 * j && i != j;
  }

  lemma UpdateSums(order: ByteOrder, b: seq<Byte>, p: nat, q: nat, x: Byte, y: Byte)
    requires p % 2 == 0 && q % 2 == 0 && p != q && p + 1 < |b| && q + 1 < |b|
    ensures WordSum(order, SetWord(SetWord(b, q, x, y), p, 0, 0))
         == WordSum(order, b) - Load(order, b[q], b[q + 1]) + Load(order, x, y) - Load(order, b[p], b[p + 1])
  {
    OtherWord(b, p, q, x, y);
    WordSumSetWord(order, b, q, x, y);
    ZeroField(order, SetWord(b, q, x, y), p);
  }

  /** Updating the checksum for one changed word equals recomputing it from scratch,
      except that the two may spell zero differently; exactly when is stated. */
  lemma UpdateIsRecomputation(order: ByteOrder, b: seq<Byte>, p: nat, q: nat, x: Byte, y: Byte)
    requires p % 2 == 0 && q % 2 == 0 && p != q && p + 1 < |b| && q + 1 < |b|
    requires Verifies(order, b)
    ensures var hc, m, m' := Load(order, b[p], b[p + 1]), Load(order, b[q], b[q + 1]), Load(order, x, y);
            var zeroed := SetWord(SetWord(b, q, x, y), p, 0, 0);
            && Congruent(IncrementalUpdate(hc, m, m'), Checksum(order, zeroed))
            && (IncrementalUpdate(hc, m, m') == Checksum(order, zeroed)
                <==> ((hc == 0xFFFF && m == 0xFFFF && m' == 0) <==> forall i :: 0 <= i < |b| ==> zeroed[i] == 0))
  {
    var hc, m, m' := Load(order, b[p], b[p + 1]), Load(order, b[q], b[q + 1]), Load(order, x, y);
    var zeroed := SetWord(SetWord(b, q, x, y), p, 0, 0);
    UpdateSums(order, b, p, q, x, y);
    var n, n' := WordSum(order, b), WordSum(order, zeroed);
    ResidueAllOnes(n);
    UpdateArithmetic(n, n', hc, m, m');
    WordSumZero(order, zeroed);
  }

  lemma UpdateArithmetic(n: nat, n': nat, hc: Word16, m: Word16, m': Word16)
    requires n % 0xFFFF == 0 && n' == n - m as int + m' as int - hc as int
    ensures Congruent(IncrementalUpdate(hc, m, m'), Complement(Residue(n')))
    ensures IncrementalUpdate(hc, m, m') == Complement(Residue(n'))
       <==> (UpdateTotal(hc, m, m') == 0 <==> n' == 0)
  {
    Multiple(UpdateTotal(hc, m, m'), n', 2 - n / 0xFFFF);
    SameResidue(UpdateTotal(hc, m, m'), n');
  }

  // ------------------------------------------------------------ the loops

  /** 32-bit unsigned addition. */
  function Add32(a: nat, b: nat): nat {
    (a + b) % ACC_MODULUS
  }

  lemma SliceMore(a: array<Byte>, lo: nat, i: nat, k: nat)
    requires lo + i + k <= a.Length && 1 <= k <= 2
    ensures a[lo..lo + (i + k)] == a[lo..lo + i] + if k == 2 then [a[lo + i], a[lo + i + 1]] else [a[lo + i]]
  {}

  /** Adds a[lo..lo+n] to a 32-bit accumulator, one host-order word at a time. */
  method Accumulate(order: ByteOrder, a: array<Byte>, lo: nat, n: nat, acc: nat) returns (sum: nat)
    requires lo + n <= a.Length && acc < ACC_MODULUS
    ensures sum == Add32(acc, WordSum(order, a[lo..lo + n]))
  {
    sum := acc;
    var i := 0;
    while i + 1 < n
      invariant i <= n && i % 2 == 0
      invariant sum == Add32(acc, WordSum(order, a[lo..lo + i]))
    {
      AccumulateStep(order, acc, a[lo..lo + i], [a[lo + i], a[lo + i + 1]]);
      SliceMore(a, lo, i, 2);
      sum := Add32(sum, Load(order, a[lo + i], a[lo + i + 1]));
      i := i + 2;
    }
    if i < n {
      AccumulateStep(order, acc, a[lo..lo + i], [a[lo + i]]);
      SliceMore(a, lo, i, 1);
      sum := Add32(sum, Load(order, a[lo + i], 0));
    }
  }

  lemma AccumulateStep(order: ByteOrder, acc: nat, done: seq<Byte>, next: seq<Byte>)
    requires |done| % 2 == 0 && 1 <= |next| <= 2
    ensures Add32(Add32(acc, WordSum(order, done)), Load(order, next[0], if |next| == 2 then next[1] else 0))
         == Add32(acc, WordSum(order, done + next))
  {
    WordSumConcat(order, done, next);
    Add32Assoc(acc, WordSum(order, done), WordSum(order, next));
    assert |next| == 2 ==> WordSum(order, next[2..]) == 0;
  }

  lemma Add32Assoc(a: nat, b: nat, c: nat)
    ensures Add32(Add32(a, b), c) == Add32(a, b + c)
  {
    assert a + b + c == ACC_MODULUS * ((a + b) / ACC_MODULUS) + (Add32(a, b) + c);
  }

  lemma SmallSumFits(n: nat, sum: nat)
    requires sum <= 0xFFFF * ((n + 1) / 2)
    ensures n <= 0x2_0002 ==> sum % ACC_MODULUS == sum
  {
    if n <= 0x2_0002 {
      assert (n + 1) / 2 <= 0x1_0001;
      assert sum < ACC_MODULUS;
    }
  }

  /** `in_checksum`: exact as long as the 32-bit accumulator cannot overflow, which is
      up to 65537 words. */
  method InChecksum(order: ByteOrder, a: array<Byte>, lo: nat, n: nat) returns (c: Word16)
    requires lo + n <= a.Length
    ensures n <= 0x2_0002 ==> c == Checksum(order, a[lo..lo + n])
    ensures c == Complement(Residue(WordSum(order, a[lo..lo + n]) % ACC_MODULUS))
  {
    var sum := Accumulate(order, a, lo, n, 0);
    WordSumBound(order, a[lo..lo + n]);
    SmallSumFits(n, WordSum(order, a[lo..lo + n]));
    var r := Fold(sum);
    c := Complement(r);
  }

  lemma {:induction false} AllOnesSum(order: ByteOrder, k: nat)
    ensures WordSum(order, seq(2 * k, _ => 0xFF as Byte)) == 0xFFFF * k
  {
    if k > 0 {
      AllOnesSum(order, k - 1);
      assert seq(2 * k, _ => 0xFF as Byte)[2..] == seq(2 * (k - 1), _ => 0xFF as Byte);
    }
  }

  /** The length bound of InChecksum is the right one: one more word of ones and the
      accumulator loses a carry. */
  lemma AccumulatorBoundIsTight(order: ByteOrder)
    ensures exists b: seq<Byte> ::
      |b| == 0x2_0004 && Complement(Residue(WordSum(order, b) % ACC_MODULUS)) != Checksum(order, b)
  {
    var b := seq(2 * 0x1_0002, _ => 0xFF as Byte);
    AllOnesSum(order, 0x1_0002);
    assert |b| == 0x2_0004;
  }
}
