/**
 * `in_cksum` of kernel/net.c: the Internet checksum of RFC 1071, used for the
 * header checksum field of RFC 791 (section 3.1). The kernel reads the buffer
 * as native 16-bit words; xv6 runs on little-endian RISC-V.
 */
module InternetChecksum {
  import opened Bytes

  const Mod16 := 0x1_0000
  const Mod32 := 0x1_0000_0000
  /** 2^16 - 1: the modulus of one's-complement arithmetic. */
  const Ones := 0xFFFF
  /** The longest buffer whose words cannot overflow the 32-bit accumulator: 65537 words. */
  const MaxNoWrapLen := 2 * 65537

  /** Word k of `buf` as a little-endian load sees it; an odd last byte is padded with a zero byte. */
  function WordLE(buf: seq<byte>, k: nat): int
    requires 2 * k < |buf|
  {
    if 2 * k + 1 < |buf| then buf[2 * k] as int + 256 * buf[2 * k + 1] as int else buf[2 * k] as int
  }

  /** Word k of `buf` in network (big-endian) order, as RFC 791 and RFC 1071 define the sum. */
  function WordBE(buf: seq<byte>, k: nat): int
    requires 2 * k < |buf|
  {
    if 2 * k + 1 < |buf| then 256 * buf[2 * k] as int + buf[2 * k + 1] as int else 256 * buf[2 * k] as int
  }

  predicate IsWords(ws: seq<int>) {
    forall k :: 0 <= k < |ws| ==> 0 <= ws[k] < Mod16
  }

  function WordsLE(buf: seq<byte>): (ws: seq<int>)
    ensures |ws| == (|buf| + 1) / 2 && IsWords(ws)
  {
    seq((|buf| + 1) / 2, k requires 0 <= k < (|buf| + 1) / 2 => WordLE(buf, k))
  }

  function WordsBE(buf: seq<byte>): (ws: seq<int>)
    ensures |ws| == (|buf| + 1) / 2 && IsWords(ws)
  {
    seq((|buf| + 1) / 2, k requires 0 <= k < (|buf| + 1) / 2 => WordBE(buf, k))
  }

  /** Plain sum of the words, as an unbounded accumulator would hold it. */
  function Sum(ws: seq<int>): int
  {
    if ws == [] then 0 else Sum(ws[..|ws| - 1]) + ws[|ws| - 1]
  }

  /** One's-complement addition: add, and wrap a carry out of bit 15 back into bit 0. */
  function OnesAdd(a: int, b: int): (r: int)
    requires 0 <= a < Mod16 && 0 <= b < Mod16
    ensures 0 <= r < Mod16
  {
    if a + b >= Mod16 then a + b - Ones else a + b
  }

  /** The one's-complement sum of RFC 1071, section 1, word by word. */
  function OnesSum(ws: seq<int>): (r: int)
    requires IsWords(ws)
    ensures 0 <= r < Mod16
  {
    if ws == [] then 0 else OnesAdd(OnesSum(ws[..|ws| - 1]), ws[|ws| - 1])
  }

  /** The Internet checksum in little-endian word order: the complement of the one's-complement sum. */
  function Checksum(buf: seq<byte>): int
  {
    Ones - OnesSum(WordsLE(buf))
  }

  /** The RFC 791 header checksum value, computed on network-order words. */
  function ChecksumBE(buf: seq<byte>): int
  {
    Ones - OnesSum(WordsBE(buf))
  }

  /** What `in_cksum` does after the loop: fold the carries of a 32-bit sum back twice. */
  function Fold(sum: int): int
    requires 0 <= sum < Mod32
  {
    var s1 := sum % Mod16 + sum / Mod16;
    var s2 := s1 + s1 / Mod16;
    s2 % Mod16
  }

  /** End-around reduction of a natural number: 0 stays 0, anything else lands in 1..0xFFFF. */
  function EndAround(s: int): int
    requires s >= 0
  {
    if s == 0 then 0 else (s - 1) % Ones + 1
  }

  /** Swap the two bytes of a 16-bit word. */
  function Swap(w: int): (r: int)
    requires 0 <= w < Mod16
    ensures 0 <= r < Mod16
  {
    (w % 256) * 256 + w / 256
  }

  /**
   * `in_cksum(addr, len)`: add the 16-bit words into a 32-bit `unsigned int`
   * (AddWords), fold the carries twice and complement.
   */
  method InCksum(addr: seq<byte>) returns (answer: int)
    ensures 0 <= answer < Mod16
    ensures answer == Ones - Fold(Sum(WordsLE(addr)) % Mod32)
    ensures |addr| <= MaxNoWrapLen ==> answer == Checksum(addr)
  {
    var sum := AddWords(addr);
    var folded := sum % Mod16 + sum / Mod16;
    folded := folded + folded / Mod16;
    answer := Ones - folded % Mod16;
    assert folded % Mod16 == Fold(sum);
    if |addr| <= MaxNoWrapLen {
      ghost var ws := WordsLE(addr);
      NoWrap(ws);
      FoldIsEndAround(Sum(ws));
      OnesSumIsEndAround(ws);
    }
  }

  /** The loop of `in_cksum`: the 32-bit accumulator of the little-endian words, an odd last byte included. */
  method AddWords(addr: seq<byte>) returns (sum: int)
    ensures 0 <= sum < Mod32 && sum == Sum(WordsLE(addr)) % Mod32
  {
    var nleft := |addr|;
    var w := 0;
    sum := 0;
    ghost var ws := WordsLE(addr);
    ghost var k := 0;
    while nleft > 1
      invariant 0 <= k && w == 2 * k && w + nleft == |addr| && 0 <= nleft
      invariant 0 <= sum < Mod32
      invariant sum == Sum(ws[..k]) % Mod32
    {
      assert ws[k] == addr[w] as int + 256 * addr[w + 1] as int;
      AccumulateWord(ws, k, sum);
      sum := (sum + (addr[w] as int + 256 * addr[w + 1] as int)) % Mod32;
      w, k := w + 2, k + 1;
      nleft := nleft - 2;
    }
    if nleft == 1 {
      assert ws[k] == addr[w] as int;
      AccumulateWord(ws, k, sum);
      sum := (sum + addr[w] as int) % Mod32;
      k := k + 1;
    }
    assert ws[..k] == ws;
  }

  /** One step of the accumulator: adding word k to the running 32-bit sum of the first k words. */
  lemma AccumulateWord(ws: seq<int>, k: int, sum: int)
    requires 0 <= k < |ws| && sum == Sum(ws[..k]) % Mod32
    ensures (sum + ws[k]) % Mod32 == Sum(ws[..k + 1]) % Mod32
  {
    assert ws[..k + 1][..k] == ws[..k];
    var s := Sum(ws[..k]);
    assert s == Mod32 * (s / Mod32) + sum;
  }

  /** Up to MaxNoWrapLen bytes, the accumulator never wraps. */
  lemma NoWrap(ws: seq<int>)
    requires IsWords(ws) && |ws| <= 65537
    ensures 0 <= Sum(ws) < Mod32 && Sum(ws) % Mod32 == Sum(ws)
  {
    SumBound(ws);
    assert Ones * |ws| <= Ones * 65537;
  }

  // ---------------------------------------------------------------------------
  // Arithmetic behind the checksum

  /** A value in 1..0xFFFF congruent to s modulo 0xFFFF is the end-around reduction of s. */
  lemma EndAroundUnique(s: int, y: int)
    requires s > 0 && 1 <= y <= Ones && (s - y) % Ones == 0
    ensures EndAround(s) == y
  {
    var m := (s - y) / Ones;
    assert s - 1 == (y - 1) + Ones * m;
  }

  lemma EndAroundCongruent(s: int)
    requires s > 0
    ensures 1 <= EndAround(s) <= Ones && (s - EndAround(s)) % Ones == 0
  {
    var m := (s - 1) / Ones;
    assert s - 1 == Ones * m + (s - 1) % Ones;
    assert s - EndAround(s) == Ones * m;
  }

  lemma SumNonNeg(ws: seq<int>)
    requires IsWords(ws)
    ensures Sum(ws) >= 0
    ensures Sum(ws) == 0 <==> forall k :: 0 <= k < |ws| ==> ws[k] == 0
    decreases |ws|
  {
    if ws != [] {
      var init := ws[..|ws| - 1];
      SumNonNeg(init);
      assert forall k :: 0 <= k < |init| ==> init[k] == ws[k];
    }
  }

  lemma {:induction false} SumBound(ws: seq<int>)
    requires IsWords(ws)
    ensures 0 <= Sum(ws) <= Ones * |ws|
    decreases |ws|
  {
    if ws != [] {
      SumBound(ws[..|ws| - 1]);
    }
  }

  /** The double fold of `in_cksum` is the end-around reduction, for every 32-bit sum. */
  lemma FoldIsEndAround(sum: int)
    requires 0 <= sum < Mod32
    ensures Fold(sum) == EndAround(sum)
  {
    var lo, hi := sum % Mod16, sum / Mod16;
    var s1 := lo + hi;
    assert sum == Mod16 * hi + lo;
    assert sum - s1 == Ones * hi;
    if sum > 0 {
      var r := Fold(sum);
      if s1 < Mod16 {
        assert r == s1;
      } else {
        assert r == s1 + 1 - Mod16;
        assert sum - r == Ones * (hi + 1);
      }
      EndAroundUnique(sum, r);
    }
  }

  /** Adding words one's-complement style keeps the end-around reduction of the plain sum. */
  lemma {:induction false} OnesSumIsEndAround(ws: seq<int>)
    requires IsWords(ws)
    ensures Sum(ws) >= 0 && OnesSum(ws) == EndAround(Sum(ws))
    decreases |ws|
  {
    SumNonNeg(ws);
    if ws != [] {
      var init, w := ws[..|ws| - 1], ws[|ws| - 1];
      assert IsWords(init);
      OnesSumIsEndAround(init);
      SumNonNeg(init);
      var s := Sum(init);
      var x := OnesSum(init);
      if s == 0 {
        if w > 0 { EndAroundUnique(w, w); }
      } else {
        EndAroundCongruent(s);
        var r := OnesAdd(x, w);
        if r < Mod16 && x + w < Mod16 {
          assert (s + w - r) % Ones == (s - x) % Ones;
        } else {
          assert s + w - r == (s - x) + Ones;
        }
        EndAroundUnique(s + w, r);
      }
    }
  }

  // ---------------------------------------------------------------------------
  // Receiver check (RFC 1071, section 1): a buffer carrying its own checksum sums to 0xFFFF

  lemma {:induction false} SumUpdate(ws: seq<int>, j: int, v: int)
    requires 0 <= j < |ws|
    ensures Sum(ws[j := v]) == Sum(ws) - ws[j] + v
    decreases |ws|
  {
    var u := ws[j := v];
    if j < |ws| - 1 {
      assert u[..|u| - 1] == ws[..|ws| - 1][j := v];
      SumUpdate(ws[..|ws| - 1], j, v);
    } else {
      assert u[..|u| - 1] == ws[..|ws| - 1];
    }
  }

  /** Store a 16-bit value little-endian at byte offset `at`, as `ip->ip_sum = ...` does on RISC-V. */
  function StoreLE(buf: seq<byte>, at: int, v: int): (r: seq<byte>)
    requires 0 <= at && at + 1 < |buf| && 0 <= v < Mod16
    ensures |r| == |buf|
  {
    buf[at := (v % 256) as byte][at + 1 := (v / 256) as byte]
  }

  /** Storing a value at an even offset replaces exactly one word. */
  lemma StoreLEWord(buf: seq<byte>, at: int, v: int)
    requires 0 <= at && at % 2 == 0 && at + 1 < |buf| && 0 <= v < Mod16
    ensures WordsLE(StoreLE(buf, at, v)) == WordsLE(buf)[at / 2 := v]
  {
    var buf' := StoreLE(buf, at, v);
    assert buf'[at] as int == v % 256 && buf'[at + 1] as int == v / 256;
    assert WordLE(buf', at / 2) == v;
    forall k | 0 <= k < (|buf| + 1) / 2 && k != at / 2
      ensures WordLE(buf', k) == WordLE(buf, k)
    {
      assert buf'[2 * k] == buf[2 * k];
      assert 2 * k + 1 < |buf| ==> buf'[2 * k + 1] == buf[2 * k + 1];
    }
  }


  /**
   * Filling a zeroed, word-aligned checksum field with the checksum of the rest
   * makes the checksum of the whole buffer 0: the check a receiver performs.
   */
  lemma ChecksumVerifies(buf: seq<byte>, at: int)
    requires 0 <= at && at % 2 == 0 && at + 1 < |buf|
    requires buf[at] == 0 && buf[at + 1] == 0
    ensures Checksum(StoreLE(buf, at, Checksum(buf))) == 0
  {
    var c := Checksum(buf);
    var buf' := StoreLE(buf, at, c);
    var ws, ws' := WordsLE(buf), WordsLE(buf');
    var j := at / 2;
    StoreLEWord(buf, at, c);
    assert ws[j] == 0;
    SumUpdate(ws, j, c);
    OnesSumIsEndAround(ws);
    OnesSumIsEndAround(ws');
    var s := Sum(ws);
    SumNonNeg(ws);
    if s == 0 {
      EndAroundUnique(Ones, Ones);
    } else {
      EndAroundCongruent(s);
      assert Sum(ws') == s - EndAround(s) + Ones;
      EndAroundUnique(Sum(ws'), Ones);
    }
  }

  // ---------------------------------------------------------------------------
  // Byte order (RFC 1071, section 2(B)): the little-endian computation stores the RFC 791 value

  lemma SwapCongruent(w: int)
    requires 0 <= w < Mod16
    ensures Swap(w) - 256 * w == Ones * -(w / 256)
    ensures Swap(w) == 0 <==> w == 0
  {
    assert 256 * w == 256 * (w % 256) + Mod16 * (w / 256);
  }

  function SwapAll(ws: seq<int>): (r: seq<int>)
    requires IsWords(ws)
    ensures |r| == |ws| && IsWords(r)
  {
    seq(|ws|, k requires 0 <= k < |ws| => Swap(ws[k]))
  }

  /** The network-order words are the byte-swapped little-endian words. */
  lemma WordsBEAreSwapped(buf: seq<byte>)
    ensures WordsBE(buf) == SwapAll(WordsLE(buf))
  {
    var be, le := WordsBE(buf), WordsLE(buf);
    forall k | 0 <= k < |be|
      ensures be[k] == SwapAll(le)[k]
    {
      if 2 * k + 1 < |buf| {
        SwapBytes(buf[2 * k] as int, buf[2 * k + 1] as int);
      } else {
        SwapBytes(buf[2 * k] as int, 0);
      }
    }
  }

  /** Swapping the little-endian word of bytes (lo, hi) gives their big-endian word. */
  lemma SwapBytes(lo: int, hi: int)
    requires 0 <= lo < 256 && 0 <= hi < 256
    ensures 0 <= lo + 256 * hi < Mod16 && Swap(lo + 256 * hi) == 256 * lo + hi
  {
    var w := lo + 256 * hi;
    assert w / 256 == hi && w % 256 == lo;
  }

  lemma SwapOfComplement(x: int)
    requires 0 <= x < Mod16
    ensures Ones - Swap(x) == Swap(Ones - x)
    ensures Swap(x) / 256 == x % 256 && Swap(x) % 256 == x / 256
  {
    var a, b := x / 256, x % 256;
    assert x == 256 * a + b;
    assert Ones - x == 256 * (255 - a) + (255 - b);
    assert (Ones - x) / 256 == 255 - a && (Ones - x) % 256 == 255 - b;
  }

  /** One's-complement addition commutes with swapping the bytes of both operands (RFC 1071, section 2(B)). */
  lemma SwapOnesAdd(a: int, b: int)
    requires 0 <= a < Mod16 && 0 <= b < Mod16
    ensures Swap(OnesAdd(a, b)) == OnesAdd(Swap(a), Swap(b))
  {
    var r, r' := OnesAdd(a, b), OnesAdd(Swap(a), Swap(b));
    SwapCongruent(a);
    SwapCongruent(b);
    SwapCongruent(r);
    if r != 0 {
      SwappedSumsAgree(a, b, r, Swap(a), Swap(b), Swap(r), r', -(a / 256), -(b / 256), -(r / 256));
    }
  }

  /**
   * The arithmetic behind SwapOnesAdd: sa, sb and sr are congruent to 256 times
   * a, b and r, r and r' are end-around sums of (a, b) and (sa, sb), so sr and
   * r' are congruent and, both lying in 1..0xFFFF, equal.
   */
  lemma SwappedSumsAgree(a: int, b: int, r: int, sa: int, sb: int, sr: int, r': int, ka: int, kb: int, kr: int)
    requires r == a + b || r == a + b - Ones
    requires r' == sa + sb || r' == sa + sb - Ones
    requires sa - 256 * a == Ones * ka && sb - 256 * b == Ones * kb && sr - 256 * r == Ones * kr
    requires 1 <= sr <= Ones && 1 <= r' <= Ones
    ensures sr == r'
  {
    var c := if r == a + b then 0 else 1;
    var c' := if r' == sa + sb then 0 else 1;
    var q := kr - 256 * c - ka - kb + c';
    assert sr - r' == Ones * q;
  }

  /** Swapping every word swaps the one's-complement sum. */
  lemma {:induction false} OnesSumSwap(ws: seq<int>)
    requires IsWords(ws)
    ensures OnesSum(SwapAll(ws)) == Swap(OnesSum(ws))
    decreases |ws|
  {
    if ws != [] {
      var init := ws[..|ws| - 1];
      assert SwapAll(ws)[..|ws| - 1] == SwapAll(init);
      OnesSumSwap(init);
      SwapOnesAdd(OnesSum(init), ws[|ws| - 1]);
    }
  }

  /**
   * The two bytes `in_cksum` leaves in memory on a little-endian machine are
   * the two bytes of the RFC 791 header checksum in network order.
   */
  lemma StoredChecksumIsNetworkOrder(buf: seq<byte>)
    ensures var c, n := Checksum(buf), ChecksumBE(buf);
      c % 256 == n / 256 && c / 256 == n % 256
  {
    var x := OnesSum(WordsLE(buf));
    WordsBEAreSwapped(buf);
    OnesSumSwap(WordsLE(buf));
    assert ChecksumBE(buf) == Ones - Swap(x);
    SwapOfComplement(x);
    SwapOfComplement(Ones - x);
  }
}
