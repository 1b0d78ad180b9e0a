/**
 * The packet-id wire format of the latency tests in tests/nettest.py:
 * `id.to_bytes(8, "big")` on the way out and `int.from_bytes(reply[:8], "big")`
 * on the way back.
 */
module IdCodec {
  import opened Bytes
  import opened Wrappers

  const IdBytes := 8
  /** 2^64: `to_bytes(8, ...)` raises `OverflowError` from here on. */
  const IdLimit := 0x1_0000_0000_0000_0000

  function Pow256(n: nat): (p: nat)
    ensures p >= 1
  {
    if n == 0 then 1 else 256 * Pow256(n - 1)
  }

  /** The `n` low-order bytes of `v`, most significant first. */
  function BigEndian(v: nat, n: nat): (b: seq<byte>)
    ensures |b| == n
  {
    if n == 0 then [] else BigEndian(v / 256, n - 1) + [(v % 256) as byte]
  }

  /** `int.from_bytes(b, "big")`. */
  function FromBigEndian(b: seq<byte>): (v: nat)
    ensures v < Pow256(|b|)
  {
    if b == [] then 0 else FromBigEndian(b[..|b| - 1]) * 256 + b[|b| - 1] as nat
  }

  /** `id.to_bytes(8, "big")`; None stands for the `OverflowError` past 2^64 - 1. */
  function EncodeId(id: nat): (r: Option<seq<byte>>)
    ensures r.Some? <==> id < IdLimit
    ensures r.Some? ==> |r.value| == IdBytes
  {
    if id < IdLimit then Some(BigEndian(id, IdBytes)) else None
  }

  /** `int.from_bytes(reply[:8], "big")`: bytes past the eighth are ignored, an empty reply reads as 0. */
  function DecodeId(reply: seq<byte>): nat
  {
    FromBigEndian(reply[..if |reply| < IdBytes then |reply| else IdBytes])
  }

  /** Whatever arrives, the decoded id is one `to_bytes(8, ...)` could have produced. */
  lemma DecodeIdBound(reply: seq<byte>)
    ensures DecodeId(reply) < IdLimit
  {
    Pow256Grows(if |reply| < IdBytes then |reply| else IdBytes, IdBytes);
    assert Pow256(IdBytes) == IdLimit;
  }

  lemma {:induction false} Pow256Grows(i: nat, j: nat)
    requires i <= j
    ensures Pow256(i) <= Pow256(j)
    decreases j
  {
    if i < j {
      Pow256Grows(i, j - 1);
    }
  }

  /** Reading back `n` big-endian bytes of a value that fits returns the value. */
  lemma {:induction false} BigEndianRoundTrip(v: nat, n: nat)
    requires v < Pow256(n)
    ensures FromBigEndian(BigEndian(v, n)) == v
    decreases n
  {
    if n > 0 {
      var b := BigEndian(v, n);
      assert b[..n - 1] == BigEndian(v / 256, n - 1);
      BigEndianRoundTrip(v / 256, n - 1);
    }
  }

  /**
   * Every id the tests can send comes back as itself from its echo, however
   * many bytes the echo carries past the eighth.
   */
  lemma IdRoundTrip(id: nat, extra: seq<byte>)
    requires id < IdLimit
    ensures DecodeId(EncodeId(id).value + extra) == id
  {
    var b := EncodeId(id).value;
    assert (b + extra)[..IdBytes] == b;
    assert Pow256(IdBytes) == IdLimit;
    BigEndianRoundTrip(id, IdBytes);
  }

  /** Distinct ids are distinct on the wire. */
  lemma EncodeInjective(i: nat, j: nat)
    requires i < IdLimit && j < IdLimit && i != j
    ensures EncodeId(i) != EncodeId(j)
  {
    IdRoundTrip(i, []);
    IdRoundTrip(j, []);
    assert EncodeId(i).value + [] == EncodeId(i).value;
    assert EncodeId(j).value + [] == EncodeId(j).value;
  }
}
