/** Numbers as bytes, most or least significant first. */
module ByteOrder {
  import opened Headers

  /** `width` bytes, most significant first. */
  function BigEndian(width: nat, v: nat): (b: Bytes)
    ensures |b| == width
  {
    if width == 0 then [] else BigEndian(width - 1, v / 256) + [v % 256]
  }

  /** The number such bytes stand for. */
  function OfBigEndian(b: Bytes): nat {
    if b == [] then 0 else OfBigEndian(b[..|b| - 1]) * 256 + b[|b| - 1]
  }

  function OfLittleEndian(b: Bytes): nat {
    if b == [] then 0 else b[0] + 256 * OfLittleEndian(b[1..])
  }

  lemma {:induction false} BigEndianRoundTrip(width: nat, v: nat)
    requires v < Pow256(width)
    ensures OfBigEndian(BigEndian(width, v)) == v
  {
    if width > 0 {
      var b := BigEndian(width, v);
      assert b[..|b| - 1] == BigEndian(width - 1, v / 256);
      BigEndianRoundTrip(width - 1, v / 256);
    }
  }

  /** `width` bytes, least significant first. */
  function LittleEndian(width: nat, v: nat): (b: Bytes)
    ensures |b| == width
  {
    if width == 0 then [] else [v % 256] + LittleEndian(width - 1, v / 256)
  }

  lemma {:induction false} LittleEndianRoundTrip(width: nat, v: nat)
    requires v < Pow256(width)
    ensures OfLittleEndian(LittleEndian(width, v)) == v
  {
    if width > 0 {
      var b := LittleEndian(width, v);
      assert b[1..] == LittleEndian(width - 1, v / 256);
      LittleEndianRoundTrip(width - 1, v / 256);
    }
  }

  /** So many bytes hold no larger number. */
  lemma {:induction false} Bounded(b: Bytes)
    ensures OfBigEndian(b) < Pow256(|b|) && OfLittleEndian(b) < Pow256(|b|)
  {
    if b != [] {
      Bounded(b[..|b| - 1]);
      Bounded(b[1..]);
    }
  }

  function Pow256(n: nat): (p: nat)
    ensures p > 0
  {
    if n == 0 then 1 else 256 * Pow256(n - 1)
  }
}
