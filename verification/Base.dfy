/** Small vocabulary shared by the components: bytes, options and a few facts about sequences. */
module Base {

  type byte = x: int | 0 <= x < 256

  datatype Option<+T> = None | Some(value: T)

  function Max(a: int, b: int): int { if a < b then b else a }

  function Min(a: int, b: int): int { if a < b then a else b }

  /** Big-endian fields, as RFB and the media framing write them. */
  function BE16(v: int): (r: seq<byte>)
    requires 0 <= v < 0x1_0000
  {
    [v / 0x100, v % 0x100]
  }

  function BE32(v: int): (r: seq<byte>)
    requires 0 <= v < 0x1_0000_0000
  {
    BE16(v / 0x1_0000) + BE16(v % 0x1_0000)
  }

  function ReadBE16(s: seq<byte>): (r: int)
    requires |s| >= 2
    ensures 0 <= r < 0x1_0000
  {
    s[0] as int * 0x100 + s[1] as int
  }

  function ReadBE32(s: seq<byte>): (r: int)
    requires |s| >= 4
    ensures 0 <= r < 0x1_0000_0000
  {
    ReadBE16(s) * 0x1_0000 + ReadBE16(s[2..])
  }

  lemma ReadAfterWriteBE(v: int, rest: seq<byte>)
    ensures 0 <= v < 0x1_0000 ==> ReadBE16(BE16(v) + rest) == v && (BE16(v) + rest)[2..] == rest
    ensures 0 <= v < 0x1_0000_0000 ==> ReadBE32(BE32(v) + rest) == v && (BE32(v) + rest)[4..] == rest
  {
    if 0 <= v < 0x1_0000_0000 {
      var s := BE32(v) + rest;
      assert s[2..] == BE16(v % 0x1_0000) + rest;
    }
  }

  lemma Associate<T>(a: seq<T>, b: seq<T>, c: seq<T>)
    ensures (a + b) + c == a + (b + c)
  {
  }

  lemma ProductMonotone(a: int, b: int, k: nat)
    requires a <= b
    ensures a * k <= b * k && k * a <= k * b
  {
  }

  lemma Distribute(k: int, a: int, b: int)
    ensures k * (a + b) == k * a + k * b == (a + b) * k
    ensures (a + b) * k == a * k + b * k
    ensures (a + 1) * k == a * k + k
  {
  }

  lemma QuotientBounds(a: nat, d: nat)
    requires d > 0
    ensures d * (a / d) <= a < d * (a / d + 1)
    ensures a / d * d <= a < (a / d + 1) * d
  {
    Distribute(d, a / d, 1);
  }
}
