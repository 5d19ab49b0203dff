/** The compact length of the Tight encoding, written once by the C++ header code and once by the Go sink. */
module TightLength {
  import opened Base

  const MAX_TIGHT_LENGTH := 0x3f_ffff

  /** What both writers produce: 7 + 7 + 8 bits, low bits first, the top bit of the first two bytes
      announcing that another byte follows. */
  function Compact(n: nat): (r: seq<byte>)
    ensures 1 <= |r| <= 3
  {
    if n <= 0x7f then [n]
    else if n <= 0x3fff then [n % 128 + 128, n / 128]
    else [n % 128 + 128, n / 128 % 128 + 128, n / 16384 % 256]
  }

  /** The reader's side: value and remaining bytes, or None when the input ends too early. */
  function Decode(s: seq<byte>): Option<(nat, seq<byte>)> {
    if |s| == 0 then None
    else if s[0] < 128 then Some((s[0], s[1..]))
    else if |s| == 1 then None
    else if s[1] < 128 then Some((s[0] - 128 + s[1] as int * 128, s[2..]))
    else if |s| == 2 then None
    else Some((s[0] - 128 + (s[1] as int - 128) * 128 + s[2] as int * 16384, s[3..]))
  }

  /** `tightLength`: Go appends to a slice and sets continuation bits in place. */
  method GoTightLength(length: nat) returns (result: seq<byte>)
    ensures result == Compact(length)
  {
    result := [length % 0x80];
    if length > 0x7f {
      result := result[0 := result[0] + 0x80];
      result := result + [length / 0x80 % 0x80];
      if length > 0x3fff {
        result := result[1 := result[1] + 0x80];
        result := result + [length / 0x4000 % 0x100];
      }
    }
  }

  /** `QueueJPEG`: the C++ code fills a fixed header array behind the Tight control byte. */
  method CppTightHeader(header: array<byte>, start: nat, size: nat) returns (end: nat)
    requires start + 4 <= header.Length
    modifies header
    ensures start <= end <= header.Length && header[start..end] == [0x90] + Compact(size)
    ensures header[..start] == old(header[..start])
  {
    end := start;
    header[end] := 0x90;
    end := end + 1;
    header[end] := size % 0x80 + (if size > 0x7f then 0x80 else 0);
    end := end + 1;
    if size > 0x7f {
      header[end] := size / 0x80 % 0x80 + (if size > 0x3fff then 0x80 else 0);
      end := end + 1;
      if size > 0x3fff {
        header[end] := size / 0x4000 % 0x100;
        end := end + 1;
      }
    }
  }

  /** The value the reader computes; sizes of more than 22 bits lose their top. */
  function Read(n: nat): nat {
    if n <= 0x3fff then n else n % 0x40_0000
  }

  lemma DecodeCompact(n: nat, rest: seq<byte>)
    ensures Decode(Compact(n) + rest) == Some((Read(n), rest))
  {
    var s, c := Compact(n) + rest, Compact(n);
    assert s[|c|..] == rest;
    if 0x3fff < n { ThreeDigits(n); }
  }

  lemma ThreeDigits(n: nat)
    ensures n % 128 + n / 128 % 128 * 128 + n / 16384 % 256 * 16384 == n % 0x40_0000
  {
    var middle := n / 128;
    var high := middle / 128;
    assert high == n / 16384;
    assert n == high / 256 * 0x40_0000 + (high % 256 * 16384 + middle % 128 * 128 + n % 128);
  }

  /** The encoding decodes to the size, whatever follows it, exactly for sizes of at most 22 bits; the
      remaining input is left intact, so no encoding is a proper prefix of another. */
  lemma RoundTrip(n: nat, rest: seq<byte>)
    ensures Decode(Compact(n) + rest).Some?
    ensures Decode(Compact(n) + rest) == Some((n, rest)) <==> n <= MAX_TIGHT_LENGTH
  {
    DecodeCompact(n, rest);
  }

  /** No input that decodes to n without leftovers is shorter than the one produced. */
  lemma Shortest(n: nat, s: seq<byte>)
    requires n <= MAX_TIGHT_LENGTH && Decode(s) == Some((n, []))
    ensures |Compact(n)| <= |s|
  {
    if |s| == 1 { assert s[0] == n; }
  }

  /** Two different sizes never share a prefix. */
  lemma PrefixFree(m: nat, n: nat, tail: seq<byte>)
    requires m <= MAX_TIGHT_LENGTH && n <= MAX_TIGHT_LENGTH
    requires Compact(n) == Compact(m) + tail
    ensures m == n && tail == []
  {
    RoundTrip(m, tail);
    RoundTrip(n, []);
    assert Compact(n) + [] == Compact(n);
  }
}
