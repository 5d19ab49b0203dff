/** Per-client PCM conversion: a streaming linear resampler from 48 kHz and the QEMU sample formats. */
module AudioConvert {
  import opened Base

  const SOURCE_RATE := 48000

  type int16 = x: int | -0x8000 <= x < 0x8000

  datatype Stereo = Stereo(left: int16, right: int16)

  datatype Format = Format(sample: nat, channels: nat, frequency: nat)

  /** What AudioHandleMessage lets through. */
  predicate Supported(f: Format) {
    f.sample <= 5 && 1 <= f.channels <= 2 && 1 <= f.frequency <= SOURCE_RATE
  }

  type SupportedFormat = f: Format | Supported(f) witness Format(3, 2, 44100)

  /** C++ division truncates toward zero. */
  function TruncDiv(a: int, b: int): int
    requires b > 0
  {
    if a >= 0 then a / b else -(-a / b)
  }

  // ---- resampling ----

  function Frames(source: seq<int16>): (r: seq<Stereo>)
    ensures |r| == |source| / 2
  {
    seq(|source| / 2, i requires 0 <= i < |source| / 2 => Stereo(source[2 * i], source[2 * i + 1]))
  }

  function Mix(first: int16, second: int16, rate: nat, fraction: nat): (r: int16)
    requires fraction < rate
    ensures Min(first, second) <= r <= Max(first, second)
  {
    MixBetween(first, second, rate, fraction);
    TruncDiv(first * (rate - fraction) + second * fraction, rate)
  }

  /** Interpolated values stay between their two neighbours. */
  lemma MixBetween(first: int, second: int, rate: nat, fraction: nat)
    requires fraction < rate
    ensures Min(first, second) <= TruncDiv(first * (rate - fraction) + second * fraction, rate) <= Max(first, second)
  {
    var lo, hi := Min(first, second), Max(first, second);
    var sum := first * (rate - fraction) + second * fraction;
    ProductMonotone(lo, first, rate - fraction);
    ProductMonotone(lo, second, fraction);
    ProductMonotone(first, hi, rate - fraction);
    ProductMonotone(second, hi, fraction);
    assert lo * (rate - fraction) + lo * fraction == lo * rate;
    assert hi * (rate - fraction) + hi * fraction == hi * rate;
    TruncDivBounds(lo, hi, sum, rate);
  }

  lemma TruncDivBounds(lo: int, hi: int, a: int, b: nat)
    requires b > 0 && lo * b <= a <= hi * b
    ensures lo <= TruncDiv(a, b) <= hi
  {
    if a >= 0 {
      DivBounds(lo, hi, a, b);
    } else {
      assert -hi * b == -(hi * b) && -lo * b == -(lo * b);
      DivBounds(-hi, -lo, -a, b);
    }
  }

  lemma DivBounds(lo: int, hi: int, a: nat, b: nat)
    requires b > 0 && lo * b <= a <= hi * b
    ensures lo <= a / b <= hi
  {
    var q := a / b;
    assert q * b <= a < q * b + b;
    assert (hi + 1) * b == hi * b + b && (q + 1) * b == q * b + b;
    if hi < q { ProductMonotone(hi + 1, q, b); }
    if q < lo { ProductMonotone(q + 1, lo, b); }
  }

  lemma Floor(n: nat, b: nat)
    requires b > 0
    ensures n / b * b <= n < n / b * b + b
  {
  }

  lemma Negated(x: int, b: int)
    ensures -x * b == -(x * b)
  {
  }

  /** C++ division: toward zero, off by less than the divisor. */
  lemma TruncTowardZero(a: int, b: int)
    requires b > 0
    ensures var q := TruncDiv(a, b); -b < a - q * b < b && (a >= 0 ==> q * b <= a) && (a <= 0 ==> a <= q * b)
  {
    if a >= 0 {
      Floor(a, b);
    } else {
      Floor(-a, b);
      Negated(-a / b, b);
    }
  }

  /** The interpolated value lies within one unit of the straight line between its neighbours, exactly on it
      at the first one. */
  lemma MixOnLine(first: int16, second: int16, rate: nat, fraction: nat)
    requires fraction < rate
    ensures var r, d, w := Mix(first, second, rate, fraction) as int, second as int - first as int, rate as int;
            -w < w * (r - first as int) - d * fraction < w
    ensures fraction == 0 ==> Mix(first, second, rate, 0) == first
  {
    hide TruncDiv;
    var a, b, r := first as int, second as int, Mix(first, second, rate, fraction) as int;
    var sum := a * (rate - fraction) + b * fraction;
    LineSum(a, b, rate, fraction);
    TruncTowardZero(sum, rate);
    Distribute(rate, r, -a);
    Negated(a, rate);
    if fraction == 0 { AtFirst(a, rate); }
  }

  lemma LineSum(a: int, b: int, rate: int, fraction: int)
    ensures a * (rate - fraction) + b * fraction == a * rate + (b - a) * fraction
  {
    assert a * (rate - fraction) == a * rate - a * fraction;
    assert (b - a) * fraction == b * fraction - a * fraction;
  }

  lemma AtFirst(a: int, rate: nat)
    requires rate > 0
    ensures TruncDiv(a * rate, rate) == a
  {
    Negated(a, rate);
    if a >= 0 {
      ProductMonotone(0, a, rate);
      QuotientUnique(a * rate, a, 0, rate);
    } else {
      ProductMonotone(1, -a, rate);
      QuotientUnique(-a * rate, -a, 0, rate);
    }
  }

  /** And it moves from the first to the second as the fraction grows, never back. */
  lemma MixMonotone(first: int16, second: int16, rate: nat, t: nat, u: nat)
    requires t <= u < rate
    ensures first <= second ==> Mix(first, second, rate, t) <= Mix(first, second, rate, u)
    ensures first >= second ==> Mix(first, second, rate, t) >= Mix(first, second, rate, u)
  {
    hide TruncDiv;
    var a, b := first as int, second as int;
    var s, v := a * (rate - t) + b * t, a * (rate - u) + b * u;
    SumsMove(a, b, rate, t, u);
    if a <= b { TruncMonotone(s, v, rate); }
    if a >= b { TruncMonotone(v, s, rate); }
  }

  lemma SumsMove(a: int, b: int, rate: nat, t: nat, u: nat)
    requires t <= u
    ensures a <= b ==> a * (rate - t) + b * t <= a * (rate - u) + b * u
    ensures a >= b ==> a * (rate - t) + b * t >= a * (rate - u) + b * u
  {
    LineSum(a, b, rate, t);
    LineSum(a, b, rate, u);
    if a <= b {
      ProductMonotone(t, u, b - a);
    }
    if a >= b {
      ProductMonotone(t, u, a - b);
      Negated(a - b, t);
      Negated(a - b, u);
    }
  }

  lemma TruncMonotone(s: int, v: int, b: nat)
    requires b > 0 && s <= v
    ensures TruncDiv(s, b) <= TruncDiv(v, b)
  {
    if s >= 0 {
      QuotientMonotone(s, v, b);
    } else if v < 0 {
      QuotientMonotone(-v, -s, b);
    } else {
      NotNegative(-s, b);
      NotNegative(v, b);
    }
  }

  lemma NotNegative(x: nat, b: nat)
    requires b > 0
    ensures x / b >= 0
  {
  }

  lemma QuotientMonotone(x: nat, y: nat, b: nat)
    requires b > 0 && x <= y
    ensures x / b <= y / b
  {
    var p, q := x / b, y / b;
    Floor(x, b);
    Floor(y, b);
    if q < p {
      ProductMonotone(q + 1, p, b);
      Distribute(b, q, 1);
    }
  }

  /** The output frame at a position measured in 1/f of a source frame. */
  function At(source: seq<Stereo>, f: nat, position: nat): Stereo
    requires f > 0 && position < |source| * f
  {
    IndexInRange(position, |source|, f);
    Held(source, f, position / f, position % f)
  }

  /** Between frame index and its right neighbour; the last frame has no neighbour yet and is held. */
  function Held(source: seq<Stereo>, f: nat, index: nat, fraction: nat): Stereo
    requires index < |source| && fraction < f
  {
    Blend(source[index], source[Min(index + 1, |source| - 1)], f, fraction)
  }

  function Blend(a: Stereo, b: Stereo, f: nat, fraction: nat): Stereo
    requires fraction < f
  {
    Stereo(Mix(a.left, b.left, f, fraction), Mix(a.right, b.right, f, fraction))
  }

  lemma IndexInRange(position: nat, n: nat, f: nat)
    requires f > 0 && position < n * f
    ensures position / f < n
  {
    if position / f >= n { ProductMonotone(n, position / f, f); }
  }

  function Resample(source: seq<Stereo>, f: nat, position: nat): seq<Stereo>
    requires f > 0
    decreases |source| * f - position
  {
    if position >= |source| * f then []
    else [At(source, f, position)] + Resample(source, f, position + SOURCE_RATE)
  }

  /** The phase carried into the next chunk. */
  function Carry(n: nat, f: nat, position: nat): nat
    requires f > 0
    decreases n * f - position
  {
    if position >= n * f then position - n * f else Carry(n, f, position + SOURCE_RATE)
  }

  lemma {:induction false} ResampleAt(source: seq<Stereo>, f: nat, position: nat)
    requires f > 0
    ensures var out := Resample(source, f, position);
            && position + SOURCE_RATE * |out| == |source| * f + Carry(|source|, f, position)
            && forall k :: 0 <= k < |out| ==>
                 position + SOURCE_RATE * k < |source| * f && out[k] == At(source, f, position + SOURCE_RATE * k)
    decreases |source| * f - position
  {
    if position < |source| * f {
      ResampleAt(source, f, position + SOURCE_RATE);
      var out, tail := Resample(source, f, position), Resample(source, f, position + SOURCE_RATE);
      forall k | 0 <= k < |out|
        ensures position + SOURCE_RATE * k < |source| * f && out[k] == At(source, f, position + SOURCE_RATE * k)
      {
        if k > 0 {
          assert out[k] == tail[k - 1];
          assert position + SOURCE_RATE + SOURCE_RATE * (k - 1) == position + SOURCE_RATE * k;
        }
      }
    }
  }

  lemma {:induction false} CarryInRange(n: nat, f: nat, position: nat)
    requires f > 0 && position < SOURCE_RATE
    ensures Carry(n, f, position) < SOURCE_RATE
  {
    CarryBelow(n, f, position);
  }

  lemma {:induction false} CarryBelow(n: nat, f: nat, position: nat)
    requires f > 0 && position < n * f + SOURCE_RATE
    ensures Carry(n, f, position) < SOURCE_RATE
    decreases n * f - position
  {
    if position < n * f { CarryBelow(n, f, position + SOURCE_RATE); }
  }

  // ---- any split of a stream into chunks ----

  function Concat(chunks: seq<seq<Stereo>>): seq<Stereo> {
    if chunks == [] then [] else Concat(chunks[..|chunks| - 1]) + chunks[|chunks| - 1]
  }

  /** Output and carried phase after converting the chunks one by one from phase zero. */
  function Streamed(chunks: seq<seq<Stereo>>, f: nat): (seq<Stereo>, nat)
    requires f > 0
  {
    if chunks == [] then ([], 0)
    else
      var (out, phase) := Streamed(chunks[..|chunks| - 1], f);
      var chunk := chunks[|chunks| - 1];
      (out + Resample(chunk, f, phase), Carry(|chunk|, f, phase))
  }

  /** Frame g of the stream is the last one of its chunk. */
  ghost predicate ChunkEnd(chunks: seq<seq<Stereo>>, g: int) {
    chunks != [] && ((g == |Concat(chunks)| - 1 && chunks[|chunks| - 1] != []) || ChunkEnd(chunks[..|chunks| - 1], g))
  }

  /** No drift: however the stream is cut, M output frames for N source frames satisfy
      48000 M = f N + phase with 0 <= phase < 48000, so M is f N / 48000 rounded up. */
  lemma {:induction false} StreamNoDrift(chunks: seq<seq<Stereo>>, f: nat)
    requires f > 0
    ensures var (out, phase) := Streamed(chunks, f); var n := |Concat(chunks)|;
            && 48000 * |out| == f * n + phase && phase < 48000
            && |out| == (f * n + 47999) / 48000
    decreases |chunks|
  {
    hide Resample, Carry;
    if chunks != [] {
      var front, chunk := chunks[..|chunks| - 1], chunks[|chunks| - 1];
      StreamNoDrift(front, f);
      var (out, phase) := Streamed(front, f);
      NextChunk(chunk, f, phase);
      Distribute(f, |Concat(front)|, |chunk|);
    }
    CeilingUnique(f * |Concat(chunks)|, |Streamed(chunks, f).0|, Streamed(chunks, f).1);
  }

  lemma NextChunk(chunk: seq<Stereo>, f: nat, phase: nat)
    requires f > 0 && phase < SOURCE_RATE
    ensures phase + SOURCE_RATE * |Resample(chunk, f, phase)| == |chunk| * f + Carry(|chunk|, f, phase)
    ensures Carry(|chunk|, f, phase) < SOURCE_RATE
  {
    ResampleAt(chunk, f, phase);
    CarryInRange(|chunk|, f, phase);
  }

  lemma CeilingUnique(x: nat, m: nat, phase: nat)
    requires SOURCE_RATE * m == x + phase && phase < SOURCE_RATE
    ensures m == (x + SOURCE_RATE - 1) / SOURCE_RATE
  {
  }

  /** A chunk sees the same two neighbours as the whole stream, except that its last frame is held. */
  lemma HeldInChunk(before: seq<Stereo>, chunk: seq<Stereo>, f: nat, index: nat, fraction: nat)
    requires index < |chunk| && fraction < f
    ensures var whole := before + chunk; var g := |before| + index;
            && (g < |whole| - 1 ==> Held(chunk, f, index, fraction) == Held(whole, f, g, fraction))
            && (g == |whole| - 1 ==> Held(chunk, f, index, fraction) == whole[g])
  {
    BlendSame(chunk[index], f, fraction);
  }

  /** Positions inside a chunk, and the same positions counted from the start of the stream. */
  lemma PositionInChunk(before: nat, chunk: nat, f: nat, local: nat, position: nat)
    requires f > 0 && local < chunk * f && position == before * f + local
    ensures position < (before + chunk) * f && local / f < chunk
    ensures position / f == before + local / f && position % f == local % f
  {
    Distribute(f, before, chunk);
    IndexInRange(local, chunk, f);
    ShiftedDivision(before, local, f);
  }

  lemma ShiftedDivision(n: nat, x: nat, f: nat)
    requires f > 0
    ensures (n * f + x) / f == n + x / f && (n * f + x) % f == x % f
  {
    var q, r := x / f, x % f;
    assert n * f + x == (n + q) * f + r;
    QuotientUnique(n * f + x, n + q, r, f);
  }

  lemma QuotientUnique(a: nat, q: nat, r: nat, f: nat)
    requires f > 0 && a == q * f + r && r < f
    ensures a / f == q && a % f == r
  {
    var q', r' := a / f, a % f;
    assert a == q' * f + r' && 0 <= r' < f;
    if q < q' { ProductMonotone(q + 1, q', f); }
    if q' < q { ProductMonotone(q' + 1, q, f); }
  }

  lemma BlendSame(v: Stereo, f: nat, fraction: nat)
    requires fraction < f
    ensures Blend(v, v, f, fraction) == v
  {
    var l, r := Mix(v.left, v.left, f, fraction), Mix(v.right, v.right, f, fraction);
  }

  lemma AtPrefix(before: seq<Stereo>, chunk: seq<Stereo>, f: nat, position: nat)
    requires f > 0 && position < |before| * f && position / f < |before| - 1
    ensures position < |before + chunk| * f && At(before + chunk, f, position) == At(before, f, position)
  {
    ProductMonotone(|before|, |before + chunk|, f);
  }

  /** The source frame under output frame k. */
  function Under(f: nat, k: nat): nat
    requires f > 0
  {
    SOURCE_RATE * k / f
  }

  /** The one-shot conversion has the same number of frames, each over a source frame. */
  lemma StreamCovers(chunks: seq<seq<Stereo>>, f: nat, k: nat)
    requires f > 0 && k < |Streamed(chunks, f).0|
    ensures SOURCE_RATE * k < |Concat(chunks)| * f && Under(f, k) < |Concat(chunks)|
    ensures |Resample(Concat(chunks), f, 0)| == |Streamed(chunks, f).0|
  {
    var whole := Concat(chunks);
    StreamNoDrift(chunks, f);
    ResampleAt(whole, f, 0);
    CarryInRange(|whole|, f, 0);
    Distribute(f, 0, |whole|);
    IndexInRange(SOURCE_RATE * k, |whole|, f);
  }

  /** What output frame k is: the held frame at the end of a chunk, the one-shot interpolation elsewhere. */
  ghost predicate FrameOk(chunks: seq<seq<Stereo>>, f: nat, k: nat, frame: Stereo)
    requires f > 0
  {
    && SOURCE_RATE * k < |Concat(chunks)| * f && Under(f, k) < |Concat(chunks)|
    && frame == if ChunkEnd(chunks, Under(f, k)) then Concat(chunks)[Under(f, k)] else At(Concat(chunks), f, SOURCE_RATE * k)
  }

  /** Output frame k of the stream and of the one-shot conversion agree unless the source frame under it
      ends a chunk; then the stream holds that frame. */
  lemma StreamMatchesOneShot(chunks: seq<seq<Stereo>>, f: nat, k: nat)
    requires f > 0 && k < |Streamed(chunks, f).0|
    ensures |Resample(Concat(chunks), f, 0)| == |Streamed(chunks, f).0| && Under(f, k) < |Concat(chunks)|
    ensures Streamed(chunks, f).0[k] ==
            if ChunkEnd(chunks, Under(f, k)) then Concat(chunks)[Under(f, k)] else Resample(Concat(chunks), f, 0)[k]
  {
    StreamCovers(chunks, f, k);
    ResampleAt(Concat(chunks), f, 0);
    StreamedAt(chunks, f, k);
  }

  lemma {:induction false} StreamedAt(chunks: seq<seq<Stereo>>, f: nat, k: nat)
    requires f > 0 && k < |Streamed(chunks, f).0|
    ensures FrameOk(chunks, f, k, Streamed(chunks, f).0[k])
    decreases |chunks|
  {
    var front := chunks[..|chunks| - 1];
    if k < |Streamed(front, f).0| {
      StreamedAt(front, f, k);
      FrameKept(chunks, f, k, Streamed(front, f).0[k]);
    } else {
      StreamedNow(chunks, f, k);
    }
  }

  lemma FrameKept(chunks: seq<seq<Stereo>>, f: nat, k: nat, frame: Stereo)
    requires f > 0 && chunks != [] && FrameOk(chunks[..|chunks| - 1], f, k, frame)
    ensures FrameOk(chunks, f, k, frame)
  {
    var front, chunk := chunks[..|chunks| - 1], chunks[|chunks| - 1];
    var before := Concat(front);
    ProductMonotone(|before|, |Concat(chunks)|, f);
    if Under(f, k) < |before| - 1 {
      AtPrefix(before, chunk, f, SOURCE_RATE * k);
      if ChunkEnd(chunks, Under(f, k)) { ChunkEndsInside(front, Under(f, k)); }
    } else {
      LastFrameEndsChunk(front);
    }
  }

  lemma StreamedNow(chunks: seq<seq<Stereo>>, f: nat, k: nat)
    requires f > 0 && chunks != [] && |Streamed(chunks[..|chunks| - 1], f).0| <= k < |Streamed(chunks, f).0|
    ensures FrameOk(chunks, f, k, Streamed(chunks, f).0[k])
  {
    var front, chunk := chunks[..|chunks| - 1], chunks[|chunks| - 1];
    var (out, phase) := Streamed(front, f);
    StreamNoDrift(front, f);
    ResampleAt(chunk, f, phase);
    var local := phase + SOURCE_RATE * (k - |out|);
    NowIsAt(chunks, f, k, local);
  }

  lemma NowIsAt(chunks: seq<seq<Stereo>>, f: nat, k: nat, local: nat)
    requires f > 0 && chunks != []
    requires local < |chunks[|chunks| - 1]| * f && SOURCE_RATE * k == |Concat(chunks[..|chunks| - 1])| * f + local
    ensures FrameOk(chunks, f, k, At(chunks[|chunks| - 1], f, local))
  {
    var front, chunk := chunks[..|chunks| - 1], chunks[|chunks| - 1];
    var before := Concat(front);
    PositionInChunk(|before|, |chunk|, f, local, SOURCE_RATE * k);
    HeldInChunk(before, chunk, f, local / f, local % f);
    ChunkEndHere(chunks, Under(f, k));
  }

  lemma ChunkEndHere(chunks: seq<seq<Stereo>>, g: int)
    requires chunks != [] && |Concat(chunks[..|chunks| - 1])| <= g < |Concat(chunks)|
    ensures ChunkEnd(chunks, g) <==> g == |Concat(chunks)| - 1
  {
    ChunkEndsInside(chunks[..|chunks| - 1], g);
  }

  lemma {:induction false} LastFrameEndsChunk(chunks: seq<seq<Stereo>>)
    requires Concat(chunks) != []
    ensures ChunkEnd(chunks, |Concat(chunks)| - 1)
    decreases |chunks|
  {
    if chunks[|chunks| - 1] == [] { LastFrameEndsChunk(chunks[..|chunks| - 1]); }
  }

  lemma {:induction false} ChunkEndsInside(chunks: seq<seq<Stereo>>, g: int)
    ensures ChunkEnd(chunks, g) ==> g < |Concat(chunks)|
    decreases |chunks|
  {
    if chunks != [] { ChunkEndsInside(chunks[..|chunks| - 1], g); }
  }

  // ---- sample formats ----

  function LE16(v: nat): seq<byte>
    requires v < 0x1_0000
  {
    [v % 0x100, v / 0x100]
  }

  function LE32(v: nat): seq<byte>
    requires v < 0x1_0000_0000
  {
    LE16(v % 0x1_0000) + LE16(v / 0x1_0000)
  }

  function BytesPerSample(sample: nat): nat
    requires sample <= 5
  {
    if sample < 2 then 1 else if sample < 4 then 2 else 4
  }

  /** `AppendAudioSample`: unsigned and signed 8, 16 and 32 bit samples, little endian. */
  function EncodeSample(s: int16, sample: nat): (r: seq<byte>)
    requires sample <= 5
    ensures |r| == BytesPerSample(sample)
  {
    match sample
    case 0 => [(s + 32768) / 256]
    case 1 => [s / 256 % 256]
    case 2 => LE16(s + 32768)
    case 3 => LE16(s % 0x1_0000)
    case 4 => LE32((s + 32768) * 0x1_0000 + (s + 32768))
    case _ => LE32(s * 65536 % 0x1_0000_0000)
  }

  function ReadLE(s: seq<byte>): nat {
    if s == [] then 0 else s[0] as int + 256 * ReadLE(s[1..])
  }

  function Signed(v: int, half: int): int {
    if v < half then v else v - 2 * half
  }

  /** What a player makes of the bytes, scaled back to 16 bits. */
  function DecodeSample(s: seq<byte>, sample: nat): int
    requires sample <= 5 && |s| == BytesPerSample(sample)
  {
    match sample
    case 0 => (ReadLE(s) - 128) * 256
    case 1 => Signed(ReadLE(s), 128) * 256
    case 2 => ReadLE(s) - 32768
    case 3 => Signed(ReadLE(s), 32768)
    case 4 => ReadLE(s) / 65536 - 32768
    case _ => Signed(ReadLE(s), 0x8000_0000) / 65536
  }

  /** The 8-bit formats keep the high byte, the wider ones the whole sample. */
  lemma SampleRoundTrip(s: int16, sample: nat)
    requires sample <= 5
    ensures DecodeSample(EncodeSample(s, sample), sample) == if sample < 2 then s as int / 256 * 256 else s
  {
    if sample < 2 { RoundTrip8(s, sample); } else if sample < 4 { RoundTrip16(s, sample); } else { RoundTrip32(s, sample); }
  }

  lemma RoundTrip8(s: int16, sample: nat)
    requires sample < 2
    ensures DecodeSample(EncodeSample(s, sample), sample) == s as int / 256 * 256
  {
    var high := s as int / 256;
    if sample == 0 {
      assert (s as int + 32768) / 256 == high + 128;
      ReadLE8(high + 128);
    } else {
      ReadLE8(high % 256);
    }
  }

  lemma RoundTrip16(s: int16, sample: nat)
    requires 2 <= sample < 4
    ensures DecodeSample(EncodeSample(s, sample), sample) == s
  {
    ReadLE16(if sample == 2 then s + 32768 else s as int % 0x1_0000);
  }

  lemma RoundTrip32(s: int16, sample: nat)
    requires 4 <= sample <= 5
    ensures DecodeSample(EncodeSample(s, sample), sample) == s
  {
    if sample == 4 {
      var v := s as int + 32768;
      ReadLE32(v * 0x1_0000 + v);
      assert (v * 0x1_0000 + v) / 65536 == v;
    } else {
      ReadLE32(s as int * 65536 % 0x1_0000_0000);
      assert s as int * 65536 % 0x1_0000_0000 == (if s >= 0 then s as int else s as int + 0x1_0000) * 65536;
    }
  }

  lemma ReadLE16(v: nat)
    requires v < 0x1_0000
    ensures ReadLE(LE16(v)) == v
  {
    ReadLE8(v / 0x100);
    assert LE16(v)[1..] == [v / 0x100];
  }

  lemma ReadLE8(v: nat)
    requires v < 0x100
    ensures var s: seq<byte> := [v]; ReadLE(s) == v
  {
    var s: seq<byte> := [v];
    assert s[1..] == [];
  }

  lemma ReadLE32(v: nat)
    requires v < 0x1_0000_0000
    ensures ReadLE(LE32(v)) == v
  {
    ReadLE16(v % 0x1_0000);
    ReadLE16(v / 0x1_0000);
    var s := LE32(v);
    assert s[1..][1..] == LE16(v / 0x1_0000);
  }

  function EncodeFrame(s: Stereo, f: SupportedFormat): seq<byte> {
    if f.channels == 1
    then EncodeSample(TruncDiv(s.left as int + s.right as int, 2), f.sample)
    else EncodeSample(s.left, f.sample) + EncodeSample(s.right, f.sample)
  }

  function EncodeFrames(out: seq<Stereo>, f: SupportedFormat): seq<byte> {
    if out == [] then [] else EncodeFrame(out[0], f) + EncodeFrames(out[1..], f)
  }

  function FrameBytes(f: SupportedFormat): nat { f.channels * BytesPerSample(f.sample) }

  /** Every output frame takes the same number of bytes. */
  lemma {:induction false} EncodedLength(out: seq<Stereo>, f: SupportedFormat)
    ensures |EncodeFrames(out, f)| == |out| * FrameBytes(f)
  {
    if out != [] {
      EncodedLength(out[1..], f);
      FrameLength(out[0], f);
      Distribute(FrameBytes(f), |out[1..]|, 1);
    }
  }

  lemma FrameLength(s: Stereo, f: SupportedFormat)
    ensures |EncodeFrame(s, f)| == FrameBytes(f)
  {
    assert f.channels == 1 || f.channels == 2;
  }

  /** PCM bytes of one chunk and the phase behind it. */
  function Converted(source: seq<int16>, f: SupportedFormat, phase: nat): (seq<byte>, nat) {
    (EncodeFrames(Resample(Frames(source), f.frequency, phase), f), Carry(|source| / 2, f.frequency, phase))
  }

  /** `ConvertAudio`, with the client fields it reads and the phase field it updates. */
  method ConvertAudio(source: seq<int16>, f: Format, phase: nat) returns (output: seq<byte>, carried: nat)
    ensures Supported(f) ==> (output, carried) == Converted(source, f, phase)
    ensures !Supported(f) ==> output == [] && carried == phase
  {
    var sourceFrames := |source| / 2;
    if sourceFrames == 0 || f.frequency == 0 || f.frequency > SOURCE_RATE
       || (f.channels != 1 && f.channels != 2) || f.sample > 5 {
      return [], phase;
    }
    output, carried := ConvertSupported(source, f, phase);
  }

  method ConvertSupported(source: seq<int16>, f: SupportedFormat, phase: nat) returns (output: seq<byte>, carried: nat)
    ensures (output, carried) == Converted(source, f, phase)
  {
    ghost var frames, rate := Frames(source), f.frequency;
    var limit := |source| / 2 * f.frequency;
    var position := phase;
    output := [];
    while position < limit
      invariant output + EncodeFrames(Resample(frames, rate, position), f) == EncodeFrames(Resample(frames, rate, phase), f)
      invariant Carry(|source| / 2, rate, position) == Carry(|source| / 2, rate, phase)
      decreases limit - position
    {
      var bytes := ConvertAt(source, f, position);
      NextOutput(frames, f, position, output, bytes);
      output := output + bytes;
      position := position + SOURCE_RATE;
    }
    assert Resample(frames, rate, position) == [];
    assert output + [] == output;
    carried := position - limit;
  }

  lemma AtIsHeld(source: seq<Stereo>, f: nat, position: nat)
    requires f > 0 && position < |source| * f
    ensures position / f < |source| && At(source, f, position) == Held(source, f, position / f, position % f)
  {
    IndexInRange(position, |source|, f);
  }

  method ConvertAt(source: seq<int16>, f: SupportedFormat, position: nat) returns (bytes: seq<byte>)
    requires position < |source| / 2 * f.frequency
    ensures bytes == EncodeFrame(At(Frames(source), f.frequency, position), f)
  {
    hide EncodeFrame, Held, At;
    var rate := f.frequency;
    AtIsHeld(Frames(source), rate, position);
    var index, fraction := position / rate, position % rate;
    bytes := ConvertFrame(source, f, index, fraction);
  }

  /** The interpolation and formatting of one output frame. */
  method ConvertFrame(source: seq<int16>, f: SupportedFormat, index: nat, fraction: nat) returns (bytes: seq<byte>)
    requires index < |source| / 2 && fraction < f.frequency
    ensures bytes == EncodeFrame(Held(Frames(source), f.frequency, index, fraction), f)
  {
    var next := Min(index + 1, |source| / 2 - 1);
    var left := Mix(source[index * 2], source[next * 2], f.frequency, fraction);
    var right := Mix(source[index * 2 + 1], source[next * 2 + 1], f.frequency, fraction);
    assert Held(Frames(source), f.frequency, index, fraction) == Stereo(left, right);
    if f.channels == 1 {
      var mono := TruncDiv(left as int + right as int, 2);
      bytes := EncodeSample(mono, f.sample);
    } else {
      bytes := EncodeSample(left, f.sample) + EncodeSample(right, f.sample);
    }
  }

  /** One more frame moves from what is still to be converted to the output. */
  lemma NextOutput(frames: seq<Stereo>, f: SupportedFormat, position: nat, output: seq<byte>, bytes: seq<byte>)
    requires position < |frames| * f.frequency && bytes == EncodeFrame(At(frames, f.frequency, position), f)
    ensures output + EncodeFrames(Resample(frames, f.frequency, position), f) ==
            output + bytes + EncodeFrames(Resample(frames, f.frequency, position + SOURCE_RATE), f)
  {
    var out, tail := Resample(frames, f.frequency, position), Resample(frames, f.frequency, position + SOURCE_RATE);
    assert out == [At(frames, f.frequency, position)] + tail;
    assert out[1..] == tail;
    Associate(output, bytes, EncodeFrames(tail, f));
  }

  // ---- what the output is, in terms of the source ----

  /** Both channels of an output frame lie on the line between the source frames around its position. */
  predicate OnLine(out: Stereo, a: Stereo, b: Stereo, f: int, fraction: int) {
    && -f < f * (out.left as int - a.left as int) - (b.left as int - a.left as int) * fraction < f
    && -f < f * (out.right as int - a.right as int) - (b.right as int - a.right as int) * fraction < f
  }

  /** Output frame k of a conversion lies at source position 48000 k / f: within one unit of the line from
      the source frame under it to the next one, and exactly that source frame when it falls on it or when
      there is no next one. */
  lemma OneShotIsLinear(source: seq<Stereo>, f: nat, k: nat, i: nat, fraction: nat)
    requires fraction < f && k < |Resample(source, f, 0)| && 48000 * k == i * f + fraction
    ensures i < |source|
    ensures i + 1 < |source| ==> OnLine(Resample(source, f, 0)[k], source[i], source[i + 1], f, fraction)
    ensures fraction == 0 || i + 1 == |source| ==> Resample(source, f, 0)[k] == source[i]
  {
    hide Held, OnLine, Resample;
    ResampleAt(source, f, 0);
    QuotientUnique(48000 * k, i, fraction, f);
    IndexInRange(48000 * k, |source|, f);
    assert Resample(source, f, 0)[k] == Held(source, f, i, fraction);
    HeldOnLine(source, f, i, fraction);
  }

  lemma HeldOnLine(source: seq<Stereo>, f: nat, i: nat, fraction: nat)
    requires i < |source| && fraction < f
    ensures i + 1 < |source| ==> OnLine(Held(source, f, i, fraction), source[i], source[i + 1], f, fraction)
    ensures fraction == 0 || i + 1 == |source| ==> Held(source, f, i, fraction) == source[i]
  {
    hide Mix;
    var a, b := source[i], source[Min(i + 1, |source| - 1)];
    MixOnLine(a.left, b.left, f, fraction);
    MixOnLine(a.right, b.right, f, fraction);
    if i + 1 == |source| { BlendSame(a, f, fraction); }
  }

  /** Samples alternate between the left and the right channel, left first. */
  lemma FramesInterleaved(source: seq<int16>, i: nat)
    requires 2 * i + 1 < |source|
    ensures i < |Frames(source)| && Frames(source)[i].left == source[2 * i] && Frames(source)[i].right == source[2 * i + 1]
  {
  }

  /** What a format keeps of a sample. */
  function Kept(v: int16, sample: nat): int {
    if sample < 2 then v as int / 256 * 256 else v
  }

  /** In stereo a frame is its left sample and its right sample, in mono one sample within half a unit of
      their mean, rounded toward zero. */
  lemma FrameDecodes(s: Stereo, f: SupportedFormat)
    ensures var bytes, n := EncodeFrame(s, f), BytesPerSample(f.sample);
            var m, sum := TruncDiv(s.left as int + s.right as int, 2), s.left as int + s.right as int;
            && |bytes| == f.channels * n
            && (f.channels == 2 ==>
                  && DecodeSample(bytes[..n], f.sample) == Kept(s.left, f.sample)
                  && DecodeSample(bytes[n..], f.sample) == Kept(s.right, f.sample))
            && (f.channels == 1 ==> DecodeSample(bytes, f.sample) == Kept(m, f.sample))
            && -1 <= 2 * m - sum <= 1 && (sum >= 0 ==> 2 * m <= sum) && (sum <= 0 ==> sum <= 2 * m)
  {
    hide DecodeSample, EncodeSample;
    FrameLength(s, f);
    if f.channels == 2 {
      var l, r := EncodeSample(s.left, f.sample), EncodeSample(s.right, f.sample);
      assert (l + r)[..|l|] == l && (l + r)[|l|..] == r;
      SampleRoundTrip(s.left, f.sample);
      SampleRoundTrip(s.right, f.sample);
    } else {
      SampleRoundTrip(TruncDiv(s.left as int + s.right as int, 2), f.sample);
    }
  }

  /** At the source's own rate nothing is resampled. */
  lemma {:induction false} SameRateIsIdentity(source: seq<Stereo>, k: nat)
    requires k <= |source|
    ensures Resample(source, 48000, 48000 * k) == source[k..]
    decreases |source| - k
  {
    if k < |source| {
      SameRateIsIdentity(source, k + 1);
      var a, b := source[k], source[Min(k + 1, |source| - 1)];
      MixOnLine(a.left, b.left, 48000, 0);
      MixOnLine(a.right, b.right, 48000, 0);
      assert 48000 * k / 48000 == k && 48000 * k % 48000 == 0;
      assert At(source, 48000, 48000 * k) == source[k];
      assert source[k..] == [source[k]] + source[k + 1..];
    }
  }
}
