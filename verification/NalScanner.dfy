/** The H.264 start-code scanner of the Go sink. */
module NalScanner {
  import opened Base

  /** A three-byte start code at i with its NAL header byte behind it. */
  predicate StartCode(p: seq<byte>, i: nat) {
    i + 3 < |p| && p[i] == 0 && p[i + 1] == 0 && p[i + 2] == 1
  }

  function NalType(p: seq<byte>, i: nat): byte
    requires i + 3 < |p|
  {
    p[i + 3] % 32
  }

  /** The simple scanner: three-byte start codes only, and the header byte is consumed with its code. */
  function Scan(p: seq<byte>, i: nat): seq<byte>
    decreases |p| - i
  {
    if i + 3 >= |p| then []
    else if StartCode(p, i) then [NalType(p, i)] + Scan(p, i + 4)
    else Scan(p, i + 1)
  }

  /** A payload without a start code is one bare NAL unit. */
  function NalTypes(p: seq<byte>): seq<byte> {
    if Scan(p, 0) == [] && p != [] then [p[0] % 32] else Scan(p, 0)
  }

  lemma ScanFourByteCode(p: seq<byte>, i: nat)
    requires i + 4 <= |p| && p[i] == 0 && p[i + 1] == 0 && p[i + 2] == 0 && p[i + 3] == 1
    ensures Scan(p, i) == if i + 4 < |p| then [p[i + 4] % 32] + Scan(p, i + 5) else []
  {
    assert !StartCode(p, i);
    if i + 4 < |p| { assert StartCode(p, i + 1); }
  }

  /** One search: the next header byte of the four- or three-byte form, or the length of the payload. */
  method NextHeader(payload: seq<byte>, offset: nat) returns (header: nat)
    requires offset + 3 < |payload|
    ensures header >= |payload| ==> Scan(payload, offset) == []
    ensures header < |payload| ==> header > offset
    ensures header < |payload| ==> Scan(payload, offset) == [payload[header] % 32] + Scan(payload, header + 1)
  {
    var i := offset;
    while i + 3 < |payload|
      invariant offset <= i <= |payload|
      invariant Scan(payload, offset) == Scan(payload, i)
      decreases |payload| - i
    {
      if payload[i] == 0 && payload[i + 1] == 0 && payload[i + 2] == 1 {
        return i + 3;
      }
      if i + 4 <= |payload| && payload[i] == 0 && payload[i + 1] == 0 && payload[i + 2] == 0 && payload[i + 3] == 1 {
        ScanFourByteCode(payload, i);
        return i + 4;
      }
      i := i + 1;
    }
    return |payload|;
  }

  /** `h264NALTypes`: search from each header byte to the next, both start-code lengths tested at every
      position. */
  method H264NALTypes(payload: seq<byte>) returns (types: seq<byte>)
    ensures types == NalTypes(payload)
  {
    types := [];
    var offset := 0;
    while offset + 3 < |payload|
      invariant types + Scan(payload, offset) == Scan(payload, 0)
      decreases |payload| - offset
    {
      var header := NextHeader(payload, offset);
      if header >= |payload| {
        break;
      }
      types := types + [payload[header] % 32];
      offset := header + 1;
    }
    assert types == Scan(payload, 0);
    if |types| == 0 && |payload| != 0 {
      types := types + [payload[0] % 32];
    }
  }

  /** Every start code there is, read independently of its neighbours. */
  function AllStartCodeTypes(p: seq<byte>, i: nat): seq<byte>
    decreases |p| - i
  {
    if i + 3 >= |p| then []
    else (if StartCode(p, i) then [NalType(p, i)] else []) + AllStartCodeTypes(p, i + 1)
  }

  /** The NAL types a payload carries; without a start code it is one bare NAL unit. */
  function AllTypes(p: seq<byte>): seq<byte> {
    if AllStartCodeTypes(p, 0) == [] && p != [] then [p[0] % 32] else AllStartCodeTypes(p, 0)
  }

  /** A zero header byte that is itself the first byte of the next start code. */
  predicate HeaderInsideStartCode(p: seq<byte>, i: nat) {
    StartCode(p, i) && StartCode(p, i + 3)
  }

  ghost predicate HeadersApart(p: seq<byte>, from: nat) {
    forall i: nat :: from <= i ==> !HeaderInsideStartCode(p, i)
  }

  /** A start code excludes another one at the next two positions. */
  lemma AllBehindStartCode(p: seq<byte>, i: nat)
    requires StartCode(p, i)
    ensures AllStartCodeTypes(p, i) ==
            [NalType(p, i)] + (if StartCode(p, i + 3) then [NalType(p, i + 3)] else []) + AllStartCodeTypes(p, i + 4)
    ensures !StartCode(p, i + 1) && !StartCode(p, i + 2)
  {
    hide NalType;
    assert p[i + 2] == 1;
    NoStartCode(p, i + 1);
    NoStartCode(p, i + 2);
    if !StartCode(p, i + 3) { NoStartCode(p, i + 3); }
  }

  lemma NoStartCode(p: seq<byte>, i: nat)
    requires !StartCode(p, i)
    ensures AllStartCodeTypes(p, i) == AllStartCodeTypes(p, i + 1)
  {
    hide NalType, StartCode;
  }

  lemma HeadersApartBehindStartCode(p: seq<byte>, i: nat)
    requires StartCode(p, i)
    ensures HeadersApart(p, i) <==> !StartCode(p, i + 3) && HeadersApart(p, i + 4)
  {
    AllBehindStartCode(p, i);
    if HeadersApart(p, i) {
      assert !HeaderInsideStartCode(p, i);
    } else {
      var j: nat :| i <= j && HeaderInsideStartCode(p, j);
      assert j == i || j == i + 3 || j >= i + 4;
    }
  }

  /** Consuming header bytes loses a start code exactly when some NAL header byte is the first zero of
      another start code; otherwise the scanner reports all of them, in order. */
  lemma {:induction false} ScanComplete(p: seq<byte>, i: nat)
    ensures |Scan(p, i)| <= |AllStartCodeTypes(p, i)|
    ensures Scan(p, i) == AllStartCodeTypes(p, i) <==> HeadersApart(p, i)
    decreases |p| - i
  {
    if i + 3 >= |p| {
    } else if StartCode(p, i) {
      ScanComplete(p, i + 4);
      AllBehindStartCode(p, i);
      HeadersApartBehindStartCode(p, i);
      var head, all, scan := [NalType(p, i)], AllStartCodeTypes(p, i + 4), Scan(p, i + 4);
      assert Scan(p, i) == head + scan;
      if !StartCode(p, i + 3) {
        assert AllStartCodeTypes(p, i) == head + all;
        assert (head + scan)[1..] == scan && (head + all)[1..] == all;
      }
    } else {
      ScanComplete(p, i + 1);
      assert HeadersApart(p, i + 1) ==> !HeaderInsideStartCode(p, i);
    }
  }

  predicate Carries(p: seq<byte>, i: nat, t: byte) {
    StartCode(p, i) && NalType(p, i) == t
  }

  lemma {:induction false} TypesAreStartCodes(p: seq<byte>, i: nat, t: byte)
    ensures t in AllStartCodeTypes(p, i) <==> exists j: nat :: i <= j && Carries(p, j, t)
    decreases |p| - i
  {
    if i + 3 < |p| {
      TypesAreStartCodes(p, i + 1, t);
      var head := if StartCode(p, i) then [NalType(p, i)] else [];
      assert AllStartCodeTypes(p, i) == head + AllStartCodeTypes(p, i + 1);
      assert t in head <==> Carries(p, i, t);
    }
  }

  /** What `containsNALType` decides: with no header byte inside a start code, a type is reported iff
      some start code carries it, or the payload has no start code and begins with it. */
  lemma ReportedIffPresent(p: seq<byte>, t: byte)
    requires HeadersApart(p, 0)
    ensures t in NalTypes(p) <==>
            (exists j: nat :: Carries(p, j, t)) ||
            (p != [] && p[0] % 32 == t && forall j: nat :: !StartCode(p, j))
  {
    ScanComplete(p, 0);
    TypesAreStartCodes(p, 0, t);
    if Scan(p, 0) == [] {
      forall j: nat
        ensures !StartCode(p, j)
      {
        if StartCode(p, j) {
          TypesAreStartCodes(p, 0, NalType(p, j));
          assert Carries(p, j, NalType(p, j));
        }
      }
    } else {
      TypesAreStartCodes(p, 0, Scan(p, 0)[0]);
      var j: nat :| Carries(p, j, Scan(p, 0)[0]);
      assert StartCode(p, j);
    }
  }

  /** The skipped start code can be the one of a keyframe. */
  lemma KeyframeCanBeMissed()
    ensures var p: seq<byte> := [0, 0, 1, 0, 0, 1, 0x65];
            NalTypes(p) == [0] && StartCode(p, 3) && NalType(p, 3) == 5
  {
    var p: seq<byte> := [0, 0, 1, 0, 0, 1, 0x65];
    assert Scan(p, 4) == [];
    assert Scan(p, 0) == [0];
  }

  // ---- streams as an encoder writes them ----

  /** A NAL unit behind its start code: the header byte holds the forbidden bit and the reference class, top, above
      the five bits of the type (section 7.3.1 of the H.264 standard). */
  datatype Unit = Unit(long: bool, top: nat, kind: nat, body: seq<byte>)

  function Coded(u: Unit): seq<byte>
    requires u.top < 8 && u.kind < 32
  {
    (if u.long then [0, 0, 0, 1] else [0, 0, 1]) + [32 * u.top + u.kind] + u.body
  }

  predicate CodeAt(s: seq<byte>, j: nat) {
    j + 2 < |s| && s[j] == 0 && s[j + 1] == 0 && s[j + 2] == 1
  }

  /** Emulation prevention keeps start codes out of a unit, and its last byte is not zero. */
  predicate Proper(u: Unit) {
    && u.top < 8 && u.kind < 32
    && (forall j :: 0 <= j < |u.body| ==> !CodeAt(u.body, j))
    && (u.body != [] ==> u.body[|u.body| - 1] != 0)
  }

  predicate AllProper(units: seq<Unit>) {
    forall i :: 0 <= i < |units| ==> Proper(units[i])
  }

  function Written(units: seq<Unit>): seq<byte>
    requires AllProper(units)
  {
    if units == [] then [] else Coded(units[0]) + Written(units[1..])
  }

  /** A scan depends on what is ahead of it alone. */
  lemma {:induction false} ScanAhead(before: seq<byte>, p: seq<byte>, i: nat)
    ensures Scan(before + p, |before| + i) == Scan(p, i)
    decreases |p| - i
  {
    var q, k := before + p, |before| + i;
    if i + 3 < |p| {
      assert q[k] == p[i] && q[k + 1] == p[i + 1] && q[k + 2] == p[i + 2] && q[k + 3] == p[i + 3];
      ScanAhead(before, p, if StartCode(p, i) then i + 4 else i + 1);
    }
  }

  /** Nothing begins in the body of a unit, not even across its end. */
  lemma NoCodeInside(u: Unit, rest: seq<byte>, i: nat)
    requires Proper(u) && i < |u.body|
    ensures !StartCode(u.body + rest, i)
  {
    var p, n := u.body + rest, |u.body|;
    assert !CodeAt(u.body, i);
    assert p[n - 1] == u.body[n - 1] != 0;
  }

  lemma {:induction false} BodyIsQuiet(u: Unit, rest: seq<byte>, i: nat)
    requires Proper(u) && i <= |u.body|
    ensures Scan(u.body + rest, i) == Scan(rest, 0)
    decreases |u.body| - i
  {
    if i == |u.body| {
      ScanAhead(u.body, rest, 0);
    } else {
      BodyIsQuiet(u, rest, i + 1);
      NoCodeInside(u, rest, i);
    }
  }

  lemma ScanUnit(u: Unit, rest: seq<byte>)
    requires Proper(u)
    ensures Scan(Coded(u) + rest, 0) == [u.kind] + Scan(rest, 0)
  {
    var header: byte := 32 * u.top + u.kind;
    var body := u.body + rest;
    var code := if u.long then [0, 0, 0, 1] else [0, 0, 1];
    var p := Coded(u) + rest;
    assert p == (code + [header]) + body;
    BodyIsQuiet(u, rest, 0);
    ScanAhead(code + [header], body, 0);
    assert header % 32 == u.kind;
    if u.long { ScanFourByteCode(p, 0); } else { assert StartCode(p, 0); }
  }

  lemma {:induction false} ScanUnits(units: seq<Unit>)
    requires AllProper(units)
    ensures |Scan(Written(units), 0)| == |units|
    ensures forall i :: 0 <= i < |units| ==> Scan(Written(units), 0)[i] == units[i].kind
  {
    hide Coded, Scan;
    if units == [] {
      assert Scan([], 0) == [] by { NothingToScan(); }
    } else {
      ScanUnit(units[0], Written(units[1..]));
      ScanUnits(units[1..]);
    }
  }

  lemma NothingToScan()
    ensures Scan([], 0) == []
  {
  }

  /** Whatever an encoder writes in proper units, behind start codes of either length, is reported type by type
      in order. */
  lemma UnitsAreReported(units: seq<Unit>)
    requires AllProper(units)
    ensures |NalTypes(Written(units))| == |units|
    ensures forall i :: 0 <= i < |units| ==> NalTypes(Written(units))[i] == units[i].kind
  {
    ScanUnits(units);
  }
}
