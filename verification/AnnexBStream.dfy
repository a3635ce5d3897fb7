/** Splitting an Annex B stream at its start codes (Annex B of ITU-T H.264), and lowering
    the level of every SPS in one. */
module AnnexBStream {
  import opened Wrappers
  import opened Bitstream

  // ---- splitting ----

  predicate StartsCode(b: Bytes) {
    |b| >= 3 && b[0] == 0 && b[1] == 0 && b[2] == 1
  }

  /** A unit ends before three bytes 0 0 0 or 0 0 1. */
  predicate Stops(b: Bytes) {
    |b| >= 3 && b[0] == 0 && b[1] == 0 && b[2] <= 1
  }

  function UnitLength(b: Bytes): (n: nat)
    ensures n <= |b|
  {
    if b == [] || Stops(b) then 0 else 1 + UnitLength(b[1..])
  }

  /** The units of a stream, in order. */
  function Split(b: Bytes): seq<Bytes>
    decreases |b|
  {
    if b == [] then []
    else if StartsCode(b) then
      var n := UnitLength(b[3..]);
      [b[3..3 + n]] + Split(b[3 + n..])
    else Split(b[1..])
  }

  /** A unit as encoders must write it: not empty, no start-code pattern inside, last byte
      not zero. */
  predicate Clean(u: Bytes) {
    && u != [] && u[|u| - 1] != 0
    && forall i :: 0 <= i < |u| - 2 ==> !(u[i] == 0 && u[i + 1] == 0 && u[i + 2] <= 1)
  }

  predicate AllClean(units: seq<Bytes>) {
    forall i :: 0 <= i < |units| ==> Clean(units[i])
  }

  /** Nothing that begins inside a clean unit looks like the end of it. */
  lemma NoStopInside(u: Bytes, tail: Bytes, i: nat)
    requires Clean(u) && i < |u|
    ensures !Stops((u + tail)[i..])
  {
    var b := u + tail;
    assert |b| > i + 2 ==> b[i..][0] == b[i] && b[i..][1] == b[i + 1] && b[i..][2] == b[i + 2];
  }

  lemma {:induction false} UnitLengthOf(u: Bytes, tail: Bytes, i: nat)
    requires Clean(u) && i <= |u| && (tail == [] || Stops(tail))
    ensures UnitLength((u + tail)[i..]) == |u| - i
    decreases |u| - i
  {
    var b := (u + tail)[i..];
    if i == |u| {
      assert b == tail;
    } else {
      NoStopInside(u, tail, i);
      UnitLengthOf(u, tail, i + 1);
      assert b[1..] == (u + tail)[i + 1..];
    }
  }

  /** Splitting gives back what was put behind start codes. */
  lemma {:induction false} SplitAnnexB(units: seq<Bytes>)
    requires AllClean(units)
    ensures Split(AnnexB(units)) == units
  {
    if units != [] {
      var u, tail := units[0], AnnexB(units[1..]);
      var b := AnnexB(units);
      assert b == START_CODE + u + tail;
      assert !StartsCode(b);
      var c := b[1..];
      assert StartsCode(c);
      assert c[3..] == u + tail;
      assert (u + tail)[0..] == u + tail;
      UnitLengthOf(u, tail, 0);
      assert c[3..3 + |u|] == u && c[3 + |u|..] == tail;
      SplitAnnexB(units[1..]);
      assert units == [u] + units[1..];
    }
  }

  /** Round trip: the parameter sets (on keyframes), then the non-empty NALs. */
  method AnnexBRoundTrip(nals: seq<Bytes>, cfg: NalConfig, keyframe: bool) returns (out: Option<Bytes>)
    requires cfg.lengthSize > 0 && Encodable(nals, cfg.lengthSize)
    requires (keyframe ==> AllClean(cfg.parameterSets)) && AllClean(NonEmpty(nals))
    ensures out == Some(AnnexB(Units(nals, cfg, keyframe)))
    ensures Split(out.value) == (if keyframe then cfg.parameterSets else []) + NonEmpty(nals)
  {
    out := ToAnnexB(EncodeSample(nals, cfg.lengthSize), cfg, keyframe);
    SplitAnnexB(Units(nals, cfg, keyframe));
  }

  // ---- lowering the level ----

  const MAX_LEVEL: byte := 52

  /** A start code at position i with at least one byte behind it. */
  predicate CodeAt(data: Bytes, i: int) {
    0 <= i && i + 3 < |data| && data[i] == 0 && data[i + 1] == 0 && data[i + 2] == 1
  }

  /** Byte k is the level of an SPS: header (type 7), profile, constraints, level. */
  predicate IsLevel(data: Bytes, k: int) {
    k < |data| && CodeAt(data, k - 6) && data[k - 3] % 32 == 7
  }

  predicate TooHigh(data: Bytes, k: int) {
    IsLevel(data, k) && data[k] > MAX_LEVEL
  }

  /** Three bytes 0 0 1, a header of type 7, two bytes, and a level above 52. */
  predicate HighSpsLevel(data: Bytes, k: nat) {
    && 6 <= k < |data| && data[k - 6..k - 3] == [0, 0, 1]
    && data[k - 3] % 32 == 7 && data[k] > 52
  }

  lemma HighExactly(data: Bytes, k: nat)
    ensures HighSpsLevel(data, k) <==> TooHigh(data, k)
  {
    if 6 <= k < |data| {
      var code := data[k - 6..k - 3];
      assert code[0] == data[k - 6] && code[1] == data[k - 5] && code[2] == data[k - 4];
      assert code == [code[0], code[1], code[2]];
    }
  }

  function Clamped(data: Bytes): (r: Bytes)
    ensures |r| == |data|
    ensures forall k :: 0 <= k < |r| ==> r[k] == if TooHigh(data, k) then MAX_LEVEL else data[k]
  {
    seq(|data|, k requires 0 <= k < |data| => if TooHigh(data, k) then MAX_LEVEL else data[k])
  }

  /** The data with 52 in place of every higher SPS level, or None if no level is higher. The
      scanner skips over each start code it finds; it still visits all of them. */
  method ClampSpsLevel(data: Bytes) returns (out: Option<Bytes>)
    ensures out.Some? ==> out.value == Clamped(data)
    ensures out.Some? ==> |out.value| == |data| && forall k :: 0 <= k < |data| ==>
              out.value[k] == if HighSpsLevel(data, k) then 52 else data[k]
    ensures out.None? <==> forall k :: 0 <= k < |data| ==> !HighSpsLevel(data, k)
  {
    out := None;
    var i := 0;
    while i + 3 < |data|
      invariant out.Some? ==> |out.value| == |data| &&
                              forall k :: 0 <= k < |data| ==>
                                out.value[k] == if k - 6 < i && TooHigh(data, k) then MAX_LEVEL else data[k]
      invariant out.Some? <==> exists k :: 0 <= k < |data| && k - 6 < i && TooHigh(data, k)
      decreases |data| - i
    {
      if data[i] == 0 && data[i + 1] == 0 && data[i + 2] == 1 {
        var nal := i + 3;
        assert CodeAt(data, i) && !CodeAt(data, i + 1) && !CodeAt(data, i + 2);
        if nal + 3 < |data| && data[nal] % 32 == 7 && data[nal + 3] > MAX_LEVEL {
          assert TooHigh(data, nal + 3);
          var copy := if out.Some? then out.value else data;
          out := Some(copy[nal + 3 := MAX_LEVEL]);
        }
        i := nal;
      } else {
        assert !CodeAt(data, i);
        i := i + 1;
      }
    }
    if out.Some? {
      assert out.value == Clamped(data);
    }
    forall k: nat ensures HighSpsLevel(data, k) <==> TooHigh(data, k) {
      HighExactly(data, k);
    }
  }

  /** Only level bytes change: no byte of a start code, no NAL header; and no start code
      comes to be. */
  lemma ClampKeepsStructure(data: Bytes)
    ensures forall i :: CodeAt(data, i) <==> CodeAt(Clamped(data), i)
    ensures forall i :: CodeAt(data, i) ==> Clamped(data)[i + 3] == data[i + 3]
    ensures forall k :: 0 <= k < |data| && Clamped(data)[k] != data[k] ==> TooHigh(data, k)
  {
    var r := Clamped(data);
    forall i | CodeAt(data, i) ensures r[i + 3] == data[i + 3] {
      assert data[i] == 0 && !TooHigh(data, i + 3);
    }
  }

  /** What it returns needs no second pass. */
  lemma ClampIsIdempotent(data: Bytes)
    ensures forall k :: 0 <= k < |data| ==> !TooHigh(Clamped(data), k)
    ensures Clamped(Clamped(data)) == Clamped(data)
  {
    ClampKeepsStructure(data);
    var r := Clamped(data);
    forall k | 0 <= k < |data| ensures !TooHigh(r, k) {
      if IsLevel(r, k) {
        assert CodeAt(data, k - 6) && r[(k - 6) + 3] == data[(k - 6) + 3];
      }
    }
    assert Clamped(r) == r;
  }

  method ClampTwice(data: Bytes) returns (once: Option<Bytes>, twice: Option<Bytes>)
    ensures once == (if exists k :: HighSpsLevel(data, k) then Some(Clamped(data)) else None)
    ensures twice.None?
  {
    once := ClampSpsLevel(data);
    twice := None;
    if once.Some? {
      ClampIsIdempotent(data);
      forall k: nat | k < |data| ensures !HighSpsLevel(once.value, k) {
        HighExactly(once.value, k);
      }
      twice := ClampSpsLevel(once.value);
    }
  }

  /** The unit with its level lowered, if it is an SPS with a level above 5.2. */
  function ClampUnit(u: Bytes): (v: Bytes)
    ensures |v| == |u|
  {
    if |u| > 3 && u[0] % 32 == 7 && u[3] > MAX_LEVEL then u[3 := MAX_LEVEL] else u
  }

  function ClampUnits(units: seq<Bytes>): (r: seq<Bytes>)
    ensures |r| == |units| && forall i :: 0 <= i < |r| ==> r[i] == ClampUnit(units[i])
  {
    seq(|units|, i requires 0 <= i < |units| => ClampUnit(units[i]))
  }

  /** Start codes of unit + stream: the one before the unit, then those of the stream. */
  lemma CodesOfStream(u: Bytes, tail: Bytes, i: int)
    requires Clean(u) && (tail == [] || Stops(tail))
    ensures var data := START_CODE + u + tail;
            CodeAt(data, i) <==> i == 1 || CodeAt(tail, i - 4 - |u|)
  {
    var data := START_CODE + u + tail;
    if 4 <= i < 4 + |u| {
      NoStopInside(u, tail, i - 4);
      assert (u + tail)[i - 4..] == data[i..];
      assert i + 3 < |data| ==> data[i..][0] == data[i] && data[i..][1] == data[i + 1] && data[i..][2] == data[i + 2];
    }
    if i >= 4 + |u| {
      assert data[4 + |u|..] == tail;
    }
  }

  /** On a stream of clean units the scan edits SPS units only, each on its own. */
  lemma {:induction false} ClampOfAnnexB(units: seq<Bytes>)
    requires AllClean(units)
    ensures Clamped(AnnexB(units)) == AnnexB(ClampUnits(units))
  {
    if units == [] {
      assert ClampUnits(units) == [];
    } else {
      var u, tail := units[0], AnnexB(units[1..]);
      var data := START_CODE + u + tail;
      ClampOfAnnexB(units[1..]);
      var want := START_CODE + ClampUnit(u) + Clamped(tail);
      assert ClampUnits(units)[1..] == ClampUnits(units[1..]);
      forall k | 0 <= k < |data| ensures Clamped(data)[k] == want[k] {
        ClampedByte(u, tail, k);
      }
      assert Clamped(data) == want;
    }
  }

  lemma ClampedByte(u: Bytes, tail: Bytes, k: nat)
    requires Clean(u) && (tail == [] || Stops(tail)) && k < 4 + |u| + |tail|
    ensures Clamped(START_CODE + u + tail)[k] == (START_CODE + ClampUnit(u) + Clamped(tail))[k]
  {
    var head := START_CODE + ClampUnit(u);
    if k < |head| {
      ClampedInUnit(u, tail, k);
      assert (head + Clamped(tail))[k] == head[k];
    } else {
      ClampedBehindUnit(u, tail, k);
      assert (head + Clamped(tail))[k] == Clamped(tail)[k - |head|];
    }
  }

  lemma ClampedInUnit(u: Bytes, tail: Bytes, k: nat)
    requires Clean(u) && (tail == [] || Stops(tail)) && k < 4 + |u|
    ensures Clamped(START_CODE + u + tail)[k] == (START_CODE + ClampUnit(u))[k]
  {
    LevelOfUnit(u, tail, k);
    assert k >= 4 ==> (START_CODE + u)[k] == u[k - 4] && (START_CODE + ClampUnit(u))[k] == ClampUnit(u)[k - 4];
  }

  lemma ClampedBehindUnit(u: Bytes, tail: Bytes, k: nat)
    requires Clean(u) && (tail == [] || Stops(tail)) && 4 + |u| <= k < 4 + |u| + |tail|
    ensures Clamped(START_CODE + u + tail)[k] == Clamped(tail)[k - 4 - |u|]
  {
    LevelBehindUnit(u, tail, k);
  }

  /** Up to the end of the unit, the level is the unit's own, if it is an SPS. */
  lemma LevelOfUnit(u: Bytes, tail: Bytes, k: nat)
    requires Clean(u) && (tail == [] || Stops(tail)) && k < 4 + |u|
    ensures var data := START_CODE + u + tail;
            && data[k] == (START_CODE + u)[k]
            && (TooHigh(data, k) <==> k == 7 && u[0] % 32 == 7 && u[3] > MAX_LEVEL)
  {
    CodesOfStream(u, tail, k - 6);
    assert k == 7 ==> (START_CODE + u + tail)[4] == u[0] && (START_CODE + u + tail)[7] == u[3];
  }

  /** Behind it, the levels are those of the rest. */
  lemma LevelBehindUnit(u: Bytes, tail: Bytes, k: nat)
    requires Clean(u) && (tail == [] || Stops(tail)) && 4 + |u| <= k < 4 + |u| + |tail|
    ensures var data := START_CODE + u + tail;
            && data[k] == tail[k - 4 - |u|] && (TooHigh(data, k) <==> TooHigh(tail, k - 4 - |u|))
  {
    var data, at := START_CODE + u + tail, k - 4 - |u|;
    CodesOfStream(u, tail, k - 6);
    assert data[k] == tail[at];
    assert at >= 3 ==> data[k - 3] == tail[at - 3];
  }

  lemma ClampUnitClean(u: Bytes)
    requires Clean(u)
    ensures Clean(ClampUnit(u))
  {
  }

  /** Lowering levels after the rewrite and splitting again: the same units, SPS levels
      lowered. */
  lemma SplitOfClamped(units: seq<Bytes>)
    requires AllClean(units)
    ensures Split(Clamped(AnnexB(units))) == ClampUnits(units)
    ensures |ClampUnits(units)| == |units| && forall i :: 0 <= i < |units| ==>
              ClampUnits(units)[i] == if |units[i]| > 3 && units[i][0] % 32 == 7 && units[i][3] > 52
                                      then units[i][3 := 52] else units[i]
  {
    ClampOfAnnexB(units);
    forall i | 0 <= i < |units| ensures Clean(ClampUnits(units)[i]) {
      ClampUnitClean(units[i]);
    }
    SplitAnnexB(ClampUnits(units));
  }
}
