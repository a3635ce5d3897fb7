/** avcC and hvcC: the decoder configuration records of ISO/IEC 14496-15, sections 5.3.3.1
    and 8.3.3.1. */
module CodecConfig {
  import opened Wrappers
  import opened Arith
  import opened Bitstream

  datatype Taken = Taken(sets: seq<Bytes>, rest: Bytes)

  predicate Fits(sets: seq<Bytes>) {
    forall i :: 0 <= i < |sets| ==> |sets[i]| < 0x1_0000
  }

  /** Parameter sets, each behind its length in two bytes. */
  function Sets(sets: seq<Bytes>): Bytes
    requires Fits(sets)
  {
    if sets == [] then [] else [|sets[0]| / 256, |sets[0]| % 256] + sets[0] + Sets(sets[1..])
  }

  /** count parameter sets off the front of b. */
  function TakeSets(b: Bytes, count: nat): Option<Taken>
    decreases count
  {
    if count == 0 then Some(Taken([], b))
    else if |b| < 2 || |b| < 2 + U16Of(b[0], b[1]) then None
    else
      var n := U16Of(b[0], b[1]);
      var t := TakeSets(b[2 + n..], count - 1);
      if t.None? then None else Some(Taken([b[2..2 + n]] + t.value.sets, t.value.rest))
  }

  lemma {:induction false} TakeWritten(sets: seq<Bytes>, rest: Bytes)
    requires Fits(sets)
    ensures TakeSets(Sets(sets) + rest, |sets|) == Some(Taken(sets, rest))
  {
    if sets == [] {
      assert [] + rest == rest;
    } else {
      var tail := Sets(sets[1..]) + rest;
      var head: Bytes := [|sets[0]| / 256, |sets[0]| % 256];
      Slices(head, sets[0], tail);
      assert Sets(sets) + rest == head + sets[0] + tail;
      TakeWritten(sets[1..], rest);
      assert [sets[0]] + sets[1..] == sets;
    }
  }

  lemma {:induction false} TakenWasWritten(b: Bytes, count: nat)
    requires TakeSets(b, count).Some?
    ensures var t := TakeSets(b, count).value;
            |t.sets| == count && Fits(t.sets) && b == Sets(t.sets) + t.rest
    decreases count
  {
    if count == 0 {
      assert [] + b == b;
    } else {
      var n := U16Of(b[0], b[1]);
      TakenWasWritten(b[2 + n..], count - 1);
      var t := TakeSets(b[2 + n..], count - 1).value;
      OneMoreSet(b, n, t.sets, t.rest);
    }
  }

  lemma OneMoreSet(b: Bytes, n: nat, sets: seq<Bytes>, rest: Bytes)
    requires |b| >= 2 && n == U16Of(b[0], b[1]) && |b| >= 2 + n
    requires Fits(sets) && b[2 + n..] == Sets(sets) + rest
    ensures var all := [b[2..2 + n]] + sets; Fits(all) && b == Sets(all) + rest
  {
    var all := [b[2..2 + n]] + sets;
    assert all[1..] == sets;
    assert n / 256 == b[0] && n % 256 == b[1];
    assert b == [b[0], b[1]] + b[2..2 + n] + b[2 + n..];
  }

  /** One set off the cursor. */
  method ReadSet(r: Reader) returns (s: Option<Bytes>)
    requires r.Valid()
    modifies r
    ensures r.Valid()
    ensures var b := r.buf[old(r.pos)..];
            if |b| < 2 || |b| < 2 + U16Of(b[0], b[1]) then s == None
            else s == Some(b[2..2 + U16Of(b[0], b[1])]) && r.buf[r.pos..] == b[2 + U16Of(b[0], b[1])..]
  {
    ghost var at := r.pos;
    var n := r.U16();
    if n.None? {
      return None;
    }
    s := r.Take(n.value);
    assert s.Some? ==> r.buf[at..][2..2 + n.value] == s.value;
  }

  /** Reading on from b, with out read so far, has the same outcome. */
  ghost predicate ReadsOn(start: Bytes, count: nat, before: seq<Bytes>, b: Bytes, left: nat, out: seq<Bytes>) {
    var whole, rest := TakeSets(start, count), TakeSets(b, left);
    && (whole.None? <==> rest.None?)
    && (whole.Some? ==> whole.value.rest == rest.value.rest && before + whole.value.sets == out + rest.value.sets)
  }

  lemma ReadsOnAfter(start: Bytes, count: nat, before: seq<Bytes>, b: Bytes, left: nat, out: seq<Bytes>, n: nat)
    requires left > 0 && ReadsOn(start, count, before, b, left, out)
    requires |b| >= 2 && n == U16Of(b[0], b[1]) && |b| >= 2 + n
    ensures ReadsOn(start, count, before, b[2 + n..], left - 1, out + [b[2..2 + n]])
  {
    var t := TakeSets(b[2 + n..], left - 1);
    if t.Some? {
      assert out + ([b[2..2 + n]] + t.value.sets) == out + [b[2..2 + n]] + t.value.sets;
    }
  }

  /** Reads count sets with the cursor. */
  method ReadSets(r: Reader, count: nat, before: seq<Bytes>) returns (sets: Option<seq<Bytes>>)
    requires r.Valid()
    modifies r
    ensures r.Valid()
    ensures var t := TakeSets(r.buf[old(r.pos)..], count);
            if t.None? then sets == None
            else sets == Some(before + t.value.sets) && r.buf[r.pos..] == t.value.rest
  {
    var out := before;
    var i := 0;
    ghost var start := r.buf[r.pos..];
    while i < count
      invariant i <= count && r.Valid()
      invariant ReadsOn(start, count, before, r.buf[r.pos..], count - i, out)
    {
      var s := ReadNext(r, start, count, before, count - i, out);
      if s.None? {
        return None;
      }
      out := s.value;
      i := i + 1;
    }
    assert out + [] == out;
    sets := Some(out);
  }

  /** One more set of the count that begin at start. */
  method ReadNext(r: Reader, ghost start: Bytes, ghost count: nat, ghost before: seq<Bytes>, ghost left: nat,
      out: seq<Bytes>)
    returns (more: Option<seq<Bytes>>)
    requires r.Valid() && left > 0 && ReadsOn(start, count, before, r.buf[r.pos..], left, out)
    modifies r
    ensures r.Valid()
    ensures more.None? ==> TakeSets(start, count) == None
    ensures more.Some? ==> ReadsOn(start, count, before, r.buf[r.pos..], left - 1, more.value)
  {
    ghost var b := r.buf[r.pos..];
    var s := ReadSet(r);
    if s.None? {
      assert TakeSets(b, left) == None;
      return None;
    }
    ReadsOnAfter(start, count, before, b, left, out, U16Of(b[0], b[1]));
    more := Some(out + [s.value]);
  }

  // ---- avcC ----

  /** profile: profile, compatibility and level; reserved and reservedSps: the bits above
      the length size and the number of SPS; trailing: whatever follows. */
  datatype AvcC = AvcC(
    profile: Bytes, reserved: nat, lengthSize: nat, reservedSps: nat, sps: seq<Bytes>, pps: seq<Bytes>, trailing: Bytes)
  {
    predicate Valid() {
      && |profile| == 3 && reserved < 64 && 1 <= lengthSize <= 4 && reservedSps < 8
      && |sps| < 32 && |pps| < 256 && Fits(sps) && Fits(pps)
    }

    function Config(): NalConfig {
      NalConfig(lengthSize, sps + pps)
    }

    function Write(): Bytes
      requires Valid()
    {
      [1] + profile + [reserved * 4 + lengthSize - 1] + [reservedSps * 32 + |sps|] +
          PutBoth(BothSets(sps, pps, trailing))
    }
  }

  datatype BothSets = BothSets(sps: seq<Bytes>, pps: seq<Bytes>, trailing: Bytes)

  /** count SPS, the number of PPS and those, and what trails them. */
  function TakeBoth(body: Bytes, count: nat): Option<BothSets> {
    var sps := TakeSets(body, count);
    if sps.None? || sps.value.rest == [] then None
    else
      var pps := TakeSets(sps.value.rest[1..], sps.value.rest[0]);
      if pps.None? then None else Some(BothSets(sps.value.sets, pps.value.sets, pps.value.rest))
  }

  function PutBoth(b: BothSets): Bytes
    requires Fits(b.sps) && Fits(b.pps) && |b.pps| < 256
  {
    Sets(b.sps) + ([|b.pps|] + (Sets(b.pps) + b.trailing))
  }

  lemma TakeBothWritten(b: BothSets)
    requires Fits(b.sps) && Fits(b.pps) && |b.pps| < 256
    ensures TakeBoth(PutBoth(b), |b.sps|) == Some(b)
  {
    var last := Sets(b.pps) + b.trailing;
    TakeWritten(b.sps, [|b.pps|] + last);
    Tail(|b.pps|, last);
    TakeWritten(b.pps, b.trailing);
  }

  lemma BothWereWritten(body: Bytes, count: nat)
    requires TakeBoth(body, count).Some?
    ensures var b := TakeBoth(body, count).value;
            |b.sps| == count && Fits(b.sps) && Fits(b.pps) && |b.pps| < 256 && body == PutBoth(b)
  {
    TakenWasWritten(body, count);
    var rest := TakeSets(body, count).value.rest;
    TakenWasWritten(rest[1..], rest[0]);
    Split(rest);
  }

  lemma Split(b: Bytes)
    requires b != []
    ensures b == [b[0]] + b[1..]
  {
  }

  /** The record with this profile, these two bytes and this body, if there is one. */
  function ReadBody(profile: Bytes, b4: byte, b5: byte, body: Bytes): Option<AvcC> {
    var b := TakeBoth(body, b5 % 32);
    if b.None? then None
    else Some(AvcC(profile, b4 / 4, b4 % 4 + 1, b5 / 32, b.value.sps, b.value.pps, b.value.trailing))
  }

  lemma ReadBodyWritten(v: AvcC, b4: byte, b5: byte)
    requires v.Valid() && b4 == v.reserved * 4 + v.lengthSize - 1 && b5 == v.reservedSps * 32 + |v.sps|
    ensures ReadBody(v.profile, b4, b5, PutBoth(BothSets(v.sps, v.pps, v.trailing))) == Some(v)
  {
    SplitBits(b4, 4, v.reserved, v.lengthSize - 1);
    SplitBits(b5, 32, v.reservedSps, |v.sps|);
    TakeBothWritten(BothSets(v.sps, v.pps, v.trailing));
  }

  /** What was read is a record, and its parts spell the body. */
  lemma BodyWasWritten(profile: Bytes, b4: byte, b5: byte, body: Bytes)
    requires |profile| == 3 && ReadBody(profile, b4, b5, body).Some?
    ensures var v := ReadBody(profile, b4, b5, body).value;
            && v.Valid() && v.profile == profile
            && b4 == v.reserved * 4 + v.lengthSize - 1 && b5 == v.reservedSps * 32 + |v.sps|
            && body == PutBoth(BothSets(v.sps, v.pps, v.trailing))
  {
    BothWereWritten(body, b5 % 32);
  }

  /** The record in raw, if raw is one. */
  function ReadAvcC(raw: Bytes): (r: Option<AvcC>)
    ensures r.Some? ==> r.value.Valid() && r.value.Write() == raw
  {
    if |raw| < 6 || raw[0] != 1 then None
    else
      var r := ReadBody(raw[1..4], raw[4], raw[5], raw[6..]);
      if r.Some? then
        BodyWasWritten(raw[1..4], raw[4], raw[5], raw[6..]);
        WrittenIsRaw(raw, r.value);
        r
      else None
  }

  lemma WrittenIsRaw(raw: Bytes, v: AvcC)
    requires v.Valid() && |raw| >= 6 && raw[0] == 1 && v.profile == raw[1..4]
    requires raw[4] == v.reserved * 4 + v.lengthSize - 1 && raw[5] == v.reservedSps * 32 + |v.sps|
    requires raw[6..] == PutBoth(BothSets(v.sps, v.pps, v.trailing))
    ensures v.Write() == raw
  {
    assert v.Write()[..6] == raw[..6];
    assert raw == raw[..6] + raw[6..];
  }

  /** What stands where in a written record. */
  lemma WrittenParts(v: AvcC)
    requires v.Valid()
    ensures var raw := v.Write();
            && |raw| >= 6 && raw[0] == 1 && raw[1..4] == v.profile
            && raw[4] == v.reserved * 4 + v.lengthSize - 1 && raw[5] == v.reservedSps * 32 + |v.sps|
            && raw[6..] == Sets(v.sps) + ([|v.pps|] + (Sets(v.pps) + v.trailing))
  {
    var b4: nat, b5: nat := v.reserved * 4 + v.lengthSize - 1, v.reservedSps * 32 + |v.sps|;
    var head: Bytes := [1] + v.profile + [b4] + [b5];
    var rest := PutBoth(BothSets(v.sps, v.pps, v.trailing));
    assert v.Write() == head + rest;
    assert head[1..4] == v.profile && (head + rest)[1..4] == head[1..4];
  }

  lemma ReadWrittenAvcC(v: AvcC)
    requires v.Valid()
    ensures ReadAvcC(v.Write()) == Some(v)
  {
    var raw := v.Write();
    WrittenParts(v);
    ReadBodyWritten(v, raw[4], raw[5]);
    ReadFromParts(raw, v);
  }

  lemma ReadFromParts(raw: Bytes, v: AvcC)
    requires |raw| >= 6 && raw[0] == 1 && ReadBody(raw[1..4], raw[4], raw[5], raw[6..]) == Some(v)
    ensures ReadAvcC(raw) == Some(v)
  {
  }

  lemma SplitBits(b: nat, unit: nat, hi: nat, lo: nat)
    requires lo < unit && b == hi * unit + lo
    ensures b / unit == hi && b % unit == lo
  {
    DivUnique(b, unit, hi, lo);
  }

  function ConfigFrom(v: Option<AvcC>): Option<NalConfig> {
    if v.Some? && v.value.lengthSize != 3 then Some(v.value.Config()) else None
  }

  /** The parser inverts the writer and accepts nothing else; a length size of 3 is refused. */
  lemma AvcCExactly(raw: Bytes)
    ensures forall v: AvcC :: v.Valid() && v.Write() == raw ==>
              ConfigFrom(ReadAvcC(raw)) ==
                (if v.lengthSize == 3 then None else Some(NalConfig(v.lengthSize, v.sps + v.pps)))
    ensures ConfigFrom(ReadAvcC(raw)).Some? ==>
              exists v: AvcC :: v.Valid() && v.Write() == raw && v.lengthSize != 3 &&
                  ConfigFrom(ReadAvcC(raw)).value == NalConfig(v.lengthSize, v.sps + v.pps)
  {
    forall v: AvcC | v.Valid() && v.Write() == raw ensures ReadAvcC(raw) == Some(v) {
      ReadWrittenAvcC(v);
    }
  }

  method ParseAvcC(raw: Bytes) returns (r: Option<NalConfig>)
    ensures r == ConfigFrom(ReadAvcC(raw))
  {
    var reader := new Reader(raw);
    var version := reader.U8();
    if version.None? || version.value != 1 {
      return None;
    }
    var profile := reader.Take(3);
    if profile.None? {
      return None;
    }
    var lengthByte := reader.U8();
    if lengthByte.None? {
      return None;
    }
    var spsByte := reader.U8();
    if spsByte.None? {
      return None;
    }
    var all := ReadBothSets(reader, spsByte.value % 32);
    if all.None? {
      return None;
    }
    var lengthSize := lengthByte.value % 4 + 1;
    r := if lengthSize != 3 then Some(NalConfig(lengthSize, all.value)) else None;
  }

  /** SPS, then the number of PPS, then those. */
  method ReadBothSets(reader: Reader, spsCount: nat) returns (sets: Option<seq<Bytes>>)
    requires reader.Valid()
    modifies reader
    ensures reader.Valid()
    ensures var both := TakeBoth(reader.buf[old(reader.pos)..], spsCount);
            sets == if both.None? then None else Some(both.value.sps + both.value.pps)
  {
    ghost var sps := TakeSets(reader.buf[reader.pos..], spsCount);
    sets := ReadSets(reader, spsCount, []);
    if sets.None? {
      return None;
    }
    assert [] + sps.value.sets == sps.value.sets;
    ghost var rest := reader.buf[reader.pos..];
    var pps := reader.U8();
    if pps.None? {
      return None;
    }
    assert rest[1..] == reader.buf[reader.pos..];
    sets := ReadSets(reader, pps.value, sets.value);
  }

  // ---- hvcC ----

  /** One array: completeness and type byte, and its NALs. */
  datatype NalArray = NalArray(kind: byte, nals: seq<Bytes>)

  /** general: profile, tier, level and the rest of the fixed part. */
  datatype HvcC = HvcC(general: Bytes, reserved: nat, lengthSize: nat, arrays: seq<NalArray>, trailing: Bytes) {
    predicate Valid() {
      |general| == 20 && reserved < 64 && 1 <= lengthSize <= 4 && |arrays| < 256 && ArraysFit(arrays)
    }

    function Config(): NalConfig {
      NalConfig(lengthSize, AllNals(arrays))
    }

    function Write(): Bytes
      requires Valid()
    {
      [1] + general + [reserved * 4 + lengthSize - 1] + [|arrays|] + (Arrays(arrays) + trailing)
    }
  }

  predicate ArraysFit(arrays: seq<NalArray>) {
    forall i :: 0 <= i < |arrays| ==> |arrays[i].nals| < 0x1_0000 && Fits(arrays[i].nals)
  }

  function AllNals(arrays: seq<NalArray>): seq<Bytes> {
    if arrays == [] then [] else arrays[0].nals + AllNals(arrays[1..])
  }

  /** The NALs of all arrays, in the order they stand in. */
  lemma {:induction false} AllNalsJoins(a: seq<NalArray>, b: seq<NalArray>, x: NalArray)
    ensures AllNals([x]) == x.nals && AllNals(a + b) == AllNals(a) + AllNals(b)
  {
    assert [x][1..] == [] && x.nals + [] == x.nals;
    if a == [] {
      assert a + b == b;
    } else {
      AllNalsJoins(a[1..], b, x);
      assert a + b == [a[0]] + (a[1..] + b);
      Tail(a[0], a[1..] + b);
      Regroup(a[0].nals, AllNals(a[1..]), AllNals(b));
    }
  }

  lemma FitsJoins(a: seq<Bytes>, b: seq<Bytes>)
    requires Fits(a) && Fits(b)
    ensures Fits(a + b)
  {
  }

  /** A set stands behind its length in two bytes, the more significant first. */
  lemma SetsOne(s: Bytes)
    requires |s| < 0x1_0000
    ensures Fits([s]) && Sets([s]) == [|s| / 0x100, |s| % 0x100] + s
  {
    assert [s][1..] == [];
    var head: Bytes := [|s| / 0x100, |s| % 0x100];
    assert head + s + [] == head + s;
  }

  /** Sets stand one after the other. */
  lemma {:induction false} SetsJoins(a: seq<Bytes>, b: seq<Bytes>)
    requires Fits(a) && Fits(b)
    ensures Fits(a + b) && Sets(a + b) == Sets(a) + Sets(b)
  {
    FitsJoins(a, b);
    if a == [] {
      assert a + b == b;
    } else {
      var rest := a[1..];
      SetsJoins(rest, b);
      Tail(a[0], rest + b);
      assert a + b == [a[0]] + (rest + b);
      var head: Bytes := [|a[0]| / 0x100, |a[0]| % 0x100];
      Regroup(head + a[0], Sets(rest), Sets(b));
    }
  }

  function Arrays(arrays: seq<NalArray>): Bytes
    requires ArraysFit(arrays)
  {
    if arrays == [] then []
    else Head(arrays[0]) + Sets(arrays[0].nals) + Arrays(arrays[1..])
  }

  /** Kind and number of NALs. */
  function Head(a: NalArray): (h: Bytes)
    requires |a.nals| < 0x1_0000
    ensures |h| == 3 && h[0] == a.kind && h[1] as int * 256 + h[2] == |a.nals|
  {
    [a.kind, |a.nals| / 256, |a.nals| % 256]
  }

  lemma ArraysMore(a: NalArray, more: seq<NalArray>, rest: Bytes)
    requires ArraysFit(more) && |a.nals| < 0x1_0000 && Fits(a.nals)
    ensures ArraysFit([a] + more)
    ensures Arrays([a] + more) + rest == Head(a) + (Sets(a.nals) + (Arrays(more) + rest))
  {
    Tail(a, more);
    Regroup(Head(a), Sets(a.nals), Arrays(more));
    Regroup(Head(a), Sets(a.nals) + Arrays(more), rest);
    Regroup(Sets(a.nals), Arrays(more), rest);
  }

  datatype TakenArrays = TakenArrays(arrays: seq<NalArray>, rest: Bytes)

  function TakeArray(b: Bytes): Option<Taken> {
    if |b| < 3 then None else TakeSets(b[3..], U16Of(b[1], b[2]))
  }

  function TakeArrays(b: Bytes, count: nat): Option<TakenArrays>
    decreases count
  {
    if count == 0 then Some(TakenArrays([], b))
    else
      var one := TakeArray(b);
      if one.None? then None
      else
        var more := TakeArrays(one.value.rest, count - 1);
        if more.None? then None
        else Some(TakenArrays([NalArray(b[0], one.value.sets)] + more.value.arrays, more.value.rest))
  }

  lemma TakeWrittenArray(a: NalArray, tail: Bytes)
    requires |a.nals| < 0x1_0000 && Fits(a.nals)
    ensures var b := Head(a) + (Sets(a.nals) + tail); b[0] == a.kind && TakeArray(b) == Some(Taken(a.nals, tail))
  {
    var b := Head(a) + (Sets(a.nals) + tail);
    assert b[3..] == Sets(a.nals) + tail;
    TakeWritten(a.nals, tail);
  }

  lemma TakeArraysMore(b: Bytes, count: nat)
    requires TakeArray(b).Some? && TakeArrays(TakeArray(b).value.rest, count).Some?
    ensures var more := TakeArrays(TakeArray(b).value.rest, count).value;
            TakeArrays(b, count + 1) == Some(TakenArrays([NalArray(b[0], TakeArray(b).value.sets)] + more.arrays,
                more.rest))
  {
  }

  lemma {:induction false} TakeWrittenArrays(arrays: seq<NalArray>, rest: Bytes)
    requires ArraysFit(arrays)
    ensures TakeArrays(Arrays(arrays) + rest, |arrays|) == Some(TakenArrays(arrays, rest))
  {
    if arrays == [] {
      assert [] + rest == rest;
    } else {
      var a, more := arrays[0], arrays[1..];
      assert arrays == [a] + more;
      ArraysMore(a, more, rest);
      TakeWrittenArray(a, Arrays(more) + rest);
      TakeWrittenArrays(more, rest);
      TakeArraysMore(Arrays(arrays) + rest, |more|);
    }
  }

  lemma {:induction false} TakenArraysWereWritten(b: Bytes, count: nat)
    requires TakeArrays(b, count).Some?
    ensures var t := TakeArrays(b, count).value;
            |t.arrays| == count && ArraysFit(t.arrays) && b == Arrays(t.arrays) + t.rest
    decreases count
  {
    if count == 0 {
      assert [] + b == b;
    } else {
      var one := TakeArray(b).value;
      TakenWasWritten(b[3..], U16Of(b[1], b[2]));
      TakenArraysWereWritten(one.rest, count - 1);
      var t := TakeArrays(one.rest, count - 1).value;
      OneMoreArray(b, one.sets, t.arrays, t.rest);
    }
  }

  lemma OneMoreArray(b: Bytes, sets: seq<Bytes>, arrays: seq<NalArray>, rest: Bytes)
    requires |b| >= 3 && |sets| == U16Of(b[1], b[2]) && Fits(sets) && ArraysFit(arrays)
    requires b[3..] == Sets(sets) + (Arrays(arrays) + rest)
    ensures var all := [NalArray(b[0], sets)] + arrays; ArraysFit(all) && b == Arrays(all) + rest
  {
    var a := NalArray(b[0], sets);
    ArraysMore(a, arrays, rest);
    assert |sets| / 256 == b[1] && |sets| % 256 == b[2];
    assert b == Head(a) + b[3..];
  }

  /** The record in raw, if raw is one. */
  function ReadHvcC(raw: Bytes): (r: Option<HvcC>)
    ensures r.Some? ==> r.value.Valid() && r.value.Write() == raw
  {
    if |raw| < 23 || raw[0] != 1 then None
    else
      var t := TakeArrays(raw[23..], raw[22]);
      if t.None? then None
      else
        TakenArraysWereWritten(raw[23..], raw[22]);
        var v := HvcC(raw[1..21], raw[21] / 4, raw[21] % 4 + 1, t.value.arrays, t.value.rest);
        WrittenHvcCIsRaw(raw, v);
        Some(v)
  }

  lemma WrittenHvcCIsRaw(raw: Bytes, v: HvcC)
    requires v.Valid() && |raw| >= 23 && raw[0] == 1 && v.general == raw[1..21]
    requires v.reserved * 4 + v.lengthSize - 1 == raw[21] && |v.arrays| == raw[22]
    requires raw[23..] == Arrays(v.arrays) + v.trailing
    ensures v.Write() == raw
  {
    assert v.Write()[..23] == raw[..23];
    assert raw == raw[..23] + raw[23..];
  }

  lemma ReadWrittenHvcC(v: HvcC)
    requires v.Valid()
    ensures ReadHvcC(v.Write()) == Some(v)
  {
    WrittenHvcCParts(v);
    TakeWrittenArrays(v.arrays, v.trailing);
    SplitBits(v.reserved * 4 + v.lengthSize - 1, 4, v.reserved, v.lengthSize - 1);
  }

  lemma WrittenHvcCParts(v: HvcC)
    requires v.Valid()
    ensures var raw := v.Write();
            && |raw| >= 23 && raw[0] == 1 && raw[1..21] == v.general
            && raw[21] == v.reserved * 4 + v.lengthSize - 1 && raw[22] == |v.arrays|
            && raw[23..] == Arrays(v.arrays) + v.trailing
  {
    var head: Bytes := [1] + v.general + [v.reserved * 4 + v.lengthSize - 1] + [|v.arrays|];
    var rest := Arrays(v.arrays) + v.trailing;
    assert v.Write() == head + rest;
    assert head[1..21] == v.general && (head + rest)[1..21] == head[1..21];
  }

  function ConfigFromHvcC(v: Option<HvcC>): Option<NalConfig> {
    if v.Some? && v.value.lengthSize != 3 then Some(v.value.Config()) else None
  }

  lemma HvcCExactly(raw: Bytes)
    ensures forall v: HvcC :: v.Valid() && v.Write() == raw ==>
              ConfigFromHvcC(ReadHvcC(raw)) ==
                (if v.lengthSize == 3 then None else Some(NalConfig(v.lengthSize, AllNals(v.arrays))))
    ensures ConfigFromHvcC(ReadHvcC(raw)).Some? ==>
              exists v: HvcC :: v.Valid() && v.Write() == raw && v.lengthSize != 3 &&
                  ConfigFromHvcC(ReadHvcC(raw)).value == NalConfig(v.lengthSize, AllNals(v.arrays))
  {
    forall v: HvcC | v.Valid() && v.Write() == raw ensures ReadHvcC(raw) == Some(v) {
      ReadWrittenHvcC(v);
    }
  }

  method ParseHvcC(raw: Bytes) returns (r: Option<NalConfig>)
    ensures r == ConfigFromHvcC(ReadHvcC(raw))
  {
    var reader := new Reader(raw);
    var version := reader.U8();
    if version.None? || version.value != 1 {
      return None;
    }
    var general := reader.Take(20);
    if general.None? {
      return None;
    }
    var lengthByte := reader.U8();
    if lengthByte.None? {
      return None;
    }
    var lengthSize := lengthByte.value % 4 + 1;
    var arrays := reader.U8();
    if arrays.None? {
      return None;
    }
    var sets := ReadArrays(reader, arrays.value);
    if sets.None? {
      return None;
    }
    r := if lengthSize != 3 then Some(NalConfig(lengthSize, sets.value)) else None;
  }

  method ReadArray(r: Reader, before: seq<Bytes>) returns (sets: Option<seq<Bytes>>)
    requires r.Valid()
    modifies r
    ensures r.Valid()
    ensures var t := TakeArray(r.buf[old(r.pos)..]);
            if t.None? then sets == None
            else sets == Some(before + t.value.sets) && r.buf[r.pos..] == t.value.rest
  {
    ghost var b := r.buf[r.pos..];
    var kind := r.U8();
    if kind.None? {
      return None;
    }
    var count := r.U16();
    if count.None? {
      return None;
    }
    assert b[3..] == r.buf[r.pos..];
    sets := ReadSets(r, count.value, before);
  }

  ghost predicate ArraysReadOn(start: Bytes, count: nat, b: Bytes, left: nat, out: seq<Bytes>) {
    var whole, rest := TakeArrays(start, count), TakeArrays(b, left);
    && (whole.None? <==> rest.None?)
    && (whole.Some? ==> whole.value.rest == rest.value.rest)
    && (whole.Some? ==> AllNals(whole.value.arrays) == out + AllNals(rest.value.arrays))
  }

  lemma ArraysReadOnAfter(start: Bytes, count: nat, b: Bytes, left: nat, out: seq<Bytes>)
    requires left > 0 && ArraysReadOn(start, count, b, left, out) && TakeArray(b).Some?
    ensures ArraysReadOn(start, count, TakeArray(b).value.rest, left - 1, out + TakeArray(b).value.sets)
  {
    var one := TakeArray(b).value;
    var t := TakeArrays(one.rest, left - 1);
    if t.Some? {
      var all := [NalArray(b[0], one.sets)] + t.value.arrays;
      assert all[1..] == t.value.arrays;
      assert out + (one.sets + AllNals(t.value.arrays)) == out + one.sets + AllNals(t.value.arrays);
    }
  }

  /** One more array of the count that begin at start. */
  method ReadNextArray(r: Reader, ghost start: Bytes, ghost count: nat, ghost left: nat, out: seq<Bytes>)
    returns (more: Option<seq<Bytes>>)
    requires r.Valid() && left > 0 && ArraysReadOn(start, count, r.buf[r.pos..], left, out)
    modifies r
    ensures r.Valid()
    ensures more.None? ==> TakeArrays(start, count) == None
    ensures more.Some? ==> ArraysReadOn(start, count, r.buf[r.pos..], left - 1, more.value)
  {
    ghost var b := r.buf[r.pos..];
    more := ReadArray(r, out);
    if more.None? {
      assert TakeArrays(b, left) == None;
      return None;
    }
    ArraysReadOnAfter(start, count, b, left, out);
  }

  method ReadArrays(r: Reader, count: nat) returns (sets: Option<seq<Bytes>>)
    requires r.Valid()
    modifies r
    ensures r.Valid()
    ensures var t := TakeArrays(r.buf[old(r.pos)..], count);
            sets == if t.None? then None else Some(AllNals(t.value.arrays))
  {
    var out: seq<Bytes> := [];
    var i := 0;
    ghost var start := r.buf[r.pos..];
    while i < count
      invariant i <= count && r.Valid()
      invariant ArraysReadOn(start, count, r.buf[r.pos..], count - i, out)
    {
      var more := ReadNextArray(r, start, count, count - i, out);
      if more.None? {
        return None;
      }
      out := more.value;
      i := i + 1;
    }
    assert out + [] == out;
    sets := Some(out);
  }
}
