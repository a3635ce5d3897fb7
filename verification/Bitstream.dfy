/** Samples as MP4 and Matroska store them, and the Annex B stream decoders take. */
module Bitstream {
  import opened Wrappers

  type Bytes = seq<byte>

  const START_CODE: Bytes := [0, 0, 0, 1]

  datatype NalConfig = NalConfig(lengthSize: nat, parameterSets: seq<Bytes>)

  // ---- big-endian numbers ----

  /** The number the bytes spell, most significant first. */
  function BigEndian(b: Bytes): nat {
    if b == [] then 0 else BigEndian(b[..|b| - 1]) * 256 + b[|b| - 1]
  }

  function Power256(n: nat): (p: nat)
    ensures p > 0
  {
    if n == 0 then 1 else 256 * Power256(n - 1)
  }

  /** n in size bytes, most significant first. */
  function Spell(n: nat, size: nat): (b: Bytes)
    requires n < Power256(size)
    ensures |b| == size
  {
    if size == 0 then [] else Spell(n / 256, size - 1) + [n % 256]
  }

  lemma {:induction false} SpellBigEndian(n: nat, size: nat)
    requires n < Power256(size)
    ensures BigEndian(Spell(n, size)) == n
  {
    if size > 0 {
      SpellBigEndian(n / 256, size - 1);
      assert Spell(n, size)[..size - 1] == Spell(n / 256, size - 1);
    }
  }

  lemma {:induction false} BigEndianSpell(b: Bytes)
    ensures BigEndian(b) < Power256(|b|) && Spell(BigEndian(b), |b|) == b
  {
    if b != [] {
      BigEndianSpell(b[..|b| - 1]);
      var hi := BigEndian(b[..|b| - 1]);
      assert (hi * 256 + b[|b| - 1]) / 256 == hi;
      assert b == b[..|b| - 1] + [b[|b| - 1]];
    }
  }

  lemma {:induction false} PowerJoins(m: nat, n: nat)
    ensures Power256(m + n) == Power256(m) * Power256(n)
  {
    if n > 0 {
      PowerJoins(m, n - 1);
    }
  }

  lemma OneByteMore(x: nat, y: nat, z: nat, last: nat)
    ensures (x * y + z) * 256 + last == x * (256 * y) + (z * 256 + last)
  {
  }

  /** The more significant bytes come first, in every split of them. */
  lemma {:induction false} BigEndianJoins(a: Bytes, b: Bytes)
    ensures BigEndian(a + b) == BigEndian(a) * Power256(|b|) + BigEndian(b)
  {
    if b == [] {
      assert a + b == a;
    } else {
      var n := |b| - 1;
      BigEndianJoins(a, b[..n]);
      assert (a + b)[..|a| + n] == a + b[..n];
      OneByteMore(BigEndian(a), Power256(n), BigEndian(b[..n]), b[n]);
    }
  }

  /** One byte is its own number; four are a 32-bit number, the most significant first. */
  lemma FourBytes(a: byte, b: byte, c: byte, d: byte)
    ensures BigEndian([a]) == a
    ensures BigEndian([a, b, c, d]) == a as int * 0x100_0000 + b as int * 0x1_0000 + c as int * 0x100 + d
  {
    assert [a, b, c, d][..3] == [a, b, c] && [a, b, c][..2] == [a, b] && [a, b][..1] == [a] && [a][..0] == [];
    assert BigEndian([a]) == BigEndian([]) * 256 + a;
    assert BigEndian([a, b]) == BigEndian([a]) * 256 + b;
    assert BigEndian([a, b, c]) == BigEndian([a, b]) * 256 + c;
  }

  function U16Of(hi: nat, lo: nat): nat {
    hi * 256 + lo
  }

  // ---- cursor over a byte buffer ----

  class Reader {
    const buf: Bytes
    var pos: nat

    ghost predicate Valid()
      reads this
    {
      pos <= |buf|
    }

    constructor (buf: Bytes)
      ensures Valid() && this.buf == buf && pos == 0
    {
      this.buf := buf;
      pos := 0;
    }

    method U8() returns (v: Option<byte>)
      requires Valid()
      modifies this
      ensures Valid()
      ensures if old(pos) < |buf| then v == Some(buf[old(pos)]) && pos == old(pos) + 1 else v == None && pos == old(pos)
    {
      if pos < |buf| {
        v := Some(buf[pos]);
        pos := pos + 1;
      } else {
        v := None;
      }
    }

    method U16() returns (v: Option<nat>)
      requires Valid()
      modifies this
      ensures Valid()
      ensures if old(pos) + 2 <= |buf|
              then v == Some(buf[old(pos)] as int * 256 + buf[old(pos) + 1]) && pos == old(pos) + 2
              else v == None
    {
      var a := U8();
      if a.None? {
        return None;
      }
      var b := U8();
      if b.None? {
        return None;
      }
      v := Some(U16Of(a.value, b.value));
    }

    method Take(n: nat) returns (s: Option<Bytes>)
      requires Valid()
      modifies this
      ensures Valid()
      ensures if old(pos) + n <= |buf| then s == Some(buf[old(pos)..old(pos) + n]) && pos == old(pos) + n
              else s == None && pos == old(pos)
    {
      if pos + n <= |buf| {
        s := Some(buf[pos..pos + n]);
        pos := pos + n;
      } else {
        s := None;
      }
    }
  }

  // ---- samples: length + NAL ----

  /** A sample that holds these NALs, each behind its length in size bytes. */
  function EncodeSample(nals: seq<Bytes>, size: nat): Bytes
    requires Encodable(nals, size)
  {
    if nals == [] then [] else Spell(|nals[0]|, size) + nals[0] + EncodeSample(nals[1..], size)
  }

  predicate Encodable(nals: seq<Bytes>, size: nat) {
    forall i :: 0 <= i < |nals| ==> |nals[i]| < Power256(size)
  }

  /** Annex B: every unit behind a start code. */
  function AnnexB(units: seq<Bytes>): Bytes {
    if units == [] then [] else START_CODE + units[0] + AnnexB(units[1..])
  }

  function NonEmpty(nals: seq<Bytes>): seq<Bytes> {
    if nals == [] then [] else (if nals[0] == [] then [] else [nals[0]]) + NonEmpty(nals[1..])
  }

  /** The NALs of a sample, if it is a sample with lengths of size bytes. */
  function Nals(sample: Bytes, size: nat): (r: Option<seq<Bytes>>)
    requires size > 0
    decreases |sample|
  {
    if sample == [] then Some([])
    else if |sample| < size then None
    else
      var n := BigEndian(sample[..size]);
      if |sample| < size + n then None
      else
        var rest := Nals(sample[size + n..], size);
        if rest.None? then None else Some([sample[size..size + n]] + rest.value)
  }

  lemma Regroup<T>(a: seq<T>, b: seq<T>, c: seq<T>)
    ensures a + (b + c) == a + b + c
  {
  }

  lemma Tail<T>(x: T, rest: seq<T>)
    ensures ([x] + rest)[0] == x && ([x] + rest)[1..] == rest
  {
  }

  lemma Slices(a: Bytes, b: Bytes, c: Bytes)
    ensures var s := a + b + c; s[..|a|] == a && s[|a|..|a| + |b|] == b && s[|a| + |b|..] == c
  {
  }

  lemma {:induction false} NalsOfEncoded(nals: seq<Bytes>, size: nat)
    requires size > 0 && Encodable(nals, size)
    ensures Nals(EncodeSample(nals, size), size) == Some(nals)
  {
    if nals != [] {
      var rest := EncodeSample(nals[1..], size);
      SpellBigEndian(|nals[0]|, size);
      Slices(Spell(|nals[0]|, size), nals[0], rest);
      NalsOfEncoded(nals[1..], size);
      assert [nals[0]] + nals[1..] == nals;
    }
  }

  /** One NAL in front of an encoded list. */
  lemma OneMoreNal(sample: Bytes, size: nat, n: nat, nals: seq<Bytes>)
    requires |sample| >= size && n == BigEndian(sample[..size]) && |sample| >= size + n
    requires Encodable(nals, size) && sample[size + n..] == EncodeSample(nals, size)
    ensures var all := [sample[size..size + n]] + nals; Encodable(all, size) && EncodeSample(all, size) == sample
  {
    var nal := sample[size..size + n];
    BigEndianSpell(sample[..size]);
    EncodeMore(nal, nals, size);
    Joined(sample, size, size + n);
  }

  lemma EncodeMore(nal: Bytes, nals: seq<Bytes>, size: nat)
    requires |nal| < Power256(size) && Encodable(nals, size)
    ensures Encodable([nal] + nals, size)
    ensures EncodeSample([nal] + nals, size) == Spell(|nal|, size) + nal + EncodeSample(nals, size)
  {
    Tail(nal, nals);
  }

  lemma Joined(s: Bytes, i: nat, j: nat)
    requires i <= j <= |s|
    ensures s == s[..i] + s[i..j] + s[j..]
  {
  }

  lemma {:induction false} EncodedFromNals(sample: Bytes, size: nat)
    requires size > 0 && Nals(sample, size).Some?
    ensures var nals := Nals(sample, size).value; Encodable(nals, size) && EncodeSample(nals, size) == sample
    decreases |sample|
  {
    if sample != [] {
      var n := BigEndian(sample[..size]);
      var rest := sample[size + n..];
      EncodedFromNals(rest, size);
      OneMoreNal(sample, size, n, Nals(rest, size).value);
    }
  }

  /** A sample has NALs exactly if some NAL list encodes to it. */
  lemma SampleIsEncoding(sample: Bytes, size: nat)
    requires size > 0
    ensures Nals(sample, size).Some? <==> exists nals :: Encodable(nals, size) && EncodeSample(nals, size) == sample
  {
    if Nals(sample, size).Some? {
      EncodedFromNals(sample, size);
    }
    if exists nals :: Encodable(nals, size) && EncodeSample(nals, size) == sample {
      var nals :| Encodable(nals, size) && EncodeSample(nals, size) == sample;
      NalsOfEncoded(nals, size);
    }
  }

  lemma AnnexBMore(u: Bytes, rest: seq<Bytes>)
    ensures AnnexB([u] + rest) == START_CODE + u + AnnexB(rest)
  {
    Tail(u, rest);
  }

  lemma {:induction false} AnnexBAppend(a: seq<Bytes>, b: seq<Bytes>)
    ensures AnnexB(a + b) == AnnexB(a) + AnnexB(b)
  {
    if a == [] {
      assert a + b == b;
    } else {
      AnnexBAppend(a[1..], b);
      assert a + b == [a[0]] + (a[1..] + b);
      AnnexBMore(a[0], a[1..] + b);
      Regroup(START_CODE + a[0], AnnexB(a[1..]), AnnexB(b));
    }
  }

  lemma AnnexBLast(units: seq<Bytes>, u: Bytes)
    ensures AnnexB(units + [u]) == AnnexB(units) + START_CODE + u
  {
    AnnexBAppend(units, [u]);
    assert START_CODE + u + [] == START_CODE + u;
    Regroup(AnnexB(units), START_CODE, u);
  }

  /** Each unit of a stream stands behind the four bytes 0 0 0 1; the stream is all of them in order. */
  lemma AnnexBJoins(a: seq<Bytes>, u: Bytes, b: seq<Bytes>)
    ensures AnnexB([]) == [] && AnnexB(a + [u] + b) == AnnexB(a) + ([0, 0, 0, 1] + u) + AnnexB(b)
  {
    AnnexBAppend(a + [u], b);
    AnnexBLast(a, u);
    Regroup(AnnexB(a), START_CODE, u);
  }

  /** An empty NAL leaves nothing, another one itself. */
  lemma NonEmptyOne(nal: Bytes)
    ensures NonEmpty([nal]) == if nal == [] then [] else [nal]
  {
    assert [nal] == [nal] + [];
    NonEmptyMore(nal, []);
  }

  /** What they leave stays in their order. */
  lemma {:induction false} NonEmptyJoins(a: seq<Bytes>, b: seq<Bytes>)
    ensures NonEmpty(a + b) == NonEmpty(a) + NonEmpty(b)
  {
    if a == [] {
      assert a + b == b;
    } else {
      var x, rest := a[0], a[1..];
      NonEmptyJoins(rest, b);
      assert a + b == [x] + (rest + b);
      NonEmptyMore(x, rest + b);
      Regroup(if x == [] then [] else [x], NonEmpty(rest), NonEmpty(b));
    }
  }

  /** The units a sample turns into. */
  function Units(nals: seq<Bytes>, cfg: NalConfig, keyframe: bool): seq<Bytes> {
    (if keyframe then cfg.parameterSets else []) + NonEmpty(nals)
  }

  /** Sample to Annex B, parameter sets first on keyframes. None exactly if the sample
      encodes no NAL list. */
  method ToAnnexB(sample: Bytes, cfg: NalConfig, keyframe: bool) returns (r: Option<Bytes>)
    requires cfg.lengthSize > 0
    ensures r.Some? <==> exists nals :: Encodable(nals, cfg.lengthSize) && EncodeSample(nals, cfg.lengthSize) == sample
    ensures forall nals :: Encodable(nals, cfg.lengthSize) && EncodeSample(nals, cfg.lengthSize) == sample ==>
              r == Some(AnnexB((if keyframe then cfg.parameterSets else []) + NonEmpty(nals)))
  {
    SampleIsEncoding(sample, cfg.lengthSize);
    forall nals | Encodable(nals, cfg.lengthSize) && EncodeSample(nals, cfg.lengthSize) == sample
      ensures Nals(sample, cfg.lengthSize) == Some(nals)
    {
      NalsOfEncoded(nals, cfg.lengthSize);
    }
    var out: Bytes := [];
    if keyframe {
      out := PutSets(cfg.parameterSets);
    }
    ghost var sets := if keyframe then cfg.parameterSets else [];
    r := Rewrite(sample, cfg.lengthSize, out);
    if r.Some? {
      AnnexBAppend(sets, NonEmpty(Nals(sample, cfg.lengthSize).value));
    }
  }

  /** The parameter sets of a keyframe, each behind a start code. */
  method PutSets(sets: seq<Bytes>) returns (out: Bytes)
    ensures out == AnnexB(sets)
  {
    out := [];
    var n := 0;
    while n < |sets|
      invariant n <= |sets| && out == AnnexB(sets[..n])
    {
      assert sets[..n + 1] == sets[..n] + [sets[n]];
      AnnexBLast(sets[..n], sets[n]);
      out := out + START_CODE + sets[n];
      n := n + 1;
    }
    assert sets[..n] == sets;
  }

  /** The sample loop: appends every non-empty NAL behind a start code. */
  method Rewrite(sample: Bytes, size: nat, before: Bytes) returns (r: Option<Bytes>)
    requires size > 0
    ensures r == (if Nals(sample, size).None? then None else Some(before + AnnexB(NonEmpty(Nals(sample, size).value))))
  {
    var out := before;
    var reader := new Reader(sample);
    assert sample[0..] == sample;
    while reader.pos < |sample|
      invariant reader.Valid() && reader.buf == sample
      invariant Continues(sample, size, before, reader.pos, out)
      decreases |sample| - reader.pos
    {
      var next := RewriteOne(reader, size, before, out);
      if next.None? {
        return None;
      }
      out := next.value;
    }
    ContinuedToEnd(sample, size, before, out);
    r := Some(out);
  }

  lemma ContinuedToEnd(sample: Bytes, size: nat, before: Bytes, out: Bytes)
    requires size > 0 && Continues(sample, size, before, |sample|, out)
    ensures Nals(sample, size).Some? && out == before + AnnexB(NonEmpty(Nals(sample, size).value))
  {
    assert sample[|sample|..] == [];
    assert out + [] == out;
  }

  /** The NAL at an offset, behind its length, if both are there. */
  function NalAt(b: Bytes, at: nat, size: nat): Option<Bytes>
    requires at <= |b|
  {
    if |b| < at + size then None
    else
      var n := BigEndian(b[at..at + size]);
      if |b| < at + size + n then None else Some(b[at + size..at + size + n])
  }

  /** One length and its NAL. */
  method TakeNal(reader: Reader, size: nat) returns (nal: Option<Bytes>)
    requires reader.Valid()
    modifies reader
    ensures reader.Valid() && nal == NalAt(reader.buf, old(reader.pos), size)
    ensures nal.Some? ==> reader.pos == old(reader.pos) + size + |nal.value|
  {
    var length := reader.Take(size);
    if length.None? {
      return None;
    }
    var n := Fold(length.value);
    if n == 0 {
      assert reader.buf[reader.pos..reader.pos] == [];
      return Some([]);
    }
    nal := reader.Take(n);
  }

  /** One turn of the loop; an empty NAL leaves nothing. */
  method RewriteOne(reader: Reader, size: nat, ghost before: Bytes, out: Bytes) returns (next: Option<Bytes>)
    requires size > 0 && reader.Valid() && reader.pos < |reader.buf|
    requires Continues(reader.buf, size, before, reader.pos, out)
    modifies reader
    ensures reader.Valid()
    ensures next.None? ==> Nals(reader.buf, size) == None
    ensures next.Some? ==> reader.pos > old(reader.pos) && Continues(reader.buf, size, before, reader.pos, next.value)
  {
    ghost var at := reader.pos;
    var nal := TakeNal(reader, size);
    if nal.None? {
      TooShort(reader.buf, size, before, at, out);
      return None;
    }
    next := Some(if nal.value == [] then out else out + START_CODE + nal.value);
    ContinuesAfter(reader.buf, size, before, at, out, nal.value, next.value);
  }

  /** A length, or the NAL behind it, runs past the end. */
  lemma TooShort(sample: Bytes, size: nat, before: Bytes, at: nat, out: Bytes)
    requires size > 0 && at < |sample| && Continues(sample, size, before, at, out) && NalAt(sample, at, size) == None
    ensures Nals(sample, size) == None
  {
    var left := sample[at..];
    assert |left| >= size ==> left[..size] == sample[at..at + size];
    assert Nals(left, size) == None;
  }

  /** From offset at on, with out written so far, the loop has the same outcome. */
  ghost predicate Continues(sample: Bytes, size: nat, before: Bytes, at: nat, out: Bytes)
    requires size > 0 && at <= |sample|
  {
    var whole, rest := Nals(sample, size), Nals(sample[at..], size);
    && (whole.None? <==> rest.None?)
    && (whole.Some? ==> before + AnnexB(NonEmpty(whole.value)) == out + AnnexB(NonEmpty(rest.value)))
  }

  lemma ContinuesAfter(sample: Bytes, size: nat, before: Bytes, at: nat, out: Bytes, nal: Bytes, next: Bytes)
    requires size > 0 && at < |sample| && Continues(sample, size, before, at, out) &&
             NalAt(sample, at, size) == Some(nal)
    requires next == if nal == [] then out else out + START_CODE + nal
    ensures at + size + |nal| <= |sample| && Continues(sample, size, before, at + size + |nal|, next)
  {
    NalsFromOne(sample, at, size, nal);
    var rest := Nals(sample[at + size + |nal|..], size);
    if rest.Some? {
      UnitsAfterOne(out, nal, rest.value);
    }
  }

  /** From an offset with a NAL on: that one, then those behind it. */
  lemma NalsFromOne(sample: Bytes, at: nat, size: nat, nal: Bytes)
    requires size > 0 && at < |sample| && NalAt(sample, at, size) == Some(nal)
    ensures at + size + |nal| <= |sample|
    ensures var rest := Nals(sample[at + size + |nal|..], size);
            Nals(sample[at..], size) == if rest.None? then None else Some([nal] + rest.value)
  {
    var left := sample[at..];
    NalSlices(sample, at, size, nal);
    NalsAfterOne(left, size, |nal|, sample[at + size + |nal|..]);
  }

  lemma NalSlices(sample: Bytes, at: nat, size: nat, nal: Bytes)
    requires at <= |sample| && NalAt(sample, at, size) == Some(nal)
    ensures var left := sample[at..];
            && |left| >= size + |nal| && left[..size] == sample[at..at + size] && |nal| == BigEndian(left[..size])
            && left[size..size + |nal|] == nal && left[size + |nal|..] == sample[at + size + |nal|..]
  {
    assert sample[at..][..size] == sample[at..at + size];
  }

  /** The first NAL of left is n bytes long; the others are those of tail. */
  lemma NalsAfterOne(left: Bytes, size: nat, n: nat, tail: Bytes)
    requires size > 0 && |left| >= size + n && n == BigEndian(left[..size]) && tail == left[size + n..]
    ensures Nals(left, size) ==
            if Nals(tail, size).None? then None else Some([left[size..size + n]] + Nals(tail, size).value)
  {
  }

  lemma UnitsAfterOne(out: Bytes, nal: Bytes, rest: seq<Bytes>)
    ensures out + AnnexB(NonEmpty([nal] + rest)) ==
            (if nal == [] then out else out + START_CODE + nal) + AnnexB(NonEmpty(rest))
  {
    NonEmptyMore(nal, rest);
    if nal != [] {
      var tail := AnnexB(NonEmpty(rest));
      AnnexBMore(nal, NonEmpty(rest));
      Regroup(out, START_CODE + nal, tail);
      Regroup(out, START_CODE, nal);
    }
  }

  lemma NonEmptyMore(nal: Bytes, rest: seq<Bytes>)
    ensures NonEmpty([nal] + rest) == if nal == [] then NonEmpty(rest) else [nal] + NonEmpty(rest)
  {
    Tail(nal, rest);
    assert [] + NonEmpty(rest) == NonEmpty(rest);
  }

  /** Folds length bytes into a number. */
  method Fold(b: Bytes) returns (n: nat)
    ensures n == BigEndian(b)
  {
    n := 0;
    var i := 0;
    while i < |b|
      invariant i <= |b| && n == BigEndian(b[..i])
    {
      assert b[..i + 1][..i] == b[..i];
      n := n * 256 + b[i];
      i := i + 1;
    }
    assert b[..i] == b;
  }
}
