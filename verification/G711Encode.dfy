/** Encoding by nearest code: the lookup table built from a decode table, and what it does to byte strings. */
module G711Encode {
  import opened Bytes
  import opened Wrappers
  import opened G711

  // ---------------------------------------------------------------- what encoding means

  function Distance(x: int, y: int): nat {
    if x <= y then y - x else x - y
  }

  predicate IsNearest(table: Table, sample: int, code: byte) {
    forall other: byte :: Distance(table[code], sample) <= Distance(table[other], sample)
  }

  /**
   * The code a sample is encoded to: the nearest, the lower of two that are equally near, and of several
   * codes for one value the first when that value is not below the sample, else the last.
   */
  ghost predicate EncodesTo(table: Table, sample: int, code: byte) {
    && IsNearest(table, sample, code)
    && forall other: byte | Distance(table[other], sample) == Distance(table[code], sample) ::
         && table[code] <= table[other]
         && (table[other] == table[code] ==> if table[code] >= sample then code <= other else other <= code)
  }

  lemma EncodingIsUnique(table: Table, sample: int, c: byte, d: byte)
    requires EncodesTo(table, sample, c) && EncodesTo(table, sample, d)
    ensures c == d
  {
    assert Distance(table[c], sample) == Distance(table[d], sample);
  }

  // ---------------------------------------------------------------- codes by value

  /** The order of a stable sort of the codes by their values. */
  predicate Before(table: Table, c: byte, d: byte) {
    table[c] < table[d] || (table[c] == table[d] && c < d)
  }

  predicate InOrder(table: Table, codes: seq<byte>) {
    forall i, j :: 0 <= i < j < |codes| ==> Before(table, codes[i], codes[j])
  }

  /** A code put behind those it does not come before. */
  function Insert(table: Table, codes: seq<byte>, c: byte): (r: seq<byte>)
    requires InOrder(table, codes) && c !in codes
    ensures InOrder(table, r) && |r| == |codes| + 1
    ensures forall x :: x in r <==> x == c || x in codes
  {
    if codes == [] then [c]
    else if Before(table, c, codes[0]) then
      assert forall j :: 0 < j < |codes| ==> Before(table, codes[0], codes[j]);
      [c] + codes
    else
      assert codes[0] in codes;
      assert forall x :: x in codes <==> x == codes[0] || x in codes[1..];
      var rest := Insert(table, codes[1..], c);
      InsertKeepsOrder(table, codes, c, rest);
      [codes[0]] + rest
  }

  lemma InsertKeepsOrder(table: Table, codes: seq<byte>, c: byte, rest: seq<byte>)
    requires codes != [] && InOrder(table, codes) && codes[0] != c && !Before(table, c, codes[0])
    requires InOrder(table, rest) && forall x :: x in rest <==> x == c || x in codes[1..]
    ensures InOrder(table, [codes[0]] + rest)
  {
    forall j | 0 <= j < |rest| ensures Before(table, codes[0], rest[j]) {
      assert rest[j] in rest;
      if rest[j] != c {
        var k :| 0 <= k < |codes[1..]| && codes[1..][k] == rest[j];
        assert codes[k + 1] == rest[j];
      }
    }
  }

  /** `sorted(range(n), key=lambda code: table[code])`. */
  function SortedCodes(table: Table, n: nat): (codes: seq<byte>)
    requires n <= 256
    ensures InOrder(table, codes) && |codes| == n
    ensures forall x: byte :: x in codes <==> x < n
  {
    if n == 0 then [] else Insert(table, SortedCodes(table, n - 1), n - 1)
  }

  function Values(table: Table, codes: seq<byte>): (v: seq<int>)
    ensures |v| == |codes| && forall i :: 0 <= i < |v| ==> v[i] == table[codes[i]]
  {
    seq(|codes|, i requires 0 <= i < |codes| => table[codes[i]])
  }

  /** `bisect.bisect_left`. */
  method BisectLeft(values: seq<int>, x: int) returns (at: nat)
    requires forall i, j :: 0 <= i < j < |values| ==> values[i] <= values[j]
    ensures at <= |values|
    ensures forall i :: 0 <= i < at ==> values[i] < x
    ensures forall i :: at <= i < |values| ==> x <= values[i]
  {
    at := 0;
    var high := |values|;
    while at < high
      invariant at <= high <= |values|
      invariant forall i :: 0 <= i < at ==> values[i] < x
      invariant forall i :: high <= i < |values| ==> x <= values[i]
    {
      var mid := (at + high) / 2;
      if values[mid] < x {
        at := mid + 1;
      } else {
        high := mid;
      }
    }
  }

  ghost predicate Lists(table: Table, codes: seq<byte>) {
    |codes| == 256 && InOrder(table, codes) && forall x: byte :: x in codes
  }

  /** The first code whose value is not below the sample, if the one before it is not nearer. */
  lemma UpperIsNearest(table: Table, codes: seq<byte>, sample: int, at: nat)
    requires Lists(table, codes) && at < |codes|
    requires sample <= table[codes[at]]
    requires at > 0 ==> sample - table[codes[at - 1]] > table[codes[at]] - sample
    ensures EncodesTo(table, sample, codes[at])
  {
    forall other: byte
      ensures Distance(table[codes[at]], sample) <= Distance(table[other], sample)
      ensures Distance(table[other], sample) == Distance(table[codes[at]], sample) ==>
        table[codes[at]] == table[other] && codes[at] <= other
    {
      assert other in codes;
      var k :| 0 <= k < |codes| && codes[k] == other;
      if k < at {
        if k < at - 1 { assert Before(table, codes[k], codes[at - 1]); }
      } else if k > at {
        assert Before(table, codes[at], codes[k]);
      }
    }
  }

  /** The last code whose value is below the sample, if the one after it is no nearer. */
  lemma LowerIsNearest(table: Table, codes: seq<byte>, sample: int, at: nat)
    requires Lists(table, codes) && at < |codes|
    requires table[codes[at]] < sample
    requires at + 1 < |codes| ==> sample - table[codes[at]] <= table[codes[at + 1]] - sample
    ensures EncodesTo(table, sample, codes[at])
  {
    forall other: byte
      ensures Distance(table[codes[at]], sample) <= Distance(table[other], sample)
      ensures Distance(table[other], sample) == Distance(table[codes[at]], sample) ==>
        table[codes[at]] <= table[other] && (table[other] == table[codes[at]] ==> other <= codes[at])
    {
      assert other in codes;
      var k :| 0 <= k < |codes| && codes[k] == other;
      if k < at {
        assert Before(table, codes[k], codes[at]);
      } else if k > at + 1 {
        assert Before(table, codes[at + 1], codes[k]);
      }
    }
  }

  /** A lookup table, indexed by the sample's offset from -32768. */
  ghost predicate IsLut(table: Table, lut: seq<byte>) {
    |lut| == 0x1_0000 && forall i :: 0 <= i < 0x1_0000 ==> EncodesTo(table, i - 0x8000, lut[i])
  }

  method BuildEncodeLut(table: Table) returns (lut: seq<byte>)
    ensures IsLut(table, lut)
  {
    var codesByValue := SortedCodes(table, 256);
    var sortedValues := Values(table, codesByValue);
    assert Lists(table, codesByValue);
    hide Lists, EncodesTo, Before, InOrder, SortedCodes, Values;
    var codes := new byte[0x1_0000];
    for i := 0 to 0x1_0000
      invariant forall k :: 0 <= k < i ==> EncodesTo(table, k - 0x8000, codes[k])
    {
      var sample := i - 0x8000;
      var idx := BisectLeft(sortedValues, sample);
      var nearest: nat;
      if idx == 0 {
        nearest := 0;
        UpperIsNearest(table, codesByValue, sample, nearest);
      } else if idx == |sortedValues| {
        nearest := |sortedValues| - 1;
        LowerIsNearest(table, codesByValue, sample, nearest);
      } else if sample - sortedValues[idx - 1] <= sortedValues[idx] - sample {
        nearest := idx - 1;
        LowerIsNearest(table, codesByValue, sample, nearest);
      } else {
        nearest := idx;
        UpperIsNearest(table, codesByValue, sample, nearest);
      }
      codes[i] := codesByValue[nearest];
    }
    lut := codes[..];
  }

  // ---------------------------------------------------------------- laws of every lookup table

  /** A larger sample is never encoded to a smaller value. */
  lemma EncodingIsMonotone(table: Table, low: int, high: int, c: byte, d: byte)
    requires low <= high && EncodesTo(table, low, c) && EncodesTo(table, high, d)
    ensures table[c] <= table[d]
  {
    assert Distance(table[c], low) <= Distance(table[d], low);
    assert Distance(table[d], high) <= Distance(table[c], high);
  }

  /** A value of the table is encoded to a code for it: the first. */
  lemma ValueEncodesToFirst(table: Table, b: byte, c: byte)
    requires EncodesTo(table, table[b], c)
    ensures table[c] == table[b] && c <= b
  {
    assert Distance(table[c], table[b]) <= Distance(table[b], table[b]) == 0;
  }

  // ---------------------------------------------------------------- byte strings

  /** `array.tobytes()` of the samples the codes decode to, 16-bit signed little-endian. */
  function Decode(data: bytes, table: Table): (pcm: bytes)
    ensures |pcm| == 2 * |data|
  {
    if data == [] then [] else LE(table[data[0]] as int % 0x1_0000, 2) + Decode(data[1..], table)
  }

  /** The sample in two little-endian bytes. */
  function SampleAt(pcm: bytes): Sample
    requires |pcm| >= 2
  {
    var n := pcm[0] + 0x100 * pcm[1] as int;
    if n >= 0x8000 then n - 0x1_0000 else n
  }

  datatype CodecError = ValueError

  /** Each sample looked up; bytes that are not whole samples raise. */
  function Encode(pcm: bytes, lut: seq<byte>): Result<bytes, CodecError>
    requires |lut| == 0x1_0000
  {
    if |pcm| % 2 != 0 then Failure(ValueError) else Success(EncodeSamples(pcm, lut))
  }

  function EncodeSamples(pcm: bytes, lut: seq<byte>): (data: bytes)
    requires |lut| == 0x1_0000 && |pcm| % 2 == 0
    ensures 2 * |data| == |pcm|
  {
    if pcm == [] then [] else [lut[SampleAt(pcm) as int + 0x8000]] + EncodeSamples(pcm[2..], lut)
  }

  lemma SamplePacked(x: Sample, rest: bytes)
    ensures SampleAt(LE(x as int % 0x1_0000, 2) + rest) == x
  {
    var n := x as int % 0x1_0000;
    assert LE(n, 2) == [n % 0x100, n / 0x100 % 0x100];
  }

  /** The code that the value of `b` is encoded to. */
  function CodeBack(b: byte, table: Table, lut: seq<byte>): byte
    requires |lut| == 0x1_0000
  {
    lut[table[b] as int + 0x8000]
  }

  lemma CodeBackEncodes(b: byte, table: Table, lut: seq<byte>)
    requires IsLut(table, lut)
    ensures EncodesTo(table, table[b], CodeBack(b, table, lut))
  {
    hide EncodesTo;
    var i := table[b] as int + 0x8000;
    assert EncodesTo(table, i - 0x8000, lut[i]);
  }

  lemma EncodeDecoded(data: bytes, table: Table, lut: seq<byte>)
    requires |lut| == 0x1_0000 && data != []
    ensures EncodeSamples(Decode(data, table), lut)
            == [CodeBack(data[0], table, lut)] + EncodeSamples(Decode(data[1..], table), lut)
  {
    hide LE, SampleAt;
    var rest := Decode(data[1..], table);
    SamplePacked(table[data[0]], rest);
    assert Decode(data, table)[2..] == rest;
  }

  lemma {:induction false} SamplesAgain(data: bytes, table: Table, lut: seq<byte>)
    requires IsLut(table, lut)
    ensures Decode(EncodeSamples(Decode(data, table), lut), table) == Decode(data, table)
  {
    if data != [] {
      hide EncodesTo, LE, IsLut, EncodeSamples, CodeBack, Decode;
      var code, rest := CodeBack(data[0], table, lut), EncodeSamples(Decode(data[1..], table), lut);
      CodeBackEncodes(data[0], table, lut);
      ValueEncodesToFirst(table, data[0], code);
      EncodeDecoded(data, table, lut);
      SamplesAgain(data[1..], table, lut);
      assert data == [data[0]] + data[1..];
    }
  }

  /** Decoding, encoding and decoding again changes nothing, for every table and string. */
  lemma DecodeEncodeDecode(data: bytes, table: Table, lut: seq<byte>)
    requires IsLut(table, lut)
    ensures var again := Encode(Decode(data, table), lut);
            again.Success? && |again.value| == |data| && Decode(again.value, table) == Decode(data, table)
  {
    hide Decode, EncodeSamples;
    SamplesAgain(data, table, lut);
  }

  /** The code an encoded value comes back as: the first with that value. */
  predicate IsFirst(table: Table, b: byte) {
    forall c: byte :: table[c] == table[b] ==> b <= c
  }

  lemma {:induction false} SamplesExact(data: bytes, table: Table, lut: seq<byte>)
    requires IsLut(table, lut)
    ensures EncodeSamples(Decode(data, table), lut) == data
            <==> forall i :: 0 <= i < |data| ==> IsFirst(table, data[i])
  {
    hide EncodesTo, LE, IsFirst, CodeBack;
    if data != [] {
      hide IsLut, EncodeSamples, Decode;
      var code, rest := CodeBack(data[0], table, lut), EncodeSamples(Decode(data[1..], table), lut);
      CodeBackEncodes(data[0], table, lut);
      FirstIsKept(table, data[0], code);
      EncodeDecoded(data, table, lut);
      SamplesExact(data[1..], table, lut);
    }
  }

  /** Encoding undoes decoding exactly on the strings of codes that are the first for their value. */
  lemma EncodeDecodeExact(data: bytes, table: Table, lut: seq<byte>)
    requires IsLut(table, lut)
    ensures Encode(Decode(data, table), lut) == Success(data)
            <==> forall i :: 0 <= i < |data| ==> IsFirst(table, data[i])
  {
    hide Decode, EncodeSamples, IsFirst, EncodesTo;
    SamplesExact(data, table, lut);
  }

  lemma FirstIsKept(table: Table, b: byte, c: byte)
    requires EncodesTo(table, table[b], c)
    ensures c == b <==> IsFirst(table, b)
  {
    ValueEncodesToFirst(table, b, c);
    if c == b {
      forall d: byte | table[d] == table[b] ensures b <= d {
        assert Distance(table[d], table[b]) == Distance(table[c], table[b]);
      }
    }
  }

  // ---------------------------------------------------------------- the two laws

  /** A-law: encoding undoes decoding on every string. */
  lemma AlawRoundTrip(data: bytes, lut: seq<byte>)
    requires IsLut(AlawTable(), lut)
    ensures Encode(Decode(data, AlawTable()), lut) == Success(data)
  {
    hide IsLut;
    EncodeDecodeExact(data, AlawTable(), lut);
    forall b: byte ensures IsFirst(AlawTable(), b) {
      forall c: byte ensures AlawTable()[c] == AlawTable()[b] ==> b <= c { AlawIsInjective(c, b); }
    }
  }

  /** mu-law: encoding undoes decoding exactly on the strings without the second zero, 0xFF. */
  lemma UlawRoundTrip(data: bytes, lut: seq<byte>)
    requires IsLut(UlawTable(), lut)
    ensures Encode(Decode(data, UlawTable()), lut) == Success(data) <==> 0xFF !in data
  {
    hide IsLut, UlawDecode;
    EncodeDecodeExact(data, UlawTable(), lut);
    forall b: byte ensures IsFirst(UlawTable(), b) <==> b != 0xFF {
      forall c: byte ensures UlawTable()[c] == UlawTable()[b] <==> c == b || {c, b} == {0x7F, 0xFF} {
        UlawCollisions(c, b);
      }
      if b == 0xFF {
        assert {0x7F, b} == {0x7F, 0xFF};
        assert UlawTable()[0x7F] == UlawTable()[b];
      } else {
        forall c: byte | UlawTable()[c] == UlawTable()[b] ensures b <= c { SameZeros(c, b); }
      }
    }
  }

  // ---------------------------------------------------------------- known values

  lemma NoSmallerSample(a: byte)
    ensures AlawDecode(a) >= 8 || AlawDecode(a) <= -8
  {
    hide FlipEvenBits, AlawLevel, AlawDecode;
    AlawByLevel(a);
    var level := FlipEvenBits(a) % 128;
    LevelSteps(0);
    if level > 0 { LevelOrder(0, level); }
  }

  /** A sample half-way between two levels goes to the lower: A-law has no 0, and encodes it as -8. */
  lemma ZeroEncodesDown(code: byte)
    requires EncodesTo(AlawTable(), 0, code)
    ensures code == 0x55
  {
    hide AlawDecode;
    KnownSamples();
    var table, down: byte := AlawTable(), 0x55;
    NoSmallerSample(code);
    assert Distance(table[code], 0) <= Distance(table[down], 0) == 8;
    assert table[code] <= table[down];
    AlawIsInjective(code, down);
  }

  lemma SmallSamples()
    ensures LE(8, 2) == [8, 0] && LE(0xFFF8, 2) == [0xF8, 0xFF]
  {
  }

  /** Samples are little-endian and signed. */
  lemma KnownDecodings(table: Table)
    requires table[0xD5] == 8 && table[0x55] == -8
    ensures Decode([0xD5], table) == [8, 0] && Decode([0x55], table) == [0xF8, 0xFF]
  {
    SmallSamples();
    DecodeOne(0xD5, table);
    DecodeOne(0x55, table);
    hide LE, Decode;
    assert -8 % 0x1_0000 == 0xFFF8;
  }

  lemma AlawTableValues()
    ensures AlawTable()[0xD5] == 8 && AlawTable()[0x55] == -8
  {
    hide AlawDecode, AlawTable;
    KnownSamples();
    var loud: byte, quiet: byte := 0xD5, 0x55;
    assert AlawTable()[loud] == AlawDecode(loud) && AlawTable()[quiet] == AlawDecode(quiet);
  }

  lemma DecodeOne(code: byte, table: Table)
    ensures Decode([code], table) == LE(table[code] as int % 0x1_0000, 2)
  {
    hide LE;
    assert [code][1..] == [] && Decode([], table) == [];
  }

  lemma EncodeOne(pcm: bytes, lut: seq<byte>)
    requires |lut| == 0x1_0000 && |pcm| == 2
    ensures EncodeSamples(pcm, lut) == [lut[SampleAt(pcm) as int + 0x8000]]
  {
    assert pcm[2..] == [] && EncodeSamples([], lut) == [];
  }

  /** A sample of 0 as bytes; and bytes that are not whole samples, which are refused. */
  lemma KnownEncodings(lut: seq<byte>)
    requires IsLut(AlawTable(), lut)
    ensures Encode([0, 0], lut) == Success([0x55])
    ensures Encode([0], lut) == Failure(ValueError)
  {
    ZeroEncodesDown(lut[0x8000]);
    EncodeOne([0, 0], lut);
    hide IsLut, EncodeSamples;
  }
}
