/** Captured packets (src/rtpkit/model/pcap.py), their timestamps, and integers in a file's byte order. */
module Capture {
  import opened Bytes
  import opened Wrappers

  /** A float timestamp is taken as the exact real it stands for. */
  datatype PcapPacket = PcapPacket(
    timestamp: real, capturedLength: int, originalLength: int, linkType: int, data: bytes)

  /** `StructError` is the bare error of the `struct` module, which the writers let escape. */
  datatype CaptureError =
    | BufferTooShort
    | InvalidMagic
    | InvalidByteOrderMagic
    | MalformedBlock
    | TruncatedRecord
    | WriteError
    | StructError

  /** The field of `w` bytes at `at`, in byte order `order`. */
  function Field(order: Order, s: bytes, at: nat, w: nat): (n: nat)
    requires at + w <= |s|
    ensures n < Pow256(w)
  {
    if order.Big? then UnBE(s[at..at + w]) else UnLE(s[at..at + w])
  }

  /** `n` as `w` bytes in byte order `order`. */
  function Pack(order: Order, n: nat, w: nat): (s: bytes)
    ensures |s| == w
  {
    if order.Big? then BE(n, w) else LE(n, w)
  }

  /** A packed field is read back in its byte order, wherever it stands. */
  lemma FieldOfPack(order: Order, s: bytes, at: nat, w: nat, n: nat)
    requires at + w <= |s| && n < Pow256(w) && s[at..at + w] == Pack(order, n, w)
    ensures Field(order, s, at, w) == n
  {
    hide BE, LE, UnBE, UnLE;
    if order.Big? { UnpackPackBE(n, w); } else { UnpackPackLE(n, w); }
  }

  /** And a field read is packed to the bytes it came from. */
  lemma PackOfField(order: Order, s: bytes, at: nat, w: nat)
    requires at + w <= |s|
    ensures Pack(order, Field(order, s, at, w), w) == s[at..at + w]
  {
    hide BE, LE, UnBE, UnLE;
    if order.Big? { PackUnpackBE(s[at..at + w]); } else { PackUnpackLE(s[at..at + w]); }
  }

  /** The same of a word. */
  lemma WordOfPack(order: Order, s: bytes, at: nat, n: nat)
    requires at + 4 <= |s| && n < 0x1_0000_0000 && s[at..at + 4] == Pack(order, n, 4)
    ensures Field(order, s, at, 4) == n
  {
    Widths();
    FieldOfPack(order, s, at, 4, n);
  }

  lemma PackOfWord(order: Order, s: bytes, at: nat)
    requires at + 4 <= |s|
    ensures Field(order, s, at, 4) < 0x1_0000_0000 && Pack(order, Field(order, s, at, 4), 4) == s[at..at + 4]
  {
    Widths();
    PackOfField(order, s, at, 4);
  }

  lemma FieldPacked(s: bytes, at: nat, w: nat, n: nat)
    requires at + w <= |s| && n < Pow256(w) && s[at..at + w] == LE(n, w)
    ensures Field(Little, s, at, w) == n
  {
    FieldOfPack(Little, s, at, w, n);
  }

  /** `struct.pack("<{n}I", *ns)` for values known to fit. */
  function WordsLE(ns: seq<nat>): (s: bytes)
    ensures |s| == 4 * |ns|
  {
    if ns == [] then [] else LE(ns[0], 4) + WordsLE(ns[1..])
  }

  /** The `i`th packed word is found at its place, whatever follows. */
  lemma {:induction false} WordAtLE(ns: seq<nat>, rest: bytes, i: nat)
    requires i < |ns| && Fits32(ns[i])
    ensures Field(Little, WordsLE(ns) + rest, 4 * i, 4) == ns[i]
  {
    hide LE, UnLE, UnBE;
    var s := WordsLE(ns) + rest;
    if i == 0 {
      Widths();
      assert s[0..4] == LE(ns[0], 4);
      FieldPacked(s, 0, 4, ns[0]);
    } else {
      WordAtLE(ns[1..], rest, i - 1);
      assert s[4..] == WordsLE(ns[1..]) + rest;
      assert s[4 * i..4 * i + 4] == s[4..][4 * (i - 1)..4 * (i - 1) + 4];
    }
  }

  /** `round(x)`: to the nearest integer, halves to the even one. */
  function Round(x: real): (n: int)
    ensures -0.5 <= x - n as real <= 0.5
    ensures x - n as real == 0.5 || x - n as real == -0.5 ==> n % 2 == 0
  {
    var low := x.Floor;
    var part := x - low as real;
    if part < 0.5 || (part == 0.5 && low % 2 == 0) then low else low + 1
  }

  /** Shifting by an even integer commutes with rounding; by an odd one it need not. */
  lemma RoundShift(x: real, n: int)
    requires n % 2 == 0
    ensures Round(x + n as real) == Round(x) + n
  {
    assert (x + n as real).Floor == x.Floor + n;
  }

  lemma RoundOfInteger(n: int)
    ensures Round(n as real) == n
  {
  }

  /** `int(x)`: towards zero. */
  function Truncate(x: real): int {
    if x >= 0.0 then x.Floor else -((-x).Floor)
  }
}
