/** Bytes, and the `struct` module's fixed-width unsigned integers in both byte orders. */
module Bytes {

  type byte = x: int | 0 <= x < 256

  type bytes = seq<byte>

  type u16 = n: int | 0 <= n < 0x1_0000

  type u32 = n: int | 0 <= n < 0x1_0000_0000

  datatype Order = Big | Little

  /** 256 to the power `w`: how many values fit in `w` bytes. */
  function Pow256(w: nat): (p: nat)
    ensures p > 0
  {
    if w == 0 then 1 else 256 * Pow256(w - 1)
  }

  /** `n` as `w` bytes, most significant first. */
  function BE(n: nat, w: nat): (s: bytes)
    ensures |s| == w
  {
    if w == 0 then [] else BE(n / 256, w - 1) + [n % 256]
  }

  function UnBE(s: bytes): (n: nat)
    ensures n < Pow256(|s|)
  {
    if s == [] then 0 else 256 * UnBE(s[..|s| - 1]) + s[|s| - 1]
  }

  /** `n` as `w` bytes, least significant first. */
  function LE(n: nat, w: nat): (s: bytes)
    ensures |s| == w
  {
    if w == 0 then [] else [n % 256] + LE(n / 256, w - 1)
  }

  function UnLE(s: bytes): (n: nat)
    ensures n < Pow256(|s|)
  {
    if s == [] then 0 else s[0] + 256 * UnLE(s[1..])
  }

  lemma {:induction false} UnpackPackBE(n: nat, w: nat)
    requires n < Pow256(w)
    ensures UnBE(BE(n, w)) == n
  {
    if w > 0 {
      var s := BE(n, w);
      assert s[..w - 1] == BE(n / 256, w - 1);
      UnpackPackBE(n / 256, w - 1);
    }
  }

  lemma {:induction false} PackUnpackBE(s: bytes)
    ensures BE(UnBE(s), |s|) == s
  {
    if s != [] {
      PackUnpackBE(s[..|s| - 1]);
      assert UnBE(s) / 256 == UnBE(s[..|s| - 1]);
      assert s == s[..|s| - 1] + [s[|s| - 1]];
    }
  }

  lemma {:induction false} UnpackPackLE(n: nat, w: nat)
    requires n < Pow256(w)
    ensures UnLE(LE(n, w)) == n
  {
    if w > 0 {
      assert LE(n, w)[1..] == LE(n / 256, w - 1);
      UnpackPackLE(n / 256, w - 1);
    }
  }

  lemma {:induction false} PackUnpackLE(s: bytes)
    ensures LE(UnLE(s), |s|) == s
  {
    if s != [] {
      PackUnpackLE(s[1..]);
      assert UnLE(s) / 256 == UnLE(s[1..]);
    }
  }

  predicate Fits16(n: int) { 0 <= n < 0x1_0000 }

  predicate Fits32(n: int) { 0 <= n < 0x1_0000_0000 }

  lemma Widths()
    ensures Pow256(1) == 0x100
    ensures Pow256(2) == 0x1_0000
    ensures Pow256(4) == 0x1_0000_0000
    ensures Pow256(8) == 0x1_0000_0000_0000_0000
  {
    assert Pow256(3) == 0x100_0000;
    assert Pow256(5) == 0x100_0000_0000;
    assert Pow256(6) == 0x1_0000_0000_0000;
    assert Pow256(7) == 0x100_0000_0000_0000;
  }

  /** Big-endian fields of a buffer. */
  function U16(s: bytes, at: nat): (n: nat)
    requires at + 2 <= |s|
    ensures Fits16(n)
  {
    Widths();
    UnBE(s[at..at + 2])
  }

  function U32(s: bytes, at: nat): (n: nat)
    requires at + 4 <= |s|
    ensures Fits32(n)
  {
    Widths();
    UnBE(s[at..at + 4])
  }

  /** `b"\x00" * n`. */
  function Zeros(n: nat): (s: bytes)
    ensures |s| == n
    ensures forall i :: 0 <= i < n ==> s[i] == 0
  {
    seq(n, _ => 0)
  }

  /** `(-n) % m`: how many bytes bring `n` up to a multiple of 4. */
  function Pad4(n: nat): (p: nat)
    ensures p < 4 && (n + p) % 4 == 0
  {
    (0 - n) % 4
  }

  /** `struct.pack("!{n}I", *ns)` for values known to fit. */
  function Words(ns: seq<nat>): (s: bytes)
    ensures |s| == 4 * |ns|
  {
    if ns == [] then [] else BE(ns[0], 4) + Words(ns[1..])
  }

  /** `struct.unpack_from("!{k}I", s)`. */
  function UnWords(s: bytes, k: nat): (ns: seq<nat>)
    requires 4 * k <= |s|
    ensures |ns| == k
    ensures forall i :: 0 <= i < k ==> Fits32(ns[i])
    decreases k
  {
    if k == 0 then [] else [U32(s, 0)] + UnWords(s[4..], k - 1)
  }

  lemma {:induction false} UnpackPackWords(ns: seq<nat>, rest: bytes)
    requires forall i :: 0 <= i < |ns| ==> Fits32(ns[i])
    ensures UnWords(Words(ns) + rest, |ns|) == ns
  {
    if ns != [] {
      var s := Words(ns) + rest;
      Widths();
      UnpackPackBE(ns[0], 4);
      assert s[0..4] == BE(ns[0], 4);
      assert s[4..] == Words(ns[1..]) + rest;
      UnpackPackWords(ns[1..], rest);
    }
  }

  lemma {:induction false} PackUnpackWords(s: bytes, k: nat)
    requires 4 * k <= |s|
    ensures Words(UnWords(s, k)) == s[..4 * k]
    decreases k
  {
    if k > 0 {
      PackUnpackBE(s[0..4]);
      PackUnpackWords(s[4..], k - 1);
      assert UnWords(s, k)[1..] == UnWords(s[4..], k - 1);
      assert s[..4 * k] == s[0..4] + s[4..][..4 * (k - 1)];
    }
  }

  /** A slice of a prefix is a slice. */
  lemma SliceOfPrefix(s: bytes, n: nat, i: nat, j: nat)
    requires i <= j <= n <= |s|
    ensures s[..n][i..j] == s[i..j]
  {
  }

  /** The `i`th packed word is found at its place, whatever follows. */
  lemma {:induction false} WordAt(ns: seq<nat>, rest: bytes, i: nat)
    requires i < |ns| && Fits32(ns[i])
    ensures U32(Words(ns) + rest, 4 * i) == ns[i]
  {
    var s := Words(ns) + rest;
    if i == 0 {
      Widths();
      UnpackPackBE(ns[0], 4);
      assert s[0..4] == BE(ns[0], 4);
    } else {
      WordAt(ns[1..], rest, i - 1);
      assert s[4..] == Words(ns[1..]) + rest;
      assert s[4 * i..4 * i + 4] == s[4..][4 * (i - 1)..4 * (i - 1) + 4];
    }
  }
}
