/** The Internet checksum of RFC 1071, as `_checksum16` in src/rtpkit/io/encap.py computes it. */
module Checksum {
  import opened Bytes

  /** The sum of the data's 16-bit words, an odd last byte being the high half of a word. */
  function WordSum(data: bytes): nat {
    if |data| == 0 then 0
    else if |data| == 1 then 0x100 * data[0]
    else 0x100 * data[0] + data[1] + WordSum(data[2..])
  }

  /** A sum in 16-bit one's-complement arithmetic: its class modulo 65535, with 0 only for 0 itself. */
  function OnesSum(total: nat): (s: nat)
    ensures s <= 0xFFFF
    ensures s % 0xFFFF == total % 0xFFFF
  {
    if total == 0 then 0 else (total - 1) % 0xFFFF + 1
  }

  function Checksum16Of(data: bytes): (c: nat)
    ensures c <= 0xFFFF
  {
    0xFFFF - OnesSum(WordSum(data))
  }

  lemma {:induction false} WordSumConcat(a: bytes, b: bytes)
    requires |a| % 2 == 0
    ensures WordSum(a + b) == WordSum(a) + WordSum(b)
  {
    if a == [] {
      assert a + b == b;
    } else {
      assert (a + b)[2..] == a[2..] + b;
      WordSumConcat(a[2..], b);
    }
  }

  lemma WordSumOfField(n: nat)
    requires Fits16(n)
    ensures WordSum(BE(n, 2)) == n
  {
    Widths();
    UnpackPackBE(n, 2);
    var s := BE(n, 2);
    assert s[..1] == [s[0]];
    assert UnBE(s[..1]) == s[0] by { assert UnBE([]) == 0; assert s[..1][..0] == []; }
    assert WordSum(s[2..]) == 0;
  }

  lemma WordSumPadded(data: bytes)
    requires |data| % 2 == 1
    ensures WordSum(data + [0]) == WordSum(data)
  {
    var n := |data| - 1;
    assert data == data[..n] + [data[n]];
    assert data + [0] == data[..n] + [data[n], 0];
    WordSumConcat(data[..n], [data[n]]);
    WordSumConcat(data[..n], [data[n], 0]);
    assert WordSum([data[n], 0][2..]) == 0;
  }

  /** Folding the carries back in does not change the one's-complement sum. */
  lemma FoldKeepsOnesSum(total: nat)
    requires total >= 0x1_0000
    ensures var folded := total % 0x1_0000 + total / 0x1_0000;
            0 < folded < total && OnesSum(folded) == OnesSum(total)
  {
    var high := total / 0x1_0000;
    var folded := total % 0x1_0000 + high;
    assert total - 1 == (folded - 1) + 0xFFFF * high;
    ModPlusMultiple(folded - 1, high);
  }

  lemma {:induction false} ModPlusMultiple(n: nat, k: nat)
    ensures (n + 0xFFFF * k) % 0xFFFF == n % 0xFFFF
    decreases k
  {
    if k > 0 {
      ModPlusMultiple(n, k - 1);
      assert n + 0xFFFF * k == (n + 0xFFFF * (k - 1)) + 0xFFFF;
    }
  }

  lemma WordSumStep(data: bytes, i: nat)
    requires i + 1 < |data|
    ensures WordSum(data[i..]) == 0x100 * data[i] as int + data[i + 1] + WordSum(data[i + 2..])
  {
    assert data[i..][2..] == data[i + 2..];
  }

  lemma WordSumEnd(data: bytes)
    ensures WordSum(data[|data|..]) == 0
  {
  }

  lemma OnesSumOfWord(word: nat)
    requires word < 0x1_0000
    ensures OnesSum(word) == word
  {
  }

  method Checksum16(data: bytes) returns (checksum: nat)
    ensures checksum == Checksum16Of(data)
  {
    hide WordSum, OnesSum;
    var padded := data;
    if |data| % 2 != 0 {
      padded := data + [0];
      WordSumPadded(data);
    }
    var total: nat, i: nat := 0, 0;
    assert padded[0..] == padded;
    WordSumEnd(padded);
    while i < |padded|
      invariant i <= |padded| && i % 2 == 0
      invariant total + WordSum(padded[i..]) == WordSum(data)
    {
      WordSumStep(padded, i);
      total := total + 0x100 * (padded[i] as int) + padded[i + 1];
      i := i + 2;
    }
    while total / 0x1_0000 != 0
      invariant OnesSum(total) == OnesSum(WordSum(data))
      decreases total
    {
      FoldKeepsOnesSum(total);
      total := total % 0x1_0000 + total / 0x1_0000;
    }
    OnesSumOfWord(total);
    checksum := 0xFFFF - total;
  }

  /**
   * A checksum put into a zeroed field makes the whole sum to 0xFFFF; so does 0xFFFF where the checksum
   * computed was 0.
   */
  lemma ChecksumVerifies(total: nat)
    ensures OnesSum(total + (0xFFFF - OnesSum(total))) == 0xFFFF
    ensures OnesSum(total) == 0xFFFF ==> OnesSum(total + 0xFFFF) == 0xFFFF
  {
    if total > 0 {
      var q := (total - 1) / 0xFFFF;
      var c := 0xFFFF - OnesSum(total);
      assert total == 0xFFFF * q + OnesSum(total);
      assert total + c - 1 == 0xFFFE + 0xFFFF * q;
      ModPlusMultiple(0xFFFE, q);
      ModPlusMultiple(total - 1, 1);
    }
  }
}
