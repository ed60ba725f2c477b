/** Bytes, the host's little-endian words and the four-byte alignment of netlink messages. */
module Bytes {

  type byte = x: int | 0 <= x < 256

  /** NLMSG_ALIGN */
  function Align4(n: nat): nat {
    (n + 3) / 4 * 4
  }

  lemma AlignFacts(n: nat)
    ensures n <= Align4(n) < n + 4 && Align4(n) % 4 == 0
    ensures n % 4 == 0 ==> Align4(n) == n
    ensures Align4(Align4(n)) == Align4(n)
  {
  }

  lemma AlignSum(m: nat, n: nat)
    requires m % 4 == 0
    ensures Align4(m + n) == m + Align4(n)
  {
  }

  function Zeros(n: nat): (s: seq<byte>)
    ensures |s| == n
  {
    seq(n, i => 0)
  }

  function U16(s: seq<byte>): (n: nat)
    requires |s| >= 2
    ensures n < 0x1_0000
  {
    s[0] as int + 0x100 * s[1] as int
  }

  function U32(s: seq<byte>): (n: nat)
    requires |s| >= 4
    ensures n < 0x1_0000_0000
  {
    U16(s) + 0x1_0000 * U16(s[2..])
  }

  /** Only the first four bytes matter. */
  lemma U32Prefix(s: seq<byte>, t: seq<byte>)
    requires |s| >= 4 && |t| >= 4 && s[..4] == t[..4]
    ensures U32(s) == U32(t)
  {
    forall k | 0 <= k < 4 ensures s[k] == t[k] {
      assert s[..4][k] == t[..4][k];
    }
  }

  lemma U16Prefix(s: seq<byte>, t: seq<byte>)
    requires |s| >= 2 && |t| >= 2 && s[..2] == t[..2]
    ensures U16(s) == U16(t)
  {
    forall k | 0 <= k < 2 ensures s[k] == t[k] {
      assert s[..2][k] == t[..2][k];
    }
  }

  /** The same word read as a signed number. */
  function S32(s: seq<byte>): int
    requires |s| >= 4
  {
    if U32(s) < 0x8000_0000 then U32(s) else U32(s) - 0x1_0000_0000
  }

  /** Storing a number in two or four bytes keeps its low bits. */
  function Le16(n: nat): (s: seq<byte>)
    ensures |s| == 2 && U16(s) == n % 0x1_0000
  {
    [n % 0x100, n / 0x100 % 0x100]
  }

  lemma LowHalves(n: nat)
    ensures n % 0x1_0000 + 0x1_0000 * (n / 0x1_0000 % 0x1_0000) == n % 0x1_0000_0000
  {
    var h := n / 0x1_0000;
    var q := h / 0x1_0000;
    var r := n % 0x1_0000 + 0x1_0000 * (h % 0x1_0000);
    assert n == 0x1_0000_0000 * q + r;
    assert 0 <= r < 0x1_0000_0000;
  }

  function Le32(n: nat): (s: seq<byte>)
    ensures |s| == 4 && U32(s) == n % 0x1_0000_0000
  {
    LowHalves(n);
    var s := Le16(n) + Le16(n / 0x1_0000);
    assert s[..2] == Le16(n) && s[2..] == Le16(n / 0x1_0000);
    s
  }

  /** A signed number in two's complement reads back as itself. */
  lemma SignedWord(n: int)
    requires -0x8000_0000 <= n < 0x8000_0000
    ensures S32(Le32(n % 0x1_0000_0000)) == n
  {
    hide Le32, U32;
    assert n % 0x1_0000_0000 == if n >= 0 then n else n + 0x1_0000_0000;
  }

  /** `n` bytes from position `k` on; bytes after the end read as zero. */
  function Window(s: seq<byte>, k: nat, n: nat): (w: seq<byte>)
    ensures |w| == n
    ensures k + n <= |s| ==> w == s[k..k + n]
  {
    seq(n, i requires 0 <= i < n => if k + i < |s| then s[k + i] else 0)
  }
}
