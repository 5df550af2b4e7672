/** Little-endian numbers in byte sequences. */
module Bytes {
  type byte = b: nat | b < 256

  function Pow256(n: nat): (r: nat) { if n == 0 then 1 else 256 * Pow256(n - 1) }

  /** The n-byte number at offset `at`. */
  function Read(s: seq<byte>, at: nat, n: nat): (v: nat)
    requires at + n <= |s|
    ensures v < Pow256(n)
    decreases n
  {
    if n == 0 then 0 else s[at] + 256 * Read(s, at + 1, n - 1)
  }

  /** The low n bytes of a number. */
  function Write(v: nat, n: nat): (s: seq<byte>)
    ensures |s| == n
  {
    if n == 0 then [] else [v % 256] + Write(v / 256, n - 1)
  }

  /** Reading depends on the bytes read only. */
  lemma {:induction false} ReadSame(s: seq<byte>, at: nat, t: seq<byte>, at2: nat, n: nat)
    requires at + n <= |s| && at2 + n <= |t| && s[at..at + n] == t[at2..at2 + n]
    ensures Read(s, at, n) == Read(t, at2, n)
    decreases n
  {
    if n > 0 {
      assert s[at] == s[at..at + n][0] && t[at2] == t[at2..at2 + n][0];
      assert s[at + 1..at + n] == s[at..at + n][1..] && t[at2 + 1..at2 + n] == t[at2..at2 + n][1..];
      ReadSame(s, at + 1, t, at2 + 1, n - 1);
    }
  }

  /** ... and determines them. */
  lemma {:induction false} ReadInjective(s: seq<byte>, at: nat, t: seq<byte>, at2: nat, n: nat)
    requires at + n <= |s| && at2 + n <= |t| && Read(s, at, n) == Read(t, at2, n)
    ensures s[at..at + n] == t[at2..at2 + n]
    decreases n
  {
    if n > 0 {
      ReadInjective(s, at + 1, t, at2 + 1, n - 1);
      assert s[at..at + n] == [s[at]] + s[at + 1..at + n];
      assert t[at2..at2 + n] == [t[at2]] + t[at2 + 1..at2 + n];
    }
  }

  lemma {:induction false} ReadWritten(v: nat, n: nat)
    requires v < Pow256(n)
    ensures Read(Write(v, n), 0, n) == v
  {
    if n > 0 {
      ReadWritten(v / 256, n - 1);
      assert Write(v, n)[1..n] == Write(v / 256, n - 1)[0..n - 1];
      ReadSame(Write(v, n), 1, Write(v / 256, n - 1), 0, n - 1);
    }
  }

  /** A number written in the middle of a sequence is read back. */
  lemma ReadAppended(before: seq<byte>, v: nat, n: nat, after: seq<byte>)
    requires v < Pow256(n)
    ensures Read(before + Write(v, n) + after, |before|, n) == v
  {
    ReadWritten(v, n);
    assert (before + Write(v, n) + after)[|before|..|before| + n] == Write(v, n)[0..n];
    ReadSame(before + Write(v, n) + after, |before|, Write(v, n), 0, n);
  }

  lemma Powers()
    ensures Pow256(1) == 0x100 && Pow256(2) == 0x1_0000 && Pow256(4) == 0x1_0000_0000
    ensures Pow256(8) == 0x1_0000_0000_0000_0000
  {
    assert Pow256(3) == 0x100_0000;
    assert Pow256(4) == 0x1_0000_0000;
    assert Pow256(6) == 0x1_0000_0000_0000;
    assert Pow256(7) == 0x100_0000_0000_0000;
  }

  /** The bytes of `part` stand at offset `pos`. */
  predicate At(img: seq<byte>, pos: nat, part: seq<byte>) {
    pos + |part| <= |img| && img[pos..pos + |part|] == part
  }

  lemma AtParts(img: seq<byte>, pos: nat, a: seq<byte>, b: seq<byte>)
    ensures At(img, pos, a + b) <==> At(img, pos, a) && At(img, pos + |a|, b)
  {
    if pos + |a| + |b| <= |img| {
      var whole := img[pos..pos + |a + b|];
      assert whole == img[pos..pos + |a|] + img[pos + |a|..pos + |a| + |b|];
      assert (a + b)[..|a|] == a && (a + b)[|a|..] == b;
      assert whole[..|a|] == img[pos..pos + |a|] && whole[|a|..] == img[pos + |a|..pos + |a| + |b|];
    }
  }

  lemma AtNumber(img: seq<byte>, pos: nat, v: nat, n: nat)
    requires At(img, pos, Write(v, n)) && v < Pow256(n)
    ensures Read(img, pos, n) == v
  {
    ReadWritten(v, n);
    ReadSame(img, pos, Write(v, n), 0, n);
  }
}
