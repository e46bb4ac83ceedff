/** Numbers as big-endian bytes. */
module BigEndian {
  import opened Common

  type bytes = seq<byte>

  /** n in big-endian order, in k bytes. */
  function BE(n: nat, k: nat): (s: bytes)
    ensures |s| == k
  {
    if k == 0 then [] else BE(n / 0x100, k - 1) + [n % 0x100]
  }

  function FromBE(s: bytes): nat {
    if s == [] then 0 else FromBE(s[..|s| - 1]) * 0x100 + s[|s| - 1]
  }

  function Pow256(k: nat): (p: nat)
    ensures p > 0
  {
    if k == 0 then 1 else 0x100 * Pow256(k - 1)
  }

  lemma {:induction false} FromBEBound(s: bytes)
    ensures FromBE(s) < Pow256(|s|)
  {
    if s != [] {
      FromBEBound(s[..|s| - 1]);
    }
  }

  lemma {:induction false} FromToBE(n: nat, k: nat)
    requires n < Pow256(k)
    ensures FromBE(BE(n, k)) == n
  {
    if k > 0 {
      FromToBE(n / 0x100, k - 1);
      assert BE(n, k)[..k - 1] == BE(n / 0x100, k - 1);
    }
  }

  lemma {:induction false} ToFromBE(s: bytes)
    ensures BE(FromBE(s), |s|) == s
  {
    if s != [] {
      ToFromBE(s[..|s| - 1]);
      assert s == s[..|s| - 1] + [s[|s| - 1]];
    }
  }

  /** The first byte counts most. */
  lemma Literals(a: byte, b: byte, c: byte, d: byte)
    ensures FromBE([a, b]) == a * 0x100 + b
    ensures FromBE([a, b, c, d]) == a * 0x100_0000 + b * 0x1_0000 + c * 0x100 + d
    ensures BE(0x0102, 2) == [1, 2] && BE(0x01020304, 4) == [1, 2, 3, 4]
  {
    assert [a, b][..1] == [a] && [a][..0] == [];
    assert FromBE([a]) == a;
    assert [a, b, c, d][..3] == [a, b, c] && [a, b, c][..2] == [a, b];
    assert BE(0x010203, 3) == [1, 2, 3] by {
      assert BE(1, 1) == [1] && BE(0x0102, 2) == [1, 2];
    }
  }

  lemma {:induction false} FromBEConcat(a: bytes, b: bytes)
    ensures FromBE(a + b) == FromBE(a) * Pow256(|b|) + FromBE(b)
  {
    if b == [] {
      assert a + b == a;
    } else {
      var front := b[..|b| - 1];
      FromBEConcat(a, front);
      assert (a + b)[..|a + b| - 1] == a + front;
      assert FromBE(a) * Pow256(|front|) * 0x100 == FromBE(a) * Pow256(|b|);
    }
  }

  lemma AddWord(a: bytes, word: bytes)
    requires |word| == 4
    ensures FromBE(a + word) == FromBE(a) * 0x1_0000_0000 + FromBE(word)
  {
    FromBEConcat(a, word);
    Widths();
  }

  /** Four 32-bit words, the first counting most. */
  lemma FourWords(a: bytes, b: bytes, c: bytes, d: bytes)
    requires |a| == |b| == |c| == |d| == 4
    ensures FromBE(a + b + c + d) ==
            ((FromBE(a) * 0x1_0000_0000 + FromBE(b)) * 0x1_0000_0000 + FromBE(c)) * 0x1_0000_0000 + FromBE(d)
  {
    AddWord(a, b);
    AddWord(a + b, c);
    AddWord(a + b + c, d);
  }

  /** The parts of a concatenation. */
  lemma Parts(a: bytes, b: bytes, c: bytes, d: bytes)
    ensures var s := a + b + c + d;
            && s[0..|a|] == a && s[|a|..|a| + |b|] == b
            && s[|a| + |b|..|a| + |b| + |c|] == c && s[|a| + |b| + |c|..|s|] == d
  {
  }

  lemma Widths()
    ensures Pow256(2) == 0x1_0000 && Pow256(4) == 0x1_0000_0000
    ensures Pow256(16) == 0x1_0000_0000_0000_0000_0000_0000_0000_0000
  {
  }

  /** Writes n in big-endian order into k bytes of the buffer. */
  method PutBE(data: array<byte>, at: nat, n: nat, k: nat)
    requires at + k <= data.Length
    modifies data
    ensures data[at..at + k] == BE(n, k)
    ensures data[..at] == old(data[..at]) && data[at + k..] == old(data[at + k..])
  {
    if k > 0 {
      PutBE(data, at, n / 0x100, k - 1);
      data[at + k - 1] := n % 0x100;
      assert data[at..at + k - 1] == BE(n / 0x100, k - 1);
    }
  }

  /** Writes s into the buffer from the given position. */
  method CopyTo(data: array<byte>, at: nat, s: bytes)
    requires at + |s| <= data.Length
    modifies data
    ensures data[at..at + |s|] == s
    ensures data[..at] == old(data[..at]) && data[at + |s|..] == old(data[at + |s|..])
  {
    for i := 0 to |s|
      invariant forall j :: 0 <= j < i ==> data[at + j] == s[j]
      invariant forall j :: 0 <= j < at || at + i <= j < data.Length ==> data[j] == old(data[j])
    {
      data[at + i] := s[i];
    }
  }
}
