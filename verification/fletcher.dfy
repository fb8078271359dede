/**
 The 16-bit Fletcher checksum the client reports for a map block
 (`UltimaLive.Fletcher16`).

 Two running sums, each reduced modulo 255 after every byte, are folded into
 one 16-bit word: high byte the second sum, low byte the first. Because both
 sums stay below 255 the result can never be 0xFFFF, which is what lets the
 checksum cache use 0xFFFF as its "not computed" marker.
 */
module Fletcher {
  import opened Base

  /** A value of one running sum: always reduced modulo 255. */
  type Residue = x: int | 0 <= x < 255

  /** The running sums `(sum1, sum2)` after the loop has consumed all of `data`. */
  function Sums(data: seq<byte>): (Residue, Residue)
    decreases |data|
  {
    if |data| == 0 then (0, 0)
    else
      var prev := Sums(data[..|data| - 1]);
      var s1 := (prev.0 + data[|data| - 1]) % 255;
      (s1, (prev.1 + s1) % 255)
  }

  /**
   `(sum2 << 8) | sum1`. The low eight bits of `sum2 << 8` are zero and
   `sum1 < 256`, so the bitwise or is an addition.
   */
  function Fold(sum1: Residue, sum2: Residue): u16 {
    sum2 * 0x100 + sum1
  }

  /** The checksum of `data`. */
  function Fletcher16(data: seq<byte>): (r: u16)
    ensures r != 0xFFFF
    ensures r / 0x100 < 255 && r % 0x100 < 255
    ensures |data| == 0 ==> r == 0
  {
    var (s1, s2) := Sums(data);
    FoldBytes(s1, s2);
    Fold(s1, s2)
  }

  /** The source's loop: one pass over the bytes, both sums kept reduced. */
  method ComputeFletcher16(data: seq<byte>) returns (crc: u16)
    ensures crc == Fletcher16(data)
    ensures crc != 0xFFFF
  {
    var sum1: Residue := 0;
    var sum2: Residue := 0;
    var index := 0;
    while index < |data|
      invariant 0 <= index <= |data|
      invariant (sum1, sum2) == Sums(data[..index])
    {
      assert data[..index + 1][..index] == data[..index];
      sum1 := (sum1 + data[index]) % 255;
      sum2 := (sum2 + sum1) % 255;
      index := index + 1;
    }
    assert data[..index] == data;
    crc := Fold(sum1, sum2);
  }

  // ---------------------------------------------------------------------------
  // Closed form: an independent description of the two sums
  // ---------------------------------------------------------------------------

  /** Plain sum of the bytes. */
  function Total(data: seq<byte>): nat
    decreases |data|
  {
    if |data| == 0 then 0 else Total(data[..|data| - 1]) + data[|data| - 1]
  }

  /** Sum of the totals of every non-empty prefix of `data`. */
  function PrefixTotals(data: seq<byte>): nat
    decreases |data|
  {
    if |data| == 0 then 0 else PrefixTotals(data[..|data| - 1]) + Total(data)
  }

  lemma ModAddLeft(a: int, x: int)
    ensures (a % 255 + x) % 255 == (a + x) % 255
  {
  }

  /**
   The first sum is the byte total modulo 255 and the second is the sum of the
   prefix totals modulo 255: the loop's reductions never change the residues.
   */
  lemma {:induction false} SumsClosedForm(data: seq<byte>)
    ensures Sums(data).0 == Total(data) % 255
    ensures Sums(data).1 == PrefixTotals(data) % 255
    decreases |data|
  {
    if |data| > 0 {
      var init := data[..|data| - 1];
      SumsClosedForm(init);
      ModAddLeft(Total(init), data[|data| - 1]);
      ModAddLeft(PrefixTotals(init), Sums(data).0);
      ModAddLeft(Total(data), PrefixTotals(init));
    }
  }

  /** Changing one byte changes the total by exactly the difference. */
  lemma {:induction false} TotalOfUpdate(data: seq<byte>, i: nat, b: byte)
    requires i < |data|
    ensures Total(data[i := b]) == Total(data) - data[i] + b
    decreases |data|
  {
    var n := |data|;
    var d' := data[i := b];
    if i == n - 1 {
      assert d'[..n - 1] == data[..n - 1];
    } else {
      assert d'[..n - 1] == data[..n - 1][i := b];
      TotalOfUpdate(data[..n - 1], i, b);
    }
  }

  /**
   A single corrupted byte is always detected, unless it swaps 0x00 for 0xFF
   (the two byte values that are equal modulo 255).
   */
  lemma DetectsSingleByteChange(data: seq<byte>, i: nat, b: byte)
    requires i < |data|
    requires b % 255 != data[i] % 255
    ensures Fletcher16(data[i := b]) != Fletcher16(data)
  {
    var d' := data[i := b];
    SumsClosedForm(data);
    SumsClosedForm(d');
    TotalOfUpdate(data, i, b);
    ShiftChangesResidue(Total(data), data[i], b);
    FoldBytes(Sums(d').0, Sums(d').1);
    FoldBytes(Sums(data).0, Sums(data).1);
  }

  /** Replacing a byte `p` by `q` in a total changes its residue unless `p` and `q` agree modulo 255. */
  lemma ShiftChangesResidue(t: int, p: byte, q: byte)
    requires q % 255 != p % 255
    ensures (t - p + q) % 255 != t % 255
  {
  }

  /** The low byte of the folded word is the first sum, the high byte the second. */
  lemma FoldBytes(s1: Residue, s2: Residue)
    ensures Fold(s1, s2) % 0x100 == s1
    ensures Fold(s1, s2) / 0x100 == s2
  {
  }
}
