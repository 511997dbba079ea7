/** The Internet checksum: the analyser's 32-bit loop, the packet generator's unbounded one, and what they detect. */
module Checksum {
  import opened Serial

  const ALL_ONES: nat := 0xFFFF

  /** The longest buffer whose words cannot overflow the 32-bit sum. */
  const NO_OVERFLOW: nat := 131074

  /** The big-endian 16-bit words of a buffer added up; an odd last byte is the high half of a word. */
  function WordSum(d: seq<byte>): nat {
    if d == [] then 0
    else if |d| == 1 then 256 * d[0] as int
    else 256 * (d[0] as int) + d[1] + WordSum(d[2..])
  }

  /** End-around carry. */
  function Folded(n: nat): nat
    decreases n
  {
    if n < 0x10000 then n else Folded(n % 0x10000 + n / 0x10000)
  }

  function Complement(sum: nat): nat
    requires sum <= ALL_ONES
  {
    ALL_ONES - sum
  }

  /** What the analyser computes: the sum is kept in 32 bits. */
  function InternetChecksum(d: seq<byte>): nat {
    FoldedFits(WordSum(d) % WORD);
    Complement(Folded(WordSum(d) % WORD))
  }

  /** What the packet generator computes. */
  function GeneratorChecksum(d: seq<byte>): nat {
    FoldedFits(WordSum(d));
    Complement(Folded(WordSum(d)))
  }

  lemma {:induction false} FoldedFits(n: nat)
    ensures Folded(n) <= ALL_ONES
    decreases n
  {
    if n >= 0x10000 {
      FoldedFits(n % 0x10000 + n / 0x10000);
    }
  }

  method Fold(start: nat) returns (sum: nat)
    ensures sum == Folded(start) && sum <= ALL_ONES
  {
    sum := start;
    FoldedFits(start);
    while sum / 0x10000 != 0
      invariant Folded(sum) == Folded(start)
      decreases sum
    {
      sum := sum % 0x10000 + sum / 0x10000;
    }
  }

  /** The big-endian word at `pos`. */
  function WordFrom(data: seq<byte>, pos: nat): nat
    requires pos + 2 <= |data|
  {
    256 * (data[pos] as int) + data[pos + 1]
  }

  method ComputeInternetChecksum(data: seq<byte>) returns (c: nat)
    ensures c == InternetChecksum(data)
  {
    var sum: uint32 := 0;
    var pos, left := 0, |data|;
    ghost var total: nat := 0;
    while left > 1
      invariant pos + left == |data| && 0 <= left
      invariant WordSum(data) == total + WordSum(data[pos..]) && sum == total % WORD
    {
      WordSumStep(data, pos);
      AddWraps(total, WordFrom(data, pos));
      sum := Add32(sum, WordFrom(data, pos));
      total := total + WordFrom(data, pos);
      pos := pos + 2;
      left := left - 2;
    }
    if left == 1 {
      AddWraps(total, 256 * data[pos] as int);
      sum := Add32(sum, 256 * data[pos] as int);
      total := total + 256 * data[pos] as int;
    }
    assert sum == WordSum(data) % WORD;
    var folded := Fold(sum);
    c := Complement(folded);
  }

  lemma WordSumStep(data: seq<byte>, pos: nat)
    requires pos + 2 <= |data|
    ensures WordSum(data[pos..]) == WordFrom(data, pos) + WordSum(data[pos + 2..])
  {
    assert data[pos..][2..] == data[pos + 2..];
  }

  /** Keeping a sum in 32 bits is keeping its remainder. */
  lemma AddWraps(total: nat, word: nat)
    ensures (total % WORD + word) % WORD == (total + word) % WORD
  {
    var q, r := total / WORD, total % WORD;
    assert total + word == WORD * q + (r + word);
    Wraps(q, r + word);
  }

  lemma Wraps(q: nat, x: nat)
    ensures (WORD * q + x) % WORD == x % WORD
  {
    var d, m := x / WORD, x % WORD;
    assert WORD * q + x == WORD * (q + d) + m;
  }

  function Padded(data: seq<byte>): seq<byte> {
    if |data| % 2 != 0 then data + [0] else data
  }

  /** The generator's loop over a padded buffer. */
  method AddWords(padded: seq<byte>) returns (total: nat)
    requires |padded| % 2 == 0
    ensures total == WordSum(padded)
  {
    total := 0;
    var i := 0;
    ghost var words := |padded| / 2;
    while i < |padded|
      invariant 0 <= words && i + 2 * words == |padded|
      invariant WordSum(padded) == total + WordSum(padded[i..])
    {
      WordSumStep(padded, i);
      total := total + WordFrom(padded, i);
      i := i + 2;
      words := words - 1;
    }
  }

  method ComputeGeneratorChecksum(data: seq<byte>) returns (c: nat)
    ensures c == GeneratorChecksum(data)
  {
    PaddingKeepsSum(data);
    var total := AddWords(Padded(data));
    var folded := Fold(total);
    c := Complement(folded);
  }

  lemma {:induction false} PaddingKeepsSum(d: seq<byte>)
    ensures |d| % 2 == 1 ==> WordSum(d + [0]) == WordSum(d)
  {
    if |d| == 1 {
      assert (d + [0])[2..] == [];
    } else if |d| > 1 {
      PaddingKeepsSum(d[2..]);
      assert (d + [0])[2..] == d[2..] + [0];
    }
  }
}

module ChecksumTheorems {
  import opened Serial
  import opened Checksum

  // ------------------------------------------------------------- arithmetic of the fold

  /** End-around carry is reduction modulo 65535, except that a positive multiple stays 65535. */
  lemma {:induction false} FoldedIsRemainder(n: nat)
    ensures Folded(n) == if n > 0 && n % ALL_ONES == 0 then ALL_ONES else n % ALL_ONES
    decreases n
  {
    if n >= 0x10000 {
      var m := n % 0x10000 + n / 0x10000;
      FoldedIsRemainder(m);
      CarryKeepsRemainder(n);
    }
  }

  lemma CarryKeepsRemainder(n: nat)
    ensures (n % 0x10000 + n / 0x10000) % ALL_ONES == n % ALL_ONES
  {
    var q, r := n / 0x10000, n % 0x10000;
    assert n == ALL_ONES * q + (q + r);
    Multiple(q, q + r);
  }

  lemma Multiple(q: nat, x: nat)
    ensures (ALL_ONES * q + x) % ALL_ONES == x % ALL_ONES
  {
    var d, m := x / ALL_ONES, x % ALL_ONES;
    assert ALL_ONES * q + x == ALL_ONES * (q + d) + m;
  }

  // -------------------------------------------------------------------- the sum's size

  lemma {:induction false} SumBounded(d: seq<byte>)
    ensures WordSum(d) <= ALL_ONES * ((|d| + 1) / 2)
  {
    if |d| > 1 {
      SumBounded(d[2..]);
    }
  }

  /** Up to 131074 bytes the 32-bit sum never overflows. */
  lemma NeverOverflows(d: seq<byte>)
    requires |d| <= NO_OVERFLOW
    ensures WordSum(d) < WORD
  {
    SumBounded(d);
  }

  lemma {:induction false} OnesSum(d: seq<byte>)
    requires forall i | 0 <= i < |d| :: d[i] == 255
    ensures WordSum(d) == ALL_ONES * (|d| / 2) + if |d| % 2 == 1 then 0xFF00 else 0
  {
    if |d| > 1 {
      OnesSum(d[2..]);
    }
  }

  /** One byte more can overflow it. */
  lemma LongerOverflows(d: seq<byte>)
    requires |d| == NO_OVERFLOW + 1 && forall i | 0 <= i < |d| :: d[i] == 255
    ensures WordSum(d) >= WORD
  {
    OnesSum(d);
  }

  // -------------------------------------------------------------------- main results

  /** A positive multiple of 65535. */
  predicate Balanced(sum: nat) {
    sum > 0 && sum % ALL_ONES == 0
  }

  lemma ChecksumOfSmall(d: seq<byte>)
    requires WordSum(d) < WORD
    ensures InternetChecksum(d) == GeneratorChecksum(d)
    ensures InternetChecksum(d) == ALL_ONES - if Balanced(WordSum(d)) then ALL_ONES else WordSum(d) % ALL_ONES
  {
    SmallStays(WordSum(d));
    FoldedIsRemainder(WordSum(d));
  }

  lemma SmallStays(n: nat)
    requires n < WORD
    ensures n % WORD == n
  {
  }

  /** A buffer verifies exactly when its word sum is a positive multiple of 65535. */
  lemma VerifiesIff(d: seq<byte>)
    requires |d| <= NO_OVERFLOW
    ensures InternetChecksum(d) == 0 <==> Balanced(WordSum(d))
  {
    NeverOverflows(d);
    ChecksumOfSmall(d);
  }

  /** For any buffer: analyser and generator agree exactly when the 32-bit sum did not overflow, or overflowed a multiple
      of 65535 times and left something. */
  lemma AgreesWithGeneratorIff(d: seq<byte>)
    ensures InternetChecksum(d) == GeneratorChecksum(d) <==>
            WordSum(d) < WORD || (WordSum(d) / WORD % ALL_ONES == 0 && WordSum(d) % WORD > 0)
  {
    var w := WordSum(d);
    var q, r := w / WORD, w % WORD;
    FoldedIsRemainder(w);
    FoldedIsRemainder(r);
    FoldedFits(w);
    FoldedFits(r);
    assert w == ALL_ONES * (0x10001 * q) + (q + r);
    Multiple(0x10001 * q, q + r);
    ShiftedRemainder(r, q);
  }

  /** Adding `q` keeps the remainder exactly when it is a multiple. */
  lemma ShiftedRemainder(r: nat, q: nat)
    ensures (q + r) % ALL_ONES == r % ALL_ONES <==> q % ALL_ONES == 0
  {
    var d, m := q / ALL_ONES, q % ALL_ONES;
    assert q + r == ALL_ONES * d + (m + r);
    Multiple(d, m + r);
    SmallShift(r, m);
  }

  lemma SmallShift(r: nat, m: nat)
    requires m < ALL_ONES
    ensures (m + r) % ALL_ONES == r % ALL_ONES <==> m == 0
  {
    var d, n := r / ALL_ONES, r % ALL_ONES;
    assert m + r == ALL_ONES * d + (m + n);
    Multiple(d, m + n);
  }

  // ----------------------------------------------------------------- patching a word

  /** The word at `i` replaced. */
  function Patch(d: seq<byte>, i: nat, w: nat): (p: seq<byte>)
    requires i + 1 < |d| && w <= ALL_ONES
    ensures |p| == |d|
  {
    d[i := w / 256][i + 1 := w % 256]
  }

  lemma {:induction false} PatchShiftsSum(d: seq<byte>, i: nat, w: nat)
    requires i % 2 == 0 && i + 1 < |d| && w <= ALL_ONES
    ensures WordSum(Patch(d, i, w)) == WordSum(d) - WordFrom(d, i) + w
    ensures WordFrom(d, i) <= WordSum(d)
    decreases i
  {
    var p := Patch(d, i, w);
    if i == 0 {
      assert p[2..] == d[2..];
    } else {
      PatchShiftsSum(d[2..], i - 2, w);
      assert p[2..] == Patch(d[2..], i - 2, w);
      assert d[2..][i - 2] == d[i] && d[2..][i - 1] == d[i + 1];
    }
  }

  /** Filling a zeroed checksum field with the checksum makes the buffer verify. */
  lemma FillingVerifies(d: seq<byte>, i: nat)
    requires |d| <= NO_OVERFLOW && i % 2 == 0 && i + 1 < |d| && WordFrom(d, i) == 0
    ensures InternetChecksum(Patch(d, i, InternetChecksum(d))) == 0
  {
    var c := InternetChecksum(d);
    NeverOverflows(d);
    ChecksumOfSmall(d);
    PatchShiftsSum(d, i, c);
    Filled(WordSum(d), c);
    VerifiesIff(Patch(d, i, c));
  }

  lemma Filled(sum: nat, c: nat)
    requires c == ALL_ONES - if Balanced(sum) then ALL_ONES else sum % ALL_ONES
    ensures Balanced(sum + c)
  {
    var q := sum / ALL_ONES;
    Multiple(q + 1, 0);
  }

  /** The datagram rule of sending all ones for a computed zero verifies too. */
  lemma AllOnesForZeroVerifies(d: seq<byte>, i: nat)
    requires |d| <= NO_OVERFLOW && i % 2 == 0 && i + 1 < |d| && WordFrom(d, i) == 0 && InternetChecksum(d) == 0
    ensures InternetChecksum(Patch(d, i, ALL_ONES)) == 0
  {
    VerifiesIff(d);
    PatchShiftsSum(d, i, ALL_ONES);
    Multiple(1, WordSum(d));
    VerifiesIff(Patch(d, i, ALL_ONES));
  }

  /** In a buffer that verifies, changing one word goes unnoticed exactly when it turns 0000 into FFFF, or FFFF into 0000
      with other words left to add up. */
  lemma ChangeUnnoticedIff(d: seq<byte>, i: nat, w: nat)
    requires |d| <= NO_OVERFLOW && i % 2 == 0 && i + 1 < |d| && w <= ALL_ONES && w != WordFrom(d, i)
    requires InternetChecksum(d) == 0
    ensures InternetChecksum(Patch(d, i, w)) == 0 <==>
            (WordFrom(d, i) == 0 && w == ALL_ONES) || (WordFrom(d, i) == ALL_ONES && w == 0 && WordSum(d) > ALL_ONES)
  {
    var p := Patch(d, i, w);
    VerifiesIff(d);
    VerifiesIff(p);
    PatchShiftsSum(d, i, w);
    StaysBalancedIff(WordSum(d), WordFrom(d, i), w, WordSum(p));
  }

  lemma StaysBalancedIff(sum: nat, before: nat, after: nat, patched: nat)
    requires Balanced(sum) && before <= ALL_ONES && after <= ALL_ONES && before != after
    requires patched == sum - before + after && before <= sum
    ensures Balanced(patched) <==>
            (before == 0 && after == ALL_ONES) || (before == ALL_ONES && after == 0 && sum > ALL_ONES)
  {
    var q := sum / ALL_ONES;
    assert sum == ALL_ONES * q;
    if before < after {
      Multiple(q, after - before);
    } else {
      Multiple(q - 1, ALL_ONES - (before - after));
    }
  }

  /** The worked example of section 3 of RFC 1071. */
  lemma PublishedExample()
    ensures InternetChecksum([0x00, 0x01, 0xF2, 0x03, 0xF4, 0xF5, 0xF6, 0xF7]) == 0x220D
  {
    var d: seq<byte> := [0x00, 0x01, 0xF2, 0x03, 0xF4, 0xF5, 0xF6, 0xF7];
    var a, b, c: seq<byte> := [0xF2, 0x03, 0xF4, 0xF5, 0xF6, 0xF7], [0xF4, 0xF5, 0xF6, 0xF7], [0xF6, 0xF7];
    assert d[2..] == a && a[2..] == b && b[2..] == c && c[2..] == [];
    assert WordSum(c) == 0xF6F7 + WordSum([]) && WordSum(b) == 0xF4F5 + WordSum(c);
    assert WordSum(a) == 0xF203 + WordSum(b) && WordSum(d) == 0x0001 + WordSum(a);
    assert Folded(0x2DDF0) == Folded(0xDDF2);
  }
}
