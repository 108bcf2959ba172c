/** The page checksum of Ogg: a table of 256 entries against the division, bit by bit (section 6 of RFC 3533). */
module OggCrc {
  import opened Bytes

  // ---------- 32-bit words as bits, most significant first ----------

  type Word = s: seq<bool> | |s| == 32 witness seq(32, i => false)

  ghost function Pow2(n: nat): (p: nat)
    ensures p >= 1
  {
    if n == 0 then 1 else 2 * Pow2(n - 1)
  }

  function Bits(v: nat, n: nat): (s: seq<bool>)
    ensures |s| == n
  {
    if n == 0 then [] else Bits(v / 2, n - 1) + [v % 2 == 1]
  }

  function Value(s: seq<bool>): (v: nat)
    ensures v < Pow2(|s|)
  {
    if s == [] then 0 else 2 * Value(s[..|s| - 1]) + (if s[|s| - 1] then 1 else 0)
  }

  lemma {:induction false} BitsOfValue(s: seq<bool>)
    ensures Bits(Value(s), |s|) == s
  {
    if s != [] {
      BitsOfValue(s[..|s| - 1]);
      assert s == s[..|s| - 1] + [s[|s| - 1]];
    }
  }

  lemma {:induction false} ValueOfBits(v: nat, n: nat)
    requires v < Pow2(n)
    ensures Value(Bits(v, n)) == v
  {
    if n > 0 {
      ValueOfBits(v / 2, n - 1);
      assert Bits(v, n)[..n - 1] == Bits(v / 2, n - 1);
    }
  }

  function Xor(a: seq<bool>, b: seq<bool>): (c: seq<bool>)
    requires |a| == |b|
    ensures |c| == |a| && forall i :: 0 <= i < |a| ==> c[i] == (a[i] != b[i])
  {
    seq(|a|, i requires 0 <= i < |a| && |a| == |b| => a[i] != b[i])
  }

  function Zeros(n: nat): (z: seq<bool>)
    ensures |z| == n && forall i :: 0 <= i < n ==> !z[i]
  {
    seq(n, i => false)
  }

  /** Shifts left by `n` bits, dropping what leaves the word. */
  function ShiftLeft(w: Word, n: nat): (r: Word)
    requires n <= 32
    ensures forall i :: 0 <= i < 32 ==> r[i] == (i + n < 32 && w[i + n])
  {
    w[n..] + Zeros(n)
  }

  predicate HasTerm(power: int) {
    power in {26, 23, 22, 16, 12, 11, 10, 8, 7, 5, 4, 2, 1, 0}
  }

  /** x^32 + x^26 + x^23 + x^22 + x^16 + x^12 + x^11 + x^10 + x^8 + x^7 + x^5 + x^4 + x^2 + x + 1, without its first term. */
  function Generator(): Word {
    seq(32, i => HasTerm(31 - i))
  }

  // ---------- The division ----------

  // The generator `p` is left open: everything up to the table holds for any generator.

  /** One step of the division without new input. */
  function Step(p: Word, r: Word): Word {
    if r[0] then Xor(ShiftLeft(r, 1), p) else ShiftLeft(r, 1)
  }

  function Steps(p: Word, r: Word, n: nat): Word {
    if n == 0 then r else Step(p, Steps(p, r, n - 1))
  }

  /** Feeds one message bit: the register is divided when its top bit differs from the message bit. */
  function FeedBit(p: Word, r: Word, bit: bool): Word {
    if r[0] != bit then Xor(ShiftLeft(r, 1), p) else ShiftLeft(r, 1)
  }

  function FeedBits(p: Word, r: Word, bits: seq<bool>): Word {
    if bits == [] then r else FeedBit(p, FeedBits(p, r, bits[..|bits| - 1]), bits[|bits| - 1])
  }

  function MessageBits(message: seq<byte>): seq<bool> {
    if message == [] then [] else MessageBits(message[..|message| - 1]) + Bits(message[|message| - 1], 8)
  }

  /** The remainder of the message, taken as one long string of bits. */
  ghost function Crc(p: Word, message: seq<byte>): Word {
    FeedBits(p, Zeros(32), MessageBits(message))
  }

  // ---------- Linearity ----------

  lemma StepAdds(p: Word, x: Word, y: Word)
    ensures Step(p, Xor(x, y)) == Xor(Step(p, x), Step(p, y))
  {
  }

  lemma {:induction false} StepsAdd(p: Word, x: Word, y: Word, n: nat)
    ensures Steps(p, Xor(x, y), n) == Xor(Steps(p, x, n), Steps(p, y, n))
  {
    if n > 0 {
      StepsAdd(p, x, y, n - 1);
      StepAdds(p, Steps(p, x, n - 1), Steps(p, y, n - 1));
    }
  }

  lemma ShiftOnce(r: Word, n: nat)
    requires n < 32
    ensures ShiftLeft(ShiftLeft(r, n), 1) == ShiftLeft(r, n + 1) && ShiftLeft(r, n)[0] == r[n]
  {
  }

  /** While the leading bits are zero nothing is divided. */
  lemma {:induction false} ZeroBitsOnlyShift(p: Word, r: Word, n: nat)
    requires n <= 32 && forall i :: 0 <= i < n ==> !r[i]
    ensures Steps(p, r, n) == ShiftLeft(r, n)
  {
    if n == 0 {
      assert ShiftLeft(r, 0) == r;
    } else {
      ZeroBitsOnlyShift(p, r, n - 1);
      ShiftOnce(r, n - 1);
    }
  }

  /** What the table holds for an octet. */
  ghost function Entry(p: Word, octet: seq<bool>): Word
    requires |octet| == 8
  {
    Steps(p, octet + Zeros(24), |octet|)
  }

  /** Eight steps are one table look-up. */
  lemma LookUp(p: Word, x: Word)
    ensures Steps(p, x, 8) == Xor(ShiftLeft(x, 8), Entry(p, x[..8]))
  {
    var low, high := Zeros(8) + x[8..], x[..8] + Zeros(24);
    assert x == Xor(low, high);
    StepsAdd(p, low, high, 8);
    ZeroBitsOnlyShift(p, low, 8);
    assert ShiftLeft(low, 8) == ShiftLeft(x, 8);
  }

  /** The bits at the top of a word, and a single bit further down. */
  ghost function Padded(bits: seq<bool>): Word
    requires |bits| <= 32
  {
    bits + Zeros(32 - |bits|)
  }

  ghost function Lone(bit: bool, at: nat): Word
    requires at < 32
  {
    Zeros(at) + [bit] + Zeros(31 - at)
  }

  lemma LastBitApart(r: Word, front: seq<bool>, last: bool)
    requires |front| < 32
    ensures Xor(r, Padded(front + [last])) == Xor(Xor(r, Padded(front)), Lone(last, |front|))
  {
  }

  lemma LoneBitArrives(p: Word, bit: bool, at: nat)
    requires at < 32
    ensures Steps(p, Lone(bit, at), at) == Padded([bit])
  {
    ZeroBitsOnlyShift(p, Lone(bit, at), at);
    assert ShiftLeft(Lone(bit, at), at) == Padded([bit]);
  }

  lemma BitMeetsTop(p: Word, r: Word, bit: bool)
    ensures FeedBit(p, r, bit) == Step(p, Xor(r, Padded([bit])))
  {
    assert ShiftLeft(Xor(r, Padded([bit])), 1) == ShiftLeft(r, 1);
  }

  /** Adding one more bit below the bits already on their way. */
  lemma OneMoreBit(p: Word, before: Word, last: bool, n: nat)
    requires n < 32
    ensures Steps(p, Xor(before, Lone(last, n)), n + 1) == FeedBit(p, Steps(p, before, n), last)
  {
    StepsAdd(p, before, Lone(last, n), n);
    LoneBitArrives(p, last, n);
    BitMeetsTop(p, Steps(p, before, n), last);
  }

  /** A message bit may as well be added to the register's bit that it will meet. */
  lemma {:induction false} FeedIsAddThenSteps(p: Word, r: Word, bits: seq<bool>)
    requires |bits| <= 32
    ensures FeedBits(p, r, bits) == Steps(p, Xor(r, Padded(bits)), |bits|)
    decreases |bits|
  {
    if bits == [] {
      assert Xor(r, Padded([])) == r;
    } else {
      var front, last := bits[..|bits| - 1], bits[|bits| - 1];
      assert bits == front + [last];
      FeedIsAddThenSteps(p, r, front);
      LastBitApart(r, front, last);
      OneMoreBit(p, Xor(r, Padded(front)), last, |front|);
    }
  }

  // ---------- The table-driven checksum ----------

  lemma {:induction false} FeedConcat(p: Word, r: Word, a: seq<bool>, b: seq<bool>)
    ensures FeedBits(p, r, a + b) == FeedBits(p, FeedBits(p, r, a), b)
  {
    if b == [] {
      assert a + b == a;
    } else {
      assert (a + b)[..|a + b| - 1] == a + b[..|b| - 1];
      FeedConcat(p, r, a, b[..|b| - 1]);
    }
  }

  lemma OctetIsOneLookUp(p: Word, r: Word, bits: seq<bool>)
    requires |bits| == 8
    ensures FeedBits(p, r, bits) == Xor(ShiftLeft(r, 8), Entry(p, Xor(r[..8], bits)))
  {
    FeedIsAddThenSteps(p, r, bits);
    var x := Xor(r, Padded(bits));
    LookUp(p, x);
    assert ShiftLeft(x, 8) == ShiftLeft(r, 8);
    assert x[..8] == Xor(r[..8], bits);
  }

  lemma NextOctet(p: Word, message: seq<byte>, octet: byte)
    ensures Crc(p, message + [octet]) == FeedBits(p, Crc(p, message), Bits(octet, 8))
  {
    assert (message + [octet])[..|message|] == message;
    FeedConcat(p, Zeros(32), MessageBits(message), Bits(octet, 8));
  }

  ghost predicate IsTable(p: Word, table: seq<Word>) {
    |table| == 256 && forall i :: 0 <= i < 256 ==> table[i] == Entry(p, Bits(i, 8))
  }

  /** Eight steps for one octet. */
  method TableEntry(p: Word, index: nat) returns (checksum: Word)
    ensures checksum == Entry(p, Bits(index, 8))
  {
    checksum := Bits(index, 8) + Zeros(24);
    ghost var start := checksum;
    for round := 0 to 8
      invariant checksum == Steps(p, start, round)
    {
      if checksum[0] {
        checksum := Xor(ShiftLeft(checksum, 1), p);
      } else {
        checksum := ShiftLeft(checksum, 1);
      }
    }
  }

  /** Fills the table; the program does so once and never writes it again. */
  method BuildTable(p: Word) returns (table: seq<Word>)
    ensures IsTable(p, table)
  {
    var entries := new Word[256];
    for index := 0 to 256
      invariant forall i :: 0 <= i < index ==> entries[i] == Entry(p, Bits(i, 8))
    {
      entries[index] := TableEntry(p, index);
    }
    table := entries[..];
  }

  /** The page with its own checksum field read as zero. */
  ghost function Blanked(page: seq<byte>): (r: seq<byte>)
    ensures |r| == |page|
  {
    seq(|page|, i requires 0 <= i < |page| => if 22 <= i < 26 then 0 else page[i])
  }

  /** One table look-up for one octet; `message` is what has been fed before. */
  method NextChecksum(p: Word, ghost message: seq<byte>, value: byte, checksum: Word, table: seq<Word>) returns (next: Word)
    requires IsTable(p, table) && checksum == Crc(p, message)
    ensures next == Crc(p, message + [value])
  {
    var key := Xor(checksum[..8], Bits(value, 8));
    BitsOfValue(key);
    assert Pow2(8) == 256;
    NextOctet(p, message, value);
    OctetIsOneLookUp(p, checksum, Bits(value, 8));
    next := Xor(ShiftLeft(checksum, 8), table[Value(key)]);
  }

  method CalculateChecksum(p: Word, page: seq<byte>, table: seq<Word>) returns (checksum: Word)
    requires IsTable(p, table)
    ensures checksum == Crc(p, Blanked(page))
  {
    checksum := Zeros(32);
    for index := 0 to |page|
      invariant checksum == Crc(p, Blanked(page)[..index])
    {
      var value := page[index];
      if index >= 22 && index < 26 {
        value := 0;
      }
      checksum := NextChecksum(p, Blanked(page)[..index], value, checksum, table);
      assert Blanked(page)[..index + 1] == Blanked(page)[..index] + [value];
    }
    assert Blanked(page)[..|page|] == Blanked(page);
  }

  /** The checksum field holds the checksum, least significant octet first. */
  ghost predicate ValidPage(page: seq<byte>) {
    |page| >= 27 && Value(Crc(Generator(), Blanked(page))) == LittleEndian(page[22..26])
  }

  method ValidChecksum(page: seq<byte>) returns (valid: bool)
    ensures valid == ValidPage(page)
  {
    if |page| < 27 {
      return false;
    }
    var table := BuildTable(Generator());
    var want := LittleEndian(page[22..26]);
    var checksum := CalculateChecksum(Generator(), page, table);
    valid := Value(checksum) == want;
  }

  /** Writes the checksum into its field. */
  ghost function Stamped(page: seq<byte>): (r: seq<byte>)
    requires |page| >= 27
    ensures |r| == |page|
  {
    page[..22] + LittleEndianBytes(Value(Crc(Generator(), Blanked(page))), 4) + page[26..]
  }

  lemma {:induction false} Pow2Adds(a: nat, b: nat)
    ensures Pow2(a + b) == Pow2(a) * Pow2(b)
    decreases b
  {
    if b > 0 {
      Pow2Adds(a, b - 1);
      assert Pow2(a) * (2 * Pow2(b - 1)) == 2 * (Pow2(a) * Pow2(b - 1));
    }
  }

  lemma WordFitsFourOctets()
    ensures Pow2(32) == Pow256(4)
  {
    assert Pow2(8) == 256 && Pow2(16) == 256 * Pow2(8) && Pow2(24) == 256 * Pow2(16) && Pow2(32) == 256 * Pow2(24) by {
      Pow2Adds(8, 8);
      Pow2Adds(16, 8);
      Pow2Adds(24, 8);
    }
    assert Pow256(4) == 256 * Pow256(3) && Pow256(3) == 256 * Pow256(2) && Pow256(2) == 256 * Pow256(1) && Pow256(1) == 256;
  }

  /** A page stamped with its own checksum validates, whatever the field held before. */
  lemma StampedPageValidates(page: seq<byte>)
    requires |page| >= 27
    ensures ValidPage(Stamped(page)) && Blanked(Stamped(page)) == Blanked(page)
  {
    var v := Value(Crc(Generator(), Blanked(page)));
    assert Stamped(page)[22..26] == LittleEndianBytes(v, 4);
    WordFitsFourOctets();
    LittleEndianInverts(v, 4);
    assert Blanked(Stamped(page)) == Blanked(page);
  }

  lemma SameOutsideField(page: seq<byte>, other: seq<byte>)
    requires |page| >= 27 && |other| == |page| && other[..22] == page[..22] && other[26..] == page[26..]
    ensures Blanked(other) == Blanked(page)
  {
    forall i | 0 <= i < |page| && !(22 <= i < 26) ensures other[i] == page[i] {
      if i < 22 {
        assert other[i] == other[..22][i] && page[i] == page[..22][i];
      } else {
        assert other[i] == other[26..][i - 26] && page[i] == page[26..][i - 26];
      }
    }
  }

  /** A valid page is its own fields stamped, whatever stood in the checksum field before. */
  lemma ValidPageIsStamped(page: seq<byte>, unstamped: seq<byte>)
    requires ValidPage(page) && |unstamped| == |page| && unstamped[..22] == page[..22] && unstamped[26..] == page[26..]
    ensures page == Stamped(unstamped)
  {
    SameOutsideField(page, unstamped);
    LittleEndianRestores(page[22..26]);
    assert page == page[..22] + page[22..26] + page[26..];
  }

  // ---------- What the checksum detects ----------

  lemma FeedBitAdds(p: Word, x: Word, y: Word, a: bool, b: bool)
    ensures FeedBit(p, Xor(x, y), a != b) == Xor(FeedBit(p, x, a), FeedBit(p, y, b))
  {
  }

  lemma {:induction false} FeedIsAdditive(p: Word, r: Word, r': Word, a: seq<bool>, b: seq<bool>)
    requires |a| == |b|
    ensures FeedBits(p, Xor(r, r'), Xor(a, b)) == Xor(FeedBits(p, r, a), FeedBits(p, r', b))
  {
    if a != [] {
      var n := |a| - 1;
      assert Xor(a, b)[..n] == Xor(a[..n], b[..n]);
      FeedIsAdditive(p, r, r', a[..n], b[..n]);
      FeedBitAdds(p, FeedBits(p, r, a[..n]), FeedBits(p, r', b[..n]), a[n], b[n]);
    }
  }

  lemma XorTells(a: seq<bool>, b: seq<bool>)
    requires |a| == |b|
    ensures a == b <==> Xor(a, b) == Zeros(|a|)
  {
    if a != b {
      var i :| 0 <= i < |a| && a[i] != b[i];
      assert Xor(a, b)[i];
    }
  }

  lemma StepKeepsNonzero(p: Word, r: Word)
    requires p[31] && r != Zeros(32)
    ensures Step(p, r) != Zeros(32)
  {
    if r[0] {
      assert Step(p, r)[31];
    } else {
      var i :| 0 <= i < 32 && r[i];
      assert Step(p, r)[i - 1];
    }
  }

  lemma {:induction false} StepsKeepNonzero(p: Word, r: Word, n: nat)
    requires p[31] && r != Zeros(32)
    ensures Steps(p, r, n) != Zeros(32)
  {
    if n > 0 {
      StepsKeepNonzero(p, r, n - 1);
      StepKeepsNonzero(p, Steps(p, r, n - 1));
    }
  }

  lemma DifferentBitsPartRegisters(p: Word, r: Word, a: seq<bool>, b: seq<bool>)
    requires p[31] && |a| == |b| <= 32 && a != b
    ensures FeedBits(p, r, a) != FeedBits(p, r, b)
  {
    var d := Xor(a, b);
    FeedIsAdditive(p, r, r, a, b);
    XorTells(r, r);
    FeedIsAddThenSteps(p, Zeros(32), d);
    var x := Xor(Zeros(32), Padded(d));
    XorTells(a, b);
    var i :| 0 <= i < |d| && d[i];
    assert x[i];
    StepsKeepNonzero(p, x, |d|);
    XorTells(FeedBits(p, r, a), FeedBits(p, r, b));
  }

  lemma {:induction false} FeedZeros(p: Word, r: Word, n: nat)
    ensures FeedBits(p, r, Zeros(n)) == Steps(p, r, n)
  {
    if n > 0 {
      assert Zeros(n)[..n - 1] == Zeros(n - 1);
      FeedZeros(p, r, n - 1);
    }
  }

  lemma SameBitsKeepRegistersApart(p: Word, r: Word, r': Word, bits: seq<bool>)
    requires p[31] && r != r'
    ensures FeedBits(p, r, bits) != FeedBits(p, r', bits)
  {
    FeedIsAdditive(p, r, r', bits, bits);
    XorTells(bits, bits);
    XorTells(r, r');
    FeedZeros(p, Xor(r, r'), |bits|);
    StepsKeepNonzero(p, Xor(r, r'), |bits|);
    XorTells(FeedBits(p, r, bits), FeedBits(p, r', bits));
  }

  /** Two bit strings whose differences all lie within 32 consecutive bits have different remainders. */
  lemma BurstIsDetected(p: Word, before: seq<bool>, a: seq<bool>, b: seq<bool>, after: seq<bool>)
    requires p[31] && |a| == |b| <= 32 && a != b
    ensures FeedBits(p, Zeros(32), before + a + after) != FeedBits(p, Zeros(32), before + b + after)
  {
    var r := FeedBits(p, Zeros(32), before);
    FeedConcat(p, Zeros(32), before, a);
    FeedConcat(p, Zeros(32), before, b);
    FeedConcat(p, Zeros(32), before + a, after);
    FeedConcat(p, Zeros(32), before + b, after);
    DifferentBitsPartRegisters(p, r, a, b);
    SameBitsKeepRegistersApart(p, FeedBits(p, r, a), FeedBits(p, r, b), after);
  }

  lemma {:induction false} MessageBitsConcat(a: seq<byte>, b: seq<byte>)
    ensures MessageBits(a + b) == MessageBits(a) + MessageBits(b)
  {
    if b == [] {
      assert a + b == a;
    } else {
      var front, last := b[..|b| - 1], b[|b| - 1];
      assert (a + b)[..|a + b| - 1] == a + front && (a + b)[|a + b| - 1] == last;
      MessageBitsConcat(a, front);
      assert (MessageBits(a) + MessageBits(front)) + Bits(last, 8) == MessageBits(a) + (MessageBits(front) + Bits(last, 8));
    }
  }

  lemma {:induction false} MessageBitsLength(a: seq<byte>)
    ensures |MessageBits(a)| == 8 * |a|
  {
    if a != [] { MessageBitsLength(a[..|a| - 1]); }
  }

  lemma {:induction false} MessageBitsDiffer(a: seq<byte>, b: seq<byte>)
    requires |a| == |b| && a != b
    ensures |MessageBits(a)| == |MessageBits(b)| == 8 * |a| && MessageBits(a) != MessageBits(b)
  {
    var n := |a| - 1;
    MessageBitsLength(a);
    MessageBitsLength(b);
    assert a == a[..n] + [a[n]] && b == b[..n] + [b[n]];
    MessageBitsLength(a[..n]);
    MessageBitsLength(b[..n]);
    var ma, mb := MessageBits(a), MessageBits(b);
    assert ma[..8 * n] == MessageBits(a[..n]) && ma[8 * n..] == Bits(a[n], 8);
    assert mb[..8 * n] == MessageBits(b[..n]) && mb[8 * n..] == Bits(b[n], 8);
    if a[..n] != b[..n] {
      MessageBitsDiffer(a[..n], b[..n]);
    } else {
      assert Pow2(8) == 256;
      ValueOfBits(a[n], 8);
      ValueOfBits(b[n], 8);
    }
  }

  /** The generator has a constant term. */
  lemma GeneratorIsOdd()
    ensures Generator()[31]
  {
  }

  lemma RegroupBits(a: seq<bool>, b: seq<bool>, c: seq<bool>, d: seq<bool>)
    ensures ((a + b) + c) + d == (a + b) + (c + d)
  {
  }

  lemma {:induction false} BitsJoin(a: nat, m: nat, b: nat, n: nat)
    requires b < Pow2(n)
    ensures Bits(a * Pow2(n) + b, m + n) == Bits(a, m) + Bits(b, n)
    decreases n
  {
    if n > 0 {
      var v := a * Pow2(n) + b;
      assert a * Pow2(n) == 2 * (a * Pow2(n - 1));
      assert v / 2 == a * Pow2(n - 1) + b / 2 && v % 2 == b % 2;
      BitsJoin(a, m, b / 2, n - 1);
    }
  }

  lemma OctetJoins(v: nat, m: nat, octet: nat, n: nat)
    requires octet < 256 && n == 8
    ensures Bits(v * 256 + octet, m + n) == Bits(v, m) + Bits(octet, n)
  {
    assert Pow2(8) == 256;
    BitsJoin(v, m, octet, n);
  }

  lemma OctetsJoin(a: nat, b: nat, c: nat, d: nat, number: nat, n: nat)
    requires b < 256 && c < 256 && d < 256 && number == ((a * 256 + b) * 256 + c) * 256 + d && n == 8
    ensures Bits(number, n + n + n + n) == (Bits(a, n) + Bits(b, n)) + (Bits(c, n) + Bits(d, n))
  {
    var ab := a * 256 + b;
    var abc := ab * 256 + c;
    OctetJoins(a, n, b, n);
    OctetJoins(ab, n + n, c, n);
    OctetJoins(abc, n + n + n, d, n);
    RegroupBits(Bits(a, n), Bits(b, n), Bits(c, n), Bits(d, n));
  }

  lemma HighOctets(n: nat)
    requires n == 8
    ensures Generator()[..16] == Bits(0x04, n) + Bits(0xc1, n)
  {
    assert Bits(0x04, 8) == [false, false, false, false, false, true, false, false];
    assert Bits(0xc1, 8) == [true, true, false, false, false, false, false, true];
  }

  lemma LowOctets(n: nat)
    requires n == 8
    ensures Generator()[16..] == Bits(0x1d, n) + Bits(0xb7, n)
  {
    assert Bits(0x1d, 8) == [false, false, false, true, true, true, false, true];
    assert Bits(0xb7, 8) == [true, false, true, true, false, true, true, true];
  }

  /** The generator is the number that the program adds. */
  lemma GeneratorIsTheProgramsNumber(number: nat, n: nat)
    requires number == 0x04c11db7 && n == 32
    ensures Generator() == Bits(number, n)
  {
    OctetsJoin(0x04, 0xc1, 0x1d, 0xb7, number, n - 24);
    HighOctets(n - 24);
    LowOctets(n - 24);
  }

  ghost function BlankField(s: seq<byte>, from: int): seq<byte> {
    seq(|s|, i requires 0 <= i < |s| => if 22 <= i + from < 26 then 0 else s[i])
  }

  /** Blanking acts on each part of the page by itself and leaves a part outside the field alone. */
  lemma BlankedParts(page: seq<byte>, at: nat, n: nat)
    requires at + n <= |page| && (at + n <= 22 || 26 <= at)
    ensures Blanked(page) == BlankField(page[..at], 0) + page[at..at + n] + BlankField(page[at + n..], at + n)
    ensures Blanked(page)[..at] == BlankField(page[..at], 0)
    ensures Blanked(page)[at + n..] == BlankField(page[at + n..], at + n)
  {
  }

  lemma SameField(page: seq<byte>, page': seq<byte>, at: nat, n: nat)
    requires 27 <= |page| == |page'| && at + n <= |page| && (at + n <= 22 || 26 <= at)
    requires page[..at] == page'[..at] && page[at + n..] == page'[at + n..]
    ensures page[22..26] == page'[22..26]
  {
    if 26 <= at {
      assert page[22..26] == page[..at][22..26] && page'[22..26] == page'[..at][22..26];
    } else {
      var k := at + n;
      assert page[22..26] == page[k..][22 - k..26 - k] && page'[22..26] == page'[k..][22 - k..26 - k];
    }
  }

  lemma CrcsDiffer(p: Word, before: seq<byte>, a: seq<byte>, b: seq<byte>, after: seq<byte>)
    requires p[31] && |a| == |b| <= 4 && a != b
    ensures Crc(p, before + a + after) != Crc(p, before + b + after)
  {
    MessageBitsConcat(before, a);
    MessageBitsConcat(before, b);
    MessageBitsConcat(before + a, after);
    MessageBitsConcat(before + b, after);
    MessageBitsDiffer(a, b);
    BurstIsDetected(p, MessageBits(before), MessageBits(a), MessageBits(b), MessageBits(after));
  }

  /** Any change confined to four consecutive octets outside the checksum field is noticed: of two such pages
      that carry the same field at most one validates. */
  lemma ChangedPageIsRejected(page: seq<byte>, page': seq<byte>, at: nat, n: nat)
    requires |page| == |page'| && n <= 4 && at + n <= |page| && (at + n <= 22 || 26 <= at)
    requires page[..at] == page'[..at] && page[at..at + n] != page'[at..at + n] && page[at + n..] == page'[at + n..]
    requires ValidPage(page)
    ensures !ValidPage(page')
  {
    var b, b' := Blanked(page), Blanked(page');
    BlankedParts(page, at, n);
    BlankedParts(page', at, n);
    SameField(page, page', at, n);
    GeneratorIsOdd();
    CrcsDiffer(Generator(), b[..at], page[at..at + n], page'[at..at + n], b[at + n..]);
    BitsOfValue(Crc(Generator(), b));
    BitsOfValue(Crc(Generator(), b'));
  }
}
