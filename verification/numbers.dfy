/** Decimal and hexadecimal printing into fixed byte buffers. */
module Numbers {
  import opened Prelude
  import opened Bits

  const ZERO: Byte := 48
  const KIB := 1024
  const MIB := 1024 * 1024
  const GIB := 1024 * 1024 * 1024

  /** Decimal digits, most significant first. */
  function Decimal(v: nat): (s: seq<Byte>)
    ensures |s| > 0
  {
    if v < 10 then [ZERO + v] else Decimal(v / 10) + [ZERO + v % 10]
  }

  function ParseDecimal(s: seq<Byte>): int {
    if s == [] then 0 else 10 * ParseDecimal(s[..|s| - 1]) + (s[|s| - 1] - ZERO)
  }

  function HexDigit(d: nat): Byte
    requires d < 16
  {
    if d < 10 then ZERO + d else 97 + d - 10
  }

  /** Hexadecimal digits, at least `least` of them. */
  function Hex(v: nat, least: nat): (s: seq<Byte>)
    ensures |s| > 0
    decreases v, least
  {
    if v < 16 && least <= 1 then [HexDigit(v)] else Hex(v / 16, Monus(least, 1)) + [HexDigit(v % 16)]
  }

  function HexValue(b: Byte): int {
    if b < 97 then b - ZERO else b - 97 + 10
  }

  function ParseHex(s: seq<Byte>): int {
    if s == [] then 0 else 16 * ParseHex(s[..|s| - 1]) + HexValue(s[|s| - 1])
  }

  lemma {:induction false} DecimalRoundTrip(v: nat)
    ensures ParseDecimal(Decimal(v)) == v
  {
    var s := Decimal(v);
    if v < 10 {
      assert s[..0] == [];
    } else {
      DecimalRoundTrip(v / 10);
      assert s[..|s| - 1] == Decimal(v / 10);
    }
  }

  /** No leading zero, except for zero itself. */
  lemma {:induction false} DecimalNoLeadingZero(v: nat)
    ensures Decimal(v)[0] == ZERO <==> v == 0
  {
    if v >= 10 {
      DecimalNoLeadingZero(v / 10);
    }
  }

  lemma {:induction false} DecimalIsDigits(v: nat)
    ensures forall i :: 0 <= i < |Decimal(v)| ==> ZERO <= Decimal(v)[i] <= ZERO + 9
  {
    if v >= 10 {
      DecimalIsDigits(v / 10);
    }
  }

  function Pow10(n: nat): (p: nat)
    ensures p > 0
  {
    if n == 0 then 1 else 10 * Pow10(n - 1)
  }

  lemma {:induction false} DecimalLength(v: nat, n: nat)
    requires n > 0 && v < Pow10(n)
    ensures |Decimal(v)| <= n
  {
    if v >= 10 {
      assert n > 1;
      DecimalLength(v / 10, n - 1);
    }
  }

  /** Twenty digits are enough for 64 bits. */
  lemma U64FitsTwentyDigits(v: nat)
    requires v < U64
    ensures |Decimal(v)| <= 20
  {
    assert Pow10(5) == 10_0000;
    assert Pow10(10) == 100_0000_0000;
    assert Pow10(20) > U64;
    DecimalLength(v, 20);
  }

  lemma {:induction false} HexRoundTrip(v: nat, least: nat)
    ensures ParseHex(Hex(v, least)) == v
    decreases v, least
  {
    var s := Hex(v, least);
    if v < 16 && least <= 1 {
      assert s[..0] == [];
    } else {
      HexRoundTrip(v / 16, Monus(least, 1));
      assert s[..|s| - 1] == Hex(v / 16, Monus(least, 1));
    }
  }

  const HEX_DIGITS: string := "0123456789abcdef"

  lemma HexDigitIs(d: nat)
    requires d < 16
    ensures HexDigit(d) == HEX_DIGITS[d] as int && HexValue(HexDigit(d)) == d
  {
  }

  /** Beyond the four that are always there, no leading zero. */
  lemma {:induction false} HexNoLeadingZero(v: nat, least: nat)
    ensures |Hex(v, least)| > least && v > 0 ==> Hex(v, least)[0] != ZERO
    ensures v == 0 ==> |Hex(v, least)| == if least == 0 then 1 else least
    decreases v, least
  {
    if !(v < 16 && least <= 1) {
      HexNoLeadingZero(v / 16, Monus(least, 1));
    }
  }

  lemma {:induction false} HexLength(v: nat, least: nat, most: nat)
    requires least <= most && most > 0 && v < Pow2(4 * most)
    ensures least <= |Hex(v, least)| <= most
    decreases most
  {
    Pow2Sixteen(most);
    if most > 1 && !(v < 16 && least <= 1) {
      HexLength(v / 16, Monus(least, 1), most - 1);
    }
  }

  lemma Pow2Sixteen(k: nat)
    requires k > 0
    ensures Pow2(4 * k) == 16 * Pow2(4 * (k - 1))
    ensures k == 1 ==> Pow2(4 * k) == 16
  {
    hide Pow2;
    WordSize();
    Pow2Add(4 * (k - 1), 4);
    assert 4 * (k - 1) + 4 == 4 * k;
  }

  // ---------------------------------------------------------------------------
  // Writing into a buffer
  // ---------------------------------------------------------------------------

  /** The bytes of `s` that fit between `pos` and `limit`. */
  function Fitting(s: seq<Byte>, pos: nat, limit: nat): (r: seq<Byte>)
    ensures r != [] ==> pos + |r| <= limit
  {
    s[..Min(|s|, Monus(limit, pos))]
  }

  /** `buf` with `s` written at `pos`. */
  function Written(buf: seq<Byte>, pos: nat, s: seq<Byte>): (r: seq<Byte>)
    requires s != [] ==> pos + |s| <= |buf|
    ensures |r| == |buf|
    ensures s == [] ==> r == buf
  {
    if s == [] then buf else buf[..pos] + s + buf[pos + |s|..]
  }

  lemma WrittenSnoc(was: seq<Byte>, pos: nat, s: seq<Byte>, b: Byte)
    requires pos + |s| + 1 <= |was|
    ensures Written(was, pos, s)[pos + |s| := b] == Written(was, pos, s + [b])
  {
  }

  lemma FittingSnoc(s: seq<Byte>, b: Byte, pos: nat, limit: nat)
    ensures pos + |Fitting(s, pos, limit)| < limit ==>
              Fitting(s, pos, limit) == s && Fitting(s + [b], pos, limit) == s + [b]
    ensures pos + |Fitting(s, pos, limit)| >= limit ==> Fitting(s + [b], pos, limit) == Fitting(s, pos, limit)
  {
  }

  /** Byte by byte: as much of `s` as fits from `pos` on, and nothing else is touched. */
  lemma WrittenIs(buf: seq<Byte>, pos: nat, s: seq<Byte>, limit: nat, i: nat)
    requires limit <= |buf| && i < |buf|
    ensures Written(buf, pos, Fitting(s, pos, limit))[i] ==
            if pos <= i < pos + |s| && i < limit then s[i - pos] else buf[i]
  {
  }

  /** Writing one byte more, if it fits, extends what has been written by that byte. */
  lemma WriteOneMore(was: seq<Byte>, pos: nat, s: seq<Byte>, b: Byte, limit: nat)
    requires limit <= |was|
    ensures var f := Fitting(s, pos, limit);
            if pos + |f| < limit
            then Fitting(s + [b], pos, limit) == f + [b]
                 && Written(was, pos, f)[pos + |f| := b] == Written(was, pos, f + [b])
            else Fitting(s + [b], pos, limit) == f
  {
    hide *;
    FittingSnoc(s, b, pos, limit);
    if pos + |Fitting(s, pos, limit)| < limit {
      WrittenSnoc(was, pos, s, b);
    }
  }

  lemma NothingWritten(was: seq<Byte>, pos: nat, limit: nat)
    ensures Fitting([], pos, limit) == [] && Written(was, pos, []) == was
  {
  }

  /** One guarded store, as in every loop that prints: bytes past the limit are dropped. */
  method PutByte(buf: array<Byte>, at: nat, b: Byte, limit: nat, ghost was: seq<Byte>, ghost pos: nat, ghost s: seq<Byte>)
    returns (end: nat)
    requires limit <= buf.Length == |was|
    requires at == pos + |Fitting(s, pos, limit)| && buf[..] == Written(was, pos, Fitting(s, pos, limit))
    modifies buf
    ensures end == pos + |Fitting(s + [b], pos, limit)| && buf[..] == Written(was, pos, Fitting(s + [b], pos, limit))
  {
    WriteOneMore(was, pos, s, b, limit);
    end := at;
    if end < limit {
      buf[end] := b;
      end := end + 1;
    }
  }

  /** Appends the decimal digits of `val`, cutting off what does not fit in the buffer. */
  method WriteU64Decimal(buf: array<Byte>, pos: nat, val: nat) returns (end: nat)
    requires val < U64
    modifies buf
    ensures buf[..] == Written(old(buf[..]), pos, Fitting(Decimal(val), pos, buf.Length))
    ensures end == pos + |Fitting(Decimal(val), pos, buf.Length)|
  {
    hide *;
    ghost var was := buf[..];
    end := pos;
    NothingWritten(was, pos, buf.Length);
    if val == 0 {
      ZeroDigits();
      end := PutByte(buf, end, ZERO, buf.Length, was, pos, []);
      return;
    }
    var digits, dlen := DigitsOf(val);
    ghost var s := Decimal(val);
    assert s[..0] == [];
    var d := dlen;
    while d > 0
      invariant 0 <= d <= dlen
      invariant forall i :: 0 <= i < dlen ==> digits[i] == s[dlen - 1 - i]
      invariant end == pos + |Fitting(s[..dlen - d], pos, buf.Length)|
      invariant buf[..] == Written(was, pos, Fitting(s[..dlen - d], pos, buf.Length))
    {
      hide *;
      d := d - 1;
      assert s[..dlen - d] == s[..dlen - d - 1] + [digits[d]];
      end := PutByte(buf, end, digits[d], buf.Length, was, pos, s[..dlen - d - 1]);
    }
    assert s[..dlen] == s;
  }

  lemma ZeroDigits()
    ensures Decimal(0) == [] + [ZERO]
  {
  }

  lemma LastDigit(v: nat)
    ensures var s := Decimal(v);
            s[|s| - 1] == ZERO + v % 10 && if v < 10 then |s| == 1 else s[..|s| - 1] == Decimal(v / 10)
  {
  }

  /** The digits least significant first, in a local buffer of twenty. */
  method DigitsOf(val: nat) returns (digits: array<Byte>, dlen: nat)
    requires 0 < val < U64
    ensures fresh(digits) && digits.Length == 20 && dlen == |Decimal(val)| <= 20
    ensures forall i :: 0 <= i < dlen ==> digits[i] == Decimal(val)[dlen - 1 - i]
  {
    hide Decimal;
    digits := new Byte[20](_ => 0);
    var n: nat := val;
    dlen := 0;
    ghost var s := Decimal(val);
    U64FitsTwentyDigits(val);
    assert s[..|s| - 0] == s;
    while n > 0
      invariant dlen <= |s| && (n > 0 ==> s[..|s| - dlen] == Decimal(n)) && (n == 0 ==> dlen == |s|)
      invariant forall i :: 0 <= i < dlen ==> digits[i] == s[|s| - 1 - i]
    {
      LastDigit(n);
      assert s[|s| - dlen - 1] == Decimal(n)[|Decimal(n)| - 1];
      assert s[..|s| - dlen - 1] == Decimal(n)[..|Decimal(n)| - 1];
      digits[dlen] := n % 10 + ZERO;
      n := n / 10;
      dlen := dlen + 1;
    }
  }

  /** What write_hex appends: the prefix "0x" and at least four digits, all cut off at `limit`;
      nothing at all if there is no room for the prefix. */
  function HexText(val: nat, pos: nat, limit: nat): seq<Byte> {
    if pos + 2 > limit then [] else Fitting([ZERO, X] + Hex(val, 4), pos, limit)
  }

  lemma HexTextIs(val: nat, pos: nat, limit: nat)
    ensures pos + 2 > limit ==> HexText(val, pos, limit) == []
    ensures pos + 2 + |Hex(val, 4)| <= limit ==> HexText(val, pos, limit) == [48, 120] + Hex(val, 4)
  {
  }

  method WriteHex(buf: array<Byte>, pos: nat, val: nat, limit: nat) returns (end: nat)
    requires val < U64 && limit <= buf.Length
    modifies buf
    ensures buf[..] == Written(old(buf[..]), pos, HexText(val, pos, limit))
    ensures end == pos + |HexText(val, pos, limit)|
  {
    end := pos;
    if end + 2 > limit {
      return;
    }
    ghost var was := buf[..];
    NothingWritten(was, pos, limit);
    HexStart(val);
    HexDone(val);
    assert HexText(val, pos, limit) == Fitting([ZERO, X] + HexSoFar(val, 0), pos, limit);
    assert [] + [ZERO] + [X] == [ZERO, X] + HexSoFar(val, 16);
    hide *;
    end := PutByte(buf, end, ZERO, limit, was, pos, []);
    end := PutByte(buf, end, X, limit, was, pos, [] + [ZERO]);
    var started := false;
    var shift := 16;
    while shift > 0
      invariant 0 <= shift <= 16
      invariant end == pos + |Fitting([ZERO, X] + HexSoFar(val, shift), pos, limit)|
      invariant buf[..] == Written(was, pos, Fitting([ZERO, X] + HexSoFar(val, shift), pos, limit))
      invariant end < limit ==> started == (HexSoFar(val, shift) != [])
    {
      hide *;
      ghost var s := [ZERO, X] + HexSoFar(val, shift);
      shift := shift - 1;
      var nibble := Nibble(val, shift);
      HexStep(val, shift);
      WriteOneMore(was, pos, s, HexDigit(nibble), limit);
      assert [ZERO, X] + (HexSoFar(val, shift + 1) + [HexDigit(nibble)]) == s + [HexDigit(nibble)];
      if nibble != 0 || started || shift < 4 {
        if end < limit {
          started := true;
        }
        end := PutByte(buf, end, HexDigit(nibble), limit, was, pos, s);
      }
    }
  }

  const X: Byte := 120

  /** `(val >> (4 * shift)) & 0xF` */
  function Nibble(val: nat, shift: nat): (d: nat)
    ensures d < 16
  {
    WordSize();
    AndLowMask(Shr(val, 4 * shift), 4);
    And(Shr(val, 4 * shift), 0xF)
  }

  /** The digits printed once the nibbles from `shift` up have been looked at. */
  function HexSoFar(val: nat, shift: nat): seq<Byte> {
    var top := Shr(val, 4 * shift);
    if top == 0 && shift >= 4 then [] else Hex(top, Monus(4, shift))
  }

  lemma HexStart(val: nat)
    requires val < U64
    ensures HexSoFar(val, 16) == []
  {
    WordSize();
    ShrBound(val, WORD_BITS, 0);
    assert Pow2(0) == 1;
  }

  lemma HexDone(val: nat)
    ensures HexSoFar(val, 0) == Hex(val, 4)
  {
  }

  lemma ShrFour(a: nat, k: nat)
    ensures Shr(a, k + 4) == Shr(a, k) / 16
  {
    assert Shr(a, k + 2) == Shr(a, k) / 2 / 2;
    assert Shr(a, k + 4) == Shr(a, k + 2) / 2 / 2;
  }

  /** Each nibble appends its digit, except leading zeros left of the last four places. */
  lemma HexStep(val: nat, shift: nat)
    ensures HexSoFar(val, shift) ==
            if Nibble(val, shift) != 0 || HexSoFar(val, shift + 1) != [] || shift < 4
            then HexSoFar(val, shift + 1) + [HexDigit(Nibble(val, shift))]
            else HexSoFar(val, shift + 1)
  {
    hide Pow2;
    hide And;
    WordSize();
    var top := Shr(val, 4 * shift);
    AndLowMask(top, 4);
    ShrFour(val, 4 * shift);
    hide Shr;
    assert Shr(val, 4 * (shift + 1)) == top / 16 && Nibble(val, shift) == top % 16;
  }

  // ---------------------------------------------------------------------------
  // Sizes and address ranges: the buffers are always large enough
  // ---------------------------------------------------------------------------

  function Scaled(size: nat): (v: nat)
    ensures v <= size
  {
    if size >= GIB then size / GIB else if size >= MIB then size / MIB else if size >= KIB then size / KIB else size
  }

  function Suffix(size: nat): (s: seq<Byte>)
    ensures 2 <= |s| <= 4
  {
    if size >= GIB then [32, 71, 105, 66]        // " GiB"
    else if size >= MIB then [32, 77, 105, 66]   // " MiB"
    else if size >= KIB then [32, 75, 105, 66]   // " KiB"
    else [32, 66]                                // " B"
  }

  /** How many bytes the unit of a size is, by its letter. */
  function UnitOf(suffix: seq<Byte>): nat {
    if suffix == [32, 66] then 1
    else if suffix == [32, 75, 105, 66] then 1024
    else if suffix == [32, 77, 105, 66] then 1024 * 1024
    else if suffix == [32, 71, 105, 66] then 1024 * 1024 * 1024
    else 0
  }

  /** The number printed is the size in whole units, and the unit is the largest that fits. */
  lemma SizeIs(size: nat)
    ensures var v, u := Scaled(size), UnitOf(Suffix(size));
            && u > 0 && v * u <= size < (v + 1) * u
            && (u > 1 ==> v >= 1) && (u < 1024 * 1024 * 1024 ==> v < 1024)
  {
  }

  /** What fits before `limit` is everything. */
  lemma AllFits(was: seq<Byte>, s: seq<Byte>, pos: nat, limit: nat)
    requires pos + |s| <= limit <= |was|
    ensures Fitting(s, pos, limit) == s
    ensures Written(was, pos, s)[..pos + |s|] == was[..pos] + s
  {
  }

  lemma WrittenTwice(was: seq<Byte>, pos: nat, a: seq<Byte>, b: seq<Byte>)
    requires pos + |a| + |b| <= |was|
    ensures Written(Written(was, pos, a), pos + |a|, b) == Written(was, pos, a + b)
  {
    if a == [] || b == [] {
      assert a + [] == a && [] + b == b;
    } else {
      SplicedTwice(was, pos, a, b);
    }
  }

  lemma SplicedTwice(was: seq<Byte>, pos: nat, a: seq<Byte>, b: seq<Byte>)
    requires pos + |a| + |b| <= |was|
    ensures var one, k := was[..pos] + a + was[pos + |a|..], pos + |a|;
            one[..k] + b + one[k + |b|..] == was[..pos] + (a + b) + was[pos + |a + b|..]
  {
    var one, k := was[..pos] + a + was[pos + |a|..], pos + |a|;
    assert one[..k] == was[..pos] + a;
    assert one[k + |b|..] == was[k + |b|..];
  }

  /** The text of a size never reaches the end of its 24-byte buffer, so no byte is dropped. */
  method FormatSize(buf: array<Byte>, size: nat) returns (end: nat)
    requires buf.Length == 24 && size < U64
    modifies buf
    ensures end == |Decimal(Scaled(size)) + Suffix(size)| <= 24
    ensures buf[..end] == Decimal(Scaled(size)) + Suffix(size)
  {
    hide *;
    var val, suffix := Scaled(size), Suffix(size);
    ghost var was, digits := buf[..], Decimal(val);
    U64FitsTwentyDigits(val);
    AllFits(was, digits, 0, 24);
    AllFits(was, digits + suffix, 0, 24);
    end := WriteU64Decimal(buf, 0, val);
    assert digits + suffix[..0] == digits;
    for i := 0 to |suffix|
      invariant end == 0 + |Fitting(digits + suffix[..i], 0, 24)|
      invariant buf[..] == Written(was, 0, Fitting(digits + suffix[..i], 0, 24))
    {
      assert digits + suffix[..i + 1] == digits + suffix[..i] + [suffix[i]];
      end := PutByte(buf, end, suffix[i], 24, was, 0, digits + suffix[..i]);
    }
    assert suffix[..|suffix|] == suffix;
  }

  /** Both addresses of a range fit its 40-byte buffer in full. */
  method FormatAddrRange(buf: array<Byte>, start: nat, end: nat) returns (len: nat)
    requires buf.Length == 40 && start < U64 && end < U64
    modifies buf
    ensures len == |RangeText(start, end)| <= 40 && buf[..len] == RangeText(start, end)
  {
    ghost var was := buf[..];
    ghost var a, b := [ZERO, X] + Hex(start, 4), [ZERO, X] + Hex(end, 4);
    HexFits(start);
    HexFits(end);
    AllFits(was, a, 0, 40);
    AllFits(was, a + [45], 0, 40);
    AllFits(was, b, |a| + 1, 40);
    AllFits(was, a + [45] + b, 0, 40);
    WrittenTwice(was, 0, a + [45], b);
    assert HexText(start, 0, 40) == a && HexText(end, |a| + 1, 40) == b;
    assert RangeText(start, end) == a + [45] + b;
    hide *;
    len := WriteHex(buf, 0, start, 40);
    len := PutByte(buf, len, 45, 40, was, 0, a);
    len := WriteHex(buf, len, end, 40);
  }

  /** "0x<start>-0x<end>" */
  function RangeText(start: nat, end: nat): seq<Byte> {
    [ZERO, X] + Hex(start, 4) + [45] + ([ZERO, X] + Hex(end, 4))
  }

  /** Both addresses can be read back from the text of a range. */
  lemma RangeRoundTrip(start: nat, end: nat)
    ensures var n := |Hex(start, 4)|;
            var s := RangeText(start, end);
            && s == [48, 120] + s[2..2 + n] + [45] + [48, 120] + s[2 + n + 3..]
            && ParseHex(s[2..2 + n]) == start && ParseHex(s[2 + n + 3..]) == end
  {
    var a, b := Hex(start, 4), Hex(end, 4);
    var s, n := RangeText(start, end), |Hex(start, 4)|;
    HexRoundTrip(start, 4);
    HexRoundTrip(end, 4);
    hide Hex;
    hide ParseHex;
    assert s[2..2 + n] == a && s[2 + n + 3..] == b;
  }

  lemma HexFits(v: nat)
    requires v < U64
    ensures 4 <= |Hex(v, 4)| <= 16
  {
    hide Pow2;
    WordSize();
    HexLength(v, 4, 16);
  }
}
