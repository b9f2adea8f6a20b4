/**
 * Ethernet addresses as text, from lib/include/net/fgen_ether.h: the printer and the three parsers.
 *
 * A C string is a sequence without NUL; the character at its length is the terminator.
 */
module MacText {
  import opened Gf2
  import opened Options

  predicate CString(s: string) { forall i :: 0 <= i < |s| ==> s[i] != '\0' }

  /** *(s + i), which must not be beyond the terminator. */
  function At(s: string, i: nat): char
    requires i <= |s|
  {
    if i < |s| then s[i] else '\0'
  }

  /** __get_xdigit: the value of a hexadecimal digit, or -1. */
  function Xdigit(c: char): (d: int)
    ensures -1 <= d < 16
  {
    if '0' <= c <= '9' then c as int - '0' as int
    else if 'a' <= c <= 'f' then c as int - 'a' as int + 10
    else if 'A' <= c <= 'F' then c as int - 'A' as int + 10
    else -1
  }

  /** The n characters from i on are hexadecimal digits. */
  predicate Digits(s: string, i: nat, n: nat) {
    i + n <= |s| && forall k :: i <= k < i + n ==> Xdigit(s[k]) >= 0
  }

  /** The value of the two digits at i. */
  function Octet(s: string, i: nat): u8
    requires Digits(s, i, 2)
  {
    0x10 * Xdigit(s[i]) + Xdigit(s[i + 1])
  }

  // ---------------------------------------------------------------- XX:XX:XX:XX:XX:XX

  /** The first n groups of two digits, each but the sixth followed by a colon. */
  predicate Pairs(s: string, n: nat)
    requires n <= 6
  {
    forall i :: 0 <= i < n ==> Digits(s, 3 * i, 2) && (i < 5 ==> 3 * i + 2 < |s| && s[3 * i + 2] == ':')
  }

  predicate Form6(s: string) { Pairs(s, 6) && |s| == 17 }

  function Value6(s: string): (a: seq<u8>)
    requires Form6(s)
    ensures |a| == 6
  {
    seq<u8>(6, i requires 0 <= i < 6 => Octet(s, 3 * i))
  }

  /** __get_ether_addr6; the address is partly overwritten when the text is refused. */
  method GetEtherAddr6(s: string, ea: array<u8>) returns (ok: bool)
    requires CString(s) && ea.Length == 6
    modifies ea
    ensures ok <==> Form6(s)
    ensures ok ==> ea[..] == Value6(s)
  {
    var p: nat := 0;
    for i := 0 to 6
      invariant Pairs(s, i)
      invariant p == if i < 6 then 3 * i else 17
      invariant p <= |s|
      invariant forall k :: 0 <= k < i ==> ea[k] == Octet(s, 3 * k)
    {
      var x := Xdigit(At(s, p));
      p := p + 1;
      if x < 0 {
        assert !Digits(s, 3 * i, 2);
        return false;
      }
      var y := Xdigit(At(s, p));
      p := p + 1;
      if y < 0 {
        assert !Digits(s, 3 * i, 2);
        return false;
      }
      ea[i] := 0x10 * x + y;
      if i < 5 {
        var c := At(s, p);
        p := p + 1;
        if c != ':' {
          assert !(3 * i + 2 < |s| && s[3 * i + 2] == ':');
          return false;
        }
      }
    }
    ok := At(s, p) == '\0';
  }

  // ---------------------------------------------------------------- XXXX:XXXX:XXXX

  predicate Quads(s: string, n: nat)
    requires n <= 3
  {
    forall i :: 0 <= i < n ==> Digits(s, 5 * i, 4) && (i < 2 ==> 5 * i + 4 < |s| && s[5 * i + 4] == ':')
  }

  predicate Form3(s: string) { Quads(s, 3) && |s| == 14 }

  /** The value of the four digits at i. */
  function Word(s: string, i: nat): u16
    requires Digits(s, i, 4)
  {
    0x1000 * Xdigit(s[i]) + 0x100 * Xdigit(s[i + 1]) + 0x10 * Xdigit(s[i + 2]) + Xdigit(s[i + 3])
  }

  function Value3(s: string): (a: seq<u8>)
    requires Form3(s)
    ensures |a| == 6
  {
    assert Digits(s, 5 * 0, 4) && Digits(s, 5 * 1, 4) && Digits(s, 5 * 2, 4);
    var w0, w1, w2 := Word(s, 0), Word(s, 5), Word(s, 10);
    [w0 / 0x100, w0 % 0x100, w1 / 0x100, w1 % 0x100, w2 / 0x100, w2 % 0x100]
  }

  /** The inner loop of __get_ether_addr3: four digits into a word. */
  method FourDigits(s: string, p: nat) returns (w: int, q: nat)
    requires CString(s) && p <= |s|
    ensures w >= 0 <==> Digits(s, p, 4)
    ensures w >= 0 ==> w == Word(s, p) && q == p + 4
  {
    w, q := 0, p;
    for j := 0 to 4
      invariant q == p + j && Digits(s, p, j)
      invariant j == 0 ==> w == 0
      invariant j == 1 ==> w == Xdigit(s[p])
      invariant j == 2 ==> w == 0x10 * Xdigit(s[p]) + Xdigit(s[p + 1])
      invariant j == 3 ==> w == 0x100 * Xdigit(s[p]) + 0x10 * Xdigit(s[p + 1]) + Xdigit(s[p + 2])
      invariant j == 4 ==> w == Word(s, p)
    {
      var x := Xdigit(At(s, q));
      if x < 0 {
        assert !Digits(s, p, 4) by {
          assert q == |s| || Xdigit(s[q]) < 0;
        }
        return -1, q;
      }
      w, q := 0x10 * w % 0x1_0000 + x, q + 1;
    }
  }

  /** __get_ether_addr3. */
  method GetEtherAddr3(s: string, ea: array<u8>) returns (ok: bool)
    requires CString(s) && ea.Length == 6
    modifies ea
    ensures ok <==> Form3(s)
    ensures ok ==> ea[..] == Value3(s)
  {
    hide Word, Value3, Xdigit;
    var p: nat := 0;
    for g := 0 to 3
      invariant Quads(s, g)
      invariant p == (if g < 3 then 5 * g else 14) && p <= |s|
      invariant forall k :: 0 <= k < g ==>
        ea[2 * k] == Word(s, 5 * k) / 0x100 && ea[2 * k + 1] == Word(s, 5 * k) % 0x100
    {
      var w, q := FourDigits(s, p);
      if w < 0 {
        assert !Digits(s, 5 * g, 4);
        return false;
      }
      p := q;
      ea[2 * g] := w / 0x100;
      ea[2 * g + 1] := w % 0x100;
      if g < 2 {
        var c := At(s, p);
        p := p + 1;
        if c != ':' {
          assert !(5 * g + 4 < |s| && s[5 * g + 4] == ':');
          return false;
        }
      }
    }
    ok := At(s, p) == '\0';
    if ok {
      assert ea[0] == ea[2 * 0] && ea[1] == ea[2 * 0 + 1];
      assert ea[2] == ea[2 * 1] && ea[3] == ea[2 * 1 + 1];
      assert ea[4] == ea[2 * 2] && ea[5] == ea[2 * 2 + 1];
      Value3Is(s, ea[..]);
    }
  }

  lemma Value3Is(s: string, a: seq<u8>)
    requires Form3(s) && |a| == 6
    requires a[0] == Word(s, 5 * 0) / 0x100 && a[1] == Word(s, 5 * 0) % 0x100
    requires a[2] == Word(s, 5 * 1) / 0x100 && a[3] == Word(s, 5 * 1) % 0x100
    requires a[4] == Word(s, 5 * 2) / 0x100 && a[5] == Word(s, 5 * 2) % 0x100
    ensures a == Value3(s)
  {
    hide Word;
  }

  /** What ether_unformat_addr makes of a text. */
  function Unformat(s: string): Option<seq<u8>> {
    if Form6(s) then Some(Value6(s)) else if Form3(s) then Some(Value3(s)) else None
  }

  method UnformatAddr(s: string, ea: array<u8>) returns (r: int)
    requires CString(s) && ea.Length == 6
    modifies ea
    ensures r == if Unformat(s).Some? then 0 else -1
    ensures r == 0 ==> ea[..] == Unformat(s).value
  {
    var ok := GetEtherAddr6(s, ea);
    if ok {
      return 0;
    }
    ok := GetEtherAddr3(s, ea);
    if ok {
      return 0;
    }
    return -1;
  }

  // ---------------------------------------------------------------- what the texts are

  const LOWER: string := "0123456789abcdef"
  const UPPER: string := "0123456789ABCDEF"

  /** The character is the hexadecimal digit d, in lower or upper case. */
  predicate Writes(c: char, d: nat)
    requires d < 16
  {
    c == LOWER[d] || c == UPPER[d]
  }

  /** Each of the 16 digits has its value, and no other character has one. */
  lemma XdigitIs(c: char)
    ensures forall d: nat :: d < 16 ==> (Writes(c, d) <==> Xdigit(c) == d)
    ensures Xdigit(c) >= 0 <==> c in LOWER || c in UPPER
  {
    if Xdigit(c) >= 0 {
      assert Writes(c, Xdigit(c));
    }
    forall d: nat | d < 16
      ensures Writes(c, d) <==> Xdigit(c) == d
    {
      DigitIs(d);
    }
  }

  lemma DigitIs(d: nat)
    requires d < 16
    ensures Xdigit(LOWER[d]) == d && Xdigit(UPPER[d]) == d
    ensures forall c: char :: Xdigit(c) == d ==> Writes(c, d)
  {}

  /** Six groups of two digits, with colons between them. */
  predicate Writes6(s: string, a: seq<u8>)
    requires |a| == 6
  {
    |s| == 17 && forall i :: 0 <= i < 6 ==>
      Writes(s[3 * i], a[i] / 0x10) && Writes(s[3 * i + 1], a[i] % 0x10) && (i < 5 ==> s[3 * i + 2] == ':')
  }

  /** Three groups of four digits, with colons between them. */
  predicate Writes3(s: string, a: seq<u8>)
    requires |a| == 6
  {
    |s| == 14 && forall i :: 0 <= i < 3 ==>
      && Writes(s[5 * i], a[2 * i] / 0x10) && Writes(s[5 * i + 1], a[2 * i] % 0x10)
      && Writes(s[5 * i + 2], a[2 * i + 1] / 0x10) && Writes(s[5 * i + 3], a[2 * i + 1] % 0x10)
      && (i < 2 ==> s[5 * i + 4] == ':')
  }

  lemma OctetIs(s: string, i: nat, b: u8)
    requires i + 2 <= |s|
    ensures Digits(s, i, 2) && Octet(s, i) == b <==> Writes(s[i], b / 0x10) && Writes(s[i + 1], b % 0x10)
  {
    hide Xdigit, Writes;
    XdigitIs(s[i]);
    XdigitIs(s[i + 1]);
  }

  lemma WordIs(s: string, i: nat, b: u8, c: u8)
    requires i + 4 <= |s|
    ensures Digits(s, i, 4) && Word(s, i) / 0x100 == b && Word(s, i) % 0x100 == c
      <==> && Writes(s[i], b / 0x10) && Writes(s[i + 1], b % 0x10)
           && Writes(s[i + 2], c / 0x10) && Writes(s[i + 3], c % 0x10)
  {
    hide Xdigit, Writes;
    OctetIs(s, i, b);
    OctetIs(s, i + 2, c);
    assert Digits(s, i, 4) <==> Digits(s, i, 2) && Digits(s, i + 2, 2);
    if Digits(s, i, 4) {
      assert Word(s, i) == 0x100 * Octet(s, i) + Octet(s, i + 2);
      BytesOfWord(Octet(s, i), Octet(s, i + 2));
    }
  }

  lemma BytesOfWord(b: u8, c: u8)
    ensures var high: nat, low: nat := b, c;
      (0x100 * high + low) / 0x100 == b && (0x100 * high + low) % 0x100 == c
  {}

  lemma Form6Is(s: string, a: seq<u8>)
    requires |a| == 6
    ensures Form6(s) && Value6(s) == a <==> Writes6(s, a)
  {
    hide Octet, Digits, Writes;
    if |s| == 17 {
      forall i | 0 <= i < 6
        ensures Digits(s, 3 * i, 2) && Octet(s, 3 * i) == a[i]
          <==> Writes(s[3 * i], a[i] / 0x10) && Writes(s[3 * i + 1], a[i] % 0x10)
      {
        OctetIs(s, 3 * i, a[i]);
      }
    }
  }

  lemma Form3Is(s: string, a: seq<u8>)
    requires |a| == 6
    ensures Form3(s) && Value3(s) == a <==> Writes3(s, a)
  {
    hide Word, Digits, Writes;
    if |s| == 14 {
      WordIs(s, 5 * 0, a[0], a[1]);
      WordIs(s, 5 * 1, a[2], a[3]);
      WordIs(s, 5 * 2, a[4], a[5]);
    }
  }

  /** ether_unformat_addr reads an address from exactly its texts in groups of two or of four digits. */
  lemma UnformatIs(s: string, a: seq<u8>)
    requires |a| == 6
    ensures Unformat(s) == Some(a) <==> Writes6(s, a) || Writes3(s, a)
  {
    hide Form6, Form3, Value6, Value3, Writes6, Writes3;
    Form6Is(s, a);
    Form3Is(s, a);
    if Form6(s) {
      Form6Is(s, Value6(s));
      Lengths(s, a, Value6(s));
    }
  }

  /** The text of an address in groups of two, with the given 16 digits. */
  function Spelled(digits: string, a: seq<u8>): (s: string)
    requires |digits| == 16 && |a| == 6
    ensures |s| == 17
  {
    SpelledPair(digits, a[0]) + ":" + SpelledPair(digits, a[1]) + ":" + SpelledPair(digits, a[2]) + ":"
      + SpelledPair(digits, a[3]) + ":" + SpelledPair(digits, a[4]) + ":" + SpelledPair(digits, a[5])
  }

  function SpelledPair(digits: string, b: u8): (s: string)
    requires |digits| == 16
    ensures |s| == 2
  {
    [digits[b / 0x10], digits[b % 0x10]]
  }

  /** The text of every address in lower case reads as that address, and so does that in upper case. */
  lemma SpelledReads(a: seq<u8>)
    requires |a| == 6
    ensures Unformat(Spelled("0123456789abcdef", a)) == Some(a)
    ensures Unformat(Spelled("0123456789ABCDEF", a)) == Some(a)
  {
    hide Unformat;
    SpelledWrites(LOWER, a);
    SpelledWrites(UPPER, a);
    UnformatIs(Spelled(LOWER, a), a);
    UnformatIs(Spelled(UPPER, a), a);
  }

  lemma SpelledWrites(digits: string, a: seq<u8>)
    requires |a| == 6 && (digits == LOWER || digits == UPPER)
    ensures Writes6(Spelled(digits, a), a)
  {
    hide Spelled;
    var s := Spelled(digits, a);
    forall i | 0 <= i < 6
      ensures Writes(s[3 * i], a[i] / 0x10) && Writes(s[3 * i + 1], a[i] % 0x10) && (i < 5 ==> s[3 * i + 2] == ':')
    {
      SpelledAt(digits, a, i);
    }
  }

  lemma SpelledAt(digits: string, a: seq<u8>, i: nat)
    requires |digits| == 16 && |a| == 6 && i < 6
    ensures var s := Spelled(digits, a);
      && s[3 * i] == digits[a[i] / 0x10] && s[3 * i + 1] == digits[a[i] % 0x10] && (i < 5 ==> s[3 * i + 2] == ':')
  {}

  lemma Lengths(s: string, a: seq<u8>, b: seq<u8>)
    requires |a| == |b| == 6 && Writes6(s, b)
    ensures !Writes3(s, a)
  {}

  // ---------------------------------------------------------------- the printer

  function HexChar(d: nat): (c: char)
    requires d < 16
    ensures Xdigit(c) == d && c != ':' && c != '\0'
  {
    if d < 10 then '0' + d as char else 'A' + (d - 10) as char
  }

  function Pair(b: u8): (s: string)
    ensures |s| == 2
  {
    [HexChar(b / 0x10), HexChar(b % 0x10)]
  }

  /** %02X:%02X:%02X:%02X:%02X:%02X */
  function FullText(a: seq<u8>): (s: string)
    requires |a| == 6
    ensures |s| == 17
  {
    Pair(a[0]) + ":" + Pair(a[1]) + ":" + Pair(a[2]) + ":" + Pair(a[3]) + ":" + Pair(a[4]) + ":" + Pair(a[5])
  }

  /**
   * ether_format_addr into a buffer of the given size that held another text before. One byte is for the
   * terminator; a size of 0 leaves the buffer alone.
   */
  function Format(size: u16, a: seq<u8>, before: string): string
    requires |a| == 6
  {
    if size == 0 then before
    else if size < 18 then FullText(a)[..size - 1]
    else FullText(a)
  }

  /** What fits is printed, with room for the terminator. */
  lemma FormatFits(size: u16, a: seq<u8>, before: string)
    requires |a| == 6 && size > 0
    ensures Format(size, a, before) <= FullText(a)
    ensures |Format(size, a, before)| == if size <= 17 then size - 1 else 17
  {
    hide FullText;
  }

  lemma FullTextForm(a: seq<u8>)
    requires |a| == 6
    ensures Form6(FullText(a)) && Value6(FullText(a)) == a
  {
    hide FullText, HexChar, Xdigit;
    var s := FullText(a);
    forall i | 0 <= i < 6
      ensures Digits(s, 3 * i, 2) && Octet(s, 3 * i) == a[i] && (i < 5 ==> s[3 * i + 2] == ':')
    {
      TextAt(a, i);
    }
  }

  /** The printer writes upper case. */
  lemma FullTextUpper(a: seq<u8>)
    requires |a| == 6
    ensures FullText(a) == Spelled("0123456789ABCDEF", a)
  {
    hide HexChar;
    forall i | 0 <= i < 6
      ensures Pair(a[i]) == SpelledPair(UPPER, a[i])
    {
      HexCharUpper(a[i] / 0x10);
      HexCharUpper(a[i] % 0x10);
    }
  }

  lemma HexCharUpper(d: nat)
    requires d < 16
    ensures HexChar(d) == UPPER[d]
  {}

  lemma TextAt(a: seq<u8>, i: nat)
    requires |a| == 6 && i < 6
    ensures var s := FullText(a);
      && s[3 * i] == HexChar(a[i] / 0x10) && s[3 * i + 1] == HexChar(a[i] % 0x10)
      && (i < 5 ==> s[3 * i + 2] == ':')
  {
    hide HexChar;
  }

  /** The text reads back as the address exactly when the buffer holds all of it, or held it and has size 0. */
  lemma FormatUnformat(size: u16, a: seq<u8>, before: string)
    requires |a| == 6
    ensures Unformat(Format(size, a, before)) == Some(a)
      <==> size >= 18 || (size == 0 && Unformat(before) == Some(a))
  {
    FullTextForm(a);
    if 0 < size < 18 {
      var s := Format(size, a, before);
      TextAt(a, 0);
      assert |s| > 3 ==> !Digits(s, 5 * 0, 4) by {
        assert |s| > 3 ==> s[2] == ':';
      }
    }
  }

  // ---------------------------------------------------------------- fgen_ether_aton

  const ULONG_MAX: nat := 0xffff_ffff_ffff_ffff

  predicate IsSpace(c: char) { c == ' ' || '\t' <= c <= '\r' }

  /** isspace, section 7.4.1.10 of ISO C11. */
  predicate White(c: char) { c in " \t\n\U{b}\U{c}\r" }

  lemma SpacesAre(c: char)
    ensures IsSpace(c) <==> White(c)
  {}

  function SkipSpace(s: string, i: nat): (j: nat)
    requires i <= |s|
    ensures i <= j <= |s|
    decreases |s| - i
  {
    if i < |s| && IsSpace(s[i]) then SkipSpace(s, i + 1) else i
  }

  /** The end of the hexadecimal digits from i on. */
  function DigitsEnd(s: string, i: nat): (j: nat)
    requires i <= |s|
    ensures i <= j <= |s|
    decreases |s| - i
  {
    if i < |s| && Xdigit(s[i]) >= 0 then DigitsEnd(s, i + 1) else i
  }

  /** The value of the characters from i up to j, which are digits. */
  function HexValue(s: string, i: nat, j: nat): nat
    requires i <= j <= |s|
    requires forall k :: i <= k < j ==> Xdigit(s[k]) >= 0
    decreases j
  {
    if i == j then 0 else 0x10 * HexValue(s, i, j - 1) + Xdigit(s[j - 1])
  }

  lemma {:induction false} DigitsEndDigits(s: string, i: nat)
    requires i <= |s|
    ensures forall k :: i <= k < DigitsEnd(s, i) ==> Xdigit(s[k]) >= 0
    decreases |s| - i
  {
    if i < |s| && Xdigit(s[i]) >= 0 {
      DigitsEndDigits(s, i + 1);
    }
  }

  /** A conversion: whether it left errno alone, its value, and where it stopped. */
  datatype Number = Number(ok: bool, value: nat, end: nat)

  /**
   * strtoul(s + i, &end, 16) of the C library, section 7.22.1.4 of ISO C11: white space, a sign, 0x, digits.
   * Without digits it stops where it began; a value too large for 64 bits is an error.
   */
  function Strtoul(s: string, i: nat): (n: Number)
    requires i <= |s|
    ensures i <= n.end <= |s|
  {
    var j := SkipSpace(s, i);
    var signed := At(s, j) == '-' || At(s, j) == '+';
    var k := if j < |s| && signed then j + 1 else j;
    var prefix := k + 2 < |s| && s[k] == '0' && (s[k + 1] == 'x' || s[k + 1] == 'X') && Xdigit(s[k + 2]) >= 0;
    var first := if prefix then k + 2 else k;
    var end := DigitsEnd(s, first);
    DigitsEndDigits(s, first);
    var v := HexValue(s, first, end);
    if end == first then Number(true, 0, i)
    else if v > ULONG_MAX then Number(false, ULONG_MAX, end)
    else Number(true, if At(s, j) == '-' then (ULONG_MAX + 1 - v) % (ULONG_MAX + 1) else v, end)
  }

  /** s from i to j is white space, and from there to k an optional sign. */
  predicate Leads(s: string, i: nat, j: nat, k: nat) {
    && i <= j <= k <= |s| && (forall x :: i <= x < j ==> White(s[x]))
    && (k == j || (k == j + 1 && s[j] in "+-"))
  }

  /** s from k to first is the prefix 0x or nothing, and from there to end, where they end, digits. */
  predicate Counts(s: string, k: nat, first: nat, end: nat) {
    && k <= first < end <= |s| && Digits(s, first, end - first) && (end < |s| ==> Xdigit(s[end]) < 0)
    && (first == k || (first == k + 2 && s[k] == '0' && s[k + 1] in "xX"))
  }

  /** White space, a sign, a prefix and digits make a number; with a minus sign it is negated modulo 2^64. */
  lemma StrtoulIs(s: string, i: nat, j: nat, k: nat, first: nat, end: nat)
    requires Leads(s, i, j, k) && Counts(s, k, first, end) && (first == k && end == k + 1 ==> !Prefixed(s, k))
    ensures var v := HexOf(s, first, end - first);
      Strtoul(s, i) == if v >= 0x1_0000_0000_0000_0000 then Number(false, 0xffff_ffff_ffff_ffff, end)
                       else if k > j && s[j] == '-' && v > 0 then Number(true, 0x1_0000_0000_0000_0000 - v, end)
                       else Number(true, v, end)
  {
    hide HexValue, SkipSpace, DigitsEnd, IsSpace, Xdigit, White;
    NoDigits();
    assert Xdigit(s[first]) >= 0 && Xdigit(s[k]) >= 0;
    SkipsTo(s, i, j);
    RunsTo(s, first, end - first);
    assert Prefixed(s, k) <==> first == k + 2;
    DigitsEndDigits(s, first);
  }

  lemma NoDigits()
    ensures Xdigit('0') == 0 && forall c :: White(c) || c in "+-xX:" ==> Xdigit(c) < 0
    ensures !White('+') && !White('-')
  {}

  /** The prefix 0x with a digit behind it. */
  predicate Prefixed(s: string, k: nat) {
    k + 2 < |s| && s[k] == '0' && s[k + 1] in "xX" && Xdigit(s[k + 2]) >= 0
  }

  lemma {:induction false} SkipsTo(s: string, i: nat, j: nat)
    requires i <= j <= |s| && forall x :: i <= x < j ==> White(s[x])
    requires j < |s| ==> !White(s[j])
    ensures SkipSpace(s, i) == j
    decreases j - i
  {
    hide IsSpace, White;
    if i < |s| {
      SpacesAre(s[i]);
    }
    if i < j {
      SkipsTo(s, i + 1, j);
    }
  }

  lemma {:induction false} RunsTo(s: string, i: nat, n: nat)
    requires Digits(s, i, n) && (i + n < |s| ==> Xdigit(s[i + n]) < 0)
    ensures DigitsEnd(s, i) == i + n
    decreases n
  {
    if n > 0 {
      RunsTo(s, i + 1, n - 1);
    }
  }

  /** The numbers of the text from i on, n of them before; None where the loop gives up. */
  function Numbers(s: string, i: nat, n: nat): Option<seq<nat>>
    requires i <= |s| && n < 6
    decreases 6 - n
  {
    var v := Strtoul(s, i);
    if !v.ok || v.end == i || (At(s, v.end) != ':' && v.end < |s|) then None
    else if v.end == |s| then Some([v.value])
    else if n == 5 then None
    else
      var rest := Numbers(s, v.end + 1, n + 1);
      if rest.None? then None else Some([v.value] + rest.value)
  }

  /** What fgen_ether_aton makes of a text. */
  function Aton(s: string): Option<seq<nat>> {
    var o := Numbers(s, 0, 0);
    if o.None? then None
    else
      var w := o.value;
      if |w| == 6 && (forall k :: 0 <= k < 6 ==> w[k] <= 0xff) then Some(w)
      else if |w| == 3 && (forall k :: 0 <= k < 3 ==> w[k] <= 0xffff) then
        Some([w[0] / 0x100, w[0] % 0x100, w[1] / 0x100, w[1] % 0x100, w[2] / 0x100, w[2] % 0x100])
      else None
  }

  /** A run of digits that stops at a colon or at the end is one number. */
  lemma NumberAt(s: string, i: nat, n: nat)
    requires n > 0 && Digits(s, i, n) && (i + n == |s| || s[i + n] == ':')
    requires HexOf(s, i, n) <= ULONG_MAX
    ensures Strtoul(s, i) == Number(true, HexOf(s, i, n), i + n)
  {
    hide Strtoul, HexOf, Xdigit;
    NoDigits();
    StrtoulIs(s, i, i, i, i, i + n);
  }

  function HexOf(s: string, i: nat, n: nat): nat
    requires Digits(s, i, n)
  {
    HexValue(s, i, i + n)
  }

  /** Six numbers of a byte each, or three of two bytes each with the high one first, are an address. */
  lemma AtonIs(s: string, a: seq<nat>)
    requires |a| == 6
    ensures Aton(s) == Some(a) <==>
      && (forall k :: 0 <= k < 6 ==> a[k] < 0x100)
      && (Numbers(s, 0, 0) == Some(a)
          || Numbers(s, 0, 0) == Some([0x100 * a[0] + a[1], 0x100 * a[2] + a[3], 0x100 * a[4] + a[5]]))
  {
    hide Numbers;
    if Numbers(s, 0, 0).Some? {
      AddressIs(Numbers(s, 0, 0).value, a);
    }
  }

  lemma AddressIs(w: seq<nat>, a: seq<nat>)
    requires |a| == 6
    ensures |w| == 3 ==>
      (w == [0x100 * a[0] + a[1], 0x100 * a[2] + a[3], 0x100 * a[4] + a[5]] && (forall k :: 0 <= k < 6 ==> a[k] < 0x100)
       <==> (forall k :: 0 <= k < 3 ==> w[k] <= 0xffff)
            && a == [w[0] / 0x100, w[0] % 0x100, w[1] / 0x100, w[1] % 0x100, w[2] / 0x100, w[2] % 0x100])
  {
    if |w| == 3 {
      HighLow(w[0], a[0], a[1]);
      HighLow(w[1], a[2], a[3]);
      HighLow(w[2], a[4], a[5]);
    }
  }

  lemma HighLow(w: nat, a: nat, b: nat)
    ensures w == 0x100 * a + b && a < 0x100 && b < 0x100 <==> w <= 0xffff && a == w / 0x100 && b == w % 0x100
  {}

  /** On every text that ether_unformat_addr accepts, fgen_ether_aton returns the same address. */
  lemma AtonAgrees(s: string)
    requires Unformat(s).Some?
    ensures Aton(s) == Some(Unformat(s).value)
  {
    if Form6(s) {
      Agrees6(s);
    } else {
      Agrees3(s);
    }
  }

  lemma Agrees6(s: string)
    requires Form6(s)
    ensures Aton(s) == Some(Value6(s))
  {
    hide Numbers, Octet, Form6;
    Numbers6(s, 0);
    assert Value6(s)[0..] == Value6(s);
  }

  lemma Agrees3(s: string)
    requires Form3(s)
    ensures Aton(s) == Some(Value3(s))
  {
    hide Numbers, Form3, Word;
    Numbers3(s);
    assert Digits(s, 0, 4) && Digits(s, 5, 4) && Digits(s, 10, 4) by {
      Number3(s, 0);
      Number3(s, 1);
      Number3(s, 2);
    }
    assert Quad(s, 0) == Word(s, 0) && Quad(s, 1) == Word(s, 5) && Quad(s, 2) == Word(s, 10);
  }

  /** The loop goes on after a number that stops at a colon. */
  lemma NumbersStep(s: string, i: nat, n: nat, v: nat, end: nat)
    requires i < end <= |s| && n < 6 && Strtoul(s, i) == Number(true, v, end)
    requires end < |s| ==> s[end] == ':'
    ensures end == |s| ==> Numbers(s, i, n) == Some([v])
    ensures end < |s| && n < 5 && Numbers(s, end + 1, n + 1).Some?
      ==> Numbers(s, i, n) == Some([v] + Numbers(s, end + 1, n + 1).value)
  {
    hide Strtoul;
  }

  lemma Number6(s: string, n: nat)
    requires Form6(s) && n < 6
    ensures Digits(s, 3 * n, 2) && Strtoul(s, 3 * n) == Number(true, Octet(s, 3 * n), 3 * n + 2)
    ensures n < 5 ==> s[3 * n + 2] == ':'
  {
    hide Strtoul;
    assert Digits(s, 3 * n, 2);
    assert HexValue(s, 3 * n, 3 * n + 1) == Xdigit(s[3 * n]);
    NumberAt(s, 3 * n, 2);
  }

  lemma {:induction false} Numbers6(s: string, n: nat)
    requires Form6(s) && n < 6
    ensures Numbers(s, 3 * n, n) == Some(Value6(s)[n..])
    decreases 6 - n
  {
    hide Strtoul, Numbers, Octet;
    Number6(s, n);
    if n < 5 {
      Numbers6(s, n + 1);
    }
    NumbersStep(s, 3 * n, n, Octet(s, 3 * n), 3 * n + 2);
    assert Value6(s)[n..] == [Octet(s, 3 * n)] + Value6(s)[n + 1..];
    assert Value6(s)[6..] == [] && [Octet(s, 3 * n)] + [] == [Octet(s, 3 * n)];
  }

  function Quad(s: string, g: nat): u16
    requires Form3(s) && g < 3
  {
    assert Digits(s, 5 * g, 4);
    Word(s, 5 * g)
  }

  lemma Numbers3(s: string)
    requires Form3(s)
    ensures Numbers(s, 0, 0) == Some([Quad(s, 0), Quad(s, 1), Quad(s, 2)])
  {
    hide Strtoul, Numbers, Quad;
    Number3(s, 0);
    Number3(s, 1);
    Number3(s, 2);
    NumbersStep(s, 10, 2, Quad(s, 2), 14);
    NumbersStep(s, 5, 1, Quad(s, 1), 9);
    NumbersStep(s, 0, 0, Quad(s, 0), 4);
    assert [Quad(s, 0)] + ([Quad(s, 1)] + [Quad(s, 2)]) == [Quad(s, 0), Quad(s, 1), Quad(s, 2)];
  }

  lemma Number3(s: string, g: nat)
    requires Form3(s) && g < 3
    ensures Digits(s, 5 * g, 4) && Strtoul(s, 5 * g) == Number(true, Quad(s, g), 5 * g + 4)
    ensures g < 2 ==> s[5 * g + 4] == ':'
  {
    hide Strtoul;
    var i := 5 * g;
    assert Digits(s, 5 * g, 4);
    assert HexValue(s, i, i + 1) == Xdigit(s[i]);
    assert HexValue(s, i, i + 2) == 0x10 * HexValue(s, i, i + 1) + Xdigit(s[i + 1]);
    assert HexValue(s, i, i + 3) == 0x10 * HexValue(s, i, i + 2) + Xdigit(s[i + 2]);
    NumberAt(s, i, 4);
  }

  /** The numbers read so far, followed by those that are left, are all of them. */
  ghost predicate ContinuesAs(s: string, done: seq<nat>, p: nat) {
    p <= |s| && |done| < 6 &&
    Numbers(s, 0, 0)
      == var rest := Numbers(s, p, |done|); if rest.None? then None else Some(done + rest.value)
  }

  /** A number that makes the loop give up. */
  predicate Refused(s: string, p: nat, v: Number)
    requires v.end <= |s|
  {
    !v.ok || v.end == p || (At(s, v.end) != ':' && v.end < |s|)
  }

  lemma LoopStep(s: string, done: seq<nat>, p: nat)
    requires ContinuesAs(s, done, p)
    ensures
      var v := Strtoul(s, p);
      var more := done + [v.value];
      if Refused(s, p, v) then Numbers(s, 0, 0) == None
      else if v.end == |s| then Numbers(s, 0, 0) == Some(more)
      else if |more| == 6 then Numbers(s, 0, 0) == None
      else ContinuesAs(s, more, v.end + 1)
  {
    hide Strtoul;
    var v := Strtoul(s, p);
    if !Refused(s, p, v) && v.end < |s| && |done| < 5 {
      var rest := Numbers(s, v.end + 1, |done| + 1);
      if rest.Some? {
        assert done + ([v.value] + rest.value) == (done + [v.value]) + rest.value;
      }
    }
  }

  /** The loop of fgen_ether_aton over the numbers. */
  method ReadNumbers(a: string) returns (ok: bool, i: nat, o: array<nat>)
    ensures o.Length == 6 && i <= 6 && fresh(o)
    ensures ok <==> Numbers(a, 0, 0).Some?
    ensures ok ==> o[..i] == Numbers(a, 0, 0).value
  {
    hide Strtoul, Numbers;
    o := new nat[6];
    var p: nat := 0;
    i := 0;
    assert ContinuesAs(a, o[..0], 0) by {
      assert Numbers(a, 0, 0).Some? ==> [] + Numbers(a, 0, 0).value == Numbers(a, 0, 0).value;
    }
    while true
      invariant i < 6 && ContinuesAs(a, o[..i], p)
      decreases 6 - i
    {
      LoopStep(a, o[..i], p);
      ghost var done := o[..i];
      var v := Strtoul(a, p);
      o[i] := v.value;
      assert o[..i + 1] == done + [v.value];
      if Refused(a, p, v) {
        return false, i, o;
      }
      p := v.end + 1;
      i := i + 1;
      if i == 6 || v.end == |a| {
        return v.end == |a|, i, o;
      }
    }
  }

  /** fgen_ether_aton; the address is partly overwritten when the text is refused. */
  method EtherAton(a: string, ea: array?<u8>) returns (ok: bool)
    requires CString(a) && (ea != null ==> ea.Length == 6)
    modifies ea
    ensures ok <==> ea != null && Aton(a).Some?
    ensures ok ==> ea[..] == Aton(a).value
  {
    hide Numbers;
    if ea == null {
      return false;
    }
    var got, n, o := ReadNumbers(a);
    if !got {
      return false;
    }
    ghost var w := o[..n];
    if n == 6 {
      for i := 6 downto 0
        invariant forall k :: i <= k < 6 ==> w[k] <= 0xff && ea[k] == w[k]
        invariant o[..n] == w
      {
        assert o[i] == w[i];
        if o[i] > 0xff {
          return false;
        }
        ea[i] := o[i];
      }
      return true;
    }
    if n == 3 {
      for i := 3 downto 0
        invariant forall k :: i <= k < 3 ==>
          w[k] <= 0xffff && ea[2 * k] == w[k] / 0x100 && ea[2 * k + 1] == w[k] % 0x100
        invariant o[..n] == w
      {
        assert o[i] == w[i];
        if o[i] > 0xffff {
          return false;
        }
        ea[2 * i] := o[i] / 0x100;
        ea[2 * i + 1] := o[i] % 0x100;
      }
      assert ea[0] == ea[2 * 0] && ea[1] == ea[2 * 0 + 1];
      assert ea[2] == ea[2 * 1] && ea[3] == ea[2 * 1 + 1];
      assert ea[4] == ea[2 * 2] && ea[5] == ea[2 * 2 + 1];
      return true;
    }
    return false;
  }
}
