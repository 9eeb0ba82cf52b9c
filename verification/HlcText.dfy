/** The printed form of a timestamp: `Display` and `FromStr` of datacake-crdt/src/timestamp.rs. This is
how the SQLite store keeps timestamps. */
module HlcText {
  import opened Hlc
  import opened HlcCodec
  import opened Records

  function Digit(d: nat): char
    requires d < 16
  {
    if d < 10 then '0' + d as char else 'A' + (d - 10) as char
  }

  function Digits(n: nat, base: nat): string
    requires 2 <= base <= 16
  {
    if n < base then [Digit(n)] else Digits(n / base, base) + [Digit(n % base)]
  }

  /** `{:0>4}`: at least four characters, filled with zeros on the left. */
  function Pad(s: string): string
    decreases 4 - |s|
  {
    if |s| >= 4 then s else Pad("0" + s)
  }

  /** `{}-{:0>4}-{:0>4X}-{:0>4}`: seconds, fraction, counter in hexadecimal, node. */
  function ShowFields(seconds: nat, fraction: nat, counter: nat, node: nat): string {
    Digits(seconds, 10) + "-" + (Pad(Digits(fraction, 10)) + "-" + (Pad(Digits(counter, 16)) + "-"
    + Pad(Digits(node, 10))))
  }

  function Show(p: Packed): string { ShowFields(Seconds(p), Fraction(p), Counter(p), Node(p)) }

  /** The value of a digit, in either case. */
  function DigitValue(c: char, base: nat): Option<nat> {
    var v := if '0' <= c <= '9' then (c - '0') as nat
             else if 'a' <= c <= 'f' then (c - 'a') as nat + 10
             else if 'A' <= c <= 'F' then (c - 'A') as nat + 10
             else base;
    if v < base then Some(v) else None
  }

  function ReadDigits(s: string, base: nat): Option<nat> {
    if s == "" then Some(0)
    else
      match (ReadDigits(s[..|s| - 1], base), DigitValue(s[|s| - 1], base))
      case (Some(v), Some(d)) => Some(v * base + d)
      case _ => None
  }

  /** Parsing an unsigned integer with a largest value: not empty, one leading plus sign allowed. */
  function ReadUnsigned(s: string, base: nat, max: nat): Option<nat> {
    if s == "" then None
    else
      match ReadDigits(if |s| > 1 && s[0] == '+' then s[1..] else s, base)
      case Some(v) => if v <= max then Some(v) else None
      case None => None
  }

  /** `splitn(n, '-')`. */
  function SplitN(s: string, n: nat): seq<string>
    requires n > 0
    decreases n
  {
    if n == 1 || '-' !in s then [s]
    else
      var i := Dash(s);
      [s[..i]] + SplitN(s[i + 1..], n - 1)
  }

  /** Where the first dash is. */
  function Dash(s: string): (i: nat)
    requires '-' in s
    ensures i < |s| && s[i] == '-' && '-' !in s[..i]
  {
    if s[0] == '-' then 0 else
      var i := 1 + Dash(s[1..]);
      assert s[..i] == [s[0]] + s[1..][..i - 1];
      i
  }

  /** The result of parsing: a stamp, `InvalidFormat`, or the panic of `new` on too many seconds. */
  datatype Parsed = Parsed(stamp: Packed) | InvalidFormat | Panics

  function Parse(s: string): Parsed {
    var parts := SplitN(s, 4);
    if |parts| < 4 then InvalidFormat
    else
      match (ReadUnsigned(parts[0], 10, 0xFFFF_FFFF_FFFF_FFFF), ReadUnsigned(parts[1], 10, 0xFF),
             ReadUnsigned(parts[2], 16, 0xFFFF), ReadUnsigned(parts[3], 10, 0xFF))
      case (Some(seconds), Some(fraction), Some(counter), Some(node)) =>
        if counter < 0x1_0000 && node < 0x100 then
          var t := Stamp(seconds * 250 + fraction, counter, node);
          if Fits(t) then Parsed(Pack(t)) else Panics
        else InvalidFormat
      case _ => InvalidFormat
  }

  /* Digits. */

  lemma DigitRoundTrip(d: nat, base: nat)
    requires d < base <= 16
    ensures DigitValue(Digit(d), base) == Some(d) && Digit(d) != '-' && Digit(d) != '+'
  {
  }

  /** Dropping the last digit is dividing. */
  lemma Requotient(n: nat, base: nat)
    requires base == 10 || base == 16
    ensures n / base * base + n % base == n && n % base < base
  {
  }

  /** Appending the digit `d` to a reading of `v`. */
  lemma ReadAppended(s: string, d: nat, base: nat, v: nat, n: nat)
    requires d < base <= 16 && ReadDigits(s, base) == Some(v) && n == v * base + d
    ensures ReadDigits(s + [Digit(d)], base) == Some(n)
  {
    DigitRoundTrip(d, base);
    var t := s + [Digit(d)];
    assert t[..|t| - 1] == s;
    hide DigitValue, Digit;
  }

  predicate Plain(s: string) { s != "" && '-' !in s && '+' !in s }

  lemma PlainAppended(s: string, d: nat)
    requires d < 16 && (s == "" || Plain(s))
    ensures Plain(s + [Digit(d)])
  {
  }

  lemma {:induction false} DigitsRead(n: nat, base: nat)
    requires base == 10 || base == 16
    ensures ReadDigits(Digits(n, base), base) == Some(n) && Plain(Digits(n, base))
  {
    assert ReadDigits("", base) == Some(0);
    hide ReadDigits, Digit, Plain;
    if n < base {
      assert Digits(n, base) == "" + [Digit(n)];
      ReadAppended("", n, base, 0, n);
      PlainAppended("", n);
    } else {
      Requotient(n, base);
      assert Digits(n, base) == Digits(n / base, base) + [Digit(n % base)];
      DigitsRead(n / base, base);
      hide Digits;
      ReadAppended(Digits(n / base, base), n % base, base, n / base, n);
      PlainAppended(Digits(n / base, base), n % base);
    }
  }

  lemma {:induction false} LeadingZero(s: string, base: nat)
    requires 2 <= base <= 16
    ensures ReadDigits("0" + s, base) == ReadDigits(s, base)
  {
    var z := "0" + s;
    if s == "" {
      assert z[..0] == "" && DigitValue('0', base) == Some(0);
    } else {
      assert z[..|z| - 1] == "0" + s[..|s| - 1];
      LeadingZero(s[..|s| - 1], base);
    }
  }

  lemma {:induction false} PadRead(s: string, base: nat)
    requires 2 <= base <= 16 && Plain(s)
    ensures ReadDigits(Pad(s), base) == ReadDigits(s, base) && Plain(Pad(s))
    decreases 4 - |s|
  {
    if |s| < 4 {
      LeadingZero(s, base);
      PadRead("0" + s, base);
    }
  }

  /** Printing and reading back a field, padded or not. */
  lemma FieldRoundTrip(n: nat, base: nat, max: nat)
    requires (base == 10 || base == 16) && n <= max
    ensures ReadUnsigned(Digits(n, base), base, max) == Some(n) && '-' !in Digits(n, base)
    ensures ReadUnsigned(Pad(Digits(n, base)), base, max) == Some(n) && '-' !in Pad(Digits(n, base))
  {
    DigitsRead(n, base);
    PadRead(Digits(n, base), base);
    assert Digits(n, base)[0] in Digits(n, base) && Pad(Digits(n, base))[0] in Pad(Digits(n, base));
  }

  lemma SplitFirst(a: string, rest: string, n: nat)
    requires n > 1 && '-' !in a
    ensures SplitN(a + "-" + rest, n) == [a] + SplitN(rest, n - 1)
  {
    var s := a + "-" + rest;
    assert s[|a|] == '-';
    var i := Dash(s);
    assert forall j :: 0 <= j < |a| ==> s[j] == a[j] && a[j] in a;
    assert i == |a|;
    assert s[..i] == a && s[i + 1..] == rest;
  }

  lemma SplitFour(a: string, b: string, c: string, d: string)
    requires '-' !in a && '-' !in b && '-' !in c
    ensures SplitN(a + "-" + (b + "-" + (c + "-" + d)), 4) == [a, b, c, d]
  {
    hide SplitN;
    var cd := c + "-" + d;
    var bcd := b + "-" + cd;
    SplitFirst(a, bcd, 4);
    SplitFirst(b, cd, 3);
    SplitFirst(c, d, 2);
    SplitOne(d);
  }

  lemma SplitOne(s: string)
    ensures SplitN(s, 1) == [s]
  {
  }

  /* The round trip. */

  lemma ParseParts(s: string, a: string, b: string, c: string, d: string, t: Stamp)
    requires SplitN(s, 4) == [a, b, c, d]
    requires ReadUnsigned(c, 16, 0xFFFF) == Some(t.counter) && ReadUnsigned(d, 10, 0xFF) == Some(t.node)
    requires ReadUnsigned(a, 10, 0xFFFF_FFFF_FFFF_FFFF).Some? && ReadUnsigned(b, 10, 0xFF).Some?
    requires ReadUnsigned(a, 10, 0xFFFF_FFFF_FFFF_FFFF).value * 250 + ReadUnsigned(b, 10, 0xFF).value == t.time
    ensures Parse(s) == if Fits(t) then Parsed(Pack(t)) else Panics
  {
    hide SplitN, ReadUnsigned, Pack, Fits;
  }

  /** Parsing printed fields: the stamp they make, if it fits. */
  lemma ParseFields(seconds: nat, fraction: nat, counter: Count, node: NodeId)
    requires seconds <= 0xFFFF_FFFF_FFFF_FFFF && fraction <= 0xFF
    ensures var t := Stamp(seconds * 250 + fraction, counter, node);
            Parse(ShowFields(seconds, fraction, counter, node)) == if Fits(t) then Parsed(Pack(t)) else Panics
  {
    FieldRoundTrip(seconds, 10, 0xFFFF_FFFF_FFFF_FFFF);
    FieldRoundTrip(fraction, 10, 0xFF);
    FieldRoundTrip(counter, 16, 0xFFFF);
    FieldRoundTrip(node, 10, 0xFF);
    hide Digits, Pad, SplitN, ReadUnsigned, Pack, Fits, Parse;
    var a, b, c, d := Digits(seconds, 10), Pad(Digits(fraction, 10)), Pad(Digits(counter, 16)), Pad(Digits(node, 10));
    SplitFour(a, b, c, d);
    ParseParts(ShowFields(seconds, fraction, counter, node), a, b, c, d, Stamp(seconds * 250 + fraction, counter, node));
  }

  lemma SmallFields(p: Packed)
    ensures Seconds(p) <= 0xFFFF_FFFF_FFFF_FFFF && Fraction(p) <= 0xFF
  {
  }

  /** Parsing what was printed: the packed form of what the accessors read, if it fits. */
  lemma ParseShow(p: Packed)
    ensures Parse(Show(p)) == if Fits(Unpack(p)) then Parsed(Pack(Unpack(p))) else Panics
  {
    SmallFields(p);
    hide Parse, ShowFields, Pack, Fits, Seconds, Fraction, Counter, Node;
    ParseFields(Seconds(p), Fraction(p), Counter(p), Node(p));
  }

  /** A stamp survives being printed and parsed exactly when it is well formed. */
  lemma RoundTripIff(p: Packed)
    ensures Parse(Show(p)) == Parsed(p) <==> WellFormed(p)
  {
    ParseShow(p);
    PackUnpackIff(p);
    hide Parse, Show, Pack, Unpack, WellFormed;
  }

  /** The word with a fraction of 250 and nothing else reads as one second, and stays so. */
  lemma FractionOverflows()
    ensures var word: Packed := 250 * FRACTION_UNIT;
            !WellFormed(word) && Parse(Show(word)) == Parsed(SECONDS_UNIT) && SECONDS_UNIT != word
  {
    var word: Packed := 250 * FRACTION_UNIT;
    Unfields(0, 250, 0, 0);
    assert Unpack(word) == Stamp(250, 0, 0);
    assert Pack(Stamp(250, 0, 0)) == SECONDS_UNIT;
    ParseShow(word);
    hide Parse, Show, Unpack, Pack;
  }

  /** Whatever the text, a stamp that comes out of the parser is well formed. */
  lemma ParsedIsWellFormed(s: string)
    requires Parse(s).Parsed?
    ensures WellFormed(Parse(s).stamp)
  {
    hide SplitN, ReadUnsigned;
    var parts := SplitN(s, 4);
    var a, b, c, d := ReadUnsigned(parts[0], 10, 0xFFFF_FFFF_FFFF_FFFF), ReadUnsigned(parts[1], 10, 0xFF),
                      ReadUnsigned(parts[2], 16, 0xFFFF), ReadUnsigned(parts[3], 10, 0xFF);
    UnpackPack(Stamp(a.value * 250 + b.value, c.value, d.value));
  }

  /* The printed form. */

  predicate IsDigit(c: char, base: nat) { '0' <= c <= '9' || (base == 16 && 'A' <= c <= 'F') }

  /** Plain digits, in upper case, without leading zeros. */
  lemma {:induction false} DigitsAreCanonical(n: nat, base: nat)
    requires base == 10 || base == 16
    ensures var s := Digits(n, base);
            s != "" && (forall i :: 0 <= i < |s| ==> IsDigit(s[i], base)) && (s[0] == '0' ==> n == 0 && s == "0")
  {
    if n >= base {
      assert n / base > 0 && n % base < base;
      DigitsAreCanonical(n / base, base);
      var head, d := Digits(n / base, base), n % base;
      assert Digits(n, base) == head + [Digit(d)];
      assert IsDigit(Digit(d), base);
      hide Digits, Digit, IsDigit;
    }
  }

  /** Padding puts zeros before the digits, up to four characters. */
  lemma {:induction false} PadMeans(s: string)
    ensures |Pad(s)| == Max(|s|, 4)
    ensures Pad(s)[|Pad(s)| - |s|..] == s && forall i :: 0 <= i < |Pad(s)| - |s| ==> Pad(s)[i] == '0'
    decreases 4 - |s|
  {
    if |s| < 4 {
      var z := "0" + s;
      PadMeans(z);
      var p := Pad(s);
      assert p == Pad(z) && p[|p| - |z|..] == z;
      assert p[|p| - |s|..] == p[|p| - |z|..][1..];
      assert p[|p| - |z|] == p[|p| - |z|..][0];
      hide Pad;
    }
  }

  /** How many digits a number below the base, its square, and so on has. */
  lemma {:induction false} DigitCount(n: nat, base: nat, k: nat)
    requires (base == 10 || base == 16) && k > 0 && n < Power(base, k)
    ensures |Digits(n, base)| <= k
    decreases k
  {
    if n >= base {
      assert k > 1;
      SmallerQuotient(n, base, Power(base, k - 1));
      DigitCount(n / base, base, k - 1);
    }
  }

  function Power(base: nat, k: nat): nat { if k == 0 then 1 else base * Power(base, k - 1) }

  lemma SmallerQuotient(n: nat, base: nat, m: nat)
    requires (base == 10 || base == 16) && n < base * m
    ensures n / base < m
  {
  }

  /** Every field after the first is printed with exactly four characters, the counter in hexadecimal:
  the number's own digits after as many zeros as it takes. */
  lemma FieldsAreFourWide(p: Packed)
    ensures |Pad(Digits(Fraction(p), 10))| == 4 && |Pad(Digits(Counter(p), 16))| == 4 && |Pad(Digits(Node(p), 10))| == 4
    ensures Show(p) == Digits(Seconds(p), 10) + "-" + (Pad(Digits(Fraction(p), 10)) + "-" + (Pad(Digits(Counter(p), 16)) + "-" + Pad(Digits(Node(p), 10))))
  {
    Powers();
    SmallFields(p);
    DigitCount(Fraction(p), 10, 4);
    DigitCount(Counter(p), 16, 4);
    DigitCount(Node(p), 10, 4);
    PadMeans(Digits(Fraction(p), 10));
    PadMeans(Digits(Counter(p), 16));
    PadMeans(Digits(Node(p), 10));
    hide Digits, Pad, Power;
  }

  lemma Powers()
    ensures Power(10, 4) == 10_000 && Power(16, 4) == 65_536
  {
    assert Power(10, 1) == 10 && Power(10, 2) == 100 && Power(10, 3) == 1_000;
    assert Power(16, 1) == 16 && Power(16, 2) == 256 && Power(16, 3) == 4_096;
  }

  /** One second, and nothing else, prints as four fields. */
  lemma OneSecond()
    ensures Show(SECONDS_UNIT) == "1-0000-0000-0000"
  {
    var p: Packed := SECONDS_UNIT;
    Unfields(1, 0, 0, 0);
    assert Digits(1, 10) == "1" && Digits(0, 10) == "0" && Digits(0, 16) == "0";
    PadMeans("0");
    assert Pad("0") == "0000";
    hide Digits, Pad, Seconds, Fraction, Counter, Node;
    assert Show(p) == "1" + "-" + ("0000" + "-" + ("0000" + "-" + "0000"));
  }

  /* Other texts. */

  /** What is read: fields split at the first three dashes, the third in hexadecimal, each within its
  width. */
  lemma ParseMeans(a: string, b: string, c: string, d: string)
    requires '-' !in a && '-' !in b && '-' !in c
    ensures var s := a + "-" + (b + "-" + (c + "-" + d));
            var (x, y, z, n) := (ReadUnsigned(a, 10, 18446744073709551615), ReadUnsigned(b, 10, 255),
                                 ReadUnsigned(c, 16, 65535), ReadUnsigned(d, 10, 255));
            (Parse(s) == InvalidFormat <==> x.None? || y.None? || z.None? || n.None?)
            && (Parse(s) == Panics <==> x.Some? && y.Some? && z.Some? && n.Some? && (x.value * 250 + y.value) / 250 >= 4_294_967_296)
  {
    SplitFour(a, b, c, d);
    SmallNumber(c, 16, 65535);
    SmallNumber(d, 10, 255);
    hide SplitN, ReadUnsigned, Pack;
  }

  lemma SmallNumber(s: string, base: nat, max: nat)
    ensures ReadUnsigned(s, base, max).Some? ==> ReadUnsigned(s, base, max).value <= max
  {
    hide ReadDigits;
  }

  /** Fewer than three dashes are too few. */
  lemma TooFewFields(a: string, b: string, c: string)
    requires '-' !in a && '-' !in b && '-' !in c
    ensures Parse(a) == Parse(a + "-" + b) == Parse(a + "-" + (b + "-" + c)) == InvalidFormat
  {
    SplitFirst(a, b, 4);
    SplitFirst(a, b + "-" + c, 4);
    SplitFirst(b, c, 3);
    NoDash(a, 4);
    NoDash(b, 3);
    NoDash(c, 2);
    hide SplitN, ReadUnsigned;
  }

  lemma NoDash(s: string, n: nat)
    requires n > 0 && '-' !in s
    ensures SplitN(s, n) == [s]
  {
  }

  /** A plus sign may stand before a number, and nothing may not. */
  lemma SignIsAllowed(s: string, base: nat, max: nat)
    requires s != "" && s[0] != '+'
    ensures ReadUnsigned("+" + s, base, max) == ReadUnsigned(s, base, max) && ReadUnsigned("", base, max) == None
  {
    assert ("+" + s)[1..] == s;
    hide ReadDigits;
  }

  /** Hexadecimal is read in either case, and decimal digits only as far as the base goes. */
  lemma EitherCase(d: nat)
    requires d < 6
    ensures DigitValue('a' + d as char, 16) == DigitValue('A' + d as char, 16) == Some(10 + d)
    ensures DigitValue('a' + d as char, 10) == DigitValue('A' + d as char, 10) == None
  {
  }
}
