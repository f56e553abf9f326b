/** IPv4 addresses as Python's `ipaddress.IPv4Address` reads and prints
    them: strict dotted decimal, four octets of one to three ASCII digits,
    no leading zeros (the rule of section 3.1.1 of RFC 6943 that
    `inet_pton` also follows), each at most 255. */
module Ipv4 {
  import opened Wrappers
  import opened Radix
  import opened Strings
  import opened Numerals

  type Octet = x: nat | x < 256

  /** Four octets, most significant first. */
  datatype IPv4Address = IPv4Address(a: Octet, b: Octet, c: Octet, d: Octet)

  /** The reasons `IPv4Address(text)` raises `AddressValueError`. */
  datatype AddressValueError =
    | UnexpectedSlash
    | EmptyAddress
    | WrongOctetCount
    | EmptyOctet
    | NonDecimalOctet
    | OctetTooLong
    | LeadingZeros
    | OctetTooLarge

  /** One dotted-decimal field; the checks run in the library's order, so
      the first failing one names the error. Only the printed form of a
      number is accepted. */
  function ParseOctet(s: string): (r: Result<Octet, AddressValueError>)
    ensures r.Ok? ==> s == DecimalText(r.value)
    ensures r.Err? && s != [] && AllDecimal(s) && |s| <= 3 && (s == "0" || s[0] != '0')
      ==> r.error == OctetTooLarge
  {
    if s == [] then Err(EmptyOctet)
    else if !AllDecimal(s) then Err(NonDecimalOctet)
    else if |s| > 3 then Err(OctetTooLong)
    else if s != "0" && s[0] == '0' then Err(LeadingZeros)
    else if DecimalValue(s) > 255 then Err(OctetTooLarge)
    else
      DecimalTextOfValue(s);
      Ok(DecimalValue(s))
  }

  /** `str(address)`: `'%d.%d.%d.%d'`. */
  function Format(addr: IPv4Address): string {
    Join(OctetTexts(addr), '.')
  }

  function OctetTexts(addr: IPv4Address): seq<string> {
    [DecimalText(addr.a), DecimalText(addr.b), DecimalText(addr.c), DecimalText(addr.d)]
  }

  /** `IPv4Address(text)`. Strict: whatever it accepts is exactly the text
      `Format` prints for the result. */
  function Parse(s: string): (r: Result<IPv4Address, AddressValueError>)
    ensures r.Ok? ==> Format(r.value) == s
  {
    if '/' in s then Err(UnexpectedSlash)
    else if s == [] then Err(EmptyAddress)
    else
      var octets := Split(s, '.');
      if |octets| != 4 then Err(WrongOctetCount)
      else
        var a :- ParseOctet(octets[0]);
        var b :- ParseOctet(octets[1]);
        var c :- ParseOctet(octets[2]);
        var d :- ParseOctet(octets[3]);
        OctetsOf(octets, IPv4Address(a, b, c, d));
        Ok(IPv4Address(a, b, c, d))
  }

  lemma {:induction false} ParseOctetText(n: Octet)
    ensures ParseOctet(DecimalText(n)) == Ok(n)
  {
    DecimalTextLength(n);
    DecimalTextCanonical(n);
    DecimalRoundTrip(n);
  }

  lemma OctetsOf(octets: seq<string>, addr: IPv4Address)
    requires |octets| == 4
    requires octets[0] == DecimalText(addr.a) && octets[1] == DecimalText(addr.b)
    requires octets[2] == DecimalText(addr.c) && octets[3] == DecimalText(addr.d)
    ensures OctetTexts(addr) == octets
  {
  }

  /** A printed octet is a non-empty run of decimal digits. */
  lemma OctetTextChars(n: nat)
    ensures DecimalText(n) != [] && '.' !in DecimalText(n) && '/' !in DecimalText(n) && ':' !in DecimalText(n)
  {
    DecimalTextCanonical(n);
  }

  /** The printed form splits back into the four octet texts. */
  lemma FormatParts(addr: IPv4Address)
    ensures var s := Format(addr);
      '/' !in s && s != [] && Split(s, '.') == OctetTexts(addr)
  {
    var parts := OctetTexts(addr);
    OctetTextChars(addr.a);
    OctetTextChars(addr.b);
    OctetTextChars(addr.c);
    OctetTextChars(addr.d);
    SplitJoin(parts, '.');
    NoCharInJoin(parts, '.', '/');
  }

  /** The printed form holds only decimal digits and '.'. */
  lemma FormatChars(addr: IPv4Address)
    ensures forall c :: c in Format(addr) ==> c == '.' || IsDecimalDigit(c)
  {
    forall c | c in Format(addr)
      ensures c == '.' || IsDecimalDigit(c)
    {
      CharsOfJoin(OctetTexts(addr), '.', c);
    }
  }

  /** The printed form holds no ':'. */
  lemma FormatHasNoColon(addr: IPv4Address)
    ensures ':' !in Format(addr)
  {
    OctetTextChars(addr.a);
    OctetTextChars(addr.b);
    OctetTextChars(addr.c);
    OctetTextChars(addr.d);
    NoCharInJoin(OctetTexts(addr), '.', ':');
  }

  /** The printed form holds a '.'. */
  lemma FormatHasDot(addr: IPv4Address)
    ensures '.' in Format(addr)
  {
    var s := Format(addr);
    FormatParts(addr);
    if '.' !in s {
      SplitNoSep(s, [], '.');
    }
  }

  /** Reading the printed form gives the address back. */
  lemma {:induction false} ParseFormat(addr: IPv4Address)
    ensures Parse(Format(addr)) == Ok(addr)
  {
    FormatParts(addr);
    ParseOctetText(addr.a);
    ParseOctetText(addr.b);
    ParseOctetText(addr.c);
    ParseOctetText(addr.d);
  }

  /** A dotted text with a field that is not a decimal number, or is one
      above 255, is refused. */
  lemma {:induction false} RejectsBadOctet(parts: seq<string>, i: nat)
    requires |parts| == 4 && i < 4
    requires forall j :: 0 <= j < 4 ==> '.' !in parts[j]
    requires !AllDecimal(parts[i]) || DecimalValue(parts[i]) > 255
    ensures Parse(Join(parts, '.')).Err?
  {
    var s := Join(parts, '.');
    if Parse(s).Ok? {
      AcceptedParts(parts, Parse(s).value);
      OctetTextsInRange(Parse(s).value);
    }
  }

  /** The fields of an accepted text are the printed octets. */
  lemma AcceptedParts(parts: seq<string>, x: IPv4Address)
    requires |parts| == 4
    requires forall j :: 0 <= j < 4 ==> '.' !in parts[j]
    requires Parse(Join(parts, '.')) == Ok(x)
    ensures parts == OctetTexts(x)
  {
    FormatParts(x);
    SplitJoin(parts, '.');
  }

  /** Every printed octet is a decimal number of at most 255. */
  lemma OctetTextsInRange(x: IPv4Address)
    ensures forall j :: 0 <= j < 4 ==> AllDecimal(OctetTexts(x)[j]) && DecimalValue(OctetTexts(x)[j]) <= 255
  {
    DecimalRoundTrip(x.a);
    DecimalRoundTrip(x.b);
    DecimalRoundTrip(x.c);
    DecimalRoundTrip(x.d);
  }

  /** Text and address determine each other: a string is accepted exactly
      when it is the printed form of the address it yields. */
  lemma ParseIffFormat(s: string, addr: IPv4Address)
    ensures Parse(s) == Ok(addr) <==> s == Format(addr)
  {
    if s == Format(addr) {
      ParseFormat(addr);
    }
  }

  /** The number of IPv4 addresses, 2^32. */
  const AddressSpace := 0x1_0000_0000

  /** `int(address)`: the octets read as a big-endian 32-bit number. */
  function ToInt(addr: IPv4Address): (n: nat)
    ensures n < AddressSpace
    ensures n == addr.a * 0x100_0000 + addr.b * 0x1_0000 + addr.c * 0x100 + addr.d
  {
    var ds: seq<nat> := [addr.a, addr.b, addr.c, addr.d];
    BigEndian4(addr.a, addr.b, addr.c, addr.d, 256);
    FromDigits(ds, 256)
  }

  lemma BigEndian4(a: nat, b: nat, c: nat, d: nat, base: nat)
    ensures FromDigits([a, b, c, d], base) == ((a * base + b) * base + c) * base + d
  {
    assert [a, b, c, d][..3] == [a, b, c];
    assert [a, b, c][..2] == [a, b];
    assert [a, b][..1] == [a];
    assert [a][..0] == [];
    assert FromDigits([a], base) == a;
    assert FromDigits([a, b], base) == a * base + b;
    assert FromDigits([a, b, c], base) == (a * base + b) * base + c;
  }

  /** `IPv4Address(n)` for an integer in range. */
  function FromInt(n: nat): (addr: IPv4Address)
    requires n < AddressSpace
    ensures ToInt(addr) == n
  {
    var ds := ToDigits(n, 256, 4);
    assert Pow(256, 4) == AddressSpace;
    FromToDigits(n, 256, 4);
    assert ds == [ds[0], ds[1], ds[2], ds[3]];
    IPv4Address(ds[0], ds[1], ds[2], ds[3])
  }

  /** The integer form loses nothing. */
  lemma {:induction false} FromIntToInt(addr: IPv4Address)
    ensures FromInt(ToInt(addr)) == addr
  {
    var ds: seq<nat> := [addr.a, addr.b, addr.c, addr.d];
    BigEndian4(addr.a, addr.b, addr.c, addr.d, 256);
    ToFromDigits(ds, 256);
  }
}
