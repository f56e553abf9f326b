/** Python's `ipaddress.ip_address(text)` and the two conversions the models
    apply to its result: `str(address)` and `int(address)`. */
module IpAddresses {
  import opened Wrappers
  import Ipv4
  import Ipv6

  /** An `IPv4Address` or an `IPv6Address`. */
  datatype IpAddress = V4(v4: Ipv4.IPv4Address) | V6(v6: Ipv6.IPv6Address)

  /** The `ValueError` that `ip_address` raises when neither version
      accepts the text; it carries the text. */
  datatype ParseError = NotAnIpAddress(text: string)

  /** `ip_address(text)`: IPv4 is tried first, then IPv6. */
  function Parse(s: string): (r: Result<IpAddress, ParseError>)
    ensures r.Err? <==> Ipv4.Parse(s).Err? && Ipv6.Parse(s).Err?
    ensures r.Err? ==> r.error.text == s
    ensures r.Ok? && r.value.V4? ==> Ipv4.Parse(s) == Ok(r.value.v4)
    ensures r.Ok? && r.value.V6? ==> Ipv4.Parse(s).Err? && Ipv6.Parse(s) == Ok(r.value.v6)
  {
    match Ipv4.Parse(s)
    case Ok(a) => Ok(V4(a))
    case Err(_) =>
      match Ipv6.Parse(s)
      case Ok(a) => Ok(V6(a))
      case Err(_) => Err(NotAnIpAddress(s))
  }

  /** `str(address)`. */
  function Text(a: IpAddress): string {
    match a
    case V4(x) => Ipv4.Format(x)
    case V6(x) => Ipv6.Format(x)
  }

  /** `int(address)`: an IPv4 address is a number below 2^32, an IPv6
      address one below 2^128. */
  function ToInt(a: IpAddress): (n: nat)
    ensures a.V4? ==> n < Ipv4.AddressSpace
    ensures a.V6? ==> n < Ipv6.AddressSpace
  {
    match a
    case V4(x) => Ipv4.ToInt(x)
    case V6(x) => Ipv6.ToInt(x)
  }

  /** An IPv6 text is never taken for an IPv4 one: printed IPv4 addresses
      hold no ':', and every text IPv6 accepts holds one. */
  lemma Ipv6TextIsNotIpv4(a: Ipv6.IPv6Address)
    ensures Ipv4.Parse(Ipv6.Format(a)).Err?
  {
    var s := Ipv6.Format(a);
    Ipv6.ParseFormat(a);
    Ipv6.ParseNeedsColon(s);
    var r := Ipv4.Parse(s);
    if r.Ok? {
      Ipv4.FormatHasNoColon(r.value);
    }
  }

  /** Without a ':' only IPv4 can accept a text. */
  lemma RefusesWithoutColon(s: string)
    requires ':' !in s && Ipv4.Parse(s).Err?
    ensures Parse(s) == Err(NotAnIpAddress(s))
  {
    if Ipv6.Parse(s).Ok? {
      Ipv6.ParseNeedsColon(s);
    }
  }

  /** Reading the printed form gives the address back, whichever version
      it is. */
  lemma {:induction false} ParseText(a: IpAddress)
    ensures Parse(Text(a)) == Ok(a)
  {
    match a
    case V4(x) =>
      Ipv4.ParseFormat(x);
    case V6(x) =>
      Ipv6TextIsNotIpv4(x);
      Ipv6.ParseFormat(x);
  }

  /** Printing what was read and reading it again changes nothing: the
      printed form is a normal form for every accepted text. */
  lemma {:induction false} ParseNormalizes(s: string)
    requires Parse(s).Ok?
    ensures Parse(Text(Parse(s).value)) == Parse(s)
  {
    ParseText(Parse(s).value);
  }

  /** Two addresses print alike only if they are the same address. */
  lemma {:induction false} TextInjective(a: IpAddress, b: IpAddress)
    requires Text(a) == Text(b)
    ensures a == b
  {
    ParseText(a);
    ParseText(b);
  }

  /** The integer of an IPv4 address is its octets read big-endian, and it
      determines the address. */
  lemma {:induction false} V4IntBigEndian(x: Ipv4.IPv4Address)
    ensures ToInt(V4(x)) == x.a * 0x100_0000 + x.b * 0x1_0000 + x.c * 0x100 + x.d
    ensures Ipv4.FromInt(ToInt(V4(x))) == x
  {
    Ipv4.FromIntToInt(x);
  }

  /** The integer of an IPv6 address determines the address. */
  lemma {:induction false} V6IntDetermines(x: Ipv6.IPv6Address)
    ensures Ipv6.FromInt(ToInt(V6(x))) == x
  {
    Ipv6.FromIntToInt(x);
  }
}
