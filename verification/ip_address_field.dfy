/** The document field that holds an IP address: `IPAddressField` of
    src/cyhy_db/models/ip_address.py. In memory the field holds a typed
    address; in the database it holds the address's text. */
module IpAddressField {
  import opened Wrappers
  import opened Strings
  import opened IpAddresses
  import opened Numerals
  import Ipv4
  import Ipv6
  import Radix

  /** The Python values the field meets: `None`, a `str`, an
      `IPv4Address`/`IPv6Address`, or an `int`. */
  datatype Value = NoneValue | Str(s: string) | Ip(addr: IpAddress) | Int(i: int)

  /** The `ValidationError`s that `self.error(...)` raises; each names the
      offending value. */
  datatype FieldError =
    | NotAValidIp(value: Value)
    | NotConvertible(value: Value)

  /** `validate(value)`: only a typed address passes. */
  function Validate(v: Value): (r: Option<FieldError>)
    ensures r.None? <==> v.Ip?
    ensures r.Some? ==> r.value == NotAValidIp(v)
  {
    if v.Ip? then None else Some(NotAValidIp(v))
  }

  /** `to_mongo(value)`: what is written to the database. `None` stays
      `None`, an address becomes its text, anything else is refused. */
  function ToMongo(v: Value): (r: Result<Option<string>, FieldError>)
    ensures v.NoneValue? ==> r == Ok(None)
    ensures r.Ok? && r.value.Some? <==> v.Ip?
    ensures r.Ok? && r.value.Some? ==> Parse(r.value.value) == Ok(v.addr)
    ensures r.Err? <==> v.Str? || v.Int?
    ensures r.Err? ==> r.error == NotConvertible(v)
  {
    match v
    case NoneValue => Ok(None)
    case Ip(a) =>
      ParseText(a);
      Ok(Some(Text(a)))
    case _ => Err(NotConvertible(v))
  }

  /** The update operators of mongoengine (`set__`, `push__`, ...). For
      these the base class's `prepare_query_value` validates the value it
      is given; for filter operators it passes the value through. */
  const UpdateOperators: set<string> := {
    "set", "unset", "inc", "dec", "mul", "pop", "push", "push_all", "pull",
    "pull_all", "add_to_set", "set_on_insert", "min", "max", "rename"}

  /** The value `to_mongo` produced, as a Python value again. */
  function StoredValue(stored: Option<string>): (v: Value)
    ensures stored.None? <==> v.NoneValue?
    ensures stored.Some? ==> v == Str(stored.value)
  {
    match stored
    case None => NoneValue
    case Some(t) => Str(t)
  }

  /** `prepare_query_value(op, value)`: the value is converted to its
      stored form and handed to the base class. A filter compares like with
      like. An update operator validates that stored form, which is never a
      typed address, so every update through this field is refused. */
  function PrepareQueryValue(op: string, v: Value): (r: Result<Option<string>, FieldError>)
    ensures r.Ok? <==> op !in UpdateOperators && (v.NoneValue? || v.Ip?)
    ensures op !in UpdateOperators && v.Ip? ==> r == Ok(Some(Text(v.addr)))
    ensures op !in UpdateOperators && v.NoneValue? ==> r == Ok(None)
    ensures v.Str? || v.Int? ==> r == Err(NotConvertible(v))
    ensures op in UpdateOperators && v.Ip? ==> r == Err(NotAValidIp(Str(Text(v.addr))))
    ensures op in UpdateOperators && v.NoneValue? ==> r == Err(NotAValidIp(NoneValue))
  {
    var stored :- ToMongo(v);
    if op in UpdateOperators then
      match Validate(StoredValue(stored))
      case Some(e) => Err(e)
      case None => Ok(stored)
    else Ok(stored)
  }

  /** A filter on an address matches exactly the documents storing that
      address: the query value is the stored text, which reads back as the
      address. */
  lemma {:induction false} FilterMatchesStored(op: string, a: IpAddress)
    requires op !in UpdateOperators
    ensures PrepareQueryValue(op, Ip(a)) == ToMongo(Ip(a))
    ensures ToPython(Str(PrepareQueryValue(op, Ip(a)).value.value)) == Ok(Ip(a))
  {
    RoundTrip(a);
  }

  /** `_parse_ip(value)`: a string is stripped and read as an address;
      anything else passes through untouched. */
  function ParseIp(v: Value): (r: Result<Value, ParseError>)
    ensures !v.Str? ==> r == Ok(v)
    ensures v.Str? && r.Ok? ==> r.value.Ip? && Parse(Strip(v.s)) == Ok(r.value.addr)
    ensures v.Str? && r.Err? ==> Parse(Strip(v.s)).Err?
  {
    match v
    case Str(s) =>
      var a :- Parse(Strip(s));
      Ok(Ip(a))
    case _ => Ok(v)
  }

  /** `to_python(value)`: what is read back from the database. A text that
      is not an address is reported with the value as given. */
  function ToPython(v: Value): (r: Result<Value, FieldError>)
    ensures r.Err? <==> ParseIp(v).Err?
    ensures r.Ok? ==> r.value == ParseIp(v).value
    ensures r.Err? ==> r.error == NotAValidIp(v)
  {
    match ParseIp(v)
    case Ok(w) => Ok(w)
    case Err(_) => Err(NotAValidIp(v))
  }

  /** Constructing a document with the field set: the value is converted on
      the way in, then validated. */
  function Assign(v: Value): (r: Result<Value, FieldError>)
    ensures r.Ok? ==> r.value.Ip? || r.value.NoneValue?
    ensures r.Ok? <==> v.NoneValue? || v.Ip? || (v.Str? && Parse(Strip(v.s)).Ok?)
    ensures r.Err? ==> r.error == NotAValidIp(v)
  {
    var w :- ToPython(v);
    if w.NoneValue? then Ok(w)
    else match Validate(w)
      case None => Ok(w)
      case Some(e) => Err(e)
  }

  /** A saved address is read back as the same address. */
  lemma {:induction false} RoundTrip(a: IpAddress)
    ensures ToMongo(Ip(a)) == Ok(Some(Text(a)))
    ensures ToPython(Str(Text(a))) == Ok(Ip(a))
  {
    ParseText(a);
    TextUnpadded(a);
    StripUnpadded(Text(a));
  }

  /** A printed address neither starts nor ends with whitespace: it holds
      only hex digits, '.' and ':'. */
  lemma TextUnpadded(a: IpAddress)
    ensures Unpadded(Text(a))
  {
    var t := Text(a);
    if a.V4? {
      Ipv4.FormatChars(a.v4);
    } else {
      Ipv6.FormatChars(a.v6);
    }
    if t != [] {
      assert t[0] in t && t[|t| - 1] in t;
    }
  }

  /** Whitespace around the text makes no difference to what is read. */
  lemma {:induction false} PaddingIgnored(pre: string, s: string, post: string)
    requires AllSpace(pre) && AllSpace(post)
    ensures ParseIp(Str(pre + s + post)) == ParseIp(Str(s))
    ensures ToPython(Str(pre + s + post)).Ok? == ToPython(Str(s)).Ok?
  {
    StripPadded(pre, s, post);
  }

  /** Reading is idempotent: what `to_python` returns reads as itself. */
  lemma {:induction false} ToPythonIdempotent(v: Value)
    requires ToPython(v).Ok?
    ensures ToPython(ToPython(v).value) == ToPython(v)
  {
  }

  /** Validation accepts exactly what reading a text can produce. */
  lemma {:induction false} ReadValuesValidate(s: string)
    requires ToPython(Str(s)).Ok?
    ensures Validate(ToPython(Str(s)).value).None?
  {
  }

  /** The addresses the field accepts in the repository's tests. */
  lemma {:induction false} Accepts192(s: string)
    requires s == "192.168.1.1"
    ensures ToPython(Str(s)) == Ok(Ip(V4(Ipv4.IPv4Address(192, 168, 1, 1))))
  {
    var x := Ipv4.IPv4Address(192, 168, 1, 1);
    Printed192Text(s, x);
    ReadsDottedQuad(x);
  }

  lemma {:induction false} Accepts10(s: string)
    requires s == "10.0.0.1"
    ensures ToPython(Str(s)) == Ok(Ip(V4(Ipv4.IPv4Address(10, 0, 0, 1))))
  {
    var x := Ipv4.IPv4Address(10, 0, 0, 1);
    Printed10Text(s, x);
    ReadsDottedQuad(x);
  }

  lemma {:induction false} AcceptsBroadcast(s: string)
    requires s == "255.255.255.255"
    ensures ToPython(Str(s)) == Ok(Ip(V4(Ipv4.IPv4Address(255, 255, 255, 255))))
  {
    var x := Ipv4.IPv4Address(255, 255, 255, 255);
    PrintedBroadcastText(s, x);
    ReadsDottedQuad(x);
  }

  lemma Printed192Text(s: string, x: Ipv4.IPv4Address)
    requires s == "192.168.1.1" && x == Ipv4.IPv4Address(192, 168, 1, 1)
    ensures Ipv4.Format(x) == s
  {
    FormatDotted(x);
    OctetDecimals();
  }

  lemma Printed10Text(s: string, x: Ipv4.IPv4Address)
    requires s == "10.0.0.1" && x == Ipv4.IPv4Address(10, 0, 0, 1)
    ensures Ipv4.Format(x) == s
  {
    FormatDotted(x);
    OctetDecimals();
  }

  lemma PrintedBroadcastText(s: string, x: Ipv4.IPv4Address)
    requires s == "255.255.255.255" && x == Ipv4.IPv4Address(255, 255, 255, 255)
    ensures Ipv4.Format(x) == s
  {
    FormatDotted(x);
    OctetDecimals();
  }

  /** The decimal texts of the octets the test vectors use. */
  lemma OctetDecimals()
    ensures DecimalText(0) == "0" && DecimalText(1) == "1" && DecimalText(10) == "10"
    ensures DecimalText(168) == "168" && DecimalText(192) == "192" && DecimalText(255) == "255"
  {
    assert Radix.MinimalDigits(10, 10) == [1, 0];
    ThreeDigits(168, 1, 6, 8);
    ThreeDigits(192, 1, 9, 2);
    ThreeDigits(255, 2, 5, 5);
  }

  lemma ThreeDigits(n: nat, a: nat, b: nat, c: nat)
    requires 1 <= a < 10 && b < 10 && c < 10 && n == 100 * a + 10 * b + c
    ensures Radix.MinimalDigits(n, 10) == [a, b, c]
  {
    assert Radix.MinimalDigits(10 * a + b, 10) == [a, b];
  }

  /** An IPv4 address prints as its four decimal octets joined by dots. */
  lemma FormatDotted(x: Ipv4.IPv4Address)
    ensures Ipv4.Format(x)
      == DecimalText(x.a) + "." + (DecimalText(x.b) + "." + (DecimalText(x.c) + "." + DecimalText(x.d)))
  {
    var p := Ipv4.OctetTexts(x);
    assert Join(p[3..], '.') == p[3];
    assert p[2..][1..] == p[3..];
    assert Join(p[2..], '.') == p[2] + "." + p[3];
    assert p[1..][1..] == p[2..];
    assert Join(p[1..], '.') == p[1] + "." + (p[2] + "." + p[3]);
    assert Join(p, '.') == p[0] + "." + (p[1] + "." + (p[2] + "." + p[3]));
  }

  lemma ReadsDottedQuad(x: Ipv4.IPv4Address)
    ensures ToPython(Str(Ipv4.Format(x))) == Ok(Ip(V4(x)))
  {
    RoundTrip(V4(x));
  }

  /** The dotted texts the repository's tests expect to be refused: an
      octet above 255, or one that is not a number. */
  lemma {:induction false} Refuses256(s: string)
    requires s == "256.256.256.256"
    ensures ToPython(Str(s)) == Err(NotAValidIp(Str(s)))
  {
    Ipv4Refuses256(s);
    PlainDotted(s);
    RefusesDotted(s);
  }

  lemma {:induction false} Refuses456(s: string)
    requires s == "123.456.789.0"
    ensures ToPython(Str(s)) == Err(NotAValidIp(Str(s)))
  {
    Ipv4Refuses456(s);
    PlainDotted(s);
    RefusesDotted(s);
  }

  lemma {:induction false} RefusesLetters(s: string)
    requires s == "abc.def.ghi.jkl"
    ensures ToPython(Str(s)) == Err(NotAValidIp(Str(s)))
  {
    Ipv4RefusesLetters(s);
    PlainDotted(s);
    RefusesDotted(s);
  }

  lemma Ipv4Refuses256(s: string)
    requires s == "256.256.256.256"
    ensures Ipv4.Parse(s).Err?
  {
    var p := Fields256(s);
    Ipv4.RejectsBadOctet(p, 0);
  }

  lemma Ipv4Refuses456(s: string)
    requires s == "123.456.789.0"
    ensures Ipv4.Parse(s).Err?
  {
    var p := Fields456(s);
    Ipv4.RejectsBadOctet(p, 1);
  }

  lemma Ipv4RefusesLetters(s: string)
    requires s == "abc.def.ghi.jkl"
    ensures Ipv4.Parse(s).Err?
  {
    var p := FieldsLetters(s);
    Ipv4.RejectsBadOctet(p, 0);
  }

  lemma Fields256(s: string) returns (p: seq<string>)
    requires s == "256.256.256.256"
    ensures |p| == 4 && Join(p, '.') == s
    ensures forall j :: 0 <= j < 4 ==> '.' !in p[j]
    ensures AllDecimal(p[0]) && DecimalValue(p[0]) > 255
  {
    p := ["256", "256", "256", "256"];
    assert Join(p, '.') == s;
    assert DecimalText(256) == "256";
    DecimalRoundTrip(256);
  }

  lemma Fields456(s: string) returns (p: seq<string>)
    requires s == "123.456.789.0"
    ensures |p| == 4 && Join(p, '.') == s
    ensures forall j :: 0 <= j < 4 ==> '.' !in p[j]
    ensures AllDecimal(p[1]) && DecimalValue(p[1]) > 255
  {
    p := ["123", "456", "789", "0"];
    assert Join(p, '.') == s;
    assert DecimalText(456) == "456";
    DecimalRoundTrip(456);
  }

  lemma FieldsLetters(s: string) returns (p: seq<string>)
    requires s == "abc.def.ghi.jkl"
    ensures |p| == 4 && Join(p, '.') == s
    ensures forall j :: 0 <= j < 4 ==> '.' !in p[j]
    ensures !AllDecimal(p[0])
  {
    p := ["abc", "def", "ghi", "jkl"];
    assert Join(p, '.') == s;
    assert !IsDecimalDigit(p[0][0]);
  }

  /** A text of letters, digits and dots has no padding and no ':'. */
  lemma PlainDotted(s: string)
    requires forall i | 0 <= i < |s| :: s[i] == '.' || '0' <= s[i] <= '9' || 'a' <= s[i] <= 'z'
    ensures Unpadded(s) && ':' !in s
  {
  }

  /** A text without padding or ':' that IPv4 refuses is refused. */
  lemma RefusesDotted(s: string)
    requires Unpadded(s) && ':' !in s
    requires Ipv4.Parse(s).Err?
    ensures ToPython(Str(s)) == Err(NotAValidIp(Str(s)))
  {
    StripUnpadded(s);
    RefusesWithoutColon(s);
  }
}
