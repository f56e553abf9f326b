/** The scan document of src/cyhy_db/models/scan_doc.py: a record of one
    scan result, the coupling of its `ip` and `ip_int` fields, and the
    flag and tag updates applied to the collection of such records. The
    collection is a sequence; each update returns the new sequence. */
module ScanDoc {
  import opened Wrappers
  import opened Strings
  import opened Numerals
  import opened IpAddresses
  import opened IpAddressField
  import Ipv4
  import Ipv6

  /** The identifier of a snapshot document (an ObjectId), by its text. */
  type SnapshotId = string

  /** One scan document. `ipInt` is `None` until it is first assigned;
      `time` is the scan's timestamp, an ordered value. */
  datatype ScanRecord = ScanRecord(
    ip: Value,
    ipInt: Option<int>,
    latest: bool,
    owner: string,
    snapshots: seq<SnapshotId>,
    source: string,
    time: int)

  /** A document as constructed: `latest` defaults to true, `snapshots` to
      the empty list and `time` to the current time, which is passed in;
      the address is not set yet. */
  function NewScanRecord(owner: string, source: string, now: int): (d: ScanRecord)
    ensures d.latest && d.snapshots == [] && d.time == now
    ensures d.owner == owner && d.source == source
    ensures d.ip.NoneValue? && d.ipInt.None?
  {
    ScanRecord(NoneValue, None, true, owner, [], source, now)
  }

  /** The two exceptions `int(...)` raises. */
  datatype IntError = ValueError | TypeError

  /** The text after an optional leading sign. */
  function Unsigned(t: string): string {
    if t != [] && (t[0] == '+' || t[0] == '-') then t[1..] else t
  }

  /** The sign and digits `int(text)` accepts once the text is stripped. */
  predicate IsIntText(t: string) {
    Unsigned(t) != [] && AllDecimal(Unsigned(t))
  }

  /** `int(text)` for a `str`: surrounding whitespace is ignored, then an
      optional sign and one or more decimal digits are read. */
  function IntOfText(s: string): (r: Result<int, IntError>)
    ensures r.Ok? <==> IsIntText(Strip(s))
    ensures r.Err? ==> r.error == ValueError
  {
    ReadInt(Strip(s))
  }

  /** Reads a stripped text as a signed decimal number. */
  function ReadInt(t: string): (r: Result<int, IntError>)
    ensures r.Ok? <==> IsIntText(t)
    ensures r.Err? ==> r.error == ValueError
  {
    if !IsIntText(t) then Err(ValueError)
    else
      var n: int := DecimalValue(Unsigned(t));
      if t[0] == '-' then Ok(-n) else Ok(n)
  }

  /** An integer text holds only decimal digits and a sign. */
  lemma IntTextChars(t: string)
    ensures IsIntText(t) ==> forall c :: c in t ==> IsDecimalDigit(c) || c == '+' || c == '-'
  {
    if IsIntText(t) && t != [] && (t[0] == '+' || t[0] == '-') {
      forall c | c in t
        ensures IsDecimalDigit(c) || c == '+' || c == '-'
      {
        var k :| 0 <= k < |t| && t[k] == c;
        if k > 0 {
          assert t[1..][k - 1] == c;
        }
      }
    }
  }

  /** `int(value)` for the values the `ip` field can hold: an address gives
      its integer, an `int` itself, a `str` is read as a decimal numeral,
      and `None` cannot be converted. */
  function IntOf(v: Value): (r: Result<int, IntError>)
    ensures r == Err(TypeError) <==> v.NoneValue?
    ensures v.Ip? ==> r == Ok(ToInt(v.addr))
    ensures v.Int? ==> r == Ok(v.i)
    ensures v.Str? ==> r == IntOfText(v.s)
  {
    match v
    case NoneValue => Err(TypeError)
    case Str(s) => IntOfText(s)
    case Ip(a) => Ok(ToInt(a))
    case Int(i) => Ok(i)
  }

  /** `int(text)` reads back what `'%d' % n` prints. */
  lemma {:induction false} IntOfDecimalText(n: nat)
    ensures IntOfText(DecimalText(n)) == Ok(n)
  {
    var t := DecimalText(n);
    DecimalTextCanonical(n);
    DecimalRoundTrip(n);
    ReadsDigits(t);
  }

  /** A run of digits reads as its value. */
  lemma ReadsDigits(t: string)
    requires t != [] && AllDecimal(t)
    ensures IntOfText(t) == Ok(DecimalValue(t))
  {
    assert IsDecimalDigit(t[0]) && IsDecimalDigit(t[|t| - 1]);
    StripUnpadded(t);
    assert ReadInt(t) == Ok(DecimalValue(t)) by {
      assert Unsigned(t) == t;
    }
  }

  /** A run of digits after a minus sign reads as the negative number. */
  lemma ReadsNegativeDigits(t: string)
    requires t != [] && AllDecimal(t)
    ensures IntOfText("-" + t) == Ok(-(DecimalValue(t) as int))
  {
    var u := "-" + t;
    ReadNegative(t, u);
    assert IsDecimalDigit(t[|t| - 1]);
    assert u[|u| - 1] == t[|t| - 1];
    StripUnpadded(u);
  }

  lemma ReadNegative(t: string, u: string)
    requires t != [] && AllDecimal(t) && u == "-" + t
    ensures ReadInt(u) == Ok(-(DecimalValue(t) as int))
  {
    assert u[1..] == t;
  }

  /** A text holding a character that is neither whitespace, a sign nor a
      digit is not an integer. */
  lemma {:induction false} IntOfTextRefuses(s: string, i: nat)
    requires i < |s|
    requires !IsSpace(s[i]) && !IsDecimalDigit(s[i]) && s[i] != '+' && s[i] != '-'
    ensures IntOfText(s) == Err(ValueError)
  {
    StripKeeps(s, i);
    IntTextChars(Strip(s));
  }

  /** Stripping removes only whitespace: a character of the text that is
      not whitespace is kept. */
  lemma StripKeeps(s: string, k: nat)
    requires k < |s| && !IsSpace(s[k])
    ensures s[k] in Strip(s)
  {
    var a := TrimStart(s);
    TrimStartKeeps(s, k);
    var j := k - (|s| - |a|);
    TrimEndKeeps(a, j);
    assert Strip(s)[j] == s[k];
  }

  lemma {:induction false} TrimStartKeeps(s: string, k: nat)
    requires k < |s| && !IsSpace(s[k])
    ensures |s| - |TrimStart(s)| <= k
    ensures TrimStart(s)[k - (|s| - |TrimStart(s)|)] == s[k]
  {
    if s != [] && IsSpace(s[0]) {
      assert s[1..][k - 1] == s[k];
      TrimStartKeeps(s[1..], k - 1);
    }
  }

  lemma {:induction false} TrimEndKeeps(s: string, k: nat)
    requires k < |s| && !IsSpace(s[k])
    ensures k < |TrimEnd(s)| && TrimEnd(s)[k] == s[k]
  {
    if s != [] && IsSpace(s[|s| - 1]) {
      assert s[..|s| - 1][k] == s[k];
      TrimEndKeeps(s[..|s| - 1], k);
    }
  }

  /** How the `ip` setter ended. */
  datatype SetStatus =
    | Assigned
      /** `ValueError("Invalid IP address: ...")`, naming the value. */
    | InvalidIpAddress(value: Value)
      /** The `TypeError` of `int(None)`, which the setter does not catch. */
    | TypeErrorRaised

  /** The `ip` property's getter. */
  function GetIp(d: ScanRecord): Value {
    d.ip
  }

  /** The `ip` property's setter: the value is stored first, then its
      integer is stored in `ipInt`. When the conversion fails the value
      stays stored and `ipInt` keeps its previous content. */
  function SetIp(d: ScanRecord, v: Value): (r: (ScanRecord, SetStatus))
    ensures GetIp(r.0) == v
    ensures r.0 == d.(ip := v, ipInt := r.0.ipInt)
    ensures r.1.Assigned? <==> IntOf(v).Ok?
    ensures r.1.Assigned? ==> r.0.ipInt == Some(IntOf(v).value)
    ensures !r.1.Assigned? ==> r.0.ipInt == d.ipInt
    ensures r.1 == InvalidIpAddress(v) <==> IntOf(v) == Err(ValueError)
    ensures r.1 == TypeErrorRaised <==> v.NoneValue?
  {
    var stored := d.(ip := v);
    match IntOf(v)
    case Ok(n) => (stored.(ipInt := Some(n)), Assigned)
    case Err(ValueError) => (stored, InvalidIpAddress(v))
    case Err(TypeError) => (stored, TypeErrorRaised)
  }

  /** The field pair is coupled: the record holds an address and `ipInt`
      is that address's integer. */
  predicate Coupled(d: ScanRecord) {
    d.ip.Ip? && d.ipInt == Some(ToInt(d.ip.addr))
  }

  /** Setting an address always succeeds and couples the pair; for IPv4
      the integer is the octets read big-endian, below 2^32, and gives the
      address back. */
  lemma {:induction false} SetAddress(d: ScanRecord, a: IpAddress)
    ensures SetIp(d, Ip(a)).1 == Assigned
    ensures Coupled(SetIp(d, Ip(a)).0)
    ensures a.V4? ==> SetIp(d, Ip(a)).0.ipInt == Some(
      a.v4.a * 0x100_0000 + a.v4.b * 0x1_0000 + a.v4.c * 0x100 + a.v4.d)
    ensures a.V4? ==> 0 <= SetIp(d, Ip(a)).0.ipInt.value < Ipv4.AddressSpace
    ensures a.V4? ==> Ipv4.FromInt(SetIp(d, Ip(a)).0.ipInt.value) == a.v4
    ensures a.V6? ==> Ipv6.FromInt(SetIp(d, Ip(a)).0.ipInt.value) == a.v6
  {
    if a.V4? {
      V4IntBigEndian(a.v4);
    } else {
      V6IntDetermines(a.v6);
    }
  }

  /** An address given as text is refused by the setter: its text holds a
      '.' or a ':', which `int` does not read. The text stays stored. */
  lemma {:induction false} SetAddressTextFails(d: ScanRecord, a: IpAddress)
    ensures SetIp(d, Str(Text(a))).1 == InvalidIpAddress(Str(Text(a)))
    ensures SetIp(d, Str(Text(a))).0.ip == Str(Text(a))
    ensures SetIp(d, Str(Text(a))).0.ipInt == d.ipInt
  {
    var s := Text(a);
    var i := SeparatorIn(a);
    IntOfTextRefuses(s, i);
  }

  /** Where the separator of an address's text is. */
  lemma SeparatorIn(a: IpAddress) returns (i: nat)
    ensures i < |Text(a)| && (Text(a)[i] == '.' || Text(a)[i] == ':')
  {
    var s := Text(a);
    if a.V4? {
      Ipv4.FormatHasDot(a.v4);
    } else {
      Ipv6.ParseFormat(a.v6);
      Ipv6.ParseNeedsColon(s);
    }
    assert '.' in s || ':' in s;
    i :| i < |s| && (s[i] == '.' || s[i] == ':');
  }

  /** A plain integer passes the setter, but the stored value is not an
      address, so the document then fails validation. */
  lemma {:induction false} SetIntegerFailsValidation(d: ScanRecord, n: int)
    ensures SetIp(d, Int(n)).1 == Assigned && SetIp(d, Int(n)).0.ipInt == Some(n)
    ensures Validate(GetIp(SetIp(d, Int(n)).0)) == Some(NotAValidIp(Int(n)))
  {
  }

  /** The integer does not record the version: an IPv4 address and the
      IPv6 address with the same number get the same `ipInt`. */
  lemma {:induction false} IpIntIgnoresVersion(x: Ipv4.IPv4Address)
    ensures ToInt(V4(x)) < Ipv6.AddressSpace
    ensures ToInt(V6(Ipv6.FromInt(ToInt(V4(x))))) == ToInt(V4(x))
  {
    assert Ipv4.AddressSpace <= Ipv6.AddressSpace;
  }

  /** `reset_latest_flag_by_owner(owner)`: no record of the owner stays
      latest; every other record, and every other field, is unchanged. */
  function ResetLatestFlagByOwner(docs: seq<ScanRecord>, owner: string): (r: seq<ScanRecord>)
    ensures |r| == |docs|
    ensures forall i :: 0 <= i < |r| ==> r[i] == docs[i].(latest := r[i].latest)
    ensures forall i :: 0 <= i < |r| ==> (r[i].latest <==> docs[i].latest && docs[i].owner != owner)
  {
    seq(|docs|, i requires 0 <= i < |docs| =>
      if docs[i].latest && docs[i].owner == owner then docs[i].(latest := false) else docs[i])
  }

  lemma {:induction false} ResetByOwnerIdempotent(docs: seq<ScanRecord>, owner: string)
    ensures ResetLatestFlagByOwner(ResetLatestFlagByOwner(docs, owner), owner)
      == ResetLatestFlagByOwner(docs, owner)
  {
    var once := ResetLatestFlagByOwner(docs, owner);
    var twice := ResetLatestFlagByOwner(once, owner);
    assert forall i :: 0 <= i < |once| ==> twice[i] == once[i];
  }

  /** What `reset_latest_flag_by_ip` is given: one value, or a collection
      of them. */
  datatype IpSelector = Single(value: Value) | Many(values: seq<Value>)

  /** A single value is treated as a one-element list. */
  function SelectedValues(sel: IpSelector): (vs: seq<Value>)
    ensures sel.Single? ==> vs == [sel.value]
    ensures sel.Many? ==> vs == sel.values
  {
    match sel
    case Single(v) => [v]
    case Many(vs) => vs
  }

  /** `[int(x) for x in values]`: the integers in order, or the error of
      the first value that has none. */
  function IntsOf(vs: seq<Value>): (r: Result<seq<int>, IntError>)
    ensures r.Ok? <==> forall i :: 0 <= i < |vs| ==> IntOf(vs[i]).Ok?
    ensures r.Ok? ==> |r.value| == |vs|
    ensures r.Ok? ==> forall i :: 0 <= i < |vs| ==> IntOf(vs[i]) == Ok(r.value[i])
    ensures r.Err? ==>
      exists i :: 0 <= i < |vs| && IntOf(vs[i]) == Err(r.error) && (forall j :: 0 <= j < i ==> IntOf(vs[j]).Ok?)
  {
    if vs == [] then Ok([])
    else
      match IntOf(vs[0])
      case Err(e) => Err(e)
      case Ok(n) =>
        match IntsOf(vs[1..])
        case Err(e) =>
          var k :| 0 <= k < |vs[1..]| && IntOf(vs[1..][k]) == Err(e)
            && (forall j :: 0 <= j < k ==> IntOf(vs[1..][j]).Ok?);
          assert IntOf(vs[k + 1]) == Err(e);
          Err(e)
        case Ok(ns) =>
          assert forall i :: 1 <= i < |vs| ==> vs[i] == vs[1..][i - 1];
          Ok([n] + ns)
  }

  /** The record's `ipInt` is set and is one of the integers. */
  predicate IpIntIn(d: ScanRecord, ints: seq<int>) {
    d.ipInt.Some? && d.ipInt.value in ints
  }

  /** The integers BSON can carry: pymongo encodes an `int` as a 32- or
      64-bit integer and raises `OverflowError` for any other. */
  const Int64Bound := 0x8000_0000_0000_0000

  predicate FitsInt64(n: int) {
    -Int64Bound <= n < Int64Bound
  }

  /** Why `reset_latest_flag_by_ip` raises: a value `int` cannot convert,
      or an integer the query cannot be encoded with. */
  datatype ResetError = ConversionFailed(cause: IntError) | Int64Overflow

  /** `reset_latest_flag_by_ip(ips)`: the values are converted first, and
      a failing conversion changes nothing; so does an integer outside the
      64-bit range, which cannot be sent in the `ip_int__in` query.
      Otherwise exactly the latest records whose `ipInt` is among the
      integers stop being latest. */
  function ResetLatestFlagByIp(docs: seq<ScanRecord>, sel: IpSelector): (r: Result<seq<ScanRecord>, ResetError>)
    ensures r.Err? && r.error.ConversionFailed? <==> exists v :: v in SelectedValues(sel) && IntOf(v).Err?
    ensures r.Err? && r.error.ConversionFailed? ==> r.error.cause == IntsOf(SelectedValues(sel)).error
    ensures r == Err(Int64Overflow) <==>
      (IntsOf(SelectedValues(sel)).Ok? && exists n :: n in IntsOf(SelectedValues(sel)).value && !FitsInt64(n))
    ensures r.Ok? ==> |r.value| == |docs|
    ensures r.Ok? ==> forall i :: 0 <= i < |docs| ==> r.value[i] == docs[i].(latest := r.value[i].latest)
    ensures r.Ok? ==> var ints := IntsOf(SelectedValues(sel)).value;
      forall i :: 0 <= i < |docs| ==> (r.value[i].latest <==> docs[i].latest && !IpIntIn(docs[i], ints))
  {
    match IntsOf(SelectedValues(sel))
    case Err(e) => Err(ConversionFailed(e))
    case Ok(ints) =>
      if exists n :: n in ints && !FitsInt64(n) then Err(Int64Overflow)
      else Ok(seq(|docs|, i requires 0 <= i < |docs| =>
        if docs[i].latest && IpIntIn(docs[i], ints) then docs[i].(latest := false) else docs[i]))
  }

  /** Passing one value is the same as passing a list holding it. */
  lemma {:induction false} SingleIsOneElementList(docs: seq<ScanRecord>, v: Value)
    ensures ResetLatestFlagByIp(docs, Single(v)) == ResetLatestFlagByIp(docs, Many([v]))
  {
  }

  /** Every IPv4 integer fits in 64 bits; no IPv6 integer whose first group
      is not zero does (all of 2000::/3, for example 2001:db8::1). */
  lemma {:induction false} AddressIntRange(a: IpAddress)
    ensures a.V4? ==> FitsInt64(ToInt(a))
    ensures a.V6? && a.v6.hextets[0] != 0 ==> !FitsInt64(ToInt(a))
  {
    if a.V6? && a.v6.hextets[0] != 0 {
      Ipv6.LeadingGroupWeight(a.v6);
    }
  }

  /** Resetting by an address works exactly when its integer fits in 64
      bits, and then clears a coupled record of the same version exactly
      when it is latest and holds that address. */
  lemma {:induction false} ResetByAddress(docs: seq<ScanRecord>, a: IpAddress, i: nat)
    requires i < |docs| && Coupled(docs[i])
    requires docs[i].ip.addr.V4? == a.V4?
    ensures ResetLatestFlagByIp(docs, Single(Ip(a))).Ok? <==> FitsInt64(ToInt(a))
    ensures var r := ResetLatestFlagByIp(docs, Single(Ip(a)));
      r.Ok? ==> (r.value[i].latest <==> docs[i].latest && docs[i].ip.addr != a)
  {
    var b := docs[i].ip.addr;
    var vs := [Ip(a)];
    assert IntOf(vs[0]) == Ok(ToInt(a));
    assert IntsOf(vs).value == [ToInt(a)];
    if ToInt(b) == ToInt(a) {
      if a.V4? {
        V4IntBigEndian(a.v4);
        V4IntBigEndian(b.v4);
      } else {
        V6IntDetermines(a.v6);
        V6IntDetermines(b.v6);
      }
    }
  }

  /** Appends one snapshot id, as `push__snapshots` does. */
  function Push(d: ScanRecord, snapshot: SnapshotId): (e: ScanRecord)
    ensures e == d.(snapshots := e.snapshots)
    ensures |e.snapshots| == |d.snapshots| + 1 && e.snapshots[..|d.snapshots|] == d.snapshots
    ensures e.snapshots[|d.snapshots|] == snapshot
    ensures multiset(e.snapshots) == multiset(d.snapshots) + multiset{snapshot}
  {
    d.(snapshots := d.snapshots + [snapshot])
  }

  /** The filters of the three tagging queries. */
  datatype TagFilter =
      /** `latest=True, owner__in=owners` */
    | LatestOf(owners: seq<string>)
      /** `snapshots__in=existing`: shares a snapshot with the list. */
    | SharingAny(existing: seq<SnapshotId>)
      /** `time__gte=start, time__lte=end, owner=owner` */
    | Within(owner: string, start: int, end: int)

  predicate Matches(d: ScanRecord, f: TagFilter) {
    match f
    case LatestOf(owners) => d.latest && d.owner in owners
    case SharingAny(existing) => exists s :: s in d.snapshots && s in existing
    case Within(owner, start, end) => start <= d.time <= end && d.owner == owner
  }

  /** Pushes the snapshot onto exactly the records the filter matches. */
  function PushWhere(docs: seq<ScanRecord>, f: TagFilter, snapshot: SnapshotId): (r: seq<ScanRecord>)
    ensures |r| == |docs|
    ensures forall i :: 0 <= i < |r| ==> r[i] == (if Matches(docs[i], f) then Push(docs[i], snapshot) else docs[i])
  {
    seq(|docs|, i requires 0 <= i < |docs| =>
      if Matches(docs[i], f) then Push(docs[i], snapshot) else docs[i])
  }

  /** `tag_latest(owners, snapshot)`: the latest records of the owners gain
      the snapshot at the end of their list; nothing else changes. */
  function TagLatest(docs: seq<ScanRecord>, owners: seq<string>, snapshot: SnapshotId): (r: seq<ScanRecord>)
    ensures |r| == |docs|
    ensures forall i :: 0 <= i < |r| && docs[i].latest && docs[i].owner in owners ==>
      r[i] == docs[i].(snapshots := docs[i].snapshots + [snapshot])
    ensures forall i :: 0 <= i < |r| && !(docs[i].latest && docs[i].owner in owners) ==> r[i] == docs[i]
  {
    PushWhere(docs, LatestOf(owners), snapshot)
  }

  /** `tag_matching(existing, snapshot)`: the records tagged with any of
      the existing snapshots gain the new one; nothing else changes. */
  function TagMatching(docs: seq<ScanRecord>, existing: seq<SnapshotId>, snapshot: SnapshotId): (r: seq<ScanRecord>)
    ensures |r| == |docs|
    ensures forall i :: 0 <= i < |r| && (exists s :: s in docs[i].snapshots && s in existing) ==>
      r[i] == docs[i].(snapshots := docs[i].snapshots + [snapshot])
    ensures forall i :: 0 <= i < |r| && (forall s :: s in docs[i].snapshots ==> s !in existing) ==> r[i] == docs[i]
  {
    PushWhere(docs, SharingAny(existing), snapshot)
  }

  /** `tag_timespan(owner, snapshot, start, end)`: the owner's records
      scanned from `start` to `end`, both included, gain the snapshot;
      nothing else changes. */
  function TagTimespan(docs: seq<ScanRecord>, owner: string, snapshot: SnapshotId, start: int, end: int): (r: seq<ScanRecord>)
    ensures |r| == |docs|
    ensures forall i :: 0 <= i < |r| && start <= docs[i].time <= end && docs[i].owner == owner ==>
      r[i] == docs[i].(snapshots := docs[i].snapshots + [snapshot])
    ensures forall i :: 0 <= i < |r| && !(start <= docs[i].time <= end && docs[i].owner == owner) ==> r[i] == docs[i]
  {
    PushWhere(docs, Within(owner, start, end), snapshot)
  }

  /** `pull`: every occurrence of `x` is removed and the rest keep their
      order. */
  function Pull(ss: seq<SnapshotId>, x: SnapshotId): (r: seq<SnapshotId>)
    ensures x !in r
    ensures forall y :: y != x ==> multiset(r)[y] == multiset(ss)[y]
    ensures x !in ss ==> r == ss
  {
    if ss == [] then []
    else
      assert ss == [ss[0]] + ss[1..];
      (if ss[0] == x then [] else [ss[0]]) + Pull(ss[1..], x)
  }

  /** Pulling distributes over concatenation, so order is kept. */
  lemma {:induction false} PullAppend(a: seq<SnapshotId>, b: seq<SnapshotId>, x: SnapshotId)
    ensures Pull(a + b, x) == Pull(a, x) + Pull(b, x)
  {
    if a == [] {
      assert a + b == b;
    } else {
      assert (a + b)[1..] == a[1..] + b;
      PullAppend(a[1..], b, x);
    }
  }

  /** `remove_tag(snapshot)`: afterwards no record holds the snapshot; the
      records that held it lose every occurrence and keep their other
      snapshots in order; the others are unchanged. */
  function RemoveTag(docs: seq<ScanRecord>, snapshot: SnapshotId): (r: seq<ScanRecord>)
    ensures |r| == |docs|
    ensures forall i :: 0 <= i < |r| ==> snapshot !in r[i].snapshots
    ensures forall i :: 0 <= i < |r| ==> r[i] == docs[i].(snapshots := r[i].snapshots)
    ensures forall i :: 0 <= i < |r| && snapshot !in docs[i].snapshots ==> r[i] == docs[i]
    ensures forall i, y :: 0 <= i < |r| && y != snapshot ==>
      multiset(r[i].snapshots)[y] == multiset(docs[i].snapshots)[y]
  {
    seq(|docs|, i requires 0 <= i < |docs| =>
      if snapshot in docs[i].snapshots then docs[i].(snapshots := Pull(docs[i].snapshots, snapshot))
      else docs[i])
  }

  /** Removing a tag undoes any tagging with it. */
  lemma {:induction false} RemoveUndoesTag(docs: seq<ScanRecord>, f: TagFilter, snapshot: SnapshotId)
    ensures RemoveTag(PushWhere(docs, f, snapshot), snapshot) == RemoveTag(docs, snapshot)
  {
    var tagged := PushWhere(docs, f, snapshot);
    var a := RemoveTag(tagged, snapshot);
    var b := RemoveTag(docs, snapshot);
    forall i | 0 <= i < |docs|
      ensures a[i] == b[i]
    {
      if Matches(docs[i], f) {
        var ss := docs[i].snapshots;
        PullAppend(ss, [snapshot], snapshot);
        assert Pull([snapshot], snapshot) == [];
        assert ss + [] == ss;
      }
    }
  }

  lemma {:induction false} RemoveTagIdempotent(docs: seq<ScanRecord>, snapshot: SnapshotId)
    ensures RemoveTag(RemoveTag(docs, snapshot), snapshot) == RemoveTag(docs, snapshot)
  {
    var once := RemoveTag(docs, snapshot);
    assert forall i :: 0 <= i < |once| ==> RemoveTag(once, snapshot)[i] == once[i];
  }

  /** Tagging adds exactly one occurrence of the snapshot to each matching
      record and leaves every other snapshot count alone. */
  lemma {:induction false} TagAddsOne(docs: seq<ScanRecord>, f: TagFilter, snapshot: SnapshotId, i: nat)
    requires i < |docs| && Matches(docs[i], f)
    ensures multiset(PushWhere(docs, f, snapshot)[i].snapshots)[snapshot]
      == multiset(docs[i].snapshots)[snapshot] + 1
    ensures forall y :: y != snapshot ==>
      multiset(PushWhere(docs, f, snapshot)[i].snapshots)[y] == multiset(docs[i].snapshots)[y]
  {
  }
}
