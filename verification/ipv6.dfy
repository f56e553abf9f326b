/** IPv6 addresses as Python's `ipaddress.IPv6Address` reads and prints
    them. Reading accepts the text forms of section 2.2 of RFC 4291: eight
    colon-separated groups of one to four hex digits, at most one "::"
    standing for a run of zero groups, and an optional dotted-decimal IPv4
    suffix for the last two groups. Printing produces the recommended form
    of section 4 of RFC 5952: lower case, no leading zeros, and "::" for
    the leftmost longest run of two or more zero groups. */
module Ipv6 {
  import opened Wrappers
  import opened Radix
  import opened Strings
  import opened Numerals
  import Ipv4

  const HextetCount := 8

  type Hextet = x: nat | x < 0x1_0000

  type Hextets = hs: seq<Hextet> | |hs| == 8 witness [0, 0, 0, 0, 0, 0, 0, 0]

  /** Eight 16-bit groups, most significant first. */
  datatype IPv6Address = IPv6Address(hextets: Hextets)

  /** The reasons `IPv6Address(text)` raises `AddressValueError`. */
  datatype AddressValueError =
    | UnexpectedSlash
    | EmptyAddress
    | TooFewParts
    | BadIpv4Suffix(reason: Ipv4.AddressValueError)
    | TooManyParts
    | MultipleDoubleColons
    | LeadingColon
    | TrailingColon
    | TooManyPartsWithDoubleColon
    | WrongPartCount
    | NonHexHextet
    | HextetTooLong
    | EmptyHextet

  /** One group: hex digits only (checked first), at most four of them,
      and at least one (`int('', 16)` fails). */
  function ParseHextet(s: string): (r: Result<Hextet, AddressValueError>)
    ensures r.Ok? <==> s != [] && AllHex(s) && |s| <= 4
    ensures r.Ok? ==> r.value == HexValue(s)
  {
    if !AllHex(s) then Err(NonHexHextet)
    else if |s| > 4 then Err(HextetTooLong)
    else if s == [] then Err(EmptyHextet)
    else
      HexValueBound(s);
      Ok(HexValue(s))
  }

  lemma HexValueBound(s: string)
    requires AllHex(s) && |s| <= 4
    ensures HexValue(s) < 0x1_0000
  {
    FromDigitsBound(DigitValues(s), 16);
    assert Pow(16, 0) == 1;
    assert Pow(16, 1) == 16;
    assert Pow(16, 2) == 256;
    assert Pow(16, 3) == 4096;
    assert Pow(16, 4) == 0x1_0000;
  }

  /** The groups, left to right; the first failing group names the error. */
  function ParseHextets(ps: seq<string>): (r: Result<seq<Hextet>, AddressValueError>)
    ensures r.Ok? <==> forall i :: 0 <= i < |ps| ==> ParseHextet(ps[i]).Ok?
    ensures r.Ok? ==> |r.value| == |ps|
    ensures r.Ok? ==> forall i :: 0 <= i < |ps| ==> ParseHextet(ps[i]) == Ok(r.value[i])
  {
    if ps == [] then Ok([])
    else
      var h :- ParseHextet(ps[0]);
      var rest :- ParseHextets(ps[1..]);
      assert forall i :: 1 <= i < |ps| ==> ps[i] == ps[1..][i - 1];
      Ok([h] + rest)
  }

  /** A dotted-decimal last part becomes the two groups `'%x'` prints for
      the high and low halves of the IPv4 address. */
  function ExpandIpv4Suffix(parts: seq<string>): (r: Result<seq<string>, AddressValueError>)
    requires |parts| >= 1
    ensures '.' !in parts[|parts| - 1] ==> r == Ok(parts)
    ensures r.Ok? && '.' in parts[|parts| - 1] ==> |r.value| == |parts| + 1
  {
    var last := parts[|parts| - 1];
    if '.' in last then
      match Ipv4.Parse(last)
      case Err(e) => Err(BadIpv4Suffix(e))
      case Ok(v4) =>
        var n := Ipv4.ToInt(v4);
        Ok(parts[..|parts| - 1] + [HexText(n / 0x1_0000), HexText(n % 0x1_0000)])
    else
      Ok(parts)
  }

  /** An empty part strictly between the first and the last: the place of "::". */
  predicate InteriorEmpty(parts: seq<string>, j: int) {
    1 <= j < |parts| - 1 && parts[j] == []
  }

  /** The scan for "::": the one interior empty part, if any; two of them
      are an error. `found` is the empty part seen before index `i`. */
  function FindSkip(parts: seq<string>, i: nat, found: Option<nat>): (r: Result<Option<nat>, AddressValueError>)
    requires 1 <= i
    requires found.Some? ==> InteriorEmpty(parts, found.value) && found.value < i
    requires forall j :: 0 <= j < i && InteriorEmpty(parts, j) ==> found == Some(j)
    ensures r.Ok? && r.value.Some? ==> InteriorEmpty(parts, r.value.value)
    ensures r.Ok? ==> forall j :: InteriorEmpty(parts, j) ==> r.value == Some(j)
    ensures r.Err? ==> r.error == MultipleDoubleColons
    ensures r.Err? ==> exists j, k :: j < k && InteriorEmpty(parts, j) && InteriorEmpty(parts, k)
    decreases |parts| - i
  {
    if i + 1 >= |parts| then Ok(found)
    else if parts[i] == [] then
      if found.Some? then
        assert InteriorEmpty(parts, found.value) && InteriorEmpty(parts, i);
        Err(MultipleDoubleColons)
      else FindSkip(parts, i + 1, Some(i))
    else FindSkip(parts, i + 1, found)
  }

  /** How many groups come before "::" (`hi`), after it (`lo`), and how
      many zero groups it stands for (`skipped`). */
  datatype Layout = Layout(hi: nat, lo: nat, skipped: nat)

  function LayoutOf(parts: seq<string>, skip: Option<nat>): (r: Result<Layout, AddressValueError>)
    requires |parts| >= 1
    requires skip.Some? ==> InteriorEmpty(parts, skip.value)
    ensures r.Ok? ==> r.value.hi + r.value.lo + r.value.skipped == HextetCount
    ensures r.Ok? ==> r.value.hi + r.value.lo <= |parts|
    ensures r.Ok? ==> (skip.Some? <==> r.value.skipped >= 1)
  {
    match skip
    case Some(k) =>
      var hi := if parts[0] == [] then k - 1 else k;
      var lo := if parts[|parts| - 1] == [] then |parts| - k - 2 else |parts| - k - 1;
      if parts[0] == [] && hi != 0 then Err(LeadingColon)
      else if parts[|parts| - 1] == [] && lo != 0 then Err(TrailingColon)
      else if HextetCount - (hi + lo) < 1 then Err(TooManyPartsWithDoubleColon)
      else Ok(Layout(hi, lo, HextetCount - (hi + lo)))
    case None =>
      if |parts| != HextetCount then Err(WrongPartCount)
      else if parts[0] == [] then Err(LeadingColon)
      else if parts[|parts| - 1] == [] then Err(TrailingColon)
      else Ok(Layout(HextetCount, 0, 0))
  }

  function Zeros(n: nat): (z: seq<Hextet>)
    ensures |z| == n
    ensures forall i :: 0 <= i < n ==> z[i] == 0
  {
    seq(n, i => 0)
  }

  /** `IPv6Address(text)` (without a `%scope` suffix). */
  function Parse(s: string): (r: Result<IPv6Address, AddressValueError>)
  {
    if '/' in s then Err(UnexpectedSlash)
    else if s == [] then Err(EmptyAddress)
    else
      var split := Split(s, ':');
      if |split| < 3 then Err(TooFewParts)
      else
        var parts :- ExpandIpv4Suffix(split);
        if |parts| > HextetCount + 1 then Err(TooManyParts)
        else ParseParts(parts)
  }

  /** The parts after the IPv4 suffix is expanded: find "::", lay the
      groups out around it, and read them. */
  function ParseParts(parts: seq<string>): (r: Result<IPv6Address, AddressValueError>)
    requires |parts| >= 1
  {
    var skip :- FindSkip(parts, 1, None);
    var layout :- LayoutOf(parts, skip);
    ReadLayout(parts, layout)
  }

  /** The `hi` leading and `lo` trailing parts read as groups, with
      `skipped` zero groups between them. */
  function ReadLayout(parts: seq<string>, layout: Layout): (r: Result<IPv6Address, AddressValueError>)
    requires layout.hi + layout.lo + layout.skipped == HextetCount
    requires layout.hi + layout.lo <= |parts|
  {
    var high :- ParseHextets(parts[..layout.hi]);
    var low :- ParseHextets(parts[|parts| - layout.lo..]);
    Ok(IPv6Address(high + Zeros(layout.skipped) + low))
  }

  /** `'%x'` of every group. */
  function HextetTexts(hs: Hextets): (ts: seq<string>)
    ensures |ts| == 8
    ensures forall i :: 0 <= i < 8 ==> ts[i] == HexText(hs[i])
  {
    seq(8, i requires 0 <= i < 8 => HexText(hs[i]))
  }

  /** A run of groups; `start` is -1 when there is none. */
  datatype Run = Run(start: int, len: nat)

  /** The `len` groups from `start` on all print as "0". */
  predicate ZeroRun(ts: seq<string>, start: int, len: nat) {
    0 <= start && start + len <= |ts| && forall j :: start <= j < start + len ==> ts[j] == "0"
  }

  /** The state of the scan over the first `i` groups: `cur` is the zero
      run that ends at `i` and cannot be extended to the left, and `best`
      is the leftmost longest zero run seen so far. */
  ghost predicate ScanState(ts: seq<string>, i: nat, best: Run, cur: Run) {
    && i <= |ts|
    && cur.len <= i
    && (cur.len == 0 <==> cur.start == -1)
    && (cur.len > 0 ==> cur.start == i - cur.len && ZeroRun(ts, cur.start, cur.len))
    && (cur.len < i ==> ts[i - cur.len - 1] != "0")
    && cur.len <= best.len
    && (best.len == 0 <==> best.start == -1)
    && (best.len > 0 ==> ZeroRun(ts, best.start, best.len) && best.start + best.len <= i)
    && (forall s: int, l: nat :: ZeroRun(ts, s, l) && s + l <= i ==> l <= best.len)
    && (forall s :: best.len > 0 && ZeroRun(ts, s, best.len) && s + best.len <= i ==> best.start <= s)
  }

  /** The library's loop over the groups, tracking the current and the best
      run of "0" groups; a longer run replaces the best one, an equal one
      does not. */
  function ScanZeroRuns(ts: seq<string>, i: nat, best: Run, cur: Run): (r: Run)
    requires ScanState(ts, i, best, cur)
    ensures r.len == 0 <==> r.start == -1
    ensures r.len > 0 ==> ZeroRun(ts, r.start, r.len)
    ensures forall s: int, l: nat :: ZeroRun(ts, s, l) ==> l <= r.len
    ensures forall s :: r.len > 0 && ZeroRun(ts, s, r.len) ==> r.start <= s
    decreases |ts| - i
  {
    if i == |ts| then best
    else if ts[i] == "0" then
      var cur' := Run(if cur.start == -1 then i else cur.start, cur.len + 1);
      var best' := if cur'.len > best.len then cur' else best;
      ScanStepZero(ts, i, best, cur, best', cur');
      ScanZeroRuns(ts, i + 1, best', cur')
    else
      ScanStepOther(ts, i, best, cur);
      ScanZeroRuns(ts, i + 1, best, Run(-1, 0))
  }

  lemma ScanStepZero(ts: seq<string>, i: nat, best: Run, cur: Run, best': Run, cur': Run)
    requires ScanState(ts, i, best, cur) && i < |ts| && ts[i] == "0"
    requires cur' == Run(if cur.start == -1 then i else cur.start, cur.len + 1)
    requires best' == if cur'.len > best.len then cur' else best
    ensures ScanState(ts, i + 1, best', cur')
  {
    forall s: int, l: nat | ZeroRun(ts, s, l) && s + l == i + 1
      ensures l <= cur'.len && (l == cur'.len ==> s == cur'.start)
    {
      var j := i - cur.len - 1;
      if 0 <= j {
        var t := ts[j];
        assert s <= j < s + l ==> t == "0";
      }
    }
  }

  lemma ScanStepOther(ts: seq<string>, i: nat, best: Run, cur: Run)
    requires ScanState(ts, i, best, cur) && i < |ts| && ts[i] != "0"
    ensures ScanState(ts, i + 1, best, Run(-1, 0))
  {
    forall s: int, l: nat | ZeroRun(ts, s, l) && s + l == i + 1
      ensures l == 0
    {
      var t := ts[i];
      assert s <= i < s + l ==> t == "0";
    }
  }

  /** The run that "::" replaces: leftmost among the longest runs of zero
      groups (section 4.2.3 of RFC 5952). */
  function LongestZeroRun(ts: seq<string>): (r: Run)
    ensures r.len == 0 <==> r.start == -1
    ensures r.len > 0 ==> ZeroRun(ts, r.start, r.len)
    ensures forall s: int, l: nat :: ZeroRun(ts, s, l) ==> l <= r.len
    ensures forall s :: r.len > 0 && ZeroRun(ts, s, r.len) ==> r.start <= s
  {
    ScanZeroRuns(ts, 0, Run(-1, 0), Run(-1, 0))
  }

  /** Replaces a run of two or more groups by one empty part, adding an
      empty part at either end the run touches, so that joining with ':'
      yields "::" there. A single zero group is never compressed (section
      4.2.2 of RFC 5952). */
  function Compress(ts: seq<string>, run: Run): seq<string>
    requires run.len > 1 ==> 0 <= run.start && run.start + run.len <= |ts|
  {
    if run.len > 1 then
      var end := run.start + run.len;
      var body := ts[..run.start] + [""] + ts[end..] + (if end == |ts| then [""] else []);
      if run.start == 0 then [""] + body else body
    else
      ts
  }

  /** `str(address)`. */
  function Format(addr: IPv6Address): string {
    var ts := HextetTexts(addr.hextets);
    Join(Compress(ts, LongestZeroRun(ts)), ':')
  }

  /** What a printed group is like: not empty and none of ':', '.', '/'. */
  predicate PrintedGroup(t: string) {
    t != [] && ':' !in t && '.' !in t && '/' !in t
  }

  /** A group's printed text is such a group, reads back as the group,
      and is "0" exactly for a zero group. */
  lemma PrintedGroupOf(h: Hextet)
    ensures PrintedGroup(HexText(h))
    ensures ParseHextet(HexText(h)) == Ok(h)
    ensures HexText(h) == "0" <==> h == 0
  {
    HexTextLength(h);
    HexRoundTrip(h);
    HexTextZero(h);
    assert ':' !in LowerDigits && '.' !in LowerDigits && '/' !in LowerDigits;
  }

  lemma PrintedGroups(hs: Hextets)
    ensures forall i :: 0 <= i < 8 ==> PrintedGroup(HextetTexts(hs)[i])
  {
    forall i | 0 <= i < 8
      ensures PrintedGroup(HextetTexts(hs)[i])
    {
      PrintedGroupOf(hs[i]);
    }
  }

  /** Any slice of the printed groups reads back as the same slice of
      groups. */
  lemma ReadGroups(ts: seq<string>, hs: seq<Hextet>)
    requires |ts| == |hs|
    requires forall m :: 0 <= m < |ts| ==> ParseHextet(ts[m]) == Ok(hs[m])
    ensures ParseHextets(ts) == Ok(hs)
  {
    var r := ParseHextets(ts);
    assert r.Ok?;
    assert r.value == hs;
  }

  /** The printed groups up to `j` read back as the groups there. */
  lemma ReadPrefix(hs: Hextets, j: nat)
    requires j <= 8
    ensures ParseHextets(HextetTexts(hs)[..j]) == Ok(hs[..j])
  {
    var ts := HextetTexts(hs)[..j];
    forall m | 0 <= m < j
      ensures ParseHextet(ts[m]) == Ok(hs[..j][m])
    {
      PrintedGroupOf(hs[m]);
    }
    ReadGroups(ts, hs[..j]);
  }

  /** The printed groups from `i` on read back as the groups there. */
  lemma ReadSuffix(hs: Hextets, i: nat)
    requires i <= 8
    ensures ParseHextets(HextetTexts(hs)[i..]) == Ok(hs[i..])
  {
    var ts := HextetTexts(hs)[i..];
    forall m | 0 <= m < 8 - i
      ensures ParseHextet(ts[m]) == Ok(hs[i..][m])
    {
      PrintedGroupOf(hs[i + m]);
    }
    ReadGroups(ts, hs[i..]);
  }

  /** The layout "::" in place of `run` gives: the groups before it, those
      after it, and the run's length. */
  function RunLayout(run: Run): (layout: Layout)
    requires 0 <= run.start && run.start + run.len <= 8
    ensures layout.hi + layout.lo + layout.skipped == 8
  {
    Layout(run.start, 8 - (run.start + run.len), run.len)
  }

  /** A run of "0" texts stands for a run of zero groups. */
  lemma RunIsZeros(hs: Hextets, run: Run)
    requires ZeroRun(HextetTexts(hs), run.start, run.len)
    ensures var layout := RunLayout(run);
      Zeros(layout.skipped) == hs[layout.hi..8 - layout.lo]
  {
    forall j | run.start <= j < run.start + run.len
      ensures hs[j] == 0
    {
      PrintedGroupOf(hs[j]);
    }
  }

  /** Without compression the parts are the eight printed groups. */
  lemma PlainLayout(ts: seq<string>)
    requires |ts| == 8
    requires forall i :: 0 <= i < 8 ==> PrintedGroup(ts[i])
    ensures forall j :: !InteriorEmpty(ts, j)
    ensures LayoutOf(ts, None) == Ok(Layout(8, 0, 0))
  {
  }

  /** Where the empty parts and the printed groups sit after compressing
      a run of at least two groups: `off` is the extra empty part at the
      front (when the run starts the address). */
  lemma CompressShape(ts: seq<string>, run: Run)
    requires |ts| == 8
    requires forall i :: 0 <= i < 8 ==> ts[i] != ""
    requires run.len > 1 && ZeroRun(ts, run.start, run.len)
    ensures var parts := Compress(ts, run);
      var st := run.start;
      var end := st + run.len;
      var off := if st == 0 then 1 else 0;
      && |parts| == off + st + 1 + (8 - end) + (if end == 8 then 1 else 0)
      && (forall j :: 0 <= j < |parts| ==>
            (parts[j] == "" <==> j < off || j == off + st || (end == 8 && j == |parts| - 1)))
      && (forall j :: off <= j < off + st ==> parts[j] == ts[j - off])
      && (forall j :: off + st < j < off + st + 1 + (8 - end) ==> parts[j] == ts[end + j - off - st - 1])
  {
    var st := run.start;
    var end := st + run.len;
    var body := ts[..st] + [""] + ts[end..] + (if end == |ts| then [""] else []);
    forall j | 0 <= j < |body|
      ensures body[j] == "" <==> j == st || (end == 8 && j == |body| - 1)
      ensures j < st ==> body[j] == ts[j]
      ensures st < j < st + 1 + (8 - end) ==> body[j] == ts[end + j - st - 1]
    {
      if j < st {
        assert body[j] == ts[j];
      } else if st < j < st + 1 + (8 - end) {
        assert body[j] == ts[end + j - st - 1];
      }
    }
    if st == 0 {
      var parts := [""] + body;
      assert Compress(ts, run) == parts;
      forall j | 1 <= j < |parts|
        ensures parts[j] == body[j - 1]
      {
      }
    } else {
      assert Compress(ts, run) == body;
    }
  }

  /** Compressing keeps the groups before and after the run. */
  lemma CompressedEnds(ts: seq<string>, run: Run)
    requires |ts| == 8
    requires run.len > 1 && ZeroRun(ts, run.start, run.len)
    ensures var parts := Compress(ts, run);
      var lo := 8 - (run.start + run.len);
      && lo <= |parts|
      && parts[..run.start] == ts[..run.start]
      && parts[|parts| - lo..] == ts[8 - lo..]
  {
    var st := run.start;
    var end := st + run.len;
    var body := ts[..st] + [""] + ts[end..] + (if end == |ts| then [""] else []);
    var parts := Compress(ts, run);
    if end == 8 {
      assert ts[end..] == [];
    } else {
      assert body[|body| - (8 - end)..] == ts[end..];
    }
    if st == 0 {
      assert parts == [""] + body;
    } else {
      assert parts == body;
      assert body[..st] == ts[..st];
    }
  }

  /** The parts a compressed run leaves: exactly one interior empty part,
      and a layout that puts the groups before and after the run back in
      place. */
  lemma CompressedLayout(ts: seq<string>, run: Run)
    requires |ts| == 8
    requires forall i :: 0 <= i < 8 ==> PrintedGroup(ts[i])
    requires run.len > 1 && ZeroRun(ts, run.start, run.len)
    ensures var parts := Compress(ts, run);
      var k := if run.start == 0 then 1 else run.start;
      var end := run.start + run.len;
      && 3 <= |parts| <= 9
      && (forall i :: 0 <= i < |parts| ==> ':' !in parts[i] && '/' !in parts[i])
      && '.' !in parts[|parts| - 1]
      && InteriorEmpty(parts, k)
      && (forall j :: InteriorEmpty(parts, j) ==> j == k)
      && LayoutOf(parts, Some(k)) == Ok(RunLayout(run))
  {
    CompressShape(ts, run);
    var parts := Compress(ts, run);
    var st := run.start;
    var end := st + run.len;
    var off := if st == 0 then 1 else 0;
    var k := off + st;
    forall i | 0 <= i < |parts|
      ensures ':' !in parts[i] && '/' !in parts[i] && '.' !in parts[i]
    {
      if off <= i < off + st {
        assert parts[i] == ts[i - off];
      } else if off + st < i < off + st + 1 + (8 - end) {
        assert parts[i] == ts[end + i - off - st - 1];
      }
    }
    assert parts[0] == "" <==> st == 0;
    assert parts[|parts| - 1] == "" <==> end == 8;
    assert LayoutOf(parts, Some(k)) == Ok(Layout(st, 8 - end, run.len));
  }

  /** The stages of `Parse` on a text whose parts, "::" position, layout
      and groups are known. */
  lemma ParseStages(s: string, parts: seq<string>, skip: Option<nat>, layout: Layout, hs: Hextets)
    requires '/' !in s && s != []
    requires Split(s, ':') == parts && 3 <= |parts| <= 9 && '.' !in parts[|parts| - 1]
    requires FindSkip(parts, 1, None) == Ok(skip)
    requires skip.Some? ==> InteriorEmpty(parts, skip.value)
    requires LayoutOf(parts, skip) == Ok(layout)
    requires ParseHextets(parts[..layout.hi]) == Ok(hs[..layout.hi])
    requires ParseHextets(parts[|parts| - layout.lo..]) == Ok(hs[8 - layout.lo..])
    requires Zeros(layout.skipped) == hs[layout.hi..8 - layout.lo]
    ensures Parse(s) == Ok(IPv6Address(hs))
  {
    assert ExpandIpv4Suffix(parts) == Ok(parts);
    ReadLayoutOf(parts, layout, hs);
  }

  lemma ReadLayoutOf(parts: seq<string>, layout: Layout, hs: Hextets)
    requires layout.hi + layout.lo + layout.skipped == HextetCount
    requires layout.hi + layout.lo <= |parts|
    requires ParseHextets(parts[..layout.hi]) == Ok(hs[..layout.hi])
    requires ParseHextets(parts[|parts| - layout.lo..]) == Ok(hs[8 - layout.lo..])
    requires Zeros(layout.skipped) == hs[layout.hi..8 - layout.lo]
    ensures ReadLayout(parts, layout) == Ok(IPv6Address(hs))
  {
    SliceSplit(hs, layout.hi, 8 - layout.lo);
  }

  /** Parts with exactly one interior empty part at `k`, laid out by
      `layout`, whose groups read back as `hs`. */
  ghost predicate ReadsAs(parts: seq<string>, k: nat, layout: Layout, hs: Hextets) {
    && 3 <= |parts| <= 9
    && (forall i :: 0 <= i < |parts| ==> ':' !in parts[i] && '/' !in parts[i])
    && '.' !in parts[|parts| - 1]
    && InteriorEmpty(parts, k)
    && (forall j :: InteriorEmpty(parts, j) ==> j == k)
    && LayoutOf(parts, Some(k)) == Ok(layout)
    && ParseHextets(parts[..layout.hi]) == Ok(hs[..layout.hi])
    && ParseHextets(parts[|parts| - layout.lo..]) == Ok(hs[8 - layout.lo..])
    && Zeros(layout.skipped) == hs[layout.hi..8 - layout.lo]
  }

  /** `Parse` of joined parts that have exactly one interior empty part
      at `k`, laid out by `layout`, with groups reading back as `hs`. */
  lemma ParseJoinedParts(parts: seq<string>, k: nat, layout: Layout, hs: Hextets)
    requires ReadsAs(parts, k, layout, hs)
    ensures Parse(Join(parts, ':')) == Ok(IPv6Address(hs))
  {
    var s := Join(parts, ':');
    SplitJoin(parts, ':');
    NoCharInJoin(parts, ':', '/');
    var r := FindSkip(parts, 1, None);
    assert r.Ok? ==> r.value == Some(k);
    ParseStages(s, parts, Some(k), layout, hs);
  }

  /** The printed groups before a compressed run read back as the groups
      there. */
  lemma GroupsBeforeRun(hs: Hextets, run: Run)
    requires run.len > 1 && ZeroRun(HextetTexts(hs), run.start, run.len)
    ensures var hi := RunLayout(run).hi;
      ParseHextets(Compress(HextetTexts(hs), run)[..hi]) == Ok(hs[..hi])
  {
    CompressedEnds(HextetTexts(hs), run);
    ReadPrefix(hs, run.start);
  }

  /** The printed groups after a compressed run read back as the groups
      there. */
  lemma GroupsAfterRun(hs: Hextets, run: Run)
    requires run.len > 1 && ZeroRun(HextetTexts(hs), run.start, run.len)
    ensures var parts := Compress(HextetTexts(hs), run);
      var lo := RunLayout(run).lo;
      ParseHextets(parts[|parts| - lo..]) == Ok(hs[8 - lo..])
  {
    CompressedEnds(HextetTexts(hs), run);
    ReadSuffix(hs, run.start + run.len);
  }

  lemma CompressedLayoutOf(hs: Hextets, run: Run)
    requires run.len > 1 && ZeroRun(HextetTexts(hs), run.start, run.len)
    ensures var parts := Compress(HextetTexts(hs), run);
      var k := if run.start == 0 then 1 else run.start;
      var end := run.start + run.len;
      && 3 <= |parts| <= 9
      && (forall i :: 0 <= i < |parts| ==> ':' !in parts[i] && '/' !in parts[i])
      && '.' !in parts[|parts| - 1]
      && InteriorEmpty(parts, k)
      && (forall j :: InteriorEmpty(parts, j) ==> j == k)
      && LayoutOf(parts, Some(k)) == Ok(RunLayout(run))
  {
    PrintedGroups(hs);
    CompressedLayout(HextetTexts(hs), run);
  }

  /** The parts of a compressed printing, with "::" at `k`. */
  lemma CompressedReadsAs(hs: Hextets, run: Run)
    requires run.len > 1 && ZeroRun(HextetTexts(hs), run.start, run.len)
    ensures var k := if run.start == 0 then 1 else run.start;
      ReadsAs(Compress(HextetTexts(hs), run), k, RunLayout(run), hs)
  {
    CompressedLayoutOf(hs, run);
    GroupsBeforeRun(hs, run);
    GroupsAfterRun(hs, run);
    RunIsZeros(hs, run);
  }

  lemma CompressedRoundTrip(hs: Hextets, run: Run)
    requires run.len > 1 && ZeroRun(HextetTexts(hs), run.start, run.len)
    ensures Parse(Join(Compress(HextetTexts(hs), run), ':')) == Ok(IPv6Address(hs))
  {
    var k := if run.start == 0 then 1 else run.start;
    CompressedReadsAs(hs, run);
    ParseJoinedParts(Compress(HextetTexts(hs), run), k, RunLayout(run), hs);
  }

  /** The eight printed groups joined by ':' split back into themselves,
      with no "::" and the plain layout. */
  lemma PlainParts(hs: Hextets)
    ensures var ts := HextetTexts(hs);
      var s := Join(ts, ':');
      && '/' !in s && s != []
      && Split(s, ':') == ts && '.' !in ts[7]
      && FindSkip(ts, 1, None) == Ok(None)
      && LayoutOf(ts, None) == Ok(Layout(8, 0, 0))
  {
    var ts := HextetTexts(hs);
    PrintedGroups(hs);
    PlainLayout(ts);
    SplitJoin(ts, ':');
    NoCharInJoin(ts, ':', '/');
    var r := FindSkip(ts, 1, None);
    assert r == Ok(None);
  }

  lemma PlainRoundTrip(hs: Hextets, run: Run)
    requires run.len <= 1
    ensures Parse(Join(Compress(HextetTexts(hs), run), ':')) == Ok(IPv6Address(hs))
  {
    var ts := HextetTexts(hs);
    assert Compress(ts, run) == ts;
    PlainParts(hs);
    ReadPrefix(hs, 8);
    ReadSuffix(hs, 8);
    ParseStages(Join(ts, ':'), ts, None, Layout(8, 0, 0), hs);
  }

  /** Reading the printed form gives the address back. */
  lemma {:induction false} ParseFormat(addr: IPv6Address)
    ensures Parse(Format(addr)) == Ok(addr)
  {
    var hs := addr.hextets;
    var run := LongestZeroRun(HextetTexts(hs));
    if run.len > 1 {
      CompressedRoundTrip(hs, run);
    } else {
      PlainRoundTrip(hs, run);
    }
  }

  /** The printed form holds only hex digits and ':'. */
  lemma FormatChars(addr: IPv6Address)
    ensures forall c :: c in Format(addr) ==> c == ':' || IsHexDigit(c)
  {
    var ts := HextetTexts(addr.hextets);
    var parts := Compress(ts, LongestZeroRun(ts));
    assert forall p :: p in parts ==> p == "" || p in ts;
    forall c | c in Format(addr)
      ensures c == ':' || IsHexDigit(c)
    {
      CharsOfJoin(parts, ':', c);
    }
  }

  /** Every accepted text has a ':' in it: without one `split` yields a
      single part, and at least three are needed. */
  lemma ParseNeedsColon(s: string)
    requires Parse(s).Ok?
    ensures ':' in s
  {
    if ':' !in s {
      SplitNoSep(s, [], ':');
    }
  }

  const AddressSpace := 0x1_0000_0000_0000_0000_0000_0000_0000_0000

  /** `int(address)`: the groups read as a big-endian 128-bit number. */
  function ToInt(addr: IPv6Address): (n: nat)
    ensures n < AddressSpace
  {
    var ds: seq<nat> := addr.hextets;
    FromDigitsBound(ds, 0x1_0000);
    SpaceIsPow();
    FromDigits(ds, 0x1_0000)
  }

  lemma SpaceIsPow()
    ensures Pow(0x1_0000, 8) == AddressSpace
  {
    assert Pow(0x1_0000, 1) == 0x1_0000;
    assert Pow(0x1_0000, 2) == 0x1_0000_0000;
    assert Pow(0x1_0000, 3) == 0x1_0000_0000_0000;
    assert Pow(0x1_0000, 4) == 0x1_0000_0000_0000_0000;
    assert Pow(0x1_0000, 5) == 0x1_0000_0000_0000_0000_0000;
    assert Pow(0x1_0000, 6) == 0x1_0000_0000_0000_0000_0000_0000;
    assert Pow(0x1_0000, 7) == 0x1_0000_0000_0000_0000_0000_0000_0000;
  }

  /** An address whose first group is not zero has an integer of at
      least 2^112. */
  lemma {:induction false} LeadingGroupWeight(addr: IPv6Address)
    requires addr.hextets[0] != 0
    ensures ToInt(addr) >= 0x1_0000_0000_0000_0000_0000_0000_0000
  {
    var ds: seq<nat> := addr.hextets;
    LeadingDigitWeight(ds, 0x1_0000);
    assert Pow(0x1_0000, 1) == 0x1_0000;
    assert Pow(0x1_0000, 2) == 0x1_0000_0000;
    assert Pow(0x1_0000, 3) == 0x1_0000_0000_0000;
    assert Pow(0x1_0000, 4) == 0x1_0000_0000_0000_0000;
    assert Pow(0x1_0000, 5) == 0x1_0000_0000_0000_0000_0000;
    assert Pow(0x1_0000, 6) == 0x1_0000_0000_0000_0000_0000_0000;
    assert Pow(0x1_0000, 7) == 0x1_0000_0000_0000_0000_0000_0000_0000;
    MulMonotone(1, ds[0], Pow(0x1_0000, 7));
  }

  /** `IPv6Address(n)` for an integer in range. */
  function FromInt(n: nat): (addr: IPv6Address)
    requires n < AddressSpace
    ensures ToInt(addr) == n
  {
    SpaceIsPow();
    FromToDigits(n, 0x1_0000, 8);
    var ds := ToDigits(n, 0x1_0000, 8);
    var hs: Hextets := seq(8, i requires 0 <= i < 8 => ds[i] as Hextet);
    var wide: seq<nat> := hs;
    assert wide == ds;
    IPv6Address(hs)
  }

  /** The integer form loses nothing. */
  lemma {:induction false} FromIntToInt(addr: IPv6Address)
    ensures FromInt(ToInt(addr)) == addr
  {
    var ds: seq<nat> := addr.hextets;
    ToFromDigits(ds, 0x1_0000);
    var back: seq<nat> := FromInt(ToInt(addr)).hextets;
    assert back == ds;
  }

  lemma SliceSplit<T>(s: seq<T>, i: nat, j: nat)
    requires i <= j <= |s|
    ensures s[..i] + s[i..j] + s[j..] == s
  {
  }
}
