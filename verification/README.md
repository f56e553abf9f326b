# cyhy-db data models in Dafny

This project models the three data models of the cyhy-db persistence layer
that carry logic of their own:

- **CVE** (`src/cyhy_db/models/cve.py`): a CVE record with a CVSS score and
  version. The score is range-checked when the record is built. The
  severity (1 to 4) is derived from score and version by the NVD
  qualitative bands, and it is recomputed on every save.
- **IPAddressField** (`src/cyhy_db/models/ip_address.py`): the document
  field that holds an IPv4 or IPv6 address. In memory it holds a typed
  address; in the database it holds the address's text. It validates,
  converts to the stored form, and reads the stored form back.
- **ScanDoc** (`src/cyhy_db/models/scan_doc.py`): a scan-result document.
  Its `ip` property stores the address and keeps `ip_int` equal to the
  address's integer. Its collection methods clear the `latest` flag and
  push or pull snapshot tags on the documents a query selects. The
  collection is a sequence of records, and each update is a pure function
  from the old sequence to the new one.

The field relies on Python's `ipaddress` module. The field reads text with
`ip_address(text.strip())`, prints with `str(address)` and converts with
`int(address)`. That much of the library is modelled as well:

- `Ipv4` and `Ipv6` hold strict IPv4 parsing and CPython's IPv6 parsing and
  printing. IPv6 printing uses "::" for the leftmost longest run of zero
  groups, as section 4 of RFC 5952 recommends.
- `IpAddresses` holds the `ip_address` factory, which tries IPv4 first and
  then IPv6.
- `Strings` holds `str.strip`, `split` and `join`.
- `Numerals` and `Radix` hold the decimal and hex numerals and
  digit-sequence arithmetic.

Python values that matter here are modelled explicitly:

- A `float` score is `Finite(r)`, an infinity or `NaN`. Comparisons with
  NaN are false, as in Python.
- `None`, `str`, `int` and the address types are the cases of
  `IpAddressField.Value`.
- `int(text)` accepts an optional sign and ASCII decimal digits, with
  surrounding whitespace allowed.

Where the code's docstrings and error messages and its actual behaviour
differ, the model follows the code:

- A CVSS score of NaN passes the validator, although its error message says
  the score must be between 0.0 and 10.0. The code only refuses scores that
  compare below 0.0 or above 10.0. A record with a NaN score is built, and
  `calculate_severity` gives it severity 1, because NaN reaches no band.
  `Cve.NewCve` and `Cve.Save` model exactly that. `Cve.NewCveCorrected` is
  the intended construction; see Findings.
- IPv4 text with a leading zero in an octet ("010.0.0.1") is refused, not
  normalised. Python's `ipaddress` has refused leading zeros since 3.9.5.
  So reading and printing again normalises only IPv6 text: letter case,
  leading zeros in a group, and "::".
- `save` recomputes the severity on the caller's own record before writing
  it. `Cve.Save` returns that updated record together with the new store.
- An update through the IP address field (`set__ip=...`) always fails
  validation. The field hands the stored text to the base class, and that
  text is not a typed address.
- The `ip` setter of `ScanDoc` assigns the raw value without converting
  it. A text such as "1.2.3.4" is stored, and then `int("1.2.3.4")` fails
  with `ValueError`. `int(None)` raises a `TypeError`, which the setter does
  not catch.

## Model

| member | source | states |
|---|---|---|
| Cve.ParseVersion | src/cyhy_db/models/cve.py:16 | The version is accepted exactly when it is "2.0", "3.0" or "3.1". The accepted version prints back as the given text. Any other text fails with an error naming it. |
| Cve.VersionRoundTrip | src/cyhy_db/models/cve.py:16 | Every version's text is accepted as that version. |
| Cve.ValidateCvssScoreAsWritten | src/cyhy_db/models/cve.py:21-26 | As written: the score passes, unchanged, exactly when it is NaN or a finite number in [0, 10]. Otherwise the error carries the score. |
| Cve.NaNPassesAsWritten | src/cyhy_db/models/cve.py:24 | NaN passes the written check, but the intended check refuses it. |
| Cve.ValidateCvssScore | src/cyhy_db/models/cve.py:21-26 | Corrected: the score passes exactly when it is a finite number in [0, 10], both ends included, and it is returned unchanged. Otherwise the error carries the score. |
| Cve.ValidatorsAgreeExceptNaN | src/cyhy_db/models/cve.py:24 | For every score other than NaN, the written and the corrected checks accept the same scores and return the same value. |
| Cve.ScoreVectors | tests/test_cve.py:36-41 | -1.0 and 11.0 are refused; 0.0 and 10.0 are accepted. |
| Cve.SeverityMatchesBands | src/cyhy_db/models/cve.py:45-62 | The severity is one more than the number of band thresholds the score reaches: (4, 7, 10) for version 2.0 and (4, 7, 9) for 3.x. This holds for every score up to 10. |
| Cve.SeverityMonotone | src/cyhy_db/models/cve.py:45-62 | For a fixed version, severity never falls as the score rises within [0, 10]. |
| Cve.V2TopBand | src/cyhy_db/models/cve.py:45-53 | Version 2.0 on a valid score: severity 4 exactly when the score is 10, and severity 3 on [7, 10). |
| Cve.V3Bands | src/cyhy_db/models/cve.py:54-62 | Versions 3.x: severity 4 iff the score is at least 9, 3 iff it is in [7, 9), 2 iff it is in [4, 7), and 1 iff it is below 4. |
| Cve.V3VersionsAgree | src/cyhy_db/models/cve.py:54-62 | Versions 3.0 and 3.1 give the same severity for every score. |
| Cve.ZeroIsLow | src/cyhy_db/models/cve.py:40-44 | A score of 0.0 has severity 1 under every version. |
| Cve.SeverityVectors | tests/test_cve.py:10-23 | The twelve (version, score, severity) triples of the tests hold, as do the edges just below each band. |
| Cve.NewCve | src/cyhy_db/models/cve.py:14-26 | As the code builds a record: construction succeeds exactly when the score passes the validator as written (so NaN is accepted) and the version is valid. The record then holds the given id, score and version, and the default severity 1. On failure, each invalid field's error is reported. |
| Cve.NewCveCorrected | src/cyhy_db/models/cve.py:14-26 | With the intended check: construction succeeds exactly when the score is a finite number in [0, 10] and the version is valid. The stored score is that number. |
| Cve.ConstructionsAgreeExceptNaN | src/cyhy_db/models/cve.py:24 | The two constructions give the same result for every score but NaN. NaN with a valid version is built as written and refused as intended. |
| Cve.FloatSeverity | src/cyhy_db/models/cve.py:45-62 | The if-chain on a Python float agrees with the real-number severity table on every finite score, and gives 1 for NaN. |
| Cve.CalculateSeverity | src/cyhy_db/models/cve.py:28-62 | Only the severity changes. On a finite score in [0, 10] the new severity equals the band severity, and on NaN it is 1. |
| Cve.CalculateSeverityOverwrites | src/cyhy_db/models/cve.py:28-62 | The previous severity plays no part, and recomputing twice is the same as once. |
| Cve.Save | src/cyhy_db/models/cve.py:64-67 | The caller's record afterwards is the recomputed record, and that is what is written under its id. Every other record of the store is kept, and the keys grow by the id only. |
| Cve.SavedSeverityIsCurrent | src/cyhy_db/models/cve.py:64-67 | For a record the validator admits, the stored severity is never stale. A finite score gets its band severity, and NaN gets 1. |
| Cve.SaveIdempotent | src/cyhy_db/models/cve.py:64-67 | Saving a record twice gives the same result as saving it once. So does saving the record the caller holds after the first save. |
| Cve.SaveVector | tests/test_cve.py:44-51 | A 3.1 record scored 9.0 is stored with severity 4, whatever severity it held before. The caller's record holds 4 as well. |
| Cve.NaNRecordIsLow | src/cyhy_db/models/cve.py:21-62 | A NaN score with any version builds a record, which is saved with severity 1. The intended check refuses it. |
| Cve.ConstructThenSave | src/cyhy_db/models/cve.py:64-67 | A record built from a valid score and version and then saved is stored with the severity its score calls for. |
| IpAddressField.Validate | src/cyhy_db/models/ip_address.py:6-8 | A value passes exactly when it is a typed address. The error names the value. |
| IpAddressField.ToMongo | src/cyhy_db/models/ip_address.py:10-15 | `None` is stored as `None`. An address is stored as a text that reads back as that address. A `str` or an `int` is refused with an error naming it. |
| IpAddressField.PrepareQueryValue | src/cyhy_db/models/ip_address.py:17-18 | A query value is accepted exactly when the operator is a filter and the value is `None` or an address. An address then becomes its stored text. A `str` or `int` is refused by `to_mongo`. Under an update operator, the stored form is refused by `validate`. |
| IpAddressField.FilterMatchesStored | src/cyhy_db/models/ip_address.py:17-18 | Under a filter operator, an address's query value is its stored form, and it reads back as the address. |
| IpAddressField.ParseIp | src/cyhy_db/models/ip_address.py:20-24 | A non-text value passes through unchanged. A text becomes the address its stripped form reads as, or fails exactly when the stripped form is no address. |
| IpAddressField.ToPython | src/cyhy_db/models/ip_address.py:26-30 | Reading fails exactly when parsing fails. The error names the value as given. |
| IpAddressField.Assign | tests/test_ip_address.py:16-18 | Constructing a document and then calling `validate()` succeeds exactly for `None`, an address, or a text that reads as an address once stripped. The value kept is then an address or `None`. Any other value is refused with an error naming it. An `int` survives construction and is refused only by `validate()`. |
| IpAddressField.RoundTrip | tests/test_ip_address.py:49-60 | Every address, IPv4 or IPv6, is stored as its text and read back as the same address. |
| IpAddressField.PaddingIgnored | src/cyhy_db/models/ip_address.py:23 | Whitespace around a text changes neither what it reads as nor whether reading succeeds. |
| IpAddressField.ToPythonIdempotent | src/cyhy_db/models/ip_address.py:20-30 | Reading a value that has already been read gives it back unchanged. |
| IpAddressField.ReadValuesValidate | src/cyhy_db/models/ip_address.py:6-8 | Whatever a text reads as passes validation. |
| IpAddressField.Accepts192 | tests/test_ip_address.py:21-33 | "192.168.1.1" reads as the address 192.168.1.1. |
| IpAddressField.Accepts10 | tests/test_ip_address.py:21-33 | "10.0.0.1" reads as the address 10.0.0.1. |
| IpAddressField.AcceptsBroadcast | tests/test_ip_address.py:21-33 | "255.255.255.255" reads as the address 255.255.255.255. |
| IpAddressField.Refuses256 | tests/test_ip_address.py:36-46 | "256.256.256.256" is refused with an error naming it. |
| IpAddressField.Refuses456 | tests/test_ip_address.py:36-46 | "123.456.789.0" is refused with an error naming it. |
| IpAddressField.RefusesLetters | tests/test_ip_address.py:36-46 | "abc.def.ghi.jkl" is refused with an error naming it. |
| IpAddressField.RefusesDotted | src/cyhy_db/models/ip_address.py:20-30 | A text without padding or ':' is refused if IPv4 refuses it: IPv6 never accepts a text without ':'. |
| IpAddresses.Parse | src/cyhy_db/models/ip_address.py:23 | `ip_address` fails exactly when both versions refuse the text, and the error carries the text. An IPv4 result is what IPv4 reads. An IPv6 result is what IPv6 reads from a text that IPv4 refused. |
| IpAddresses.ToInt | src/cyhy_db/models/scan_doc.py:46 | An IPv4 address's integer is below 2^32, and an IPv6 address's is below 2^128. |
| IpAddresses.ParseText | src/cyhy_db/models/ip_address.py:10-24 | The printed form of every address reads back as that address. |
| IpAddresses.ParseNormalizes | src/cyhy_db/models/ip_address.py:23 | Printing what a text reads as and reading it again gives the same result: the printed form is a normal form. |
| IpAddresses.TextInjective | src/cyhy_db/models/ip_address.py:14 | Two addresses with the same printed form are equal. |
| IpAddresses.Ipv6TextIsNotIpv4 | src/cyhy_db/models/ip_address.py:23 | IPv4 refuses every printed IPv6 address, so `ip_address` never mistakes one for IPv4. |
| IpAddresses.RefusesWithoutColon | src/cyhy_db/models/ip_address.py:23 | A text without ':' that IPv4 refuses is no address. |
| IpAddresses.V4IntBigEndian | src/cyhy_db/models/scan_doc.py:46 | An IPv4 address's integer is its octets read big-endian, and it determines the address. |
| IpAddresses.V6IntDetermines | src/cyhy_db/models/scan_doc.py:46 | An IPv6 address's integer determines the address. |
| Ipv4.ParseOctet | src/cyhy_db/models/ip_address.py:23 | An accepted octet text is exactly the decimal text of its value. A canonical numeral of at most three digits is refused only for being above 255. |
| Ipv4.Parse | src/cyhy_db/models/ip_address.py:23 | Strictness: an accepted text is exactly the printed form of the address it reads as. |
| Ipv4.ParseFormat | src/cyhy_db/models/ip_address.py:14 | The printed form of an IPv4 address reads back as that address. |
| Ipv4.ParseIffFormat | src/cyhy_db/models/ip_address.py:23 | A text reads as an IPv4 address if and only if it is that address's printed form. |
| Ipv4.RejectsBadOctet | src/cyhy_db/models/ip_address.py:23 | Four dotted fields are refused when one of them is not a decimal number or exceeds 255. |
| Ipv4.FormatHasNoColon | src/cyhy_db/models/ip_address.py:14 | A printed IPv4 address holds no ':'. |
| Ipv4.ToInt | src/cyhy_db/models/scan_doc.py:46 | The integer is the octets read big-endian, below 2^32. |
| Ipv4.FromIntToInt | src/cyhy_db/models/scan_doc.py:46 | Converting an address to its integer and back gives the address. |
| Ipv6.ParseHextet | src/cyhy_db/models/ip_address.py:23 | A group is accepted exactly when it is one to four hex digits, and it reads as their value. |
| Ipv6.LongestZeroRun | src/cyhy_db/models/ip_address.py:14 | The run that "::" replaces is a run of zero groups. No run is longer, and none of the same length starts earlier. |
| Ipv6.ParseFormat | src/cyhy_db/models/ip_address.py:14 | The printed form of an IPv6 address reads back as that address. |
| Ipv6.ParseNeedsColon | src/cyhy_db/models/ip_address.py:23 | Every text IPv6 accepts contains a ':'. |
| Ipv6.ToInt | src/cyhy_db/models/scan_doc.py:46 | An IPv6 address's integer is below 2^128. |
| Ipv6.FromIntToInt | src/cyhy_db/models/scan_doc.py:46 | Converting an IPv6 address to its integer and back gives the address. |
| Strings.StripPadded | src/cyhy_db/models/ip_address.py:23 | Whitespace added around a text does not change its stripped form. |
| Strings.StripUnpadded | src/cyhy_db/models/ip_address.py:23 | A text with no whitespace at either end is its own stripped form. |
| Strings.SplitJoin | src/cyhy_db/models/ip_address.py:23 | `split` undoes `join` when no part holds the separator. |
| Numerals.DecimalRoundTrip | src/cyhy_db/models/scan_doc.py:46 | Reading the printed decimal numeral of a number gives the number. |
| ScanDoc.NewScanRecord | src/cyhy_db/models/scan_doc.py:20-26 | A new document is latest, has no snapshots, and carries the given owner, source and time. It has no address and no integer yet. |
| ScanDoc.IntOfText | src/cyhy_db/models/scan_doc.py:46 | `int(text)` succeeds exactly when the stripped text is an optional sign followed by one or more decimal digits. Otherwise it raises `ValueError`. |
| ScanDoc.IntOf | src/cyhy_db/models/scan_doc.py:46 | `int` of an address is the address's integer and `int` of an `int` is itself. A text is read as a numeral. Exactly `None` raises `TypeError`. |
| ScanDoc.IntOfDecimalText | src/cyhy_db/models/scan_doc.py:46 | `int` reads back the decimal text of every natural number. |
| ScanDoc.ReadsNegativeDigits | src/cyhy_db/models/scan_doc.py:46 | A minus sign followed by digits reads as the negated value. |
| ScanDoc.IntOfTextRefuses | src/cyhy_db/models/scan_doc.py:46-48 | A text holding a character that is not whitespace, a sign or a digit raises `ValueError`. |
| ScanDoc.SetIp | src/cyhy_db/models/scan_doc.py:41-48 | The getter returns the new value, and nothing but `ip` and `ip_int` changes. The setter succeeds exactly when `int` of the value succeeds, and `ip_int` is then that integer. On failure `ip_int` is kept. `ValueError` is raised iff `int` raises it, and `TypeError` iff the value is `None`. |
| ScanDoc.SetAddress | src/cyhy_db/models/scan_doc.py:41-48 | Setting an address always succeeds and couples `ip_int` to it. For IPv4 the integer is big-endian, below 2^32, and gives the address back. |
| ScanDoc.SetAddressTextFails | src/cyhy_db/models/scan_doc.py:41-48 | Setting an address given as text raises `ValueError`. The text stays stored and `ip_int` is unchanged. |
| ScanDoc.SetIntegerFailsValidation | src/cyhy_db/models/scan_doc.py:41-48 | Setting a plain integer succeeds, but the stored value then fails the field's validation. |
| ScanDoc.IpIntIgnoresVersion | src/cyhy_db/models/scan_doc.py:46 | An IPv4 address and the IPv6 address with the same number get the same `ip_int`. |
| ScanDoc.ResetLatestFlagByOwner | src/cyhy_db/models/scan_doc.py:51-52 | Afterwards a record is latest iff it was latest and belongs to another owner. Nothing else changes. |
| ScanDoc.ResetByOwnerIdempotent | src/cyhy_db/models/scan_doc.py:51-52 | Resetting an owner twice is the same as once. |
| ScanDoc.SelectedValues | src/cyhy_db/models/scan_doc.py:55 | A single value is treated as a one-element list, and a collection as itself. |
| ScanDoc.IntsOf | src/cyhy_db/models/scan_doc.py:55 | The integers of all values, in order, when every conversion succeeds. Otherwise the error of the first value that fails. |
| ScanDoc.ResetLatestFlagByIp | src/cyhy_db/models/scan_doc.py:54-56 | The update changes nothing and raises the conversion's error exactly when some value has no integer. It raises an overflow exactly when all convert but some integer lies outside the 64-bit range a query can carry. Otherwise a record is latest afterwards iff it was latest and its `ip_int` is not among the integers. Nothing else changes. |
| ScanDoc.SingleIsOneElementList | src/cyhy_db/models/scan_doc.py:55 | Passing one value acts as passing a list holding it. |
| ScanDoc.ResetByAddress | src/cyhy_db/models/scan_doc.py:54-56 | Resetting by an address works exactly when its integer fits in 64 bits. It then clears a coupled record of the same version exactly when that record is latest and holds the address. |
| ScanDoc.AddressIntRange | src/cyhy_db/models/scan_doc.py:55-56 | Every IPv4 integer fits in 64 bits. No IPv6 integer whose first group is non-zero does. |
| ScanDoc.Push | src/cyhy_db/models/scan_doc.py:60 | The snapshot is appended at the end, the earlier snapshots are kept in order, and nothing else changes. |
| ScanDoc.PushWhere | src/cyhy_db/models/scan_doc.py:58-71 | Exactly the records the filter matches gain the snapshot. |
| ScanDoc.TagLatest | src/cyhy_db/models/scan_doc.py:58-61 | The latest records of the given owners gain the snapshot at the end, and every other record is unchanged. |
| ScanDoc.TagMatching | src/cyhy_db/models/scan_doc.py:63-66 | The records holding any of the existing snapshots gain the new one, and every other record is unchanged. |
| ScanDoc.TagTimespan | src/cyhy_db/models/scan_doc.py:68-71 | The owner's records with a time from start to end, both included, gain the snapshot. Every other record is unchanged. |
| ScanDoc.Pull | src/cyhy_db/models/scan_doc.py:74 | Every occurrence of the snapshot is removed, and every other snapshot keeps its count. A list without it is unchanged. |
| ScanDoc.PullAppend | src/cyhy_db/models/scan_doc.py:74 | Pulling distributes over concatenation, so the remaining snapshots keep their order. |
| ScanDoc.RemoveTag | src/cyhy_db/models/scan_doc.py:73-74 | Afterwards no record holds the snapshot, and only the snapshot lists change. Records without it are unchanged, and every other snapshot keeps its count. |
| ScanDoc.RemoveUndoesTag | src/cyhy_db/models/scan_doc.py:58-74 | Removing a snapshot after tagging with it under any filter gives what removing it alone gives. |
| ScanDoc.RemoveTagIdempotent | src/cyhy_db/models/scan_doc.py:73-74 | Removing a snapshot twice is the same as once. |
| ScanDoc.TagAddsOne | src/cyhy_db/models/scan_doc.py:58-71 | Tagging adds exactly one occurrence of the snapshot to each matching record and leaves every other count alone. |

## Left out

- Database I/O is not modelled. This covers odmantic's `engine.save`, mongoengine's `objects(...).update(...)` and `first()`, and the `async` of `save`. Each collection update is instead a pure function on a sequence of records.
- Connection and test fixtures (`tests/conftest.py`) are left out: they are test infrastructure only.
- The index declarations of `ScanDoc` (`scan_doc.py:28-35`) are left out: they affect query speed only.
- The `time` default `datetime.utcnow` is left out, and so is `src/cyhy_db/utils/time.py`. The time is an integer parameter of `NewScanRecord`, because clocks are outside the model.
- `ReferenceField("SnapshotDoc")` is modelled as the snapshot's identifier text: the snapshot documents are not part of this model.
- The `required=True` checks of mongoengine's `Document.validate` are left out, except for the `ip` field's own `validate`.
- IpAddressField.PrepareQueryValue: mongoengine's `BaseField.prepare_query_value` is not part of this model. Its behaviour is taken from mongoengine: it calls `validate` under an update operator and otherwise returns the value unchanged. The update operators are taken from mongoengine's `UPDATE_OPERATORS` list.
- IPv6 scope identifiers (`"fe80::1%eth0"`) are not read, and CPython 3.13's mixed printing of IPv4-mapped IPv6 addresses is not modelled.
- ScanDoc.IntOfText: `int(text)` is modelled for ASCII digits only. Underscores between digits ("1_000") and non-ASCII decimal digits, which Python also accepts, are left out.
- Floats are modelled as reals plus the infinities and NaN. Rounding in float arithmetic is left out: the code only compares scores.
- ScanDoc.SetIp: the setter stores any integer in `ip_int`. A document whose `ip_int` lies outside the 64-bit range raises `OverflowError` when saved, and saving is not modelled. That covers every IPv6 address with a non-zero first group, for example 2001:db8::1.
- ScanDoc.ResetLatestFlagByIp: `isinstance(ips, Iterable)` is modelled by the caller's choice between one value and a list. A `str` argument, which Python would iterate character by character, is not modelled.
- The repository's tests raise mongoengine's `ValidationError` against an odmantic model. The test vectors here state only which values are accepted or refused, not which exception class is raised.

## Findings

| source | as written | input that shows it | evidently intended | confidence | as-written member | corrected member |
|---|---|---|---|---|---|---|
| src/cyhy_db/models/cve.py:24 | The score is refused only when `v < 0.0 or v > 10.0`. | `float("nan")`: both comparisons are false, so NaN is accepted as a CVSS score (pydantic's `float` admits NaN by default). | Only numbers from 0.0 to 10.0 inclusive are accepted. | not executed | Cve.ValidateCvssScoreAsWritten, Cve.NaNPassesAsWritten, Cve.NewCve, Cve.NaNRecordIsLow | Cve.ValidateCvssScore, Cve.NewCveCorrected |

The record operations (`Cve.NewCve`, `Cve.Save`) follow the code as written, so a NaN score reaches the store. `Cve.NewCveCorrected` is the construction with the intended check, and `Cve.ConstructionsAgreeExceptNaN` shows the two differ on NaN only.
