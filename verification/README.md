# TrueNAS middleware helpers: a Dafny model

This project models four pieces of the TrueNAS middleware and proves
properties about them:

- **Fibre Channel name helpers** (`FcUtils`). These convert a world-wide
  name between its three textual forms: `0x` hex, colon hex
  (`aa:bb:cc:dd:11:22:33:44`) and NAA (`naa.aabbccdd11223344`). They also
  derive the virtual-port NAA name of a channel from a physical port's
  WWPN, build the `port_name` filter for `fc.fc_hosts`, and recognise FC
  addresses. The two regular expressions are modelled with Python's
  `re.match` semantics: `$` also matches before a final newline, and the
  `.` after `naa` matches any character except a newline. WWPN arithmetic
  uses Python's unbounded integers, where XOR on negative numbers is two's
  complement.
- **The SCSI Device Identification VPD page parser** (`VpdPage83`). This
  is page 0x83, section 7.8.6 of SPC-4. The model covers:
  - the header checks;
  - the big-endian page length;
  - the walk over the designation descriptors, including its early stop
    at a truncated identifier;
  - the decoding of each descriptor header;
  - the text of the identifier: NAA decoding, upper-case hex, or raw
    ASCII/UTF-8 bytes.
- **Proactive Support** (`Support`). The model covers:
  - the configuration update, with its validation of the eight contact
    fields. The stored row is a field of the `SupportService` class, and
    `DoUpdate` changes it.
  - availability, and availability together with the `enabled` flag;
  - the field list;
  - how `new_ticket` builds the ticket request before submitting it.
- **Catalog applications** (`CatalogApps`). The model covers:
  - `app.available`: every app of every preferred train of every catalog,
    with `catalog`, `installed` and `train` filled in;
  - `app.latest`: the apps that have an update date and are not
    `ix-chart`, newest first;
  - `app.categories`: sorted;
  - `app.similar`: the other available apps that share a category or a
    tag with the named one.

Supporting modules:

- `Wrappers`: `Option` and `Result`.
- `Values`: the JSON-like values that middleware calls pass around, with
  Python truthiness.
- `Bits`: powers of two, shifts and Python's integer XOR.
- `HexText`: hex digits, `hex()`, `bytes.hex().upper()` and ASCII
  lower-casing.
- `Sorting`: Python's `sorted` on string keys.

Calls into the rest of the middleware become parameters:

- `system.vendor.name`, `system.is_enterprise`, `system.license`, the
  DMI serial number and `system.version_short` become the fields of
  `TicketEnv`.
- `catalog.query` and `catalog.items` become the `Catalog` values.
- `chart.release.query` becomes the `Release` values.
- `catalog.retrieve_mapped_categories` becomes the sequence that
  `Categories` sorts.
- The stored support row is the `row` field of `Support.SupportService`.

## Model

| member | source | states |
|---|---|---|
| FcUtils.WwnAsColonHex | src/middlewared/middlewared/plugins/fc/utils.py:10-23 | The result is None exactly when the string has neither a `0x` nor a `naa.` prefix and is not colon hex. Colon hex comes back unchanged. For the prefixed forms, the result holds the same characters after the prefix, apart from colons. |
| FcUtils.ColonPairsLayout | src/middlewared/middlewared/plugins/fc/utils.py:16-22 | Joining two-character slices with `:` puts a colon at every position i with i % 3 == 2, and digit 2(i/3) + i%3 of the input everywhere else. The length is n + (n-1)/2. |
| FcUtils.WwnColonLayout | src/middlewared/middlewared/plugins/fc/utils.py:10-22 | With 16 hex digits after `0x` or `naa.`, the result has 23 characters. A colon sits exactly at the positions i with i % 3 == 2, and the digits fill the other positions in order. |
| FcUtils.ColonHexAsNaa | src/middlewared/middlewared/plugins/fc/utils.py:26-31 | Defined exactly for strings that match HEX_COLON. The result is a `naa.` name that matches NAA_PATTERN and is three characters shorter than the input. For eight colon-separated pairs, re-pairing the digits gives back the input. |
| FcUtils.StrToNaa | src/middlewared/middlewared/plugins/fc/utils.py:34-41 | The result is None exactly when the string matches none of the three shapes. `0x` is replaced by `naa.`. Colon hex gives the lower-cased `colon_hex_as_naa` result, which matches NAA_PATTERN. A string that matches NAA_PATTERN comes back unchanged. |
| FcUtils.NaaToInt | src/middlewared/middlewared/plugins/fc/utils.py:44-46 | Defined exactly for strings that match NAA_PATTERN, in any of its spellings. The value is the hexadecimal value of the 16 digits after the four-character prefix, so it is below 2^64. |
| FcUtils.WwpnValue | src/middlewared/middlewared/plugins/fc/utils.py:50-53 | An integer WWPN is used as given. A string WWPN is read through `naa_to_int(str_to_naa(...))`, and any value it yields lies in [0, 2^64). |
| FcUtils.VportSeed | src/middlewared/middlewared/plugins/fc/utils.py:55-58 | The low 52 bits, every bit from 60 up, and the sign stay as they were. Bits 52 and up become the port's bits 52 and up XOR 0x10, XOR ((chan+1) mod 16)·16, XOR ((chan+1) div 16) mod 16. |
| FcUtils.VportNaaChannelBits | src/middlewared/middlewared/plugins/fc/utils.py:49-59 | For a port name with 16 hex digits, `naa_to_int` of the virtual-port name keeps the port's low 52 bits and its bits from 60 up. Its bits 52-59 are the port's XOR-ed with the channel nibbles as above. |
| FcUtils.VportChannelZero | src/middlewared/middlewared/plugins/fc/utils.py:55-58 | For a channel that is a multiple of 256, channel 0 included, the first two XORs cancel and the third is zero. The seed is then the port name itself. |
| FcUtils.WwpnToVportNaa | src/middlewared/middlewared/plugins/fc/utils.py:49-59 | A name is produced exactly when the WWPN has a value and that value is not negative. The name is `naa.` followed by the hex of the seed. A negative WWPN gives None: its seed is negative too, and `str_to_naa` rejects `-0x...`. |
| FcUtils.StrToNaaOfHex | src/middlewared/middlewared/plugins/fc/utils.py:59 | `str_to_naa(hex(n))` is `naa.` plus the lower-case hex digits of n, or None when n is negative. |
| FcUtils.VportNaaRoundTrip | src/middlewared/middlewared/plugins/fc/utils.py:49-59 | When the WWPN value has 16 hex digits, the virtual-port name matches NAA_PATTERN and `naa_to_int` reads back exactly the seed. |
| FcUtils.VportNaaShort | src/middlewared/middlewared/plugins/fc/utils.py:49-59 | When the WWPN value is below 2^60, the virtual-port name is shorter than 20 characters. It fails NAA_PATTERN, so `naa_to_int` rejects it. |
| FcUtils.PortNameEq | src/middlewared/middlewared/plugins/fc/utils.py:88-95 | The filter is an equality on `port_name` whose value starts with `0x`. |
| FcUtils.FilterByWwpns | src/middlewared/middlewared/plugins/fc/utils.py:81-97 | The filter list is empty exactly when both names are falsy. It is a single OR clause exactly when both are truthy. Each clause compares `port_name` with `0x` plus the name without its first four characters, in argument order. |
| FcUtils.PortNameSamePort | src/middlewared/middlewared/plugins/fc/utils.py:34-41 | For a `naa.` name, `str_to_naa` turns the filter value back into the same name, and `wwn_as_colon_hex` gives the same colon form for both. |
| FcUtils.FcAddrConverts | src/middlewared/middlewared/plugins/fc/utils.py:100-103 | Every FC address converts through `str_to_naa` and then `naa_to_int`. It has a colon form exactly when it is colon hex or starts with `naa.`. |
| FcUtils.NaaWildcardSeparator | src/middlewared/middlewared/plugins/fc/utils.py:7 | `naa`, then any separator other than `.` or newline, then 16 hex digits is accepted by `is_fc_addr`, but `wwn_as_colon_hex` rejects it. |
| FcUtils.NaaColonRoundTrip | src/middlewared/middlewared/plugins/fc/utils.py:10-31 | A `naa.` or `0x` name with 16 hex digits goes to eight colon pairs and back to the same `naa.` name. |
| FcUtils.ColonNaaRoundTrip | src/middlewared/middlewared/plugins/fc/utils.py:10-31 | Eight colon pairs go to a NAA name and back to the same colon string. |
| FcUtils.StrToNaaIdempotent | src/middlewared/middlewared/plugins/fc/utils.py:34-41 | Normalising an accepted name a second time changes nothing, unless the input started with `0x`. |
| FcUtils.IsFcAddr | src/middlewared/middlewared/plugins/fc/utils.py:100-103 | An address is accepted exactly when `str_to_naa` normalises it and it does not start with `0x`. |
| FcUtils.HexColonShape | src/middlewared/middlewared/plugins/fc/utils.py:6 | HEX_COLON accepts exactly 16 hex digits cut into colon pairs, optionally followed by one newline. |
| FcUtils.NaaShape | src/middlewared/middlewared/plugins/fc/utils.py:7 | NAA_PATTERN accepts exactly `naa`, one character other than a newline, and 16 hex digits, optionally followed by one newline. |
| FcUtils.HexLiteral | src/middlewared/middlewared/plugins/fc/utils.py:59 | `hex(n)` is `0x`, or `-0x` for a negative n, followed by hex digits that read back as the magnitude of n. |
| HexText.ParsePyHex | src/middlewared/middlewared/plugins/fc/utils.py:59 | The digits of `hex(n)`, read back, give n. |
| HexText.PyHexLength | src/middlewared/middlewared/plugins/fc/utils.py:59 | `hex(n)` has exactly k digits when n lies in [16^(k-1), 16^k). |
| HexText.HexUpperAt | src/middlewared/middlewared/utils/system/disks/vpd/page_83.py:96 | In `hex().upper()`, the characters at positions 2i and 2i+1 are byte i's two upper-case digits, which parse back to the byte. |
| HexText.PyHex | src/middlewared/middlewared/plugins/fc/utils.py:59 | The digits of `hex(n)` are at least one hex digit and contain no upper-case letter. |
| HexText.ParseHexBound | src/middlewared/middlewared/plugins/fc/utils.py:46 | `int(..., 16)` of k hex digits is below 16^k. |
| HexText.HexUpper | src/middlewared/middlewared/utils/system/disks/vpd/page_83.py:96 | `hex().upper()` gives two hex characters per byte. |
| HexText.HexUpperIsUpper | src/middlewared/middlewared/utils/system/disks/vpd/page_83.py:96 | The text of `hex().upper()` holds no lower-case letter. |
| HexText.Lower | src/middlewared/middlewared/plugins/fc/utils.py:39 | `lower()` keeps the length and lower-cases each character in place. |
| VpdPage83.ParsePage | src/middlewared/middlewared/utils/system/disks/vpd/page_83.py:43-122 | Fails with FileTooShort exactly when there are fewer than 4 bytes. A second byte other than 0x83 gives MismatchHeaderType carrying that byte. DataLengthError is given exactly when fewer than page-length bytes follow the header. A success records the page length. |
| VpdPage83.ParsePageHeader | src/middlewared/middlewared/utils/system/disks/vpd/page_83.py:54-55 | The device type is below 32 and the qualifier below 8, and together they rebuild byte 0. |
| VpdPage83.ParsePageBody | src/middlewared/middlewared/utils/system/disks/vpd/page_83.py:57-64 | Once the header checks pass, the page is the walk over exactly the page-length bytes after the header. |
| VpdPage83.ParsePageTiles | src/middlewared/middlewared/utils/system/disks/vpd/page_83.py:57-122 | The descriptors of a parsed page lie back to back in its body. Unless the walk was truncated, they cover the body exactly. |
| VpdPage83.ParseIt | src/middlewared/middlewared/utils/system/disks/vpd/page_83.py:43-61 | The imperative parser returns exactly what `ParsePage` specifies. |
| VpdPage83.WalkDescriptors | src/middlewared/middlewared/utils/system/disks/vpd/page_83.py:63-122 | The descriptor loop returns exactly `Walk(data, 0)`. |
| VpdPage83.Walk | src/middlewared/middlewared/utils/system/disks/vpd/page_83.py:63-122 | The only failure is InvalidDescriptorDataLength. |
| VpdPage83.WalkFailsOnShortHeader | src/middlewared/middlewared/utils/system/disks/vpd/page_83.py:64-69 | A failed walk follows a chain of complete descriptors from its start. It reaches an offset where 1 to 3 bytes remain, too few for a descriptor header. |
| VpdPage83.ShortHeaderFailsWalk | src/middlewared/middlewared/utils/system/disks/vpd/page_83.py:64-69 | Conversely, a chain of complete descriptors that ends 1 to 3 bytes short of the end makes the walk fail with InvalidDescriptorDataLength. |
| VpdPage83.WalkTiles | src/middlewared/middlewared/utils/system/disks/vpd/page_83.py:63-122 | Each descriptor begins where the previous identifier ended, and the walk ends inside the data. Without truncation it ends exactly at the end. |
| VpdPage83.WalkTruncation | src/middlewared/middlewared/utils/system/disks/vpd/page_83.py:83-87 | A truncated walk stops at a header that fits but whose identifier runs past the data. |
| VpdPage83.TilingIsWalk | src/middlewared/middlewared/utils/system/disks/vpd/page_83.py:63-122 | Conversely, any back-to-back run of descriptors that covers the data is exactly what the walk finds. |
| VpdPage83.TilingAdvances | src/middlewared/middlewared/utils/system/disks/vpd/page_83.py:122 | Each next offset is the previous identifier's end, which is strictly later. |
| VpdPage83.DecodeDescriptor | src/middlewared/middlewared/utils/system/disks/vpd/page_83.py:71-102 | The identifier is the `length` bytes after the header, with `length` taken from header byte 3. The fields are in range: protocol identifier and code set below 16, PIV below 2, association below 4, designator type below 16. The text is the one `IdentifierString` chooses. PIV is read from bit 7 of byte 1; see Findings. |
| VpdPage83.HeaderFieldsPartition | src/middlewared/middlewared/utils/system/disks/vpd/page_83.py:72-78 | Putting the decoded fields back together rebuilds header bytes 0 and 1. |
| VpdPage83.PivAsWritten | src/middlewared/middlewared/utils/system/disks/vpd/page_83.py:73 | The source's PIV is bit 4 of byte 0. |
| VpdPage83.PivAsWrittenReadsProtocol | src/middlewared/middlewared/utils/system/disks/vpd/page_83.py:73-74 | For header 51 03 00 00, the source reads PIV 1, but the PIV bit is 0. The 1 is the low bit of protocol identifier 5. |
| VpdPage83.HighNibble | src/middlewared/middlewared/utils/system/disks/vpd/page_83.py:74 | Bits 7-4 of a byte are the byte divided by 16. |
| VpdPage83.LowNibble | src/middlewared/middlewared/utils/system/disks/vpd/page_83.py:72 | Bits 3-0 of a byte are the byte modulo 16. |
| VpdPage83.AssociationField | src/middlewared/middlewared/utils/system/disks/vpd/page_83.py:77 | Bits 5-4 of a byte are the byte divided by 16, modulo 4. |
| VpdPage83.PeripheralDeviceType | src/middlewared/middlewared/utils/system/disks/vpd/page_83.py:54 | Bits 4-0 of the byte are the byte modulo 32. |
| VpdPage83.PeripheralQualifier | src/middlewared/middlewared/utils/system/disks/vpd/page_83.py:55 | Bits 7-5 of the byte are the byte divided by 32. |
| VpdPage83.IdentifierString | src/middlewared/middlewared/utils/system/disks/vpd/page_83.py:92-102 | The text is NAA-decoded exactly for designator type 3, and it is then `DecodeNaaIdentifier` of the identifier. It is raw text exactly for code sets 2 and 3 of the other designator types. Everything else is the upper-case hex of the identifier. |
| VpdPage83.HexIdentifierReadsBack | src/middlewared/middlewared/utils/system/disks/vpd/page_83.py:95-102 | Each two-character group of a hex identifier parses back to its byte. |
| VpdPage83.DecodeNaaIdentifier | src/middlewared/middlewared/utils/system/disks/vpd/page_83.py:125-140 | An identifier shorter than 8 bytes is shown as plain upper-case hex. A longer one gives a longer, formatted text. |
| VpdPage83.NaaIdentifierReadsFormat | src/middlewared/middlewared/utils/system/disks/vpd/page_83.py:137-140 | Between `NAA <type>` and the hex digits the text holds exactly ` (<format name>): `, and the length is those three parts added together. |
| VpdPage83.NaaIdentifierReadsType | src/middlewared/middlewared/utils/system/disks/vpd/page_83.py:130-140 | The formatted text starts with `NAA `, then the NAA type in decimal, which reads back as the high nibble of byte 0. |
| VpdPage83.NaaIdentifierReadsHex | src/middlewared/middlewared/utils/system/disks/vpd/page_83.py:139-140 | The formatted text ends with the whole identifier in upper-case hex. |
| VpdPage83.NaaFormatNamed | src/middlewared/middlewared/utils/system/disks/vpd/page_83.py:131-138 | The format is named exactly for NAA types 2, 3, 5 and 6. Every other type gives `Unknown (<type>)`. |
| VpdPage83.NaaFormatName | src/middlewared/middlewared/utils/system/disks/vpd/page_83.py:131-138 | The type-to-name table. Which types are named is stated by `VpdPage83.NaaFormatNamed` (types 2, 3, 5 and 6; otherwise `Unknown (<type>)`). Its own contract adds that every name has at least 9 characters, which bounds the identifier text in `NaaIdentifierReadsFormat`. |
| VpdPage83.PageLength | src/middlewared/middlewared/utils/system/disks/vpd/page_83.py:57 | The page length is the big-endian value of header bytes 2-3: below 2^16, with byte 2 as its high byte and byte 3 as its low byte. |
| VpdPage83.PivField | src/middlewared/middlewared/utils/system/disks/vpd/page_83.py:73 | The corrected PIV is bit 7 of descriptor byte 1, the byte divided by 128. |
| VpdPage83.DecimalRoundTrip | src/middlewared/middlewared/utils/system/disks/vpd/page_83.py:140 | The decimal rendering of a number reads back as that number. |
| Support.SupportService.DoUpdate | src/middlewared/middlewared/plugins/support.py:88-112 | The update fails exactly when validating the merged row reports errors, and it then returns those errors and leaves the row as it was. Otherwise the row becomes the old row overlaid with the new data, and that row is returned. Keys the update does not name keep their values. |
| Support.CollectErrors | src/middlewared/middlewared/plugins/support.py:96-103 | The nested loop over keys and prefixes collects exactly `UpdateErrors`, in loop order. |
| Support.UpdateErrorsIff | src/middlewared/middlewared/plugins/support.py:96-103 | There are no errors when `enabled` is falsy. Otherwise a field is reported exactly when it is one of the eight validated fields and its value is falsy. |
| Support.MissingFieldsIff | src/middlewared/middlewared/plugins/support.py:98-102 | A field is reported exactly when it is in the list and its value is falsy. |
| Support.ValidatedFieldAt | src/middlewared/middlewared/plugins/support.py:98-100 | Iteration 2i+j checks prefix j followed by key i. |
| Support.RequiredErrorInjective | src/middlewared/middlewared/plugins/support.py:102 | Different fields give different errors. |
| Support.IsAvailable | src/middlewared/middlewared/plugins/support.py:115-130 | Available exactly when there is no vendor name, the edition is enterprise, and a license with a SILVER or GOLD contract exists. |
| Support.IsAvailableAndEnabled | src/middlewared/middlewared/plugins/support.py:133-138 | The result is `False` or the stored `enabled` value. It is truthy exactly when support is available and enabled. |
| Support.Fields | src/middlewared/middlewared/plugins/support.py:141-154 | There is one pair per validated field. |
| Support.FieldsPairUp | src/middlewared/middlewared/plugins/support.py:145-154 | The first four names are the contact keys in order. Entry i+4 is `secondary_` followed by entry i's name. |
| Support.FieldsSecondaryTitle | src/middlewared/middlewared/plugins/support.py:145-154 | Entry i+4's title is `Secondary ` followed by entry i's title. |
| Support.FieldsAreValidated | src/middlewared/middlewared/plugins/support.py:96-100 | The listed fields are exactly the validated fields, reordered one to one. |
| Support.FirstMissing | src/middlewared/middlewared/plugins/support.py:205-207 | Gives nothing exactly when every attribute is present. Otherwise it gives the first attribute that is absent. |
| Support.NewTicket | src/middlewared/middlewared/plugins/support.py:172-214 | The imperative ticket builder returns exactly what `TicketFor` specifies. |
| Support.TicketOutcome | src/middlewared/middlewared/plugins/support.py:184-207 | A vendor name blocks every ticket. Otherwise the ticket is built exactly when all the edition's required attributes are present in the arguments. A failure names the first missing one, in `required_attrs` order, as `<attr> is required`. |
| Support.FirstMissingSameKeys | src/middlewared/middlewared/plugins/support.py:198-207 | Adding `serial` and `company` before the check does not change which required attribute is missing first, because two maps with the same required keys have the same first missing attribute. |
| Support.TicketPayload | src/middlewared/middlewared/plugins/support.py:192-214 | A built ticket has the edition's proxy name and the popped `attach_debug`. The payload's keys are exactly the arguments' keys without `attach_debug`, plus `version`, plus `serial` and `company` on enterprise. `version` is the product version, and `serial` and `company` are the serial number and the company name. A truthy `type` is lower-cased. A falsy `type` and every other argument are unchanged. |
| Support.TicketFor | src/middlewared/middlewared/plugins/support.py:172-214 | A vendor name always gives an error. A built ticket carries the caller's `attach_debug` flag, has no `attach_debug` in its payload, and has a `version`. |
| Support.AvailableTicketIsEnterprise | src/middlewared/middlewared/plugins/support.py:115-130 | When support is available, the ticket is built exactly when the six enterprise attributes are present. It goes to `truenas` and names the licensed customer. |
| CatalogApps.InstalledTriples | src/middlewared/middlewared/plugins/catalogs_linux/apps.py:58-61 | A (name, catalog, train) triple is listed exactly when some release has that chart name, catalog and train. |
| CatalogApps.MakeRecord | src/middlewared/middlewared/plugins/catalogs_linux/apps.py:69-74 | The record has the app's keys plus `catalog`, `installed` and `train`. The app's own values win. `installed` is true exactly when the app's name, the catalog and the train form an installed triple. |
| CatalogApps.Available | src/middlewared/middlewared/plugins/catalogs_linux/apps.py:50-76 | The nested loops return exactly `AvailableRecords`, in loop order. |
| CatalogApps.AvailableRecords | src/middlewared/middlewared/plugins/catalogs_linux/apps.py:63-74 | Every available record carries `catalog`, `installed` and `train`. |
| CatalogApps.TrainRecords | src/middlewared/middlewared/plugins/catalogs_linux/apps.py:68-74 | One record per app of the train, each carrying `catalog`, `installed` and `train`. |
| CatalogApps.CatalogRecords | src/middlewared/middlewared/plugins/catalogs_linux/apps.py:64-74 | Every record of a catalogue's preferred trains carries `catalog`, `installed` and `train`. |
| CatalogApps.AppendCatalog | src/middlewared/middlewared/plugins/catalogs_linux/apps.py:64-74 | The train loop appends exactly the records of the catalog's preferred trains. |
| CatalogApps.AppendTrain | src/middlewared/middlewared/plugins/catalogs_linux/apps.py:68-74 | The app loop appends exactly one record per app of the train. |
| CatalogApps.AvailableIff | src/middlewared/middlewared/plugins/catalogs_linux/apps.py:63-74 | A record is available exactly when it is built from some app of some preferred train of some catalog. |
| CatalogApps.FilterLatest | src/middlewared/middlewared/plugins/catalogs_linux/apps.py:20 | Keeps exactly the records that have a non-null `last_update` and are not named `ix-chart`, without duplicating any. |
| CatalogApps.Latest | src/middlewared/middlewared/plugins/catalogs_linux/apps.py:13-23 | Newest `last_update` first. A record is included exactly when it is an available app that passes the filter. The result is a permutation of the filtered list. |
| CatalogApps.Categories | src/middlewared/middlewared/plugins/catalogs_linux/apps.py:84 | A permutation of the mapped categories, in ascending string order. |
| Sorting.SortBy | src/middlewared/middlewared/plugins/catalogs_linux/apps.py:21 | Sorted by the key, in the requested direction, and a permutation of the input. |
| Sorting.LexLeTotal | src/middlewared/middlewared/plugins/catalogs_linux/apps.py:84 | Python's string order is total. |
| Sorting.LexLeTrans | src/middlewared/middlewared/plugins/catalogs_linux/apps.py:84 | Python's string order is transitive. |
| Sorting.LexLeAntisym | src/middlewared/middlewared/plugins/catalogs_linux/apps.py:84 | Python's string order is antisymmetric: two strings each at most the other are equal. |
| CatalogApps.FindApp | src/middlewared/middlewared/plugins/catalogs_linux/apps.py:93-95 | Finds nothing exactly when no record has the given name, catalog and train. Otherwise it gives the first such record in the list. |
| CatalogApps.SimilarApps | src/middlewared/middlewared/plugins/catalogs_linux/apps.py:96-104 | Every similar app comes from the candidates, and there are no more of them than candidates. Each carries the fields `similar` reads. |
| CatalogApps.AvailableApps | src/middlewared/middlewared/plugins/catalogs_linux/apps.py:92 | The available records, each of which carries the fields `similar` reads. |
| CatalogApps.Similar | src/middlewared/middlewared/plugins/catalogs_linux/apps.py:88-106 | Fails with MatchNotFound exactly when the named app is not available. Otherwise it returns `SimilarApps` for that app over all available apps. |
| CatalogApps.CollectSimilar | src/middlewared/middlewared/plugins/catalogs_linux/apps.py:96-104 | The loop returns exactly `SimilarApps`. |
| CatalogApps.SharesCategoryOrTag | src/middlewared/middlewared/plugins/catalogs_linux/apps.py:101-104 | True exactly when the two apps share a category or share a tag. |
| CatalogApps.SimilarIff | src/middlewared/middlewared/plugins/catalogs_linux/apps.py:97-104 | A record is similar exactly when it is a candidate, is not the same app, and shares a category or a tag. |
| CatalogApps.SimilarExcludesTarget | src/middlewared/middlewared/plugins/catalogs_linux/apps.py:97-99 | The app itself is never among its similar apps. |
| CatalogApps.SimilarKeepsOrder | src/middlewared/middlewared/plugins/catalogs_linux/apps.py:96-104 | The similar apps are a subsequence of the available apps. |

## Left out

- `dmi_pci_slot_info` (fc/utils.py:62-78) runs `dmidecode` as a subprocess and parses its output. It is I/O and is not modelled.
- The `isinstance(..., str)` guards of `wwn_as_colon_hex`, `colon_hex_as_naa`, `str_to_naa`, `naa_to_int` and `is_fc_addr` (fc/utils.py:15, 30, 35, 45, 101) are dropped. A non-string argument gives None or False there. The model's arguments are strings, so that path cannot arise. `wwpn_to_vport_naa` keeps its integer and None cases through `FcUtils.Wwpn`.
- page_83.py does not run as written. Lines 14-15 are a syntax error. `parse_it` is a `@property` that takes an argument. `IDENTIFIER_TYPE_MAP` and `CODE_SET_MAP` are undefined. At lines 98-100 the identifier is a `memoryview`, which has no `.decode`, so the ASCII and UTF-8 branches would raise. The model follows the body's evident intent.
- `VpdPage83.ParseIt`: the source prints each descriptor and returns nothing. The model returns the page header, the descriptors, and whether the walk stopped at a truncated identifier. The file becomes a byte sequence: a short file gives fewer bytes, as `f.read` does.
- The human-readable names (association, designator type, code set) and the printed lines are not modelled.
- `VpdPage83.IdentifierString`: ASCII and UTF-8 identifiers keep their raw bytes. Decoding with `errors="replace"` and `strip()` are not modelled.
- `HexText.Lower` lower-cases ASCII letters only. It is used only on hex digits and ticket types.
- `Support.SupportService.DoUpdate`: `self.config()` and `datastore.update` become the `row` field that the method reads and reassigns. The re-read after the write is that row.
- `Support.NewTicket` stops before the submission. `network.general.will_perform_activity`, job progress, the HTTP post to the support proxy, debug attachment (`attach_ticket`) and the returned ticket URL are network and job I/O. `similar_issues` is an HTTP call and is not modelled.
- `Support.TicketArgs` assumes `attach_debug` is present, because the argument schema defaults it to false. It also assumes a truthy `type` is a string, because the schema types it.
- `CatalogApps.Available`: `catalog.synced` and the first-time sync are side effects and are not modelled. So are the user `filters` and `options` passed to `filter_list`.
- `filter_list` itself is not part of this model. `latest`'s two filters and ordering, and `similar`'s `get=True` lookup, are written out directly.
- `CatalogApps.AvailableApps` and `CatalogApps.Similar` require every app to carry a `name` (of any value) and list-valued `categories` and `tags`. The `available_apps` schema declares these fields as required.
- `CatalogApps.Latest`: the order of records with equal `last_update` is not stated, so stability is left out.
- `Sorting.SortBy`: stability (records with equal keys keep their input order, as Python's `sorted` guarantees) is not part of the contract. Only sortedness and the permutation are stated.
- The network configuration commit, check-in and rollback logic is not part of this model.

## Findings

| source | as written | input that shows it | evidently intended | confidence | as-written member | corrected member |
|---|---|---|---|---|---|---|
| src/middlewared/middlewared/utils/system/disks/vpd/page_83.py:73 | PIV is read as bit 4 of descriptor byte 0, which is the low bit of the protocol identifier. | Descriptor header `51 03 00 00`: iSCSI, NAA, PIV clear. The source reports PIV 1. | PIV is bit 7 of descriptor byte 1 (section 7.8.6 of SPC-4). | not executed | VpdPage83.PivAsWrittenReadsProtocol | VpdPage83.DecodeDescriptor |
