# iface core, modelled in Dafny

`iface` reads and writes the Red Hat style network interface files
(`/etc/sysconfig/network-scripts/ifcfg-*`). This project models its core as
pure functions over immutable data:

- **Address values** (`ip_address.dfy`, `ip_helpers.dfy`, `ip_text.dfy`).
  `IpAddress.create`, the `IpV4Address` and `IpV6Address` subclasses,
  `from_numeric`, `cidr_mask`, `to_i`, `to_s` and `==`. Also the `Integer`
  helpers `to_ip`, `to_ipaddr`, `to_ipaddr4`, `to_ipaddr6` and
  `max_mask_bits`. IPv4 and IPv6 text are concrete codecs. The parser reads
  dotted quads and forms 1 and 2 of section 2.2 of RFC 4291. The printer uses
  the compression `IPAddr#to_s` applies: the leftmost longest run of two or
  more zero groups becomes `::`.
- **The ifcfg key/value format** (`pair.dfy`, `secondaries.dfy`,
  `value_set.dfy`). It covers the `NAME="value"` line grammar with its
  quote stripping, comment cutting and the line loop. It also covers the
  `VAR_HANDLERS` dispatch to typed pairs: `IPADDR` as an integer,
  `IPV6ADDR` as an integer plus prefix text, and `IPV6ADDR_SECONDARIES` as
  a sorted, duplicate-free list filtered against the primary. Lookup is
  case-insensitive, serialisation is ordered, and `[]=` and `fetch_raw`
  are included.
- **Filenames and file variants** (`filename.dfy`, `config_file.dfy`).
  `ConfigFile.create` covers `File.split(...).last`, the
  `ifcfg-<dev>[-rangeN|:N]` grammar of `parse_filename` and the first-match
  dispatch over `FILE_TYPES`. The variants are `PrimaryFile`, `CloneFile`,
  `RangeFile` and `LoopbackFile`, each with `static?` and `include?`. Also
  modelled: `decamelize` and `file_type_name`, the range file's
  `string_to_ip_num`, and the `PrimaryFile` address setters with
  `make_static` and `disable_nm`.
- **Aggregation** (`config.dfy`). `Config#add` files each variant under its
  type tag. `Config#primary` applies the reserved-block filter and the
  0/1/many outcome.

Ruby exceptions are the `Err` side of a `Result` (`results.dfy`). Its
`Error` datatype names what was raised: `ArgumentError` for an unreadable
address, a wrong family, a malformed line, an unsupported version or
incomparable entries. `NoMethodError` names the missing method, and
`RuntimeError` carries the number of primaries found. File content is a
string, split into lines at `"\n"` as `each_line` does.

The model follows the code where the repository's own tests describe
another version:

- `ValueSet#to_s` joins lines with `"\n"` and ends without a newline
  (`lib/iface/value_set.rb:42`). `spec/iface/value_set_spec.rb:92` expects
  a final newline.
- There is no VLAN variant. `ifcfg-eth0.789` does not fit the filename
  grammar, so it becomes a `PrimaryFile` with a nil device.
- `lo:N` becomes a clone file and `lo-rangeN` a range file, because of
  the dispatch order.
- `static?` of a primary file accepts only `none`.
- Only 10.0.0.0/8 and 192.168.0.0/16 are reserved, so 172.16.0.0/12 is
  eligible.
- `primary` fails when no primary file was ever added.
- `value_set.rb` defines neither `[]=` nor `fetch_raw`. Both are modelled
  as `spec/iface/value_set_spec.rb:37-71` uses them. `make_static` and
  `disable_nm` belong to `PrimaryInterface`, which is not part of this
  model. They are modelled as `[]=('BOOTPROTO', 'none')` and
  `[]=('NM_CONTROLLED', 'no')`, as `spec/iface/value_set_spec.rb:114-150`
  shows.
- `IpV6Primary#value=` asks its value set for `ipv6_secondaries`, which
  upcases to `IPV6_SECONDARIES`. When that key is present the answer is a
  String, and calling `filter_primary!` on it raises `NoMethodError`. The
  model reports exactly that error. No mutual filtering is modelled in
  that direction.
- Ruby's `sort` raises when it has to order an explicit mask text against
  the default Integer 128 for the same address. The model returns that
  error. It does not exclude the case by a precondition.

In one place the model follows the tests instead of the code.
`lib/iface/value_set.rb:10-15` defines a one-argument `Pair#initialize(line)`,
and line 27 builds each line's pair with `Pair.new(edited_line)`. That pair
is a plain name and text, without the `VAR_HANDLERS` dispatch.
`spec/iface/value_set_spec.rb:61` expects `fetch_raw('ipaddr')` to return the
address integer, which only the `Pair.create` dispatch of
`lib/iface/value_set/pair.rb:13-26` gives. The model builds every line's pair
through `Pair.create`. So `IPADDR="junk"` makes the parse fail, and
`IPADDR="10.0.0.5"` is held as an integer. The code as written would keep
both as text.

## Model

| member | source | states |
|---|---|---|
| `Results.Collect` | lib/iface/value_set/pair.rb:97-100 | `map` with a raising block: succeeds exactly when every item does, the k-th result is the k-th item's value, and a failure reports the first failing item's error |
| `IpAddresses.CeilLog2` | lib/iface/ip_address.rb:27 | the integer stand-in for `Math.log2(diff).ceil`: the least r with d ≤ 2^r, so 2^(r−1) < d ≤ 2^r for d ≥ 2 and 0 for d ≤ 1 |
| `IpAddresses.CeilLog2Unique` | lib/iface/ip_address.rb:27 | any k with 2^(k−1) < d ≤ 2^k is the ceiling logarithm of d |
| `IpAddresses.CidrOfMask` | lib/iface/ip_address.rb:20-29 | with diff = full mask − mask: diff 0 gives the full width, diff 1 gives width − 1, any larger diff gives width − r where 2^(r−1) < diff ≤ 2^r |
| `IpAddresses.ContiguousCidr` | lib/iface/ip_address.rb:20-29 | for every prefix length p from 0 to the width, `cidr_mask` of the contiguous mask of p is p |
| `IpAddresses.CidrMask` | lib/iface/ip_address.rb:20-29 | `cidr_mask` of any address equals the prefix length it was created with |
| `IpAddresses.ParseAddress` | lib/iface/ip_address.rb:8-10 | IPv4 text is tried first and IPv6 second; the text is refused exactly when neither reads it; the integer fits the family |
| `IpAddresses.Create` | lib/iface/ip_address.rb:8-11 | yields the IPv4 variant exactly when the address part is a dotted quad, fails on unreadable text, takes the full prefix when no `/len` is given, and always leaves the host bits clear |
| `IpAddresses.ClearHost` | lib/iface/ip_address.rb:9 | the host bits cleared by an `addr/len` text: the largest multiple of the host block size not above the address |
| `IpAddresses.V4Address` | lib/iface/ip_address.rb:64-67 | `IpV4Address.new` raises a wrong-family error for IPv6 text, fails on unreadable text, and otherwise agrees with `create` |
| `IpAddresses.V6Address` | lib/iface/ip_address.rb:86-89 | `IpV6Address.new` raises a wrong-family error for IPv4 text, fails on unreadable text, and otherwise agrees with `create` |
| `IpAddresses.CreateToS` | lib/iface/ip_address.rb:35-37 | creating an address from its `to_s` gives the same family and integer with a full prefix |
| `IpAddresses.CreateToSV4` | lib/iface/ip_address.rb:35-37 | any accepted dotted quad creates an IPv4 address whose `to_s` is the same text |
| `IpAddresses.FromNumericV4` | lib/iface/ip_address.rb:60-62 | `IpV4Address.from_numeric(n)` is the full-prefix IPv4 address of n modulo 2^32 |
| `IpAddresses.FromNumericV6` | lib/iface/ip_address.rb:82-84 | `IpV6Address.from_numeric(n)` is the full-prefix IPv6 address of n modulo 2^128, although `MASK_32` is 64 bits wide |
| `IpAddresses.PackWordsValue` | lib/iface/ip_address.rb:83 | `pack('N*')` followed by `new_ntoh` reads each word modulo 2^32 as one big-endian base-2^32 digit |
| `IpAddresses.FromWordsValue` | lib/iface/ip_address.rb:80-84 | the four shifted and masked words, packed and read back, give n modulo 2^128 |
| `IpAddresses.FromNumericToI` | lib/iface/ip_address.rb:31-33 | `from_numeric(a.to_i) == a` for every address of either family |
| `IpAddresses.SameIffSameText` | lib/iface/ip_address.rb:47-55 | two addresses of one family are `==` (same class and integer, prefix ignored) exactly when their `to_s` texts are equal |
| `IpAddresses.V4V6Disjoint` | lib/iface/ip_address.rb:10 | no text reads both as IPv4 and as IPv6, so the class `create` picks is determined |
| `IpText.ParseShowV4` | lib/iface/ip_address.rb:35-37 | the dotted quad printed for a 32-bit integer reads back as that integer |
| `IpText.ShowParseV4` | lib/iface/ip_address.rb:9 | every dotted quad the parser accepts is the printed form of its own value |
| `IpText.ParseShowV6` | lib/iface/ip_address.rb:35-37 | the compressed IPv6 text printed for a 128-bit integer reads back as that integer |
| `IpText.Expand` | lib/iface/ip_address.rb:9 | a `::` stands for the missing zero groups: defined exactly when the two sides hold at most seven groups, and then the value is left groups, zeros, right groups |
| `IpText.LongestRunLeftmost` | lib/iface/ip_address.rb:36 | the run of zero groups the printer compresses is the longest, and the leftmost among the longest |
| `IpHelpers.ToIpaddr` | lib/iface/ip_helpers.rb:19-28 | version 4 gives the IPv4 address of n modulo 2^32, version 6 the IPv6 address of n modulo 2^128, any other version an argument error naming it; the version defaults to 4 |
| `IpHelpers.ToIp` | lib/iface/ip_helpers.rb:7-9 | `to_ip` succeeds for versions 4 and 6 only, with the same error as `to_ipaddr` otherwise, and defaults to version 4 |
| `IpHelpers.ToIpaddrFromNumeric` | lib/iface/ip_helpers.rb:11-17 | `to_ipaddr4` and `to_ipaddr6` build the same address as the two `from_numeric` constructors |
| `IpHelpers.ToIpCreate` | lib/iface/ip_helpers.rb:7-9 | the text `to_ip` prints reads back as n reduced to the family's width, with a full prefix |
| `IpHelpers.ToIpOfAddress` | lib/iface/ip_helpers.rb:7-9 | `a.to_i.to_ip` is `a.to_s` for every address |
| `IpHelpers.TwoAdicDivides` | lib/iface/ip_helpers.rb:30-32 | the reference count of trailing zero bits: 2^k divides m and the quotient is odd |
| `IpHelpers.MaxMaskBitsTwoAdic` | lib/iface/ip_helpers.rb:30-32 | for n ≠ 0, `max_mask_bits` (the trailing `0` characters of `to_s(2)`) is the exponent of the largest power of two dividing \|n\| |
| `IpHelpers.MaxMaskBitsZero` | lib/iface/ip_helpers.rb:30-32 | `max_mask_bits` of 0 is 1, because the numeral is `"0"` |
| `Pairs.SplitLine` | lib/iface/value_set/pair.rb:18-21 | a line fits the grammar exactly when some `=` after a non-empty `[A-Z0-9_]` prefix exists; the name is the text before the first `=`, the value is the rest, unquoted |
| `Pairs.UnquoteStrips` | lib/iface/value_set/pair.rb:21 | up to two `"` come off each end of the value, each end independently of the other |
| `Pairs.FromLine` | lib/iface/value_set/pair.rb:17-25 | `create(line)`: a line outside the grammar raises, and otherwise the pair carries the name from the line |
| `Pairs.Create` | lib/iface/value_set/pair.rb:13-26 | `create(name, value)` upcases the name. IPADDR, IPV6ADDR and IPV6ADDR_SECONDARIES are built exactly as `IpV4Primary`, `IpV6Primary` and `IpV6Secondaries.new` build them, with their success and failure cases. Any other name gives a generic pair with the value verbatim |
| `Pairs.AssignV4` | lib/iface/value_set/pair.rb:54-57 | `IpV4Primary#value=` stores the integer of the IPv4 address, and fails exactly when `IpV4Address.new` does |
| `Pairs.V4ValueText` | lib/iface/value_set/pair.rb:50-57 | assigning an IPADDR pair its own reported value gives back the same pair |
| `Pairs.AssignV6Primary` | lib/iface/value_set/pair.rb:72-79 | `IpV6Primary#value=` stores the integer of the IPv6 address before the first `/` and the text after it, 64 when there is none; it fails on non-IPv6 text and when the hook key is present |
| `Pairs.ParseEntries` | lib/iface/value_set/pair.rb:97-99 | every `ip/mask` item is parsed in order: the list succeeds exactly when every item does, element by element |
| `Pairs.AssignSecondaries` | lib/iface/value_set/pair.rb:96-105 | succeeds exactly when every item parses and `sort` can order them; the result is strictly ascending and holds exactly the parsed entries whose address is not the sibling IPV6ADDR's integer |
| `Pairs.Assign` | lib/iface/value_set/pair.rb:11 | `value=` on an existing pair keeps its name. A generic pair takes the text verbatim. An IPADDR or IPV6ADDR pair re-parses the value as its own `value=` does (lines 54-57 and 72-79). A secondaries pair refuses a String and parses, sorts and filters an Array (lines 96-105) |
| `Pairs.FilterSecondaries` | lib/iface/value_set/pair.rb:111-114 | `filter_primary!(n)` keeps exactly the entries whose address is not n, whatever their mask |
| `Pairs.V4Text` | lib/iface/value_set/pair.rb:50-52 | IPADDR's value is a dotted quad free of delimiters that reads back as the stored integer modulo 2^32 |
| `Pairs.V6Text` | lib/iface/value_set/pair.rb:68-70 | IPV6ADDR's address part is IPv6 text free of delimiters that reads back as the stored integer modulo 2^128 |
| `Pairs.RawValue` | lib/iface/value_set/pair.rb:34-36 | `raw_value` of a generic pair is its text. IPADDR and IPV6ADDR pairs give their stored integer, and a secondaries pair its stored list |
| `ValueSets.FetchRawIpaddr` | spec/iface/value_set_spec.rb:61 | after reading the line `IPADDR="<dotted quad of n>"`, `fetch_raw('ipaddr')` is the integer n |
| `Pairs.FromLineToS` | lib/iface/value_set/pair.rb:38-40 | a printable pair's `to_s` line reads back, through `create`, as the same pair |
| `Pairs.ValueReadsBack` | lib/iface/value_set/pair.rb:13-26 | `create(name, value)` with a printable pair's own name and value text gives that pair back |
| `Pairs.LineReadsBack` | lib/iface/value_set/pair.rb:38-40 | `NAME="value"` splits back into NAME and value when the value has no edge quote and no newline |
| `Pairs.EntriesReadBack` | lib/iface/value_set/pair.rb:107-109 | the printed secondaries, split and parsed again, are the same entries |
| `Pairs.DefaultMaskRereads` | lib/iface/value_set/pair.rb:99 | an entry without a mask prints with `/128` and reads back with the explicit text `128` |
| `Secondaries.ComparableUnlessMixed` | lib/iface/value_set/pair.rb:100 | every two entries compare exactly when no address carries both an explicit mask and the default one |
| `Secondaries.SortUnique` | lib/iface/value_set/pair.rb:100 | `uniq.sort` of comparable entries is strictly ascending and holds exactly the input's entries |
| `Secondaries.Normalise` | lib/iface/value_set/pair.rb:97-101 | fails with the incomparable-entries error exactly when the list is mixed; otherwise strictly ascending with exactly the input's entries |
| `Secondaries.SortedUnique` | lib/iface/value_set/pair.rb:100 | two strictly ascending lists with the same entries are equal, so the sorted result is the unique such arrangement |
| `Secondaries.NormaliseSorted` | lib/iface/value_set/pair.rb:100 | a list already strictly ascending is left as it is |
| `Secondaries.FilterPrimary` | lib/iface/value_set/pair.rb:111-114 | exactly the entries with a different address remain |
| `Secondaries.FilterKeepsOrder` | lib/iface/value_set/pair.rb:111-114 | filtering preserves the order of the remaining entries: a sorted list stays sorted |
| `Secondaries.FilterAbsent` | lib/iface/value_set/pair.rb:111-114 | filtering an address that no entry has changes nothing |
| `ValueSets.Lookup` | lib/iface/value_set.rb:32-34 | a pair is found exactly when one is stored under the upcased name, and it is that pair |
| `ValueSets.Get` | lib/iface/value_set.rb:32-34 | `[]` is nil exactly when no pair has the upcased name, and otherwise that pair's value |
| `ValueSets.LookupIgnoresCase` | lib/iface/value_set.rb:32-38 | lookup and `[]` give the same answer for a name and its upcased form |
| `ValueSets.FetchRaw` | spec/iface/value_set_spec.rb:55-71 | `fetch_raw` answers exactly when the key exists, with that pair's raw value |
| `ValueSets.SiblingsOfSpec` | lib/iface/value_set/pair.rb:77 | what a typed pair reads from its set is `key?('ipv6_secondaries')` and `fetch_raw('ipv6addr')` |
| `ValueSets.StoreSpec` | lib/iface/value_set.rb:28 | `@vars[name] = pair` keeps names unique, puts the pair under its name, and leaves every other name's position and pair as they were |
| `ValueSets.CutComment` | lib/iface/value_set.rb:25 | the line up to, not including, its first `#`, with no `#` left |
| `ValueSets.AddLine` | lib/iface/value_set.rb:24-29 | a line empty after comment cutting and stripping leaves the set as it was, a malformed one raises, and the result keeps names unique. The pair comes from `Pair.create` rather than the `Pair.new` of line 27, as explained above |
| `ValueSets.ParseLinesAborts` | lib/iface/value_set.rb:24-29 | a line that is not blank after its comment is cut and does not fit `NAME=value` makes the whole line loop raise, wherever it stands |
| `ValueSets.ParseAborts` | lib/iface/value_set.rb:22-30 | content with such a line anywhere does not parse |
| `ValueSets.ParseIgnoresBlank` | lib/iface/value_set.rb:26 | appending a blank or comment-only line does not change what the content parses to |
| `ValueSets.ParseToS` | lib/iface/value_set.rb:41-43 | parsing `to_s` output gives back the same pairs in the same order, for values with no `#`, newline or edge quote |
| `ValueSets.AddLineStores` | lib/iface/value_set.rb:27-28 | a well-formed line stores the pair `Pair.create` builds from it, replacing a pair of the same name in place |
| `ValueSets.Set` | spec/iface/value_set_spec.rb:37-53 | `[]=` succeeds or raises exactly as building its pair does, and the name then finds that pair. It keeps names unique, adds a pair only for a new name, and leaves every pair of another name in place |
| `ValueSets.SetPair` | spec/iface/value_set_spec.rb:37-53 | the pair `[]=` stores is the present pair with `value=` applied, or, for a new name, what `Pair.create` builds |
| `ValueSets.SetHandled` | lib/iface/value_set/pair.rb:54-105 | under IPADDR and IPV6ADDR, `[]=` parses as their `value=` does, present or not. Under IPV6ADDR_SECONDARIES it builds as `new` does when absent. When present, it refuses a String and parses, sorts and filters an Array |
| `ValueSets.SetIpaddr` | lib/iface/value_set/pair.rb:54-57 | setting IPADDR succeeds exactly when the text is an IPv4 address, raises what `IpV4Address.new` raises otherwise, and IPADDR then reads as that address's dotted quad |
| `ValueSets.GetAfterSet` | spec/iface/value_set_spec.rb:37-53 | after `[]=` with a text value under an unhandled name, `[]` of that name gives the value and every other name reads as before |
| `ValueSets.SetGeneric` | spec/iface/value_set_spec.rb:37-53 | `[]=` updates an existing name without growing the set, and appends a new name at the end |
| `ValueSets.SetKeepsOthers` | spec/iface/value_set_spec.rb:37-53 | `[]=` on any name leaves `[]` of every other name unchanged |
| `FileNames.Basename` | lib/iface/config_file.rb:23 | `File.split(path).last` holds no `/` unless it is `/` itself |
| `FileNames.BasenameOfPath` | lib/iface/config_file.rb:23 | the last component of `dir/name` is `name`, whatever the directory |
| `FileNames.ParseFilename` | lib/iface/config_file.rb:35-40 | a name that parses has a non-empty word-character device and at most one of the range and clone numbers; a name without the `ifcfg-` prefix does not parse |
| `FileNames.ParseFilenameText` | lib/iface/config_file.rb:35-40 | `ifcfg-<dev>`, `ifcfg-<dev>-range<N>` and `ifcfg-<dev>:<N>` parse back to exactly that device and number |
| `FileNames.ParseSuffix` | lib/iface/config_file.rb:36 | the suffix gives at most one number, and gives none exactly when it is empty |
| `FileNames.FirstMatch` | lib/iface/config_file.rb:26-30 | the chosen class is in the list and recognises the captures; no class is chosen only when none recognises them |
| `FileNames.DispatchTotal` | lib/iface/config_file.rb:24-32 | some class recognises every captures triple, nil included, so the raise at line 32 is never reached |
| `FileNames.DispatchCases` | lib/iface/config_file.rb:224-229 | any `:N` gives a clone file, any `-rangeN` a range file, bare `lo` the loopback file, and every other device a primary file |
| `FileNames.ClassifyCases` | lib/iface/config_file.rb:22-33 | a filename the grammar refuses is a primary file; otherwise the class follows the suffix and device as in the dispatch |
| `FileNames.Decamelize` | lib/iface/config_file.rb:8-10 | `decamelize` leaves no capital letter and never shortens the text |
| `FileNames.DecamelizeCamelize` | lib/iface/config_file.rb:8-10 | decamelizing capitalised snake-case words joins them with `_`: the first capital is lowered, later ones get `_` in front |
| `FileNames.FileTypeName` | lib/iface/config_file.rb:46-48 | `file_type_name` is defined exactly for class names ending in `File` |
| `FileNames.FileTypeNameCamelize` | lib/iface/config_file.rb:46-48 | a class named after snake-case words plus `File` has those words joined with `_` as its type name |
| `FileNames.FileTypeNames` | lib/iface/config_file.rb:46-48 | the type names of `PrimaryFile`, `CloneFile`, `RangeFile` and `LoopbackFile` are `primary`, `clone`, `range` and `loopback` |
| `FileNames.TagInjective` | lib/iface/config.rb:25-30 | different classes are filed under different tags |
| `ConfigFiles.Create` | lib/iface/config_file.rb:22-33 | the class comes from the last path component; the variables are the parsed content, and a parse error is raised as is; the device is the parsed one or nil; a range file fails exactly when a bound is missing |
| `ConfigFiles.CreateFromName` | lib/iface/config_file.rb:22-33 | `dir/ifcfg-<dev>` gives a primary or (for `lo`) loopback file and `dir/ifcfg-<dev>:<N>` a clone file numbered N, all with device `<dev>` |
| `ConfigFiles.CreateCaptures` | lib/iface/config_file.rb:22-33 | a non-range file is built with the class the dispatch picks and the parsed device and clone number |
| `ConfigFiles.CreatedRangeBounds` | lib/iface/config_file.rb:175-180 | a range file whose `IPADDR_START` and `IPADDR_END` are dotted quads holds exactly their integers as bounds |
| `ConfigFiles.RangeIncludes` | lib/iface/config_file.rb:186-189 | a range file includes a dotted quad exactly when its integer lies between the bounds, both inclusive |
| `ConfigFiles.CreatedIncludes` | lib/iface/config_file.rb:135-137 | a primary, clone or loopback file includes `ip` exactly when its IPADDR text is `ip` |
| `ConfigFiles.CreatedStatic` | lib/iface/config_file.rb:131-133 | a created primary file is static exactly when its BOOTPROTO reads `none`; clone, range and loopback files always are |
| `ConfigFiles.ToIUnderscore` | lib/iface/config_file.rb:200 | `to_i` skips a single underscore between digits, so `a_b` reads as the number the digits of a and b spell, and it skips a leading `0d` |
| `ConfigFiles.ReadDigitsDoubleUnderscore` | lib/iface/config_file.rb:200 | two underscores in a row end the number that `to_i` reads |
| `ConfigFiles.CreatedStartClone` | lib/iface/config_file.rb:179 | `start_clone_num` is nil exactly when CLONENUM_START is absent, and is the number a decimal CLONENUM_START spells |
| `ConfigFiles.IpAddressOf` | lib/iface/config_file.rb:81-213 | a primary file reads IPADDR each time it is asked (lines 81-83). A clone file returns the IPADDR it captured when built (lines 144 and 152). For a loopback file it is the IPADDR captured at line 212, which only `include?` reads, since that class has no public reader |
| `ConfigFiles.StringToIpNumShowV4` | lib/iface/config_file.rb:199-201 | `string_to_ip_num` of the dotted quad of n is n |
| `ConfigFiles.StringToIpNumDotted` | lib/iface/config_file.rb:199-201 | for decimal fields below 256, `string_to_ip_num` is the fields read as base-256 digits, as a·2^24 + b·2^16 + c·2^8 + d |
| `ConfigFiles.HexOfHexText` | lib/iface/config_file.rb:200 | `n.to_s(16).hex` is n for every integer, negative ones included |
| `ConfigFiles.OctetHexDigits` | lib/iface/config_file.rb:200 | an octet padded with `rjust(2, '0')` is two hex digits whose value is the octet |
| `ConfigFiles.RJust` | lib/iface/config_file.rb:200 | `rjust(w, c)` ends with the text and is padded on the left with c to width w |
| `ConfigFiles.BoundNum` | lib/iface/config_file.rb:177-178 | a missing range bound raises `NoMethodError` for `split`; a present one converts |
| `ConfigFiles.SetAddress` | lib/iface/config_file.rb:85-109 | each setter succeeds or raises exactly as building the field's pair through `[]=` does, and the field then reads as that pair's value; afterwards the file is static and not NM-controlled, the field reads as stored, and every name other than the field, BOOTPROTO and NM_CONTROLLED reads as before |
| `ConfigFiles.SetIpAddress` | lib/iface/config_file.rb:85-89 | `ip_address = t` succeeds exactly when t is an IPv4 address, raises what `IpV4Address.new` raises otherwise, and `ip_address` then reads as that address's dotted quad |
| `ConfigFiles.SetIpv6Address` | lib/iface/config_file.rb:95-99 | `ipv6_address = t` succeeds or raises exactly as `IpV6Primary#value=` does on t, and IPV6ADDR then reads as the pair it builds |
| `ConfigFiles.SetIpv6Secondaries` | lib/iface/config_file.rb:105-109 | `ipv6_secondaries = ips` with an Array succeeds or raises exactly as `IpV6Secondaries#value=` does on it, whether or not the variable existed, and IPV6ADDR_SECONDARIES then reads as the list it builds |
| `ConfigFiles.MakeStaticFacts` | lib/iface/config_file.rb:115-117 | after `make_static` BOOTPROTO reads `none` and no other name changes |
| `ConfigFiles.DisableNmFacts` | lib/iface/config_file.rb:119-121 | after `disable_nm` NM_CONTROLLED reads `no` and no other name changes |
| `ConfigFiles.Ipv6Secondaries` | lib/iface/config_file.rb:101-103 | `ipv6_secondaries` is nil exactly when IPV6ADDR_SECONDARIES is absent |
| `ConfigFiles.Ipv6SecondariesStored` | lib/iface/config_file.rb:101-103 | when IPV6ADDR_SECONDARIES holds a list whose masks contain no white space, `ipv6_secondaries` is that list's `ip/mask` texts, one per entry and in order |
| `Pairs.SecondariesWords` | lib/iface/value_set/pair.rb:107-109 | the space-joined value of such a list, split on runs of white space, gives back one text per entry |
| `Configs.TagOf` | lib/iface/config.rb:25 | a file is filed under its class's `file_type_name` |
| `Configs.Add` | lib/iface/config.rb:23-32 | `add` raises exactly when `create` does; otherwise it appends the file to its tag's list, creating the list if needed, and leaves every other list unchanged |
| `Configs.AddValid` | lib/iface/config.rb:23-32 | every list stays under the tag of its files' class, and their variables stay well formed |
| `Configs.ReservedOctets` | lib/iface/config.rb:9 | an IPv4 address is in a reserved block exactly when its first octet is 10, or its first two octets are 192 and 168 |
| `Configs.Eligible` | lib/iface/config.rb:39-42 | a non-static file is eligible, and a static file without IPADDR is not |
| `Configs.EligibleStored` | lib/iface/config.rb:43-45 | a static file with IPADDR is eligible exactly when its address lies in no reserved block |
| `Configs.EligibleOctets` | lib/iface/config.rb:43-45 | a static file with IPADDR is ineligible exactly when its address is in 10.0.0.0/8 or 192.168.0.0/16 |
| `Configs.SelectOk` | lib/iface/config.rb:38-47 | `select` succeeds exactly when deciding each file's eligibility does |
| `Configs.SelectMembers` | lib/iface/config.rb:38-47 | the selected files are exactly the listed files that are eligible |
| `Configs.Primary` | lib/iface/config.rb:37-57 | with no primary list `primary` raises; otherwise 0 eligible files give nil, 1 gives that file, and 2 or more raise with the count |
| `Configs.PrimaryOutcome` | lib/iface/config.rb:37-57 | with a primary list, `primary` raises exactly when two or more files are eligible, and a file it returns is an eligible member of the list |

## Left out

- `Config.discover` is left out because it is filesystem I/O (`Dir.glob`, `File.open`). File content is a string parameter.
- `IPAddr` text forms beyond dotted quads and RFC 4291 section 2.2 forms 1 and 2 are left out: the embedded-IPv4 tail, zone ids, brackets, and masks written as addresses after `/`. The printer leaves out `IPAddr`'s `::a.b.c.d` and `::ffff:a.b.c.d` forms. The `IPAddr` library is not part of this model.
- The floating-point `Math.log2(diff).ceil` in `cidr_mask` is replaced by the integer ceiling logarithm. The two agree on the contiguous masks `IPAddr` builds, because there every diff is one less than a power of two.
- `@_bitmask` and `@inverse_mask_addr` are left out because nothing reads them.
- `String#hex` is modelled for a sign and hex digits, but not for leading white space, a `0x` prefix or underscores. `string_to_ip_num` hands `hex` only the blocks it builds with `to_s(16)`, which hold hex digits and `-`, so these gaps do not arise there. `String#to_i` is modelled in full for base 10: leading white space, a sign, a `0d` prefix, and single underscores between digits.
- `String#upcase` is modelled for the ASCII letters only. Ruby's is full Unicode (`'ı'.upcase` is `"I"`, `'ß'.upcase` is `"SS"`). Names that reach `[]`, `key?`, `fetch_raw`, `[]=` and `Pair.create` are taken to be ASCII.
- `Pairs.Create`: requires a String value for a name the dispatch leaves generic. `lib/iface/value_set/pair.rb:25` and 28-31 would store an Array there as given. A generic pair holds text only, because printing an Array needs Ruby's `inspect` format.
- `Pairs.Assign`: requires a String value for a generic pair, for the same reason. `attr_accessor :value` (`lib/iface/value_set/pair.rb:11`) accepts any value.
- `ValueSets.Set`: requires a String value unless the name is one the dispatch handles, because it hands the value to `Pairs.Create` or `Pairs.Assign`.
- Partial updates Ruby makes before an exception are left out. An `Err` result leaves the caller's value set as it was, while Ruby may already have changed the instance.
- `PrimaryInterface` is left out because it is not part of this model. That drops its hiding of IPADDR for dhcp files, `use_ipv6`, and `Config#[]`, which exists only in the tests.
- The VLAN variant is left out because the code has none.
- `include?(nil)` is left out because the stored text is compared as an `Option`, so a nil query has no counterpart.
- `Configs.Eligible`: its own contract states only the two cases decided without an address. The address case is stated through `Configs.EligibleStored` and `Configs.EligibleOctets`.
- `Pairs.ParseEntry`: its own contract states only that a parsed address fits 128 bits. Its success and failure cases are stated through `Pairs.ParseEntries`, `Pairs.EntryReadsBack` and `Pairs.AssignSecondaries`.
- `Configs.Select`: its own contract states only that the result is no longer than the input. Success and membership are stated through `Configs.SelectOk` and `Configs.SelectMembers`.
- `Pairs.NewSecondaries`: its own contract states only the result's variant. Splitting a String on runs of spaces is stated through `Pairs.SecondariesReadBack` and `Text.SplitRunsJoin`. A value that is neither String nor Array cannot occur, because `Value` has only those two shapes.
- `ValueSets.Parse`: its own contract states only that the result is well formed. What it reads is stated through `ValueSets.AddLine`, `ValueSets.ParseIgnoresBlank` and `ValueSets.ParseToS`, and that a malformed line anywhere makes it raise is stated through `ValueSets.ParseLinesAborts` and `ValueSets.ParseAborts`.
