# Archive fingerprint codec and differ, in Dafny

`PluginDiff` fingerprints a zip or jar archive as a line-oriented text. It
prints one line per member, sorted by path. Each line holds the member's path,
its storage method (`S` stored, `D` otherwise), the hexadecimal SHA-256 of its
content, and its extra field in hexadecimal. A path is printed without the
prefix it shares with the previous path; a line starts with `N:` when `N`
characters are shared. `compare` reads two such texts back into path-keyed
snapshots. It then visits every path of either snapshot and files it under at
most one of four headings; a path with no difference is filed under none:

- only in the first snapshot;
- only in the second;
- content differs, which here means the storage method changed while the hash
  stayed the same;
- metadata differs.

The model follows the source's own structure. Each loop of the source is a
method with its invariants, proved against a pure specification function:

- the byte-to-hex loop;
- the shared-prefix scan;
- the per-entry scan;
- the encode loop;
- the parse loop, which fills the map in place;
- the comparison loop, which appends to four lists while it iterates a sorted
  set.

Lemmas then prove what the format promises:

- decoding an encoding reads back every record;
- each line rule of `parse`, including its three error cases;
- the encoding of a sorted snapshot is canonical;
- what the report says, path by path;
- comparing a snapshot with itself reports nothing;
- swapping the snapshots swaps the two "only" lists.

Files:

- `java_text.dfy` (`JavaText`): the Java library behaviour that the core relies
  on.
  - The signed `byte`.
  - The lexicographic order of `String.compareTo`, and the `TreeSet` iteration
    order it induces.
  - `Integer.toString` and `Integer.parseInt`.
  - `String.split(":", 5)`.
  - `String.isBlank`.
- `hex.dfy` (`Hex`): `bytesToHex` and its inverse.
- `prefix.dfy` (`Prefix`): `sharedPrefixLength`.
- `entries.dfy` (`Entries`):
  - `EntryInfo`;
  - the zip entry as an input value;
  - the record built for each entry;
  - the scan over all entries;
  - the stable sort by path.
- `codec.dfy` (`Codec`): the encode loop of `analyze`, `parse`, and the
  round-trip and line-rule lemmas.
- `differ.dfy` (`Differ`): the classification loop of `compare`, the reading of
  both files, and the report lemmas.

The rule for content differences is kept exactly as written. A path whose
method is unchanged gets no content verdict, even when its hash changed.
`Differ.HashChangeUnreported` and `Differ.HashChangeExample` state this
behaviour.

## Model

| member | source | states |
|---|---|---|
| JavaText.Split | PluginDiff.java:147 | `split(":", 5)` gives one to five fields. Joined with `:` they give the line back. No field but the last holds a colon. The last holds one only when five fields were cut. |
| JavaText.SplitJoin | PluginDiff.java:147 | Splitting the join of fields that obey those rules returns exactly those fields, so the split is determined by its contract. |
| JavaText.Decimal | PluginDiff.java:81 | The printed prefix length is at least one decimal digit, digits only, with no leading zero except for 0 itself. |
| JavaText.ParseInt | PluginDiff.java:150 | `Integer.parseInt` succeeds only on a digit, or on `+` or `-` followed by at least one character, with digits after the first character, and only on values within the int range. On digits alone, or on `+` and digits, it succeeds exactly when the digits' value is at most 2147483647, and returns that value. On `-` and digits it succeeds exactly when the value is at most 2147483648, and returns its negation. |
| JavaText.LessByCommonPrefix | PluginDiff.java:71 | `compareTo` below zero, as the sort and the `TreeSet` at PluginDiff.java:93 use it: the first string is a proper prefix of the second, or at the first index where they differ its character is the smaller. |
| JavaText.IsWhitespace | PluginDiff.java:143 | The whitespace `isBlank` skips includes space, tab, line feed and carriage return, and never a colon, a digit or an ASCII letter. |
| JavaText.IsBlank | PluginDiff.java:143 | The empty line is blank, and a blank line holds no colon. |
| JavaText.ParseDecimal | PluginDiff.java:150 | Parsing a printed non-negative int gives the int back. |
| JavaText.AscendingElements | PluginDiff.java:93-95 | Iterating the `TreeSet` built from the key sets yields each element of the set exactly once, in strictly ascending order. |
| JavaText.AscendingUnique | PluginDiff.java:93-95 | Two strictly ascending sequences with the same elements are equal, so the iteration order of a set is unique. |
| JavaText.MinimumExists | PluginDiff.java:93-95 | Every non-empty set of strings has a least element under the string order. |
| JavaText.LessTotal | PluginDiff.java:71 | The string order is total: two different strings are ordered one way or the other. |
| JavaText.LessTransitive | PluginDiff.java:71 | The string order is transitive. |
| Hex.Unsigned | PluginDiff.java:179 | `%02x` formats a byte as its unsigned value: below 256 and congruent to the signed byte modulo 256. |
| Hex.ByteHex | PluginDiff.java:179 | `%02x` of one byte is two lowercase hex digits whose value, high digit times 16 plus low digit, is the unsigned byte. |
| Hex.ToHex | PluginDiff.java:177-181 | A rendering has exactly two characters per byte, all of them in `0-9a-f`. |
| Hex.BytesToHex | PluginDiff.java:177-181 | The `StringBuilder` loop builds exactly the rendering of the whole array. |
| Hex.HexHasNoColon | PluginDiff.java:177-181 | A rendering never holds the field separator `:`. |
| Hex.FromToHex | PluginDiff.java:177-181 | Reading two hex digits per byte recovers the bytes from their rendering. |
| Hex.ToHexInjective | PluginDiff.java:177-181 | Two byte arrays have the same rendering if and only if they are equal. |
| Prefix.CommonPrefixLength | PluginDiff.java:167-175 | The shared length is at most both lengths. Both strings agree up to it. When it is below both lengths, the strings differ at that index. |
| Prefix.CommonPrefixUnique | PluginDiff.java:167-175 | Those three properties determine the shared length. |
| Prefix.SharedPrefixLength | PluginDiff.java:167-175 | The loop with early return computes that maximal shared length. |
| Entries.IsDirectory | PluginDiff.java:56 | An entry is a directory exactly when its name is non-empty and ends in `/`. |
| Entries.MethodSymbol | PluginDiff.java:63 | The method is always `S` or `D`, and it is `S` exactly for a stored entry. |
| Entries.Record | PluginDiff.java:55-65 | The record of an entry carries its name as path and its method symbol. A directory gets an empty hash. An absent extra field gives empty metadata. |
| Entries.RecordFields | PluginDiff.java:55-65 | A record's path is the entry name. Its method is `S` exactly for a stored entry and `D` otherwise. Hash and metadata are hexadecimal and colon-free. A directory has an empty hash. A file's hash decodes to its digest, and a present extra field's metadata decodes to that field. An absent extra field gives empty metadata. |
| Entries.BuildRecord | PluginDiff.java:55-65 | The per-entry lambda builds exactly that record. |
| Entries.Records | PluginDiff.java:54-66 | The scan makes one record per entry, in stream order. |
| Entries.ScanEntries | PluginDiff.java:54-66 | The `forEach` loop appends exactly those records. |
| Entries.InsertByPath | PluginDiff.java:71 | Inserting one record adds exactly that record to the multiset and keeps a path-sorted list sorted. |
| Entries.SortByPath | PluginDiff.java:71 | The sort returns a permutation of the records, ordered by path. |
| Codec.EncodeFrom | PluginDiff.java:73-87 | The encode loop prints exactly one line per record. |
| Codec.EncodeRecords | PluginDiff.java:73-87 | The loop, carrying `prevPath` from one record to the next, prints exactly the encoding of the sorted records. |
| Codec.Analyze | PluginDiff.java:50-87 | `analyze` prints the encoding of the entries' records sorted by path. |
| Codec.FormatLineFields | PluginDiff.java:79-86 | The `printf` format writes the fields joined by `:`: `N` in decimal first when `N > 0`, then suffix, method, hash and metadata. |
| Codec.EncodedLineFields | PluginDiff.java:76-86 | Let `N` be the length the line shares with the previous path. The printed suffix completes the first `N` characters of the previous path to the record's path. The line splits into `N` in decimal, followed by suffix, method, hash and metadata. It has the leading `N` field, and so five fields, exactly when `N > 0`. |
| Codec.ParseLineCases | PluginDiff.java:143-147 | A line is skipped exactly when it is blank. Any other line is parsed from its split into at most five fields. |
| Codec.ParseFieldsCases | PluginDiff.java:147-157 | Only five fields start with a prefix, so only they can fail with `BadPrefix`, which happens exactly when that field does not parse, or with `PrefixOutOfRange`. Five fields give a record exactly when the prefix parses to a value in `0..|prev|`. A line fails with `MissingFields` exactly when it has one or two fields. With fewer than five fields the path is the first field. |
| Codec.BuildEntryCases | PluginDiff.java:156-157 | A record is built exactly when the prefix is in `0..|prev|` and at least three fields follow. Otherwise it fails with `PrefixOutOfRange` if the prefix is out of range, and with `MissingFields` if it is not. The built path is the first `prefix` characters of the previous path followed by the first field. The other fields are method, hash and metadata, which is "" when only three fields follow. |
| Codec.ReadLine | PluginDiff.java:143-157 | The loop body's handling of one line agrees with the line rules: blank, parsed record, or one of the three errors. |
| Codec.Parse | PluginDiff.java:138-165 | The in-place loop over the lines returns the snapshot of the decoded records, or the error of the first malformed line. |
| Codec.DecodeStep | PluginDiff.java:142-158 | A blank line is skipped. A parsed line appends its record and becomes the new previous path. A malformed line ends the parse with its error. |
| Codec.DecodeFromGrows | PluginDiff.java:142-158 | A successful parse keeps the records already read at the front and adds at most one record per line. |
| Codec.ToMap | PluginDiff.java:157 | The snapshot has no more keys than records, and each key holds one of the records, whose path is that key. |
| Codec.Decode | PluginDiff.java:138-165 | `parse` fails exactly when reading the records fails. On success the snapshot has at most one key per line, and each key holds a record with that path. |
| Codec.ToMapContents | PluginDiff.java:157 | Insert-or-overwrite: the keys are exactly the set of decoded paths. Each key holds a decoded record with that path. A record whose path no later record repeats is the one kept. |
| Codec.ToMapSnoc | PluginDiff.java:157 | One more `map.put` stores the record under its path. |
| Codec.LineRoundTrip | PluginDiff.java:143-157 | For any previous path, `parse` reads back exactly the record from the line the encoder printed, provided the record's fields are colon-free. |
| Codec.DecodeEncodeFrom | PluginDiff.java:142-158 | Decoding the rest of an encoding from the same previous path appends exactly the encoded records. |
| Codec.RoundTrip | PluginDiff.java:138-165 | Decoding an encoding succeeds. It rebuilds the record list exactly, and its snapshot is the one that inserting the records in turn gives. |
| Codec.RoundTripDistinct | PluginDiff.java:138-165 | When paths are distinct, the decoded snapshot has one key per record, and each key holds exactly its record. |
| Codec.AnalyzeRoundTrip | PluginDiff.java:50-87 | Parsing what `analyze` prints for an archive with colon-free names succeeds. Its keys are the entry names, and each key holds the record of an entry with that name. When the names are distinct, that is the entry's own record. |
| Codec.SortedRecordsOf | PluginDiff.java:71 | The sorted records are exactly the records of the entries. |
| Codec.DecodeSkipsBlank | PluginDiff.java:143 | A blank line anywhere in the file changes nothing in the result. |
| Codec.ParseThreeFields | PluginDiff.java:153-157 | Three fields: no prefix, the first field is the path, and the metadata defaults to "". |
| Codec.ParseFourFields | PluginDiff.java:153-157 | Four fields: no prefix, and the four fields are path, method, hash and metadata. |
| Codec.ParseFiveFields | PluginDiff.java:149-157 | Five fields. A non-numeric first field fails with `BadPrefix`. A prefix outside `0..|prev|` fails with `PrefixOutOfRange`. Otherwise the path is that much of the previous path plus the suffix, and the metadata keeps any further colons. |
| Codec.ParseTooFewFields | PluginDiff.java:156-157 | A non-blank line with one or two fields fails with `MissingFields`. |
| Codec.ColonInPathBreaksParse | PluginDiff.java:76-86 | The member name `a:b` is printed as a line that `parse` rejects. |
| Codec.CanonicalEncoding | PluginDiff.java:71-87 | Two path-sorted lists with distinct, colon-free paths that decode to the same snapshot have the same encoding. |
| Differ.Classify | PluginDiff.java:103-110 | The verdict for a path: only in the second snapshot exactly when it is missing from the first. Only in the first exactly when it is present there and missing from the second. Content-differing exactly when the methods differ and the hashes agree. Metadata-differing exactly when that fails and the metadata differ. No difference exactly when both fail. |
| Differ.Visit | PluginDiff.java:103-110 | The loop body appends the path to the list of its verdict, and to no other list. |
| Differ.VisitNext | PluginDiff.java:102-110 | Visiting a path that sorts after every visited one keeps a list strictly ascending. The list still holds exactly the visited paths with its verdict. |
| Differ.Compare | PluginDiff.java:93-111 | Each of the four lists is strictly ascending. A path is in a list if and only if it is a key of either map and its verdict is that list's. |
| Differ.CompareSnapshots | PluginDiff.java:91-92 | If the first file does not parse, that error is the result. If only the second does not parse, its error is the result. If both parse, the result is the report of comparing the two snapshots. |
| Differ.ReportContents | PluginDiff.java:102-110 | `only1` is the keys of the first snapshot minus those of the second, and `only2` the converse. A shared path is content-differing if and only if the methods differ and the hashes agree. Failing that, it is metadata-differing if and only if the metadata differ. |
| Differ.ReportPartition | PluginDiff.java:102-110 | Every listed path is in the union of the key sets, and in exactly one list. |
| Differ.ReportUnique | PluginDiff.java:93-111 | The report is determined by the two snapshots. |
| Differ.CompareSelf | PluginDiff.java:102-110 | Comparing a snapshot with itself gives four empty lists. |
| Differ.CompareSwap | PluginDiff.java:105-109 | Swapping the snapshots swaps `only1` and `only2` and leaves the other two lists unchanged. |
| Differ.HashChangeUnreported | PluginDiff.java:108-109 | A path whose method and metadata agree in both snapshots is in no list, whatever its hashes. |
| Differ.ClassifyEntries | PluginDiff.java:108-109 | Take two scanned entries of the same name. They are content-differing if and only if exactly one is stored and they are directories or have equal digests. Otherwise they are metadata-differing if and only if their extra-field bytes differ. |
| Differ.SinglePathReport | PluginDiff.java:102-110 | With a single path in the union, the report is that path alone in the list of its verdict. |
| Differ.RecompressedExample | PluginDiff.java:108 | Stored versus deflated with the same hash and metadata is reported as a content difference. |
| Differ.MetadataExample | PluginDiff.java:109 | The same method and hash with a different extra field is reported as a metadata difference. |
| Differ.HashChangeExample | PluginDiff.java:108-109 | The same method with different hashes is reported as no difference at all. |

## Left out

- Command-line dispatch is not modelled (PluginDiff.java:15-40, 183-187). This covers `main`, `printUsage` and the `Files.exists` checks, which are glue around the core.
- Opening the archive with `ZipFile`, streaming its members and `readAllBytes` are I/O (PluginDiff.java:52-69). The archive is an input list of `ZipEntry` values. `isDirectory()` is the name ending in `/`, as `java.util.zip.ZipEntry` defines it.
- The SHA-256 computation is a foreign cryptographic call (PluginDiff.java:43-48, 58). Each entry carries its digest bytes as an input.
- `Files.readAllLines` is I/O (PluginDiff.java:142). A file is given as its sequence of lines, so an entry name holding a line break is not covered.
- All report printing is display only (PluginDiff.java:79-86, 113-134). This covers `System.out` and the section headings. The encoder returns its lines, and `compare` returns the four lists.
- Exceptions are modelled as `Failure` results rather than as thrown `RuntimeException`s. This covers `NumberFormatException`, `StringIndexOutOfBoundsException` and `ArrayIndexOutOfBoundsException` in `parse`. The error values say which check failed, not the exception message.
- Strings are sequences of code points. Java strings and `compareTo` work on UTF-16 code units, so paths outside the Basic Multilingual Plane may be ordered and measured differently.
- JavaText.ParseInt: accepts ASCII digits only. `Integer.parseInt` also accepts other Unicode decimal digits.
- The `LinkedHashMap` insertion order of the parsed snapshot is not modelled. A snapshot is a `map`, and the comparison never uses that order.
- Entries.SortByPath: an insertion sort stands in for the library's merge sort. It puts each record after the earlier ones with an equal path, as a stable sort must. The contract states sortedness and permutation but not stability.
- Codec.AnalyzeRoundTrip: assumes that `printf` and `Files.readAllLines` carry each line across unchanged. It is not claimed when the output charset cannot encode a path. Nor is it claimed when two consecutive paths share a high surrogate at the end of their shared prefix. The printed suffix then starts with a lone low surrogate, which the charset may print as `?`, and the two names can be read back as one key.
- Codec.RoundTrip: is stated only for records whose fields hold no `:`. The source promises nothing for such names, and `Codec.ColonInPathBreaksParse` shows that it cannot read them back.
- The `TreeSet` is modelled by its iteration order (`JavaText.AscendingElements`), which repeatedly takes the least remaining element. Its tree structure is not modelled.
