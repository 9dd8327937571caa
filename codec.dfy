/** The path-prefix codec: the encode loop of `analyze`, which prints one line per
    record and leaves out the prefix a path shares with the previous one, and
    `parse`, which rebuilds the path-keyed snapshot from those lines. */
module Codec {
  import opened JavaText
  import opened Hex
  import opened Prefix
  import opened Entries

  // ---------------------------------------------------------------------------
  // Encoding
  // ---------------------------------------------------------------------------

  /** The `printf` of PluginDiff.java:79-86: `N:` only for a positive shared
      length `N`, then suffix, method, hash and metadata, colon-separated. */
  function FormatLine(prefixLen: nat, suffix: string, methodSymbol: string, hash: string, metadata: string): string
  {
    var fields := suffix + ":" + methodSymbol + ":" + hash + ":" + metadata;
    if prefixLen > 0 then Decimal(prefixLen) + ":" + fields else fields
  }

  /** The printed line is its fields joined by `:`: the shared length `N` comes
      first only when positive. */
  lemma FormatLineFields(prefixLen: nat, suffix: string, methodSymbol: string, hash: string, metadata: string)
    ensures FormatLine(prefixLen, suffix, methodSymbol, hash, metadata)
         == Join((if prefixLen > 0 then [Decimal(prefixLen)] else []) + [suffix, methodSymbol, hash, metadata], ':')
  {
    var four := [suffix, methodSymbol, hash, metadata];
    JoinFour(suffix, methodSymbol, hash, metadata);
    if prefixLen > 0 {
      JoinCons(Decimal(prefixLen), four, ':');
    } else {
      assert [] + four == four;
    }
  }

  /** The line for record `r` printed after a record whose path is `prev`. */
  function EncodeLine(prev: string, r: EntryInfo): (line: string)
  {
    var n := CommonPrefixLength(prev, r.path);
    FormatLine(n, r.path[n..], r.methodSymbol, r.hash, r.metadata)
  }

  /** The lines for `rs` when the path printed last is `prev`. */
  function EncodeFrom(prev: string, rs: seq<EntryInfo>): (lines: seq<string>)
    ensures |lines| == |rs|
    decreases rs
  {
    if rs == [] then [] else [EncodeLine(prev, rs[0])] + EncodeFrom(rs[0].path, rs[1..])
  }

  /** The encoding of a record list: the previous path starts out empty. */
  function Encode(rs: seq<EntryInfo>): seq<string>
  {
    EncodeFrom("", rs)
  }

  /** The encode loop (PluginDiff.java:73-87), collecting the printed lines:
      `prevPath` carries each path into the next iteration. */
  method EncodeRecords(records: seq<EntryInfo>) returns (lines: seq<string>)
    ensures lines == Encode(records)
  {
    var prevPath := "";
    lines := [];
    for i := 0 to |records|
      invariant lines + EncodeFrom(prevPath, records[i..]) == Encode(records)
    {
      assert records[i..] == [records[i]] + records[i + 1..];
      var entry := records[i];
      var path := entry.path;
      var prefixLen := SharedPrefixLength(prevPath, path);
      prevPath := path;
      var line := FormatLine(prefixLen, path[prefixLen..], entry.methodSymbol, entry.hash, entry.metadata);
      lines := lines + [line];
    }
  }

  /** `analyze` (PluginDiff.java:50-87) on an archive given as its list of
      entries: scan, sort by path, encode. */
  method Analyze(entries: seq<ZipEntry>) returns (lines: seq<string>)
    ensures lines == Encode(SortByPath(Records(entries)))
  {
    var infos := ScanEntries(entries);
    var sorted := SortByPath(infos);
    lines := EncodeRecords(sorted);
  }

  // ---------------------------------------------------------------------------
  // Decoding
  // ---------------------------------------------------------------------------

  /** The exceptions `parse` can raise on a line: `NumberFormatException` from
      `Integer.parseInt`, `StringIndexOutOfBoundsException` from `substring`,
      `ArrayIndexOutOfBoundsException` on `info[1]` or `info[2]`. */
  datatype ParseError =
    | BadPrefix(field: string)
    | PrefixOutOfRange(prefix: int, available: nat)
    | MissingFields(count: nat)

  datatype Result<T> = Success(value: T) | Failure(error: ParseError)

  /** What one line contributes: nothing, a record, or a fatal error. */
  datatype LineResult = Blank | Parsed(info: EntryInfo) | Malformed(error: ParseError)

  /** The record built from the fields after the prefix (PluginDiff.java:156-157). */
  function BuildEntry(prev: string, prefix: int, info: seq<string>): LineResult
    requires 1 <= |info| <= 4
  {
    if !(0 <= prefix <= |prev|) then Malformed(PrefixOutOfRange(prefix, |prev|))
    else if |info| < 3 then Malformed(MissingFields(|info|))
    else
      var path := prev[..prefix] + info[0];
      Parsed(EntryInfo(path, info[1], info[2], if |info| > 3 then info[3] else ""))
  }

  /** The body of the loop of `parse` (PluginDiff.java:143-157) for one line. */
  function ParseLine(prev: string, line: string): LineResult
  {
    if IsBlank(line) then Blank else ParseFields(prev, Split(line, ':', 5))
  }

  /** A non-blank line once split: five fields start with the prefix length,
      fewer have none. */
  function ParseFields(prev: string, parts: seq<string>): LineResult
    requires 1 <= |parts| <= 5
  {
    if |parts| == 5 then
      match ParseInt(parts[0])
      case None => Malformed(BadPrefix(parts[0]))
      case Some(n) => BuildEntry(prev, n, parts[1..])
    else BuildEntry(prev, 0, parts)
  }

  /** The record built from the fields after the prefix: the prefix is checked
      first, then the field count; the path is the first `prefix` characters of
      the previous path followed by the first field. */
  lemma BuildEntryCases(prev: string, prefix: int, info: seq<string>)
    requires 1 <= |info| <= 4
    ensures var r := BuildEntry(prev, prefix, info);
      && !r.Blank?
      && (r.Parsed? <==> 0 <= prefix <= |prev| && |info| >= 3)
      && (!(0 <= prefix <= |prev|) ==> r == Malformed(PrefixOutOfRange(prefix, |prev|)))
      && (0 <= prefix <= |prev| && |info| < 3 ==> r == Malformed(MissingFields(|info|)))
      && (r.Parsed? ==>
        && |r.info.path| == prefix + |info[0]|
        && r.info.path[..prefix] == prev[..prefix] && r.info.path[prefix..] == info[0]
        && r.info.methodSymbol == info[1] && r.info.hash == info[2]
        && r.info.metadata == (if |info| == 4 then info[3] else ""))
  {
  }

  /** A non-blank line once split: only a line of five fields has a prefix,
      so only it can fail on the prefix; fewer than three fields are too few. */
  lemma ParseFieldsCases(prev: string, parts: seq<string>)
    requires 1 <= |parts| <= 5
    ensures var r := ParseFields(prev, parts);
      && !r.Blank?
      && (r.Malformed? && r.error.BadPrefix? <==> |parts| == 5 && ParseInt(parts[0]).None?)
      && (r.Malformed? && r.error.PrefixOutOfRange? ==> |parts| == 5)
      && (r.Malformed? && r.error.MissingFields? <==> |parts| <= 2)
      && (|parts| == 5 ==> (r.Parsed? <==> ParseInt(parts[0]).Some? && 0 <= ParseInt(parts[0]).value <= |prev|))
      && (|parts| < 5 && r.Parsed? ==> r.info.path == parts[0])
  {
    if |parts| < 5 && ParseFields(prev, parts).Parsed? {
      assert prev[..0] + parts[0] == parts[0];
    }
  }

  /** A line is skipped exactly when it is blank; every other line is split
      into at most five fields and parsed from those. */
  lemma ParseLineCases(prev: string, line: string)
    ensures ParseLine(prev, line).Blank? <==> IsBlank(line)
    ensures !IsBlank(line) ==> ParseLine(prev, line) == ParseFields(prev, Split(line, ':', 5))
  {
    if !IsBlank(line) {
      ParseFieldsCases(prev, Split(line, ':', 5));
    }
  }

  /** The records `parse` reconstructs from `lines`, after the records `done`
      and the path `prev`; the first malformed line aborts the whole parse. */
  function DecodeFrom(prev: string, done: seq<EntryInfo>, lines: seq<string>): Result<seq<EntryInfo>>
    decreases |lines|
  {
    if lines == [] then Success(done)
    else
      match ParseLine(prev, lines[0])
      case Blank => DecodeFrom(prev, done, lines[1..])
      case Parsed(e) => DecodeFrom(e.path, done + [e], lines[1..])
      case Malformed(err) => Failure(err)
  }

  /** The decoding keeps the records already reconstructed at the front and adds
      at most one record per line. */
  lemma {:induction false} DecodeFromGrows(prev: string, done: seq<EntryInfo>, lines: seq<string>)
    ensures DecodeFrom(prev, done, lines).Success? ==>
      && done <= DecodeFrom(prev, done, lines).value
      && |DecodeFrom(prev, done, lines).value| <= |done| + |lines|
    decreases |lines|
  {
    if lines != [] {
      match ParseLine(prev, lines[0])
      case Blank => DecodeFromGrows(prev, done, lines[1..]);
      case Parsed(e) => DecodeFromGrows(e.path, done + [e], lines[1..]);
      case Malformed(_) =>
    }
  }

  /** The reconstructed records of a whole file, in line order. */
  function DecodeRecords(lines: seq<string>): Result<seq<EntryInfo>>
  {
    DecodeFrom("", [], lines)
  }

  /** A snapshot filled by insert-or-overwrite: `map.put` for each record in turn. */
  function ToMap(rs: seq<EntryInfo>): (m: map<string, EntryInfo>)
    ensures |m| <= |rs|
    ensures forall k :: k in m ==> m[k].path == k && m[k] in rs
  {
    if rs == [] then map[]
    else
      assert rs == rs[..|rs| - 1] + [rs[|rs| - 1]];
      ToMap(rs[..|rs| - 1])[rs[|rs| - 1].path := rs[|rs| - 1]]
  }

  /** The snapshot holds one key per distinct path; each key maps to a record with
      that path, and a record whose path no later record repeats is the one kept
      for it: a later record with the same path overwrites an earlier one. */
  lemma ToMapContents(rs: seq<EntryInfo>)
    ensures ToMap(rs).Keys == set r | r in rs :: r.path
    ensures forall k :: k in ToMap(rs) ==> ToMap(rs)[k].path == k && ToMap(rs)[k] in rs
    ensures forall i :: 0 <= i < |rs| && (forall j :: i < j < |rs| ==> rs[j].path != rs[i].path) ==>
      rs[i].path in ToMap(rs) && ToMap(rs)[rs[i].path] == rs[i]
  {
    ToMapKeys(rs);
    ToMapValues(rs);
    ToMapLatest(rs);
  }

  lemma {:induction false} ToMapKeys(rs: seq<EntryInfo>)
    ensures ToMap(rs).Keys == set r | r in rs :: r.path
  {
    if rs != [] {
      var init, last := rs[..|rs| - 1], rs[|rs| - 1];
      assert rs == init + [last];
      ToMapKeys(init);
    }
  }

  lemma {:induction false} ToMapValues(rs: seq<EntryInfo>)
    ensures forall k :: k in ToMap(rs) ==> ToMap(rs)[k].path == k && ToMap(rs)[k] in rs
  {
    if rs != [] {
      var init, last := rs[..|rs| - 1], rs[|rs| - 1];
      assert rs == init + [last];
      ToMapValues(init);
    }
  }

  lemma ToMapLatest(rs: seq<EntryInfo>)
    ensures forall i :: 0 <= i < |rs| && (forall j :: i < j < |rs| ==> rs[j].path != rs[i].path) ==>
      rs[i].path in ToMap(rs) && ToMap(rs)[rs[i].path] == rs[i]
  {
    forall i | 0 <= i < |rs| && (forall j :: i < j < |rs| ==> rs[j].path != rs[i].path)
      ensures rs[i].path in ToMap(rs) && ToMap(rs)[rs[i].path] == rs[i]
    {
      ToMapLatestAt(rs, i);
    }
  }

  /** The record at `i` is kept when no later record has its path. */
  lemma {:induction false} ToMapLatestAt(rs: seq<EntryInfo>, i: nat)
    requires i < |rs|
    requires forall j :: i < j < |rs| ==> rs[j].path != rs[i].path
    ensures rs[i].path in ToMap(rs) && ToMap(rs)[rs[i].path] == rs[i]
  {
    var init, last := rs[..|rs| - 1], rs[|rs| - 1];
    assert ToMap(rs) == ToMap(init)[last.path := last];
    if i < |rs| - 1 {
      assert rs[i] == init[i];
      assert forall j :: i < j < |init| ==> init[j].path != init[i].path by {
        forall j | i < j < |init| ensures init[j].path != init[i].path {
          assert init[j] == rs[j];
        }
      }
      ToMapLatestAt(init, i);
    }
  }

  /** The snapshot `parse` returns for a file, or the error that aborts it. */
  function Decode(lines: seq<string>): (r: Result<map<string, EntryInfo>>)
    ensures r.Failure? <==> DecodeRecords(lines).Failure?
    ensures r.Success? ==> |r.value| <= |lines| && forall k :: k in r.value ==> r.value[k].path == k
  {
    DecodeFromGrows("", [], lines);
    match DecodeRecords(lines)
    case Success(rs) => Success(ToMap(rs))
    case Failure(err) => Failure(err)
  }

  /** The body of the loop of `parse` for one line (PluginDiff.java:143-157), up
      to the `map.put`: a blank line is skipped, a line of five fields starts
      with the prefix length, and the exceptions become `Malformed`. */
  method ReadLine(prev: string, line: string) returns (res: LineResult)
    ensures res == ParseLine(prev, line)
  {
    if IsBlank(line) {
      return Blank;
    }
    var prefix := 0;
    var info: seq<string>;
    var parts := Split(line, ':', 5);
    if |parts| == 5 {
      var parsed := ParseInt(parts[0]);
      if parsed.None? {
        return Malformed(BadPrefix(parts[0]));
      }
      prefix := parsed.value;
      info := parts[1..5];
    } else {
      info := parts;
    }
    if !(0 <= prefix <= |prev|) {
      return Malformed(PrefixOutOfRange(prefix, |prev|));
    }
    if |info| < 3 {
      return Malformed(MissingFields(|info|));
    }
    var path := prev[..prefix] + info[0];
    return Parsed(EntryInfo(path, info[1], info[2], if |info| > 3 then info[3] else ""));
  }

  /** One line of the decoding: skipped, appended, or the end of the parse. */
  lemma DecodeStep(prev: string, done: seq<EntryInfo>, lines: seq<string>, res: LineResult)
    requires lines != [] && res == ParseLine(prev, lines[0])
    ensures res.Blank? ==> DecodeFrom(prev, done, lines) == DecodeFrom(prev, done, lines[1..])
    ensures res.Parsed? ==> DecodeFrom(prev, done, lines) == DecodeFrom(res.info.path, done + [res.info], lines[1..])
    ensures res.Malformed? ==> DecodeFrom(prev, done, lines) == Failure(res.error)
  {
  }

  /** Inserting one more record into the snapshot. */
  lemma ToMapSnoc(rs: seq<EntryInfo>, r: EntryInfo)
    ensures ToMap(rs + [r]) == ToMap(rs)[r.path := r]
  {
    assert (rs + [r])[..|rs|] == rs;
  }

  /** `parse` (PluginDiff.java:138-165) on a file given as its lines: fills the
      map in place while `prev` follows the last reconstructed path; the first
      malformed line aborts the whole parse. */
  method Parse(lines: seq<string>) returns (r: Result<map<string, EntryInfo>>)
    ensures r == Decode(lines)
  {
    var m: map<string, EntryInfo> := map[];
    var prev := "";
    ghost var done: seq<EntryInfo> := [];
    for i := 0 to |lines|
      invariant m == ToMap(done)
      invariant DecodeRecords(lines) == DecodeFrom(prev, done, lines[i..])
    {
      var res := ReadLine(prev, lines[i]);
      DecodeStep(prev, done, lines[i..], res);
      assert lines[i..][1..] == lines[i + 1..];
      match res
      case Blank =>
        continue;
      case Malformed(err) =>
        return Failure(err);
      case Parsed(entry) =>
        ToMapSnoc(done, entry);
        m := m[entry.path := entry];
        done := done + [entry];
        prev := entry.path;
    }
    return Success(m);
  }

  // ---------------------------------------------------------------------------
  // What a line says
  // ---------------------------------------------------------------------------

  /** A record the format can carry: no field holds the separator, and the path
      is no longer than a Java string can be. */
  predicate Encodable(r: EntryInfo)
  {
    && ':' !in r.path && ':' !in r.methodSymbol && ':' !in r.hash && ':' !in r.metadata
    && |r.path| <= IntMax
  }

  lemma JoinCons(p: string, rest: seq<string>, sep: char)
    requires rest != []
    ensures Join([p] + rest, sep) == p + [sep] + Join(rest, sep)
  {
    assert ([p] + rest)[1..] == rest;
  }

  /** The text of four colon-separated fields. */
  lemma JoinFour(a: string, b: string, c: string, d: string)
    ensures Join([a, b, c, d], ':') == a + ":" + b + ":" + c + ":" + d
  {
    JoinCons(a, [b, c, d], ':');
    JoinCons(b, [c, d], ':');
    JoinCons(c, [d], ':');
  }

  /** Each line's fields as `split(":", 5)` reads them: the shared length `N`
      stands first, as a fifth field, exactly when it is positive; the suffix
      completes the previous path's first `N` characters to the record's path. */
  lemma EncodedLineFields(prev: string, r: EntryInfo)
    requires Encodable(r)
    ensures var n := CommonPrefixLength(prev, r.path);
      && prev[..n] + r.path[n..] == r.path
      && Split(EncodeLine(prev, r), ':', 5)
         == (if n > 0 then [Decimal(n)] else []) + [r.path[n..], r.methodSymbol, r.hash, r.metadata]
      && (|Split(EncodeLine(prev, r), ':', 5)| == 5 <==> n > 0)
  {
    var n := CommonPrefixLength(prev, r.path);
    var suffix := r.path[n..];
    assert r.path == r.path[..n] + suffix;
    assert ':' !in suffix by {
      forall i | 0 <= i < |suffix| ensures suffix[i] != ':' {
        assert suffix[i] == r.path[n + i];
      }
    }
    var parts := (if n > 0 then [Decimal(n)] else []) + [suffix, r.methodSymbol, r.hash, r.metadata];
    FormatLineFields(n, suffix, r.methodSymbol, r.hash, r.metadata);
    assert EncodeLine(prev, r) == Join(parts, ':');
    if n > 0 {
      var d := Decimal(n);
      assert ':' !in d by {
        forall i | 0 <= i < |d| ensures d[i] != ':' {
          assert IsDigit(d[i]);
        }
      }
      assert parts[0] == d;
    }
    SplitJoin(parts, ':', 5);
  }

  /** A line with a separator is never blank. */
  lemma SeparatedNotBlank(parts: seq<string>)
    requires |parts| >= 2
    ensures !IsBlank(Join(parts, ':'))
  {
    assert Join(parts, ':') == parts[0] + [':'] + Join(parts[1..], ':');
    assert Join(parts, ':')[|parts[0]|] == ':';
  }

  /** `parse` reads back exactly the record the encoder wrote, whatever the
      previous path was. */
  lemma LineRoundTrip(prev: string, r: EntryInfo)
    requires Encodable(r)
    ensures ParseLine(prev, EncodeLine(prev, r)) == Parsed(r)
  {
    EncodedLineFields(prev, r);
    var n := CommonPrefixLength(prev, r.path);
    var line := EncodeLine(prev, r);
    var parts := Split(line, ':', 5);
    var four := [r.path[n..], r.methodSymbol, r.hash, r.metadata];
    SeparatedNotBlank(parts);
    ParseLineCases(prev, line);
    if n > 0 {
      ParseDecimal(n);
      assert parts[0] == Decimal(n) && parts[1..] == four;
      FiveFieldsResult(prev, parts);
    } else {
      assert parts == four;
      assert BuildEntry(prev, 0, four) == Parsed(r);
    }
  }

  /** Decoding the rest of an encoding, started from the same previous path,
      appends exactly the encoded records. */
  lemma {:induction false} DecodeEncodeFrom(prev: string, done: seq<EntryInfo>, rs: seq<EntryInfo>)
    requires forall i :: 0 <= i < |rs| ==> Encodable(rs[i])
    ensures DecodeFrom(prev, done, EncodeFrom(prev, rs)) == Success(done + rs)
    decreases rs
  {
    if rs == [] {
      assert done + rs == done;
    } else {
      var line := EncodeLine(prev, rs[0]);
      var rest := EncodeFrom(rs[0].path, rs[1..]);
      assert EncodeFrom(prev, rs) == [line] + rest;
      LineRoundTrip(prev, rs[0]);
      DecodeParsedLine(prev, done, line, rest, rs[0]);
      DecodeEncodeFrom(rs[0].path, done + [rs[0]], rs[1..]);
      AppendHead(done, rs);
    }
  }

  lemma AppendHead(done: seq<EntryInfo>, rs: seq<EntryInfo>)
    requires rs != []
    ensures done + [rs[0]] + rs[1..] == done + rs
  {
    assert rs == [rs[0]] + rs[1..];
  }

  /** A line that parses to `r` appends `r` and moves `prev` to its path. */
  lemma DecodeParsedLine(prev: string, done: seq<EntryInfo>, line: string, rest: seq<string>, r: EntryInfo)
    requires ParseLine(prev, line) == Parsed(r)
    ensures DecodeFrom(prev, done, [line] + rest) == DecodeFrom(r.path, done + [r], rest)
  {
    assert ([line] + rest)[0] == line;
    assert ([line] + rest)[1..] == rest;
  }

  /** Round trip: `parse` of the lines the encode loop prints, in any order of
      the records, gives the snapshot that inserting the records one by one
      gives. */
  lemma RoundTrip(rs: seq<EntryInfo>)
    requires forall i :: 0 <= i < |rs| ==> Encodable(rs[i])
    ensures DecodeRecords(Encode(rs)) == Success(rs)
    ensures Decode(Encode(rs)) == Success(ToMap(rs))
  {
    DecodeEncodeFrom("", [], rs);
    assert [] + rs == rs;
  }

  /** No two records share a path. */
  ghost predicate DistinctPaths(rs: seq<EntryInfo>)
  {
    forall i, j :: 0 <= i < j < |rs| ==> rs[i].path != rs[j].path
  }

  /** Round trip for records with distinct paths: the decoded snapshot holds
      exactly those records, each under its own path. */
  lemma RoundTripDistinct(rs: seq<EntryInfo>)
    requires forall i :: 0 <= i < |rs| ==> Encodable(rs[i])
    requires DistinctPaths(rs)
    ensures Decode(Encode(rs)).Success?
    ensures var m := Decode(Encode(rs)).value;
      && m.Keys == (set r | r in rs :: r.path)
      && (forall i :: 0 <= i < |rs| ==> m[rs[i].path] == rs[i])
      && (forall k :: k in m ==> m[k] in rs)
  {
    RoundTrip(rs);
    ToMapContents(rs);
  }

  /** The sorted records are the scanned ones, one per entry. */
  lemma SortedRecordsOf(entries: seq<ZipEntry>)
    ensures forall x :: x in SortByPath(Records(entries)) <==>
      exists j :: 0 <= j < |entries| && x == Record(entries[j])
  {
    SortKeepsElements(Records(entries));
    RecordsElements(entries);
  }

  /** Sorting neither adds nor drops a record. */
  lemma SortKeepsElements(rs: seq<EntryInfo>)
    ensures forall x :: x in SortByPath(rs) <==> x in rs
  {
    var sorted := SortByPath(rs);
    forall x
      ensures x in sorted <==> x in rs
    {
      assert x in sorted <==> x in multiset(sorted);
      assert x in rs <==> x in multiset(rs);
    }
  }

  /** The scanned records are the records of the entries. */
  lemma RecordsElements(entries: seq<ZipEntry>)
    ensures forall x :: x in Records(entries) <==> exists j :: 0 <= j < |entries| && x == Record(entries[j])
  {
    var records := Records(entries);
    forall x | x in records
      ensures exists j :: 0 <= j < |entries| && x == Record(entries[j])
    {
      var j :| 0 <= j < |records| && records[j] == x;
      assert x == Record(entries[j]);
    }
  }

  /** Records scanned from entries with colon-free names can be encoded. */
  lemma SortedRecordsEncodable(entries: seq<ZipEntry>, sorted: seq<EntryInfo>)
    requires forall i :: 0 <= i < |entries| ==> ':' !in entries[i].name && |entries[i].name| <= IntMax
    requires forall x :: x in sorted <==> exists j :: 0 <= j < |entries| && x == Record(entries[j])
    ensures forall i :: 0 <= i < |sorted| ==> Encodable(sorted[i])
  {
    forall i | 0 <= i < |sorted|
      ensures Encodable(sorted[i])
    {
      assert sorted[i] in sorted;
      var j :| 0 <= j < |entries| && sorted[i] == Record(entries[j]);
      RecordFields(entries[j]);
    }
  }

  /** The records of the encoding that `analyze` prints all round-trip when no
      entry name holds a colon: the decoded snapshot has one key per entry name,
      and each key holds the record scanned from an entry of that name, the only
      one when names are distinct. */
  lemma AnalyzeRoundTrip(entries: seq<ZipEntry>)
    requires forall i :: 0 <= i < |entries| ==> ':' !in entries[i].name && |entries[i].name| <= IntMax
    ensures Decode(Encode(SortByPath(Records(entries)))).Success?
    ensures var m := Decode(Encode(SortByPath(Records(entries)))).value;
      && m.Keys == (set e | e in entries :: e.name)
      && (forall k :: k in m ==> exists i :: 0 <= i < |entries| && entries[i].name == k && m[k] == Record(entries[i]))
      && ((forall i, j :: 0 <= i < j < |entries| ==> entries[i].name != entries[j].name) ==>
           forall i :: 0 <= i < |entries| ==> m[entries[i].name] == Record(entries[i]))
  {
    var sorted := SortByPath(Records(entries));
    SortedRecordsOf(entries);
    SortedRecordsEncodable(entries, sorted);
    RoundTrip(sorted);
    SnapshotOfScan(entries, sorted);
  }

  /** The snapshot of any arrangement of the scanned records: one key per entry
      name, holding the record of an entry with that name. */
  lemma SnapshotOfScan(entries: seq<ZipEntry>, sorted: seq<EntryInfo>)
    requires forall x :: x in sorted <==> exists j :: 0 <= j < |entries| && x == Record(entries[j])
    ensures var m := ToMap(sorted);
      && m.Keys == (set e | e in entries :: e.name)
      && (forall k :: k in m ==> exists i :: 0 <= i < |entries| && entries[i].name == k && m[k] == Record(entries[i]))
      && ((forall i, j :: 0 <= i < j < |entries| ==> entries[i].name != entries[j].name) ==>
           forall i :: 0 <= i < |entries| ==> m[entries[i].name] == Record(entries[i]))
  {
    ScanKeys(entries, sorted);
    ScanValues(entries, sorted);
    if forall i, j :: 0 <= i < j < |entries| ==> entries[i].name != entries[j].name {
      ScanDistinct(entries, sorted);
    }
  }

  /** The snapshot's keys are the entry names. */
  lemma ScanKeys(entries: seq<ZipEntry>, sorted: seq<EntryInfo>)
    requires forall x :: x in sorted <==> exists j :: 0 <= j < |entries| && x == Record(entries[j])
    ensures ToMap(sorted).Keys == (set e | e in entries :: e.name)
  {
    ToMapKeys(sorted);
    forall e | e in entries
      ensures e.name in ToMap(sorted)
    {
      var j :| 0 <= j < |entries| && entries[j] == e;
      assert Record(e) in sorted;
    }
  }

  /** Each key holds the record of an entry with that name. */
  lemma ScanValues(entries: seq<ZipEntry>, sorted: seq<EntryInfo>)
    requires forall x :: x in sorted <==> exists j :: 0 <= j < |entries| && x == Record(entries[j])
    ensures forall k :: k in ToMap(sorted) ==>
      exists i :: 0 <= i < |entries| && entries[i].name == k && ToMap(sorted)[k] == Record(entries[i])
  {
    ToMapValues(sorted);
    var m := ToMap(sorted);
    forall k | k in m
      ensures exists i :: 0 <= i < |entries| && entries[i].name == k && m[k] == Record(entries[i])
    {
      assert m[k] in sorted;
    }
  }

  /** With distinct names, each name holds its own entry's record. */
  lemma ScanDistinct(entries: seq<ZipEntry>, sorted: seq<EntryInfo>)
    requires forall x :: x in sorted <==> exists j :: 0 <= j < |entries| && x == Record(entries[j])
    requires forall i, j :: 0 <= i < j < |entries| ==> entries[i].name != entries[j].name
    ensures forall i :: 0 <= i < |entries| ==>
      entries[i].name in ToMap(sorted) && ToMap(sorted)[entries[i].name] == Record(entries[i])
  {
    ScanKeys(entries, sorted);
    ScanValues(entries, sorted);
    var m := ToMap(sorted);
    forall i | 0 <= i < |entries|
      ensures entries[i].name in m && m[entries[i].name] == Record(entries[i])
    {
      assert entries[i] in entries;
      var k :| 0 <= k < |entries| && entries[k].name == entries[i].name && m[entries[i].name] == Record(entries[k]);
      assert k == i;
    }
  }

  // ---------------------------------------------------------------------------
  // The line rules of `parse`
  // ---------------------------------------------------------------------------

  /** Blank lines are skipped wherever they stand. */
  lemma {:induction false} DecodeSkipsBlank(prev: string, done: seq<EntryInfo>, a: seq<string>, blank: string, b: seq<string>)
    requires IsBlank(blank)
    ensures DecodeFrom(prev, done, a + [blank] + b) == DecodeFrom(prev, done, a + b)
    decreases |a|
  {
    if a == [] {
      assert a + [blank] + b == [blank] + b && ([blank] + b)[1..] == b && a + b == b;
    } else {
      assert (a + [blank] + b)[0] == a[0] && (a + [blank] + b)[1..] == a[1..] + [blank] + b;
      assert (a + b)[0] == a[0] && (a + b)[1..] == a[1..] + b;
      match ParseLine(prev, a[0])
      case Blank => DecodeSkipsBlank(prev, done, a[1..], blank, b);
      case Parsed(e) => DecodeSkipsBlank(e.path, done + [e], a[1..], blank, b);
      case Malformed(_) =>
    }
  }

  /** Three fields: no prefix, and the metadata defaults to "". */
  lemma ParseThreeFields(prev: string, suffix: string, methodSymbol: string, hash: string)
    requires ':' !in suffix && ':' !in methodSymbol && ':' !in hash
    ensures ParseLine(prev, suffix + ":" + methodSymbol + ":" + hash)
         == Parsed(EntryInfo(suffix, methodSymbol, hash, ""))
  {
    var parts := [suffix, methodSymbol, hash];
    var line := Join(parts, ':');
    JoinThree(suffix, methodSymbol, hash);
    SplitJoin(parts, ':', 5);
    SeparatedNotBlank(parts);
    assert ParseLine(prev, line) == ParseFields(prev, parts);
    assert prev[..0] + suffix == suffix;
  }

  lemma JoinThree(a: string, b: string, c: string)
    ensures Join([a, b, c], ':') == a + ":" + b + ":" + c
  {
    JoinCons(a, [b, c], ':');
    JoinCons(b, [c], ':');
  }

  /** Four fields: no prefix, the path is the first field as it stands. */
  lemma ParseFourFields(prev: string, suffix: string, methodSymbol: string, hash: string, metadata: string)
    requires ':' !in suffix && ':' !in methodSymbol && ':' !in hash && ':' !in metadata
    ensures ParseLine(prev, suffix + ":" + methodSymbol + ":" + hash + ":" + metadata)
         == Parsed(EntryInfo(suffix, methodSymbol, hash, metadata))
  {
    var parts := [suffix, methodSymbol, hash, metadata];
    var line := Join(parts, ':');
    JoinFour(suffix, methodSymbol, hash, metadata);
    SplitJoin(parts, ':', 5);
    SeparatedNotBlank(parts);
    assert ParseLine(prev, line) == ParseFields(prev, parts);
    assert prev[..0] + suffix == suffix;
  }

  /** Five fields: the first is the decimal prefix length, which must parse and
      must not exceed the previous path; the path is that much of the previous
      path followed by the suffix, and the last field keeps any further colons. */
  lemma ParseFiveFields(prev: string, prefix: string, suffix: string, methodSymbol: string, hash: string, metadata: string)
    requires ':' !in prefix && ':' !in suffix && ':' !in methodSymbol && ':' !in hash
    ensures var line := prefix + ":" + suffix + ":" + methodSymbol + ":" + hash + ":" + metadata;
      ParseLine(prev, line) ==
        match ParseInt(prefix)
        case None => Malformed(BadPrefix(prefix))
        case Some(n) =>
          if 0 <= n <= |prev| then Parsed(EntryInfo(prev[..n] + suffix, methodSymbol, hash, metadata))
          else Malformed(PrefixOutOfRange(n, |prev|))
  {
    var parts := [prefix, suffix, methodSymbol, hash, metadata];
    var line := prefix + ":" + suffix + ":" + methodSymbol + ":" + hash + ":" + metadata;
    JoinFive(prefix, suffix, methodSymbol, hash, metadata);
    SplitJoin(parts, ':', 5);
    SeparatedNotBlank(parts);
    ParseLineCases(prev, line);
    FiveFieldsResult(prev, parts);
  }

  /** How five fields parse, once split. */
  lemma FiveFieldsResult(prev: string, parts: seq<string>)
    requires |parts| == 5
    ensures ParseFields(prev, parts) ==
      match ParseInt(parts[0])
      case None => Malformed(BadPrefix(parts[0]))
      case Some(n) =>
        if 0 <= n <= |prev| then Parsed(EntryInfo(prev[..n] + parts[1], parts[2], parts[3], parts[4]))
        else Malformed(PrefixOutOfRange(n, |prev|))
  {
  }

  /** The text of five colon-separated fields. */
  lemma JoinFive(a: string, b: string, c: string, d: string, e: string)
    ensures Join([a, b, c, d, e], ':') == a + ":" + b + ":" + c + ":" + d + ":" + e
  {
    JoinCons(a, [b, c, d, e], ':');
    JoinCons(b, [c, d, e], ':');
    JoinCons(c, [d, e], ':');
    JoinCons(d, [e], ':');
  }

  /** Why the round trip needs colon-free paths: a member named `a:b` is printed
      as `a:b:S::`, whose five fields make `parse` read `a` as the prefix length
      and fail. */
  lemma ColonInPathBreaksParse()
    ensures ParseLine("", EncodeLine("", EntryInfo("a:b", "S", "", ""))) == Malformed(BadPrefix("a"))
  {
    assert EncodeLine("", EntryInfo("a:b", "S", "", "")) == "a" + ":" + "b" + ":" + "S" + ":" + "" + ":" + "";
    ParseFiveFields("", "a", "b", "S", "", "");
    assert ParseInt("a") == None;
  }

  /** A non-blank line with at most one colon has too few fields. */
  lemma ParseTooFewFields(prev: string, parts: seq<string>)
    requires 1 <= |parts| <= 2 && forall i :: 0 <= i < |parts| ==> ':' !in parts[i]
    requires !IsBlank(Join(parts, ':'))
    ensures ParseLine(prev, Join(parts, ':')) == Malformed(MissingFields(|parts|))
  {
    SplitJoin(parts, ':', 5);
    assert ParseLine(prev, Join(parts, ':')) == ParseFields(prev, parts);
  }

  // ---------------------------------------------------------------------------
  // The encoding of a sorted snapshot is canonical
  // ---------------------------------------------------------------------------

  /** The paths of the records, in order. */
  function Paths(rs: seq<EntryInfo>): (ps: seq<string>)
    ensures |ps| == |rs| && forall i :: 0 <= i < |rs| ==> ps[i] == rs[i].path
  {
    seq(|rs|, i requires 0 <= i < |rs| => rs[i].path)
  }

  /** Strictly ascending paths are distinct. */
  lemma AscendingDistinct(rs: seq<EntryInfo>)
    requires StrictlyAscending(Paths(rs))
    ensures DistinctPaths(rs)
  {
    forall i, j | 0 <= i < j < |rs| ensures rs[i].path != rs[j].path {
      assert Less(Paths(rs)[i], Paths(rs)[j]);
      LessIrreflexive(rs[i].path);
    }
  }

  /** The paths of records are the keys of their snapshot. */
  lemma PathsAreKeys(rs: seq<EntryInfo>)
    ensures forall p :: p in Paths(rs) <==> p in ToMap(rs)
  {
    ToMapContents(rs);
    forall p
      ensures p in Paths(rs) <==> p in ToMap(rs)
    {
      if p in Paths(rs) {
        var i :| 0 <= i < |rs| && Paths(rs)[i] == p;
        assert rs[i] in rs;
      }
    }
  }

  /** Two path-sorted record lists with distinct paths that decode to the same
      snapshot have the same encoding: the printed text of a snapshot is
      determined by its contents, so decoding and re-encoding in sorted order
      reproduces it line for line. */
  lemma CanonicalEncoding(rs: seq<EntryInfo>, ts: seq<EntryInfo>)
    requires forall i :: 0 <= i < |rs| ==> Encodable(rs[i])
    requires forall i :: 0 <= i < |ts| ==> Encodable(ts[i])
    requires StrictlyAscending(Paths(rs)) && StrictlyAscending(Paths(ts))
    requires Decode(Encode(rs)) == Decode(Encode(ts))
    ensures Encode(rs) == Encode(ts)
  {
    RoundTrip(rs);
    RoundTrip(ts);
    var m := ToMap(rs);
    assert m == ToMap(ts);
    AscendingDistinct(rs);
    AscendingDistinct(ts);
    PathsAreKeys(rs);
    PathsAreKeys(ts);
    AscendingUnique(Paths(rs), Paths(ts));
    ToMapContents(rs);
    ToMapContents(ts);
    forall i | 0 <= i < |rs| ensures rs[i] == ts[i] {
      assert rs[i].path == Paths(rs)[i] == Paths(ts)[i] == ts[i].path;
      assert m[rs[i].path] == rs[i] && m[ts[i].path] == ts[i];
    }
    assert rs == ts;
  }
}
