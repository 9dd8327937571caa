/** The per-member records of the archive scanner: `EntryInfo`, how one is built
    from a zip entry, the scan over all entries and the sort by path that
    precedes encoding. */
module Entries {
  import opened JavaText
  import opened Hex

  /** `EntryInfo` (PluginDiff.java:13): one archive member as the encoding
      records it. `methodSymbol` (the source's `method`) is "S" or "D", `hash`
      the hexadecimal content digest ("" for a directory), `metadata` the
      hexadecimal extra field ("" if none). */
  datatype EntryInfo = EntryInfo(path: string, methodSymbol: string, hash: string, metadata: string)

  /** `ZipEntry.STORED`, the storage method of an uncompressed member. */
  const Stored: int := 0

  /** The parts of a `java.util.zip.ZipEntry` that the scan reads. `storageMethod`
      is the declared storage method, `extra` the extra field (`None` for a null
      one), and `digest` stands for the SHA-256 digest of the member's
      uncompressed content, which the scan computes only for files. */
  datatype ZipEntry = ZipEntry(name: string, storageMethod: int, extra: Option<seq<JByte>>, digest: seq<JByte>)

  /** `ZipEntry.isDirectory()`: the name ends with a slash. */
  predicate IsDirectory(e: ZipEntry)
    ensures IsDirectory(e) <==> |e.name| > 0 && e.name == e.name[..|e.name| - 1] + "/"
  {
    |e.name| > 0 && e.name[|e.name| - 1] == '/'
  }

  /** The method symbol: "S" for a stored member, "D" for every other method. */
  function MethodSymbol(storageMethod: int): (symbol: string)
    ensures symbol == "S" || symbol == "D"
    ensures symbol == "S" <==> storageMethod == Stored
  {
    if storageMethod == Stored then "S" else "D"
  }

  /** The record the scan makes for one entry. */
  function Record(e: ZipEntry): (r: EntryInfo)
    ensures r.path == e.name
    ensures r.methodSymbol == MethodSymbol(e.storageMethod)
    ensures IsDirectory(e) ==> r.hash == ""
    ensures e.extra.None? ==> r.metadata == ""
  {
    EntryInfo(
      e.name,
      MethodSymbol(e.storageMethod),
      if IsDirectory(e) then "" else ToHex(e.digest),
      match e.extra
      case None => ""
      case Some(bytes) => ToHex(bytes))
  }

  /** What a record says about its entry: the path is the name, the method
      symbol tells stored from compressed members, a directory has no hash, a
      file's hash and a present extra field can be read back to their bytes, and
      neither hash nor metadata can hold the field separator. */
  lemma RecordFields(e: ZipEntry)
    ensures Record(e).path == e.name
    ensures Record(e).methodSymbol in {"S", "D"}
    ensures Record(e).methodSymbol == "S" <==> e.storageMethod == Stored
    ensures IsHex(Record(e).hash) && IsHex(Record(e).metadata)
    ensures ':' !in Record(e).hash && ':' !in Record(e).metadata
    ensures IsDirectory(e) ==> Record(e).hash == ""
    ensures !IsDirectory(e) ==> |Record(e).hash| == 2 * |e.digest| && FromHex(Record(e).hash) == e.digest
    ensures e.extra.None? ==> Record(e).metadata == ""
    ensures e.extra.Some? ==> FromHex(Record(e).metadata) == e.extra.value
  {
    var r := Record(e);
    HexHasNoColon(r.hash);
    HexHasNoColon(r.metadata);
    FromToHex(e.digest);
    if e.extra.Some? {
      FromToHex(e.extra.value);
    }
  }

  /** The body of the per-entry lambda (PluginDiff.java:55-65): the hash starts
      empty and is set from the digest for a file; the method and metadata are
      chosen as the record is added. */
  method BuildRecord(e: ZipEntry) returns (info: EntryInfo)
    ensures info == Record(e)
  {
    var hash := "";
    if !IsDirectory(e) {
      hash := BytesToHex(e.digest);
    }
    var symbol := if e.storageMethod == Stored then "S" else "D";
    var metadata := "";
    if e.extra.Some? {
      metadata := BytesToHex(e.extra.value);
    }
    info := EntryInfo(e.name, symbol, hash, metadata);
  }

  /** The records of all entries, in the archive's order. */
  function Records(entries: seq<ZipEntry>): (rs: seq<EntryInfo>)
    ensures |rs| == |entries|
    ensures forall i :: 0 <= i < |entries| ==> rs[i] == Record(entries[i])
  {
    seq(|entries|, i requires 0 <= i < |entries| => Record(entries[i]))
  }

  /** The scan of `zip.stream().forEach(...)` (PluginDiff.java:54-66): one record
      per entry, appended in stream order. */
  method ScanEntries(entries: seq<ZipEntry>) returns (infos: seq<EntryInfo>)
    ensures infos == Records(entries)
  {
    infos := [];
    for i := 0 to |entries|
      invariant infos == Records(entries[..i])
    {
      var info := BuildRecord(entries[i]);
      infos := infos + [info];
    }
    assert entries[..|entries|] == entries;
  }

  // ---------------------------------------------------------------------------
  // entryInfos.sort(Comparator.comparing(EntryInfo::path))
  // ---------------------------------------------------------------------------

  /** Paths in non-decreasing lexicographic order. */
  ghost predicate SortedByPath(rs: seq<EntryInfo>)
  {
    forall i, j :: 0 <= i < j < |rs| ==> !Less(rs[j].path, rs[i].path)
  }

  /** Inserts `x` after every record whose path does not sort after its own. */
  function InsertByPath(x: EntryInfo, s: seq<EntryInfo>): (r: seq<EntryInfo>)
    ensures multiset(r) == multiset(s) + multiset{x}
    ensures SortedByPath(s) ==> SortedByPath(r)
  {
    if s == [] then [x]
    else if Less(x.path, s[0].path) then
      InsertedFirst(x, s);
      [x] + s
    else
      var r := [s[0]] + InsertByPath(x, s[1..]);
      assert s == [s[0]] + s[1..];
      InsertedLater(x, s, r);
      r
  }

  lemma InsertedFirst(x: EntryInfo, s: seq<EntryInfo>)
    requires s != [] && Less(x.path, s[0].path)
    ensures SortedByPath(s) ==> SortedByPath([x] + s)
  {
    if SortedByPath(s) {
      var r := [x] + s;
      forall i, j | 0 <= i < j < |r|
        ensures !Less(r[j].path, r[i].path)
      {
        if i == 0 {
          var y := s[j - 1].path;
          if y != s[0].path {
            LessTotal(y, s[0].path);
            LessTransitive(x.path, s[0].path, y);
          }
          LessAsymmetric(x.path, y);
        }
      }
    }
  }

  lemma InsertedLater(x: EntryInfo, s: seq<EntryInfo>, r: seq<EntryInfo>)
    requires s != [] && !Less(x.path, s[0].path)
    requires |r| >= 1 && r[0] == s[0] && multiset(r[1..]) == multiset(s[1..]) + multiset{x}
    requires SortedByPath(s[1..]) ==> SortedByPath(r[1..])
    ensures SortedByPath(s) ==> SortedByPath(r)
  {
    if SortedByPath(s) {
      assert SortedByPath(s[1..]) by {
        forall i, j | 0 <= i < j < |s[1..]|
          ensures !Less(s[1..][j].path, s[1..][i].path)
        {
          assert s[1..][i] == s[i + 1] && s[1..][j] == s[j + 1];
        }
      }
      forall i, j | 0 <= i < j < |r|
        ensures !Less(r[j].path, r[i].path)
      {
        if i == 0 {
          assert r[0] == s[0];
          var y := r[j];
          assert y in multiset(r[1..]) by {
            assert r[1..][j - 1] == y;
          }
          if y != x {
            assert y in multiset(s[1..]);
            var k :| 0 <= k < |s[1..]| && s[1..][k] == y;
            assert s[k + 1] == y;
          }
        } else {
          assert r[i] == r[1..][i - 1] && r[j] == r[1..][j - 1];
        }
      }
    }
  }

  /** `entryInfos.sort(Comparator.comparing(EntryInfo::path))`
      (PluginDiff.java:71): the records in path order, a permutation of the
      input. The list sort is stable, and so is this insertion sort, which puts
      each record after the earlier ones with the same path. */
  function SortByPath(rs: seq<EntryInfo>): (sorted: seq<EntryInfo>)
    ensures SortedByPath(sorted)
    ensures multiset(sorted) == multiset(rs)
  {
    if rs == [] then []
    else
      assert rs == rs[..|rs| - 1] + [rs[|rs| - 1]];
      InsertByPath(rs[|rs| - 1], SortByPath(rs[..|rs| - 1]))
  }
}
