/** The comparison of two snapshots: the classification loop of `compare`
    (PluginDiff.java:90-111), which walks the sorted union of both key sets and
    files each path under at most one of four headings. */
module Differ {
  import opened JavaText
  import opened Entries
  import opened Codec
  import opened Hex

  /** A snapshot: the map `parse` returns, keyed by path. */
  type Snapshot = map<string, EntryInfo>

  /** Where the loop files a path of the union. */
  datatype Verdict = OnlyInFirst | OnlyInSecond | ContentDiffers | MetadataDiffers | NoDifference

  /** The loop body's decision for one path (PluginDiff.java:103-110). A content
      difference is reported only when the storage methods differ while the hashes
      agree; a changed hash under an unchanged method is not checked for. */
  function Classify(m1: Snapshot, m2: Snapshot, p: string): (v: Verdict)
    ensures v == OnlyInSecond <==> p !in m1
    ensures v == OnlyInFirst <==> p in m1 && p !in m2
    ensures v == ContentDiffers <==>
      p in m1 && p in m2 && m1[p].methodSymbol != m2[p].methodSymbol && m1[p].hash == m2[p].hash
    ensures v == MetadataDiffers <==>
      && p in m1 && p in m2 && m1[p].metadata != m2[p].metadata
      && (m1[p].methodSymbol == m2[p].methodSymbol || m1[p].hash != m2[p].hash)
    ensures v == NoDifference <==>
      && p in m1 && p in m2 && m1[p].metadata == m2[p].metadata
      && (m1[p].methodSymbol == m2[p].methodSymbol || m1[p].hash != m2[p].hash)
  {
    if p !in m1 then OnlyInSecond
    else if p !in m2 then OnlyInFirst
    else if m1[p].methodSymbol != m2[p].methodSymbol && m1[p].hash == m2[p].hash then ContentDiffers
    else if m1[p].metadata != m2[p].metadata then MetadataDiffers
    else NoDifference
  }

  /** The four lists `compare` fills: `only1`, `only2`, `diffContent` and
      `diffMeta`. */
  datatype Report = Report(onlyInFirst: seq<string>, onlyInSecond: seq<string>,
                           contentDiffering: seq<string>, metadataDiffering: seq<string>)

  /** `list` holds, in ascending order, exactly the paths of `dom` that get
      verdict `v`. */
  ghost predicate ListsVerdict(m1: Snapshot, m2: Snapshot, list: seq<string>, v: Verdict, dom: set<string>)
  {
    && StrictlyAscending(list)
    && forall p :: p in list <==> p in dom && Classify(m1, m2, p) == v
  }

  /** The lists of `rep` file exactly the paths of `dom`, each under its verdict,
      in ascending order. */
  ghost predicate FiledOver(m1: Snapshot, m2: Snapshot, rep: Report, dom: set<string>)
  {
    && ListsVerdict(m1, m2, rep.onlyInFirst, OnlyInFirst, dom)
    && ListsVerdict(m1, m2, rep.onlyInSecond, OnlyInSecond, dom)
    && ListsVerdict(m1, m2, rep.contentDiffering, ContentDiffers, dom)
    && ListsVerdict(m1, m2, rep.metadataDiffering, MetadataDiffers, dom)
  }

  /** `rep` is the report of comparing `m1` with `m2`: each list is the
      ascending sequence of the union's paths with its verdict. */
  ghost predicate IsReportOf(m1: Snapshot, m2: Snapshot, rep: Report)
  {
    FiledOver(m1, m2, rep, m1.Keys + m2.Keys)
  }

  /** One step of the loop on one list: visiting `p`, which sorts after every
      path already visited, appends it exactly when its verdict is the list's. */
  lemma VisitNext(m1: Snapshot, m2: Snapshot, list: seq<string>, v: Verdict, seen: set<string>, p: string)
    requires ListsVerdict(m1, m2, list, v, seen)
    requires forall x :: x in seen ==> Less(x, p)
    ensures ListsVerdict(m1, m2, if Classify(m1, m2, p) == v then list + [p] else list, v, seen + {p})
  {
    LessIrreflexive(p);
    if Classify(m1, m2, p) == v {
      var r := list + [p];
      forall i, j | 0 <= i < j < |r|
        ensures Less(r[i], r[j])
      {
        if j == |list| {
          assert r[i] == list[i] && list[i] in seen;
        } else {
          assert r[i] == list[i] && r[j] == list[j];
        }
      }
    }
  }

  /** The loop body for one path (PluginDiff.java:103-110): the path goes to the
      list of its verdict, and no other list changes. */
  method Visit(m1: Snapshot, m2: Snapshot, p: string,
               only1: seq<string>, only2: seq<string>, diffContent: seq<string>, diffMeta: seq<string>)
    returns (only1': seq<string>, only2': seq<string>, diffContent': seq<string>, diffMeta': seq<string>)
    ensures only1' == if Classify(m1, m2, p) == OnlyInFirst then only1 + [p] else only1
    ensures only2' == if Classify(m1, m2, p) == OnlyInSecond then only2 + [p] else only2
    ensures diffContent' == if Classify(m1, m2, p) == ContentDiffers then diffContent + [p] else diffContent
    ensures diffMeta' == if Classify(m1, m2, p) == MetadataDiffers then diffMeta + [p] else diffMeta
  {
    only1', only2', diffContent', diffMeta' := only1, only2, diffContent, diffMeta;
    var e1 := if p in m1 then Some(m1[p]) else None;
    var e2 := if p in m2 then Some(m2[p]) else None;
    if e1.None? {
      only2' := only2 + [p];
    } else if e2.None? {
      only1' := only1 + [p];
    } else if e1.value.methodSymbol != e2.value.methodSymbol && e1.value.hash == e2.value.hash {
      diffContent' := diffContent + [p];
    } else if e1.value.metadata != e2.value.metadata {
      diffMeta' := diffMeta + [p];
    }
  }

  /** The paths visited before position `i` of an ascending sequence all sort
      before the path at `i`. */
  lemma VisitedBefore(all: seq<string>, i: nat, seen: set<string>)
    requires StrictlyAscending(all) && i < |all|
    requires forall x :: x in seen <==> exists j :: 0 <= j < i && all[j] == x
    ensures forall x :: x in seen ==> Less(x, all[i])
  {
  }

  /** Visiting the path at `i` extends the visited set to the first `i + 1`. */
  lemma SeenNext(all: seq<string>, i: nat, seen: set<string>)
    requires i < |all|
    requires forall x :: x in seen <==> exists j :: 0 <= j < i && all[j] == x
    ensures forall x :: x in seen + {all[i]} <==> exists j :: 0 <= j < i + 1 && all[j] == x
  {
  }

  /** One step of the loop on all four lists. */
  lemma VisitKeepsFiled(m1: Snapshot, m2: Snapshot, rep: Report, next: Report, seen: set<string>, p: string)
    requires FiledOver(m1, m2, rep, seen)
    requires forall x :: x in seen ==> Less(x, p)
    requires var v := Classify(m1, m2, p);
      && next.onlyInFirst == (if v == OnlyInFirst then rep.onlyInFirst + [p] else rep.onlyInFirst)
      && next.onlyInSecond == (if v == OnlyInSecond then rep.onlyInSecond + [p] else rep.onlyInSecond)
      && next.contentDiffering == (if v == ContentDiffers then rep.contentDiffering + [p] else rep.contentDiffering)
      && next.metadataDiffering == (if v == MetadataDiffers then rep.metadataDiffering + [p] else rep.metadataDiffering)
    ensures FiledOver(m1, m2, next, seen + {p})
  {
    VisitNext(m1, m2, rep.onlyInFirst, OnlyInFirst, seen, p);
    VisitNext(m1, m2, rep.onlyInSecond, OnlyInSecond, seen, p);
    VisitNext(m1, m2, rep.contentDiffering, ContentDiffers, seen, p);
    VisitNext(m1, m2, rep.metadataDiffering, MetadataDiffers, seen, p);
  }

  /** Once every path of the union is visited, the lists are the report. */
  lemma FiledAll(m1: Snapshot, m2: Snapshot, rep: Report, seen: set<string>)
    requires FiledOver(m1, m2, rep, seen)
    requires forall x :: x in seen <==> x in m1.Keys + m2.Keys
    ensures IsReportOf(m1, m2, rep)
  {
  }

  /** `compare`'s loop (PluginDiff.java:93-111): the `TreeSet` of both key sets
      is iterated in ascending order; `map.get` returning `null` is a path
      missing from that map. */
  method Compare(m1: Snapshot, m2: Snapshot) returns (rep: Report)
    ensures IsReportOf(m1, m2, rep)
  {
    var all := AscendingElements(m1.Keys + m2.Keys);
    var only1: seq<string> := [];
    var only2: seq<string> := [];
    var diffContent: seq<string> := [];
    var diffMeta: seq<string> := [];
    ghost var seen: set<string> := {};
    for i := 0 to |all|
      invariant forall x :: x in seen <==> exists j :: 0 <= j < i && all[j] == x
      invariant FiledOver(m1, m2, Report(only1, only2, diffContent, diffMeta), seen)
    {
      var p := all[i];
      VisitedBefore(all, i, seen);
      var next1, next2, nextContent, nextMeta := Visit(m1, m2, p, only1, only2, diffContent, diffMeta);
      VisitKeepsFiled(m1, m2, Report(only1, only2, diffContent, diffMeta),
                      Report(next1, next2, nextContent, nextMeta), seen, p);
      only1, only2, diffContent, diffMeta := next1, next2, nextContent, nextMeta;
      SeenNext(all, i, seen);
      seen := seen + {p};
    }
    rep := Report(only1, only2, diffContent, diffMeta);
    FiledAll(m1, m2, rep, seen);
  }

  /** Compares two files: both are parsed (PluginDiff.java:91-92), and a file that
      does not parse aborts the comparison with its error before anything is
      compared; the second file is read only once the first has parsed. */
  method CompareSnapshots(lines1: seq<string>, lines2: seq<string>) returns (r: Result<Report>)
    ensures Decode(lines1).Failure? ==> r == Failure(Decode(lines1).error)
    ensures Decode(lines1).Success? && Decode(lines2).Failure? ==> r == Failure(Decode(lines2).error)
    ensures Decode(lines1).Success? && Decode(lines2).Success? ==>
      r.Success? && IsReportOf(Decode(lines1).value, Decode(lines2).value, r.value)
  {
    var map1 := Parse(lines1);
    if map1.Failure? {
      return Failure(map1.error);
    }
    var map2 := Parse(lines2);
    if map2.Failure? {
      return Failure(map2.error);
    }
    var rep := Compare(map1.value, map2.value);
    return Success(rep);
  }

  // ---------------------------------------------------------------------------
  // What a report says
  // ---------------------------------------------------------------------------

  /** The list a verdict files a path under; `NoDifference` has none. */
  function Listed(rep: Report, v: Verdict): seq<string>
  {
    match v
    case OnlyInFirst => rep.onlyInFirst
    case OnlyInSecond => rep.onlyInSecond
    case ContentDiffers => rep.contentDiffering
    case MetadataDiffers => rep.metadataDiffering
    case NoDifference => []
  }

  /** The report path by path: the "only" lists are the two differences of the
      key sets; a path of both snapshots is content-differing exactly when the
      methods differ and the hashes agree, and otherwise metadata-differing
      exactly when the metadata differ. */
  lemma ReportContents(m1: Snapshot, m2: Snapshot, rep: Report)
    requires IsReportOf(m1, m2, rep)
    ensures forall p :: p in rep.onlyInFirst <==> p in m1 && p !in m2
    ensures forall p :: p in rep.onlyInSecond <==> p !in m1 && p in m2
    ensures forall p :: p in rep.contentDiffering <==>
      p in m1 && p in m2 && m1[p].methodSymbol != m2[p].methodSymbol && m1[p].hash == m2[p].hash
    ensures forall p :: p in rep.metadataDiffering <==>
      && p in m1 && p in m2
      && !(m1[p].methodSymbol != m2[p].methodSymbol && m1[p].hash == m2[p].hash)
      && m1[p].metadata != m2[p].metadata
  {
  }

  /** Every listed path is in the union, and in exactly one list. */
  lemma ReportPartition(m1: Snapshot, m2: Snapshot, rep: Report)
    requires IsReportOf(m1, m2, rep)
    ensures forall p, v :: p in Listed(rep, v) ==> p in m1.Keys + m2.Keys && Classify(m1, m2, p) == v
    ensures forall p, v, w :: p in Listed(rep, v) && p in Listed(rep, w) ==> v == w
  {
  }

  /** The report is determined by the two snapshots: the lists are sets of paths
      in ascending order, so two reports of the same comparison are equal. */
  lemma ReportUnique(m1: Snapshot, m2: Snapshot, r1: Report, r2: Report)
    requires IsReportOf(m1, m2, r1) && IsReportOf(m1, m2, r2)
    ensures r1 == r2
  {
    AscendingUnique(r1.onlyInFirst, r2.onlyInFirst);
    AscendingUnique(r1.onlyInSecond, r2.onlyInSecond);
    AscendingUnique(r1.contentDiffering, r2.contentDiffering);
    AscendingUnique(r1.metadataDiffering, r2.metadataDiffering);
  }

  /** The report with no differences. */
  const NoDifferences := Report([], [], [], [])

  /** A list whose paths all get a verdict other than its own is empty. */
  lemma NothingListed(m1: Snapshot, m2: Snapshot, list: seq<string>, v: Verdict, dom: set<string>)
    requires ListsVerdict(m1, m2, list, v, dom)
    requires forall p :: p in dom ==> Classify(m1, m2, p) != v
    ensures list == []
  {
    if list != [] {
      HeadIn(list);
      assert false;
    }
  }

  /** Comparing a snapshot with itself reports no differences. */
  lemma CompareSelf(m: Snapshot, rep: Report)
    requires IsReportOf(m, m, rep)
    ensures rep == NoDifferences
  {
    var all := m.Keys + m.Keys;
    NothingListed(m, m, rep.onlyInFirst, OnlyInFirst, all);
    NothingListed(m, m, rep.onlyInSecond, OnlyInSecond, all);
    NothingListed(m, m, rep.contentDiffering, ContentDiffers, all);
    NothingListed(m, m, rep.metadataDiffering, MetadataDiffers, all);
  }

  /** The report of the comparison the other way round. */
  function Swapped(rep: Report): Report
  {
    Report(rep.onlyInSecond, rep.onlyInFirst, rep.contentDiffering, rep.metadataDiffering)
  }

  /** Swapping the snapshots swaps the "only" lists and keeps the other two:
      both tests of the loop body are symmetric in the two records. */
  lemma CompareSwap(m1: Snapshot, m2: Snapshot, rep: Report)
    requires IsReportOf(m1, m2, rep)
    ensures IsReportOf(m2, m1, Swapped(rep))
  {
    assert m2.Keys + m1.Keys == m1.Keys + m2.Keys;
  }

  /** The rule as written misses a content change under an unchanged method: a
      path whose method and metadata agree in both snapshots is listed nowhere,
      whatever its two hashes are. */
  lemma HashChangeUnreported(m1: Snapshot, m2: Snapshot, rep: Report, p: string)
    requires IsReportOf(m1, m2, rep)
    requires p in m1 && p in m2
    requires m1[p].methodSymbol == m2[p].methodSymbol && m1[p].metadata == m2[p].metadata
    ensures forall v :: p !in Listed(rep, v)
  {
  }

  /** The bytes of an entry's extra field, a missing field read as empty. */
  function ExtraBytes(e: ZipEntry): seq<JByte>
  {
    match e.extra
    case None => []
    case Some(bytes) => bytes
  }

  /** The verdict for two scanned entries of the same name, in terms of the
      archives: content-differing exactly when one member is stored and the other
      is not while both are directories or their digests agree; otherwise
      metadata-differing exactly when the extra-field bytes differ, so a missing
      extra field and an empty one are not told apart. */
  lemma ClassifyEntries(m1: Snapshot, m2: Snapshot, e1: ZipEntry, e2: ZipEntry)
    requires e1.name == e2.name
    requires e1.name in m1 && m1[e1.name] == Record(e1)
    requires e2.name in m2 && m2[e2.name] == Record(e2)
    ensures var recompressed :=
        (e1.storageMethod == Stored) != (e2.storageMethod == Stored) && (IsDirectory(e1) || e1.digest == e2.digest);
      && (Classify(m1, m2, e1.name) == ContentDiffers <==> recompressed)
      && (Classify(m1, m2, e1.name) == MetadataDiffers <==> !recompressed && ExtraBytes(e1) != ExtraBytes(e2))
  {
    ToHexInjective(e1.digest, e2.digest);
    ToHexInjective(ExtraBytes(e1), ExtraBytes(e2));
    assert Record(e1).metadata == ToHex(ExtraBytes(e1));
    assert Record(e2).metadata == ToHex(ExtraBytes(e2));
  }

  // ---------------------------------------------------------------------------
  // Worked examples
  // ---------------------------------------------------------------------------

  /** A one-path report is the one-element list under that path's verdict. */
  lemma SinglePathReport(m1: Snapshot, m2: Snapshot, p: string, rep: Report)
    requires m1.Keys + m2.Keys == {p}
    requires IsReportOf(m1, m2, rep)
    ensures var v := Classify(m1, m2, p);
      rep == Report(if v == OnlyInFirst then [p] else [], if v == OnlyInSecond then [p] else [],
                    if v == ContentDiffers then [p] else [], if v == MetadataDiffers then [p] else [])
  {
    var all := m1.Keys + m2.Keys;
    var expected := Report(
      if Classify(m1, m2, p) == OnlyInFirst then [p] else [],
      if Classify(m1, m2, p) == OnlyInSecond then [p] else [],
      if Classify(m1, m2, p) == ContentDiffers then [p] else [],
      if Classify(m1, m2, p) == MetadataDiffers then [p] else []);
    assert IsReportOf(m1, m2, expected);
    ReportUnique(m1, m2, rep, expected);
  }

  /** A recompressed member with an unchanged hash is content-differing. */
  lemma RecompressedExample(rep: Report)
    requires IsReportOf(map["x" := EntryInfo("x", "S", "0a1b", "")],
                        map["x" := EntryInfo("x", "D", "0a1b", "")], rep)
    ensures rep == Report([], [], ["x"], [])
  {
    SinglePathReport(map["x" := EntryInfo("x", "S", "0a1b", "")],
                     map["x" := EntryInfo("x", "D", "0a1b", "")], "x", rep);
  }

  /** Only the extra field changed: metadata-differing. */
  lemma MetadataExample(rep: Report)
    requires IsReportOf(map["x" := EntryInfo("x", "S", "0a1b", "")],
                        map["x" := EntryInfo("x", "S", "0a1b", "ab")], rep)
    ensures rep == Report([], [], [], ["x"])
  {
    SinglePathReport(map["x" := EntryInfo("x", "S", "0a1b", "")],
                     map["x" := EntryInfo("x", "S", "0a1b", "ab")], "x", rep);
  }

  /** A changed hash under the same method is reported nowhere. */
  lemma HashChangeExample(rep: Report)
    requires IsReportOf(map["y" := EntryInfo("y", "S", "01", "")],
                        map["y" := EntryInfo("y", "S", "02", "")], rep)
    ensures rep == NoDifferences
  {
    SinglePathReport(map["y" := EntryInfo("y", "S", "01", "")],
                     map["y" := EntryInfo("y", "S", "02", "")], "y", rep);
  }
}
