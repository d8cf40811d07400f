/** The relation audit: how many stickers fall in each parcel, which parcels and stickers need a
    manual check, and the report lines written to the log.

    Reading the two GeoJSON files and the ODK export is left to the caller: a sticker point is
    its `Detection` and `Sticker_number` properties, a parcel is its `parcelID`, the ODK records
    are their `SpatialID`s, and `contains(i, j)` is shapely's "parcel i contains sticker j". */
module RelationAudit {
  import opened Wrappers
  import opened Seqs
  import opened Text

  /** The two properties of a sticker point the audit reads. */
  datatype StickerPoint = StickerPoint(detection: string, stickerNumber: string)

  function Detections(points: seq<StickerPoint>): seq<string>
  {
    seq(|points|, j requires 0 <= j < |points| => points[j].detection)
  }

  function StickerValues(points: seq<StickerPoint>): seq<string>
  {
    seq(|points|, j requires 0 <= j < |points| => points[j].stickerNumber)
  }

  // ---------------------------------------------------------------------------------------
  // The tally

  /** The number of the first `n` stickers that parcel `i` contains. */
  function ContainedCount(i: nat, n: nat, contains: (nat, nat) -> bool): (c: nat)
    ensures c <= n
  {
    if n == 0 then 0 else ContainedCount(i, n - 1, contains) + (if contains(i, n - 1) then 1 else 0)
  }

  /** The number of the first `m` parcels that contain exactly one sticker. */
  function JoinCount(m: nat, nPoints: nat, contains: (nat, nat) -> bool): nat
  {
    if m == 0 then 0
    else JoinCount(m - 1, nPoints, contains) + (if ContainedCount(m - 1, nPoints, contains) == 1 then 1 else 0)
  }

  /** The first `m` parcels that do not contain exactly one sticker, in increasing order. */
  function Flagged(m: nat, nPoints: nat, contains: (nat, nat) -> bool): (r: seq<nat>)
    ensures forall k :: 0 <= k < |r| ==> r[k] < m && ContainedCount(r[k], nPoints, contains) != 1
    ensures forall a, b :: 0 <= a < b < |r| ==> r[a] < r[b]
  {
    if m == 0 then []
    else Flagged(m - 1, nPoints, contains) + (if ContainedCount(m - 1, nPoints, contains) != 1 then [m - 1] else [])
  }

  /** Every parcel without exactly one sticker is flagged. */
  lemma {:induction false} FlaggedComplete(m: nat, nPoints: nat, contains: (nat, nat) -> bool)
    ensures forall i :: 0 <= i < m && ContainedCount(i, nPoints, contains) != 1 ==> i in Flagged(m, nPoints, contains)
  {
    if m > 0 {
      FlaggedComplete(m - 1, nPoints, contains);
    }
  }

  /** Each parcel is either joined or flagged: `polys_to_join + len(polys_check_ids) == len(polys)`. */
  lemma {:induction false} TallyPartition(m: nat, nPoints: nat, contains: (nat, nat) -> bool)
    ensures JoinCount(m, nPoints, contains) + |Flagged(m, nPoints, contains)| == m
  {
    if m > 0 {
      TallyPartition(m - 1, nPoints, contains);
    }
  }

  /** The `parcelID`s of the flagged parcels. */
  function CheckIds(parcelIds: seq<int>, flagged: seq<nat>): seq<int>
    requires forall k :: 0 <= k < |flagged| ==> flagged[k] < |parcelIds|
  {
    seq(|flagged|, k requires 0 <= k < |flagged| => parcelIds[flagged[k]])
  }

  /** The sticker counts of the flagged parcels. */
  function PointCounts(flagged: seq<nat>, nPoints: nat, contains: (nat, nat) -> bool): seq<nat>
  {
    seq(|flagged|, k requires 0 <= k < |flagged| => ContainedCount(flagged[k], nPoints, contains))
  }

  // ---------------------------------------------------------------------------------------
  // The report

  /** One line of the log, by kind; `Wording` gives its text. */
  datatype LogLine =
    | Filename(rasterName: string)
    | ParcelsDetected(nParcels: nat)
    | StickersDetected(nStickers: nat)
    | OdkRecords(nRecords: nat)
    | ParcelsWithOneSticker(nJoined: nat)
    | NoDuplicates
    | Duplicates
    | NothingToCheck
    | ParcelsToCheck(nParcels: nat)
    | StickersToCheck(nStickers: nat)
    | PolygonCount(parcelId: int, count: nat)
    | SameAmount(nRecords: nat)
    | AmountMismatch(nDetected: nat, nRecords: nat)
    | IdsMatch
    | MissingFromOdk(nStickers: nat)
    | MissingFromDetections(nRecords: nat)

  /** The wording of each line as it is written to the log file. */
  function Wording(line: LogLine): string
  {
    match line
    case Filename(name) => "Filename: " + name
    case ParcelsDetected(n) => "Number of parcels detected: " + NatToString(n)
    case StickersDetected(n) => "Number of stickers detected: " + NatToString(n)
    case OdkRecords(n) => "Number of records in odk: " + NatToString(n)
    case ParcelsWithOneSticker(n) => "Number of parcels containing exactly 1 sticker: " + NatToString(n)
    case NoDuplicates => "No duplicate records in detected numbers"
    case Duplicates => "Duplicate records in detected numbers, needs to be checked"
    case NothingToCheck => "No parcels or stickers need to be checked"
    case ParcelsToCheck(n) => "Number of parcels that need to be checked: " + NatToString(n)
    case StickersToCheck(n) => "Number of stickers that need to be checked: " + NatToString(n)
    case PolygonCount(id, c) => "Polygon with parcelID " + IntToString(id) + " contains " + NatToString(c) + " stickers."
    case SameAmount(n) => "The same amount of records (" + NatToString(n) + ") were detected as in odk"
    case AmountMismatch(d, n) =>
      "Number of records detected (" + NatToString(d) + ") does not match with number of records in odk ("
      + NatToString(n) + ")"
    case IdsMatch => "ID-s match odk data, no check needed"
    case MissingFromOdk(n) => "Number of sticker id-s detected but missing from odk: " + NatToString(n)
    case MissingFromDetections(n) => "Number of is-s in odk but undetected: " + NatToString(n)
  }

  /** The log file's lines. */
  function Texts(log: seq<LogLine>): seq<string>
  {
    seq(|log|, k requires 0 <= k < |log| => Wording(log[k]))
  }

  /** The five summary lines every report starts with. */
  function HeaderLines(rasterName: string, nPolys: nat, nPoints: nat, nOdk: nat, toJoin: nat): seq<LogLine>
  {
    [Filename(rasterName), ParcelsDetected(nPolys), StickersDetected(nPoints), OdkRecords(nOdk), ParcelsWithOneSticker(toJoin)]
  }

  /** The duplicate test `len(sticker_values) == len(set(sticker_values))`. */
  function DuplicateLine(values: seq<string>): LogLine
  {
    if |values| == |Elements(values)| then NoDuplicates else Duplicates
  }

  function PolygonLines(ids: seq<int>, counts: seq<nat>): seq<LogLine>
    requires |ids| == |counts|
  {
    seq(|ids|, k requires 0 <= k < |ids| => PolygonCount(ids[k], counts[k]))
  }

  /** The lines about what needs a manual check. */
  function CheckLines(checkIds: seq<int>, counts: seq<nat>, pointsToCheck: nat): seq<LogLine>
    requires |checkIds| == |counts|
  {
    if |checkIds| + pointsToCheck == 0 then [NothingToCheck]
    else [ParcelsToCheck(|checkIds|), StickersToCheck(pointsToCheck)] + PolygonLines(checkIds, counts)
  }

  function AmountLine(nOdk: nat, nValues: nat): LogLine
  {
    if nOdk == nValues then SameAmount(nOdk) else AmountMismatch(nValues, nOdk)
  }

  /** What the two counting loops of `analyze_relations` produce. */
  datatype Tally = Tally(pointsToCheck: nat, stickerValues: seq<string>,
                         polysToJoin: nat, checkIds: seq<int>, pointCounts: seq<nat>)

  function Tallies(points: seq<StickerPoint>, parcelIds: seq<int>, contains: (nat, nat) -> bool): (t: Tally)
    ensures |t.checkIds| == |t.pointCounts|
  {
    var n := |points|;
    var flagged := Flagged(|parcelIds|, n, contains);
    Tally(Count(Detections(points), "needs check"), StickerValues(points),
          JoinCount(|parcelIds|, n, contains), CheckIds(parcelIds, flagged), PointCounts(flagged, n, contains))
  }

  /** The log written from the tallies. */
  function ReportOf(rasterName: string, nParcels: nat, nPoints: nat, nOdk: nat, t: Tally): seq<LogLine>
    requires |t.checkIds| == |t.pointCounts|
  {
    HeaderLines(rasterName, nParcels, nPoints, nOdk, t.polysToJoin)
      + [DuplicateLine(t.stickerValues)]
      + CheckLines(t.checkIds, t.pointCounts, t.pointsToCheck)
      + [AmountLine(nOdk, |t.stickerValues|)]
      + [IdsMatch]
  }

  /** The log `analyze_relations` writes. */
  function Report(rasterName: string, points: seq<StickerPoint>, parcelIds: seq<int>,
                  contains: (nat, nat) -> bool, odkIds: seq<string>): seq<LogLine>
  {
    ReportOf(rasterName, |parcelIds|, |points|, |odkIds|, Tallies(points, parcelIds, contains))
  }

  // ---------------------------------------------------------------------------------------
  // analyze_relations

  /** The loop over the stickers: counts those whose detection needs a check and collects
      their sticker numbers. */
  method TallyStickers(points: seq<StickerPoint>) returns (pointsToCheck: nat, stickerValues: seq<string>)
    ensures pointsToCheck == Count(Detections(points), "needs check")
    ensures stickerValues == StickerValues(points)
  {
    pointsToCheck := 0;
    stickerValues := [];
    for i := 0 to |points|
      invariant pointsToCheck == Count(Detections(points)[..i], "needs check")
      invariant stickerValues == StickerValues(points)[..i]
    {
      assert Detections(points)[..i + 1] == Detections(points)[..i] + [points[i].detection];
      if points[i].detection == "needs check" {
        pointsToCheck := pointsToCheck + 1;
      }
      stickerValues := stickerValues + [points[i].stickerNumber];
    }
    assert Detections(points)[..|points|] == Detections(points);
    assert StickerValues(points)[..|points|] == StickerValues(points);
  }

  /** The inner loop: how many of the `n` stickers parcel `i` contains. */
  method CountContained(i: nat, n: nat, contains: (nat, nat) -> bool) returns (count: nat)
    ensures count == ContainedCount(i, n, contains)
  {
    count := 0;
    for j := 0 to n
      invariant count == ContainedCount(i, j, contains)
    {
      if contains(i, j) {
        count := count + 1;
      }
    }
  }

  /** The loop over the parcels: counts those with exactly one sticker and records the id and
      sticker count of every other one. */
  method TallyParcels(parcelIds: seq<int>, n: nat, contains: (nat, nat) -> bool)
    returns (polysToJoin: nat, polysCheckIds: seq<int>, polysPointCount: seq<nat>)
    ensures polysToJoin == JoinCount(|parcelIds|, n, contains)
    ensures polysCheckIds == CheckIds(parcelIds, Flagged(|parcelIds|, n, contains))
    ensures polysPointCount == PointCounts(Flagged(|parcelIds|, n, contains), n, contains)
  {
    polysToJoin, polysCheckIds, polysPointCount := 0, [], [];
    for i := 0 to |parcelIds|
      invariant polysToJoin == JoinCount(i, n, contains)
      invariant polysCheckIds == CheckIds(parcelIds, Flagged(i, n, contains))
      invariant polysPointCount == PointCounts(Flagged(i, n, contains), n, contains)
    {
      var count := CountContained(i, n, contains);
      if count == 1 {
        polysToJoin := polysToJoin + 1;
      } else {
        polysCheckIds := polysCheckIds + [parcelIds[i]];
        polysPointCount := polysPointCount + [count];
      }
    }
  }

  /** The two loops comparing sticker numbers with ODK ids. Both "missing" counters are only
      ever increased by 0. The ODK loop reads the sticker loop's variable `value`, which is
      unbound when there are no stickers: then any ODK record raises an UnboundLocalError. */
  method CompareWithOdk(stickerValues: seq<string>, odkIds: seq<string>)
    returns (r: Result<(nat, nat)>)
    ensures r.Failure? <==> |stickerValues| == 0 && |odkIds| > 0
    ensures r.Failure? ==> r.error == UnboundLocalError
    ensures r.Success? ==> r.value == (0, 0)
  {
    var missingDetIds: nat := 0;
    var missingOdkIds: nat := 0;
    var value: Option<string> := None;
    for k := 0 to |stickerValues|
      invariant missingDetIds == 0
      invariant value.Some? <==> k > 0
    {
      value := Some(stickerValues[k]);
      if stickerValues[k] !in odkIds {
        missingDetIds := missingDetIds + 0;
      }
    }
    for k := 0 to |odkIds|
      invariant missingOdkIds == 0
      invariant k > 0 ==> value.Some?
    {
      if value.None? {
        return Failure(UnboundLocalError);
      }
      if value.value !in stickerValues {
        missingOdkIds := missingOdkIds + 0;
      }
    }
    r := Success((missingDetIds, missingOdkIds));
  }

  /** Appends the lines about what needs a manual check. */
  method AppendCheckLines(log: seq<LogLine>, polysCheckIds: seq<int>, polysPointCount: seq<nat>, pointsToCheck: nat)
    returns (out: seq<LogLine>)
    requires |polysCheckIds| == |polysPointCount|
    ensures out == log + CheckLines(polysCheckIds, polysPointCount, pointsToCheck)
  {
    out := log;
    if |polysCheckIds| + pointsToCheck == 0 {
      out := out + [NothingToCheck];
    } else {
      out := out + [ParcelsToCheck(|polysCheckIds|)];
      out := out + [StickersToCheck(pointsToCheck)];
      ghost var counted := out;
      if |polysCheckIds| > 0 {
        for i := 0 to |polysCheckIds|
          invariant out == counted + PolygonLines(polysCheckIds[..i], polysPointCount[..i])
        {
          assert PolygonLines(polysCheckIds[..i + 1], polysPointCount[..i + 1])
              == PolygonLines(polysCheckIds[..i], polysPointCount[..i]) + [PolygonCount(polysCheckIds[i], polysPointCount[i])];
          out := out + [PolygonCount(polysCheckIds[i], polysPointCount[i])];
        }
        assert polysCheckIds[..|polysCheckIds|] == polysCheckIds;
        assert polysPointCount[..|polysPointCount|] == polysPointCount;
      }
      var x, y, z := log, [ParcelsToCheck(|polysCheckIds|)], [StickersToCheck(pointsToCheck)];
      assert (x + y) + z == x + (y + z);
      assert out == x + y + z + PolygonLines(polysCheckIds, polysPointCount);
    }
  }

  /** `analyze_relations` up to writing the log: the log it builds is the report. */
  method AnalyzeRelations(rasterName: string, points: seq<StickerPoint>, parcelIds: seq<int>,
                          contains: (nat, nat) -> bool, odkIds: seq<string>) returns (r: Result<seq<LogLine>>)
    ensures r.Failure? <==> |points| == 0 && |odkIds| > 0
    ensures r.Failure? ==> r.error == UnboundLocalError
    ensures r.Success? ==> r.value == Report(rasterName, points, parcelIds, contains, odkIds)
  {
    var pointsToCheck, stickerValues := TallyStickers(points);
    var polysToJoin, polysCheckIds, polysPointCount := TallyParcels(parcelIds, |points|, contains);
    var missing := CompareWithOdk(stickerValues, odkIds);
    if missing.Failure? {
      return Failure(missing.error);
    }
    var (missingDetIds, missingOdkIds) := missing.value;

    ghost var t := Tallies(points, parcelIds, contains);
    assert t == Tally(pointsToCheck, stickerValues, polysToJoin, polysCheckIds, polysPointCount);
    var log: seq<LogLine> := [];
    log := log + [Filename(rasterName)];
    log := log + [ParcelsDetected(|parcelIds|)];
    log := log + [StickersDetected(|points|)];
    log := log + [OdkRecords(|odkIds|)];
    log := log + [ParcelsWithOneSticker(polysToJoin)];
    if |stickerValues| == |Elements(stickerValues)| {
      log := log + [NoDuplicates];
    } else {
      log := log + [Duplicates];
    }
    assert log == HeaderLines(rasterName, |parcelIds|, |points|, |odkIds|, polysToJoin) + [DuplicateLine(stickerValues)];
    log := AppendCheckLines(log, polysCheckIds, polysPointCount, pointsToCheck);
    ghost var upToChecks := log;
    if |odkIds| == |stickerValues| {
      log := log + [SameAmount(|odkIds|)];
    } else {
      log := log + [AmountMismatch(|stickerValues|, |odkIds|)];
    }
    assert log == upToChecks + [AmountLine(|odkIds|, |stickerValues|)];
    if missingDetIds + missingOdkIds == 0 {
      log := log + [IdsMatch];
    } else {
      log := log + [MissingFromOdk(missingDetIds)];
      log := log + [MissingFromDetections(missingOdkIds)];
    }
    r := Success(log);
  }

  // ---------------------------------------------------------------------------------------
  // What the report says

  /** Where each part of the log sits. */
  lemma ReportOfLayout(rasterName: string, nParcels: nat, nPoints: nat, nOdk: nat, t: Tally)
    requires |t.checkIds| == |t.pointCounts|
    ensures var log := ReportOf(rasterName, nParcels, nPoints, nOdk, t);
      var checks := CheckLines(t.checkIds, t.pointCounts, t.pointsToCheck);
      && |log| == 8 + |checks|
      && (forall k :: 0 <= k < 5 ==> log[k] == HeaderLines(rasterName, nParcels, nPoints, nOdk, t.polysToJoin)[k])
      && log[5] == DuplicateLine(t.stickerValues)
      && (forall k :: 0 <= k < |checks| ==> log[6 + k] == checks[k])
      && log[|log| - 2] == AmountLine(nOdk, |t.stickerValues|)
      && log[|log| - 1] == IdsMatch
  {
    var h := HeaderLines(rasterName, nParcels, nPoints, nOdk, t.polysToJoin);
    var c := CheckLines(t.checkIds, t.pointCounts, t.pointsToCheck);
    var log := h + [DuplicateLine(t.stickerValues)] + c + [AmountLine(nOdk, |t.stickerValues|)] + [IdsMatch];
    assert log == ReportOf(rasterName, nParcels, nPoints, nOdk, t);
    forall k | 0 <= k < 5 ensures log[k] == h[k] { }
    forall k | 0 <= k < |c| ensures log[6 + k] == c[k] { }
  }

  /** The report opens with the five summary lines, in this order, and always closes with the
      "ID-s match" line, because both missing counters stay 0. */
  lemma ReportFrame(rasterName: string, points: seq<StickerPoint>, parcelIds: seq<int>,
                    contains: (nat, nat) -> bool, odkIds: seq<string>)
    ensures var log := Report(rasterName, points, parcelIds, contains, odkIds);
      && |log| >= 9
      && log[0] == Filename(rasterName)
      && log[1] == ParcelsDetected(|parcelIds|)
      && log[2] == StickersDetected(|points|)
      && log[3] == OdkRecords(|odkIds|)
      && log[4] == ParcelsWithOneSticker(JoinCount(|parcelIds|, |points|, contains))
      && log[|log| - 1] == IdsMatch
  {
    var t := Tallies(points, parcelIds, contains);
    assert t.polysToJoin == JoinCount(|parcelIds|, |points|, contains);
    ReportOfLayout(rasterName, |parcelIds|, |points|, |odkIds|, t);
    var log, h := Report(rasterName, points, parcelIds, contains, odkIds),
                  HeaderLines(rasterName, |parcelIds|, |points|, |odkIds|, t.polysToJoin);
    assert log[0] == h[0] && log[1] == h[1] && log[2] == h[2] && log[3] == h[3] && log[4] == h[4];
  }

  /** The duplicate warning (line 6) appears exactly when two stickers carry the same number. */
  lemma DuplicateWarningIff(rasterName: string, points: seq<StickerPoint>, parcelIds: seq<int>,
                            contains: (nat, nat) -> bool, odkIds: seq<string>)
    ensures var log := Report(rasterName, points, parcelIds, contains, odkIds);
      && (log[5] == Duplicates <==> !Distinct(StickerValues(points)))
      && (log[5] == NoDuplicates <==> Distinct(StickerValues(points)))
  {
    var t := Tallies(points, parcelIds, contains);
    ReportOfLayout(rasterName, |parcelIds|, |points|, |odkIds|, t);
    DistinctIffNoShrink(StickerValues(points));
  }

  /** No parcel is flagged exactly when every parcel contains exactly one sticker. */
  lemma NoneFlaggedIff(m: nat, nPoints: nat, contains: (nat, nat) -> bool)
    ensures |Flagged(m, nPoints, contains)| == 0 <==> forall i :: 0 <= i < m ==> ContainedCount(i, nPoints, contains) == 1
  {
    var flagged := Flagged(m, nPoints, contains);
    FlaggedComplete(m, nPoints, contains);
    if |flagged| > 0 {
      assert ContainedCount(flagged[0], nPoints, contains) != 1;
    }
  }

  /** No sticker needs checking exactly when none has the detection "needs check". */
  lemma NoneNeedsCheckIff(points: seq<StickerPoint>)
    ensures Count(Detections(points), "needs check") == 0 <==> forall j :: 0 <= j < |points| ==> points[j].detection != "needs check"
  {
    var d := Detections(points);
    if Count(d, "needs check") > 0 {
      var j :| 0 <= j < |d| && d[j] == "needs check";
      assert points[j].detection == "needs check";
    } else {
      forall j | 0 <= j < |points| ensures points[j].detection != "needs check" {
        assert d[j] == points[j].detection;
      }
    }
  }

  /** In the log written from any tallies, line 7 says nothing needs checking exactly when no
      parcel is flagged and no sticker needs a check. */
  lemma NothingToCheckOf(rasterName: string, nParcels: nat, nPoints: nat, nOdk: nat, t: Tally)
    requires |t.checkIds| == |t.pointCounts|
    ensures ReportOf(rasterName, nParcels, nPoints, nOdk, t)[6] == NothingToCheck <==> |t.checkIds| == 0 && t.pointsToCheck == 0
  {
    ReportOfLayout(rasterName, nParcels, nPoints, nOdk, t);
    assert ReportOf(rasterName, nParcels, nPoints, nOdk, t)[6] == CheckLines(t.checkIds, t.pointCounts, t.pointsToCheck)[0];
  }

  /** Line 7 says nothing needs checking exactly when every parcel contains exactly one sticker
      and no sticker's detection needs a check. */
  lemma NothingToCheckIff(rasterName: string, points: seq<StickerPoint>, parcelIds: seq<int>,
                          contains: (nat, nat) -> bool, odkIds: seq<string>)
    ensures Report(rasterName, points, parcelIds, contains, odkIds)[6] == NothingToCheck <==>
              && (forall i :: 0 <= i < |parcelIds| ==> ContainedCount(i, |points|, contains) == 1)
              && (forall j :: 0 <= j < |points| ==> points[j].detection != "needs check")
  {
    var t := Tallies(points, parcelIds, contains);
    assert |t.checkIds| == |Flagged(|parcelIds|, |points|, contains)|;
    assert t.pointsToCheck == Count(Detections(points), "needs check");
    NothingToCheckOf(rasterName, |parcelIds|, |points|, |odkIds|, t);
    NoneFlaggedIff(|parcelIds|, |points|, contains);
    NoneNeedsCheckIff(points);
  }

  /** When something needs checking, the check lines are the two numbers followed by one line
      per flagged parcel. */
  lemma CheckLinesLayout(checkIds: seq<int>, counts: seq<nat>, pointsToCheck: nat)
    requires |checkIds| == |counts| && |checkIds| + pointsToCheck != 0
    ensures var checks := CheckLines(checkIds, counts, pointsToCheck);
      && |checks| == 2 + |checkIds|
      && checks[0] == ParcelsToCheck(|checkIds|)
      && checks[1] == StickersToCheck(pointsToCheck)
      && forall k :: 0 <= k < |checkIds| ==> checks[2 + k] == PolygonCount(checkIds[k], counts[k])
  {
    var head, lines := [ParcelsToCheck(|checkIds|), StickersToCheck(pointsToCheck)], PolygonLines(checkIds, counts);
    assert CheckLines(checkIds, counts, pointsToCheck) == head + lines;
    forall k | 0 <= k < |checkIds| ensures (head + lines)[2 + k] == PolygonCount(checkIds[k], counts[k]) {
      assert (head + lines)[2 + k] == lines[k];
    }
  }

  /** When something needs checking (a parcel is flagged or a sticker's detection needs a check,
      which by NothingToCheckIff is when line 7 is not NothingToCheck), lines 7 and 8 give the two
      numbers and then one line per flagged parcel follows, in parcel order, with that parcel's id
      and sticker count. */
  lemma FlaggedParcelLines(rasterName: string, points: seq<StickerPoint>, parcelIds: seq<int>,
                           contains: (nat, nat) -> bool, odkIds: seq<string>)
    requires |Flagged(|parcelIds|, |points|, contains)| > 0 || "needs check" in Detections(points)
    ensures var log := Report(rasterName, points, parcelIds, contains, odkIds);
      var flagged := Flagged(|parcelIds|, |points|, contains);
      && |log| == 10 + |flagged|
      && log[6] == ParcelsToCheck(|flagged|)
      && log[7] == StickersToCheck(Count(Detections(points), "needs check"))
      && forall k :: 0 <= k < |flagged| ==>
           log[8 + k] == PolygonCount(parcelIds[flagged[k]], ContainedCount(flagged[k], |points|, contains))
  {
    var t := Tallies(points, parcelIds, contains);
    var flagged := Flagged(|parcelIds|, |points|, contains);
    ReportOfLayout(rasterName, |parcelIds|, |points|, |odkIds|, t);
    CheckLinesLayout(t.checkIds, t.pointCounts, t.pointsToCheck);
    var log := Report(rasterName, points, parcelIds, contains, odkIds);
    forall k | 0 <= k < |flagged|
      ensures log[8 + k] == PolygonCount(parcelIds[flagged[k]], ContainedCount(flagged[k], |points|, contains))
    {
      assert log[6 + (2 + k)] == PolygonCount(t.checkIds[k], t.pointCounts[k]);
    }
  }

  /** The next-to-last line reports equal record counts exactly when there are as many ODK
      records as stickers. */
  lemma AmountLineIff(rasterName: string, points: seq<StickerPoint>, parcelIds: seq<int>,
                      contains: (nat, nat) -> bool, odkIds: seq<string>)
    ensures var log := Report(rasterName, points, parcelIds, contains, odkIds);
      log[|log| - 2] == SameAmount(|odkIds|) <==> |odkIds| == |points|
  {
    var t := Tallies(points, parcelIds, contains);
    ReportOfLayout(rasterName, |parcelIds|, |points|, |odkIds|, t);
  }
}
