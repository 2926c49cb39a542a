/**
 * The depth-quality tool's session rules (tool_model): the region-of-interest
 * selector and rectangle, the routing of polled frames, the stereo baseline
 * lookup and the names of the snapshot ("Save Report") artifacts.
 */
module Session {
  import opened Basics

  // ---------------------------------------------------------------------
  // Region of interest

  /** The labels of the ROI combo box, in combo-index order. */
  const RoiComboItems: seq<string> := ["80%", "40%", "20%"]

  /** The ROI percent a fresh tool starts with. */
  const InitialRoiPercent: int := 40

  /** An axis-aligned pixel rectangle. */
  datatype Roi = Roi(minX: int, minY: int, maxX: int, maxY: int)

  /** The two-digit label "NN%" of a percent between 10 and 99. */
  function PercentLabel(p: int): string
    requires 10 <= p < 100
  {
    [('0' as int + p / 10) as char, ('0' as int + p % 10) as char, '%']
  }

  /**
   * The ROI percent after the combo box reports index `index`: indices 0, 1, 2
   * select the percent their label shows, any other index keeps `current`.
   */
  function RoiPercentFor(index: int, current: int): (p: int)
    ensures 0 <= index < |RoiComboItems| ==> 10 <= p < 100 && PercentLabel(p) == RoiComboItems[index]
    ensures !(0 <= index < |RoiComboItems|) ==> p == current
  {
    if index == 0 then 80
    else if index == 1 then 40
    else if index == 2 then 20
    else current
  }

  /**
   * The ROI handed to the metrics model for a w-by-h depth stream and ROI
   * percent p: the centred rectangle covering p% of each dimension, computed
   * in exact arithmetic and truncated.
   */
  function RoiRect(w: nat, h: nat, p: int): (r: Roi)
    requires 0 <= p <= 100
    ensures 0 <= r.minX <= r.maxX <= w && 0 <= r.minY <= r.maxY <= h
    ensures w - 1 <= r.minX + r.maxX <= w && h - 1 <= r.minY + r.maxY <= h
    ensures r.minX * 200 <= w * (100 - p) < (r.minX + 1) * 200
    ensures r.maxX * 200 <= w * (100 + p) < (r.maxX + 1) * 200
    ensures r.minY * 200 <= h * (100 - p) < (r.minY + 1) * 200
    ensures r.maxY * 200 <= h * (100 + p) < (r.maxY + 1) * 200
  {
    CentredSpan(w, p);
    CentredSpan(h, p);
    Roi(w * (100 - p) / 200, h * (100 - p) / 200, w * (100 + p) / 200, h * (100 + p) / 200)
  }

  /**
   * The two truncated ends of the centred p% span of a length n: ordered,
   * inside [0, n], and adding up to n or n - 1.
   */
  lemma CentredSpan(n: nat, p: int)
    requires 0 <= p <= 100
    ensures var lo, hi := n * (100 - p) / 200, n * (100 + p) / 200;
      && 0 <= lo <= hi <= n && n - 1 <= lo + hi <= n
      && lo * 200 <= n * (100 - p) < (lo + 1) * 200
      && hi * 200 <= n * (100 + p) < (hi + 1) * 200
  {
    var np := n * p;
    var a, b := n * (100 - p), n * (100 + p);
    assert a == 100 * n - np && b == 100 * n + np;
    assert 0 <= np <= 100 * n by {
      assert n * (100 - p) >= 0;
    }
    var lo, hi := a / 200, b / 200;
    assert a == 200 * lo + a % 200 && 0 <= a % 200 < 200;
    assert b == 200 * hi + b % 200 && 0 <= b % 200 < 200;
  }

  /** The 80% ROI is [w/10, h/10, 9w/10, 9h/10], each rounded down. */
  lemma RoiAtEightyPercent(w: nat, h: nat)
    ensures RoiRect(w, h, 80) == Roi(w / 10, h / 10, 9 * w / 10, 9 * h / 10)
  {
    DivideByTwenty(w, 1);
    DivideByTwenty(h, 1);
    DivideByTwenty(w, 9);
    DivideByTwenty(h, 9);
  }

  /** (n * 20 * c) / 200 == (c * n) / 10 */
  lemma DivideByTwenty(n: nat, c: nat)
    ensures n * (20 * c) / 200 == c * n / 10
  {
    var q, r := c * n / 10, c * n % 10;
    assert c * n == 10 * q + r;
    assert n * (20 * c) == 200 * q + 20 * r;
  }

  // ---------------------------------------------------------------------
  // Frame routing

  datatype StreamType = Depth | Infrared | Color | Other

  /** A polled frame: its stream type and an identity. */
  datatype Frame = Frame(stream: StreamType, id: int)

  /** Where the frames of one poll go. */
  datatype Routing = Routing(viewer: seq<Frame>, metrics: seq<Frame>)

  /**
   * Routing of one polled frame set: every frame is uploaded to the viewer;
   * a depth frame is also handed to the metrics worker unless the viewer is
   * paused.
   */
  function Route(frames: seq<Frame>, paused: bool): (r: Routing)
    ensures r.viewer == frames
    ensures paused ==> r.metrics == []
    ensures forall f :: f in r.metrics ==> f in frames && f.stream == Depth
    ensures !paused ==> forall f :: f in frames && f.stream == Depth ==> f in r.metrics
    ensures |r.metrics| <= |frames|
  {
    if frames == [] then Routing([], [])
    else
      var f := frames[|frames| - 1];
      var prev := Route(frames[..|frames| - 1], paused);
      assert frames == frames[..|frames| - 1] + [f];
      Routing(prev.viewer + [f], if f.stream == Depth && !paused then prev.metrics + [f] else prev.metrics)
  }

  /** Route keeps the order of the frames it hands to the metrics worker. */
  lemma {:induction false} RouteKeepsDepthOrder(frames: seq<Frame>, paused: bool)
    ensures !paused ==> Route(frames, paused).metrics == DepthFrames(frames)
  {
    if frames != [] {
      var init, f := frames[..|frames| - 1], frames[|frames| - 1];
      RouteKeepsDepthOrder(init, paused);
      assert frames == init + [f];
      DepthFramesAppend(init, [f]);
    }
  }

  lemma {:induction false} DepthFramesAppend(a: seq<Frame>, b: seq<Frame>)
    ensures DepthFrames(a + b) == DepthFrames(a) + DepthFrames(b)
  {
    if a != [] {
      assert (a + b)[1..] == a[1..] + b;
      DepthFramesAppend(a[1..], b);
    } else {
      assert a + b == b;
    }
  }

  /** The depth frames of a frame set, in order. */
  function DepthFrames(frames: seq<Frame>): seq<Frame>
  {
    if frames == [] then []
    else (if frames[0].stream == Depth then [frames[0]] else []) + DepthFrames(frames[1..])
  }

  // ---------------------------------------------------------------------
  // Stereo baseline

  /** A stream profile of the depth sensor; `mode` stands for its resolution, format and rate. */
  datatype Profile = Profile(index: int, stream: StreamType, mode: int)

  predicate IsProfile(p: Profile, index: int, stream: StreamType) {
    p.index == index && p.stream == stream
  }

  predicate HasProfile(profiles: seq<Profile>, index: int, stream: StreamType) {
    exists p :: p in profiles && IsProfile(p, index, stream)
  }

  /** The position of the first profile with the given stream index and type, as `find_if` finds it. */
  function FindProfile(profiles: seq<Profile>, index: int, stream: StreamType): (r: Option<nat>)
    ensures r.Some? ==> r.value < |profiles| && IsProfile(profiles[r.value], index, stream)
    ensures r.Some? ==> forall j :: 0 <= j < r.value ==> !IsProfile(profiles[j], index, stream)
    ensures r.None? <==> !HasProfile(profiles, index, stream)
  {
    if profiles == [] then None
    else if IsProfile(profiles[0], index, stream) then Some(0)
    else match FindProfile(profiles[1..], index, stream)
      case None => None
      case Some(k) => Some(k + 1)
  }

  /** The profile `find_if` returns when one matches. */
  function FirstProfile(profiles: seq<Profile>, index: int, stream: StreamType): (p: Profile)
    requires HasProfile(profiles, index, stream)
    ensures p in profiles && IsProfile(p, index, stream)
  {
    profiles[FindProfile(profiles, index, stream).value]
  }

  const ExtrinsicsMissing: string := "Extrinsic parameters are not available"

  /** The baseline in millimetres (-1 when unknown) and the error message it raised, if any. */
  datatype BaselineResult = BaselineResult(baselineMm: real, error: Option<string>)

  /**
   * The stereo baseline for the metrics model. It is known only when the
   * depth sensor offers an index-2 infrared profile and the extrinsics from
   * the first index-0 depth profile to the first such infrared profile are
   * available; `extrinsicsTx` is that query's x translation (in metres), None
   * meaning the query threw, which also sets the error message. The baseline
   * is then |tx| * 1000 mm. The source dereferences the depth profile's lookup
   * unchecked, so such a profile must exist whenever the infrared one does.
   */
  function StereoBaseline(profiles: seq<Profile>, extrinsicsTx: (Profile, Profile) -> Option<real>): (r: BaselineResult)
    requires HasProfile(profiles, 2, Infrared) ==> HasProfile(profiles, 0, Depth)
    ensures r.baselineMm >= 0.0 <==>
              HasProfile(profiles, 2, Infrared)
              && extrinsicsTx(FirstProfile(profiles, 0, Depth), FirstProfile(profiles, 2, Infrared)).Some?
    ensures r.baselineMm >= 0.0 ==>
              r.baselineMm == Abs(extrinsicsTx(FirstProfile(profiles, 0, Depth), FirstProfile(profiles, 2, Infrared)).value) * 1000.0
    ensures r.baselineMm < 0.0 ==> r.baselineMm == -1.0
    ensures r.error.Some? <==> HasProfile(profiles, 2, Infrared) && r.baselineMm < 0.0
    ensures r.error.Some? ==> r.error.value == ExtrinsicsMissing
  {
    match FindProfile(profiles, 2, Infrared)
    case None => BaselineResult(-1.0, None)
    case Some(right) =>
      var left := FindProfile(profiles, 0, Depth).value;
      match extrinsicsTx(profiles[left], profiles[right])
      case Some(tx) => BaselineResult(Abs(tx) * 1000.0, None)
      case None => BaselineResult(-1.0, Some(ExtrinsicsMissing))
  }

  // ---------------------------------------------------------------------
  // Snapshot artifacts

  /** A viewer stream at snapshot time: its type's name and whether it has a video frame to save. */
  datatype ViewerStream = ViewerStream(description: string, hasVideoFrame: bool)

  function PngName(base: string, description: string): string {
    base + "_" + description + ".png"
  }

  function MeshName(base: string): string { base + "_3d_mesh.ply" }

  function CsvName(base: string): string { base + "_depth_metrics.csv" }

  function ConfigurationName(base: string): string { base + "_configuration.json" }

  /** No two elements of `xs` are equal. */
  predicate Distinct(xs: seq<string>) {
    forall i, j :: 0 <= i < j < |xs| ==> xs[i] != xs[j]
  }

  function Descriptions(streams: seq<ViewerStream>): seq<string> {
    seq(|streams|, k requires 0 <= k < |streams| => streams[k].description)
  }

  /** The descriptions of the streams that have a video frame to save, in stream order. */
  function SavedDescriptions(streams: seq<ViewerStream>): (ds: seq<string>)
    ensures |ds| <= |streams|
    ensures forall s :: s in streams && s.hasVideoFrame ==> s.description in ds
    ensures forall d :: d in ds ==> d in Descriptions(streams)
  {
    if streams == [] then []
    else
      var rest := SavedDescriptions(streams[1..]);
      assert Descriptions(streams) == [streams[0].description] + Descriptions(streams[1..]);
      (if streams[0].hasVideoFrame then [streams[0].description] else []) + rest
  }

  /**
   * The positions from `i` on of the streams that have a video frame, in
   * increasing order.
   */
  function FramePositionsFrom(streams: seq<ViewerStream>, i: nat): (ps: seq<int>)
    requires i <= |streams|
    ensures forall k :: 0 <= k < |ps| ==> i <= ps[k] < |streams| && streams[ps[k]].hasVideoFrame
    ensures forall k, l :: 0 <= k < l < |ps| ==> ps[k] < ps[l]
    ensures forall j :: i <= j < |streams| && streams[j].hasVideoFrame ==> j in ps
    decreases |streams| - i
  {
    if i == |streams| then []
    else
      var rest := FramePositionsFrom(streams, i + 1);
      if streams[i].hasVideoFrame then [i] + rest else rest
  }

  /**
   * The positions of the streams that have a video frame, in increasing
   * order: exactly the streams whose frame the snapshot saves.
   */
  function FramePositions(streams: seq<ViewerStream>): (ps: seq<int>)
    ensures forall k :: 0 <= k < |ps| ==> 0 <= ps[k] < |streams| && streams[ps[k]].hasVideoFrame
    ensures forall k, l :: 0 <= k < l < |ps| ==> ps[k] < ps[l]
    ensures forall j :: 0 <= j < |streams| && streams[j].hasVideoFrame ==> j in ps
  {
    FramePositionsFrom(streams, 0)
  }

  /** The descriptions of the streams at the given positions. */
  function DescriptionsAt(streams: seq<ViewerStream>, ps: seq<int>): seq<string>
    requires forall k :: 0 <= k < |ps| ==> 0 <= ps[k] < |streams|
  {
    seq(|ps|, k requires 0 <= k < |ps| => streams[ps[k]].description)
  }

  lemma DescriptionsAtCons(streams: seq<ViewerStream>, i: int, rest: seq<int>)
    requires 0 <= i < |streams| && forall k :: 0 <= k < |rest| ==> 0 <= rest[k] < |streams|
    ensures DescriptionsAt(streams, [i] + rest) == [streams[i].description] + DescriptionsAt(streams, rest)
  {
  }

  /** Saving the streams from position i on keeps the descriptions at their frame positions. */
  lemma {:induction false} SavedDescriptionsFrom(streams: seq<ViewerStream>, i: nat)
    requires i <= |streams|
    ensures SavedDescriptions(streams[i..]) == DescriptionsAt(streams, FramePositionsFrom(streams, i))
    decreases |streams| - i
  {
    if i < |streams| {
      var rest := FramePositionsFrom(streams, i + 1);
      var d := streams[i].description;
      assert streams[i..][1..] == streams[i + 1..] && streams[i..][0] == streams[i];
      assert SavedDescriptions(streams[i..])
          == (if streams[i].hasVideoFrame then [d] else []) + SavedDescriptions(streams[i + 1..]);
      SavedDescriptionsFrom(streams, i + 1);
      if streams[i].hasVideoFrame {
        DescriptionsAtCons(streams, i, rest);
      } else {
        assert [] + DescriptionsAt(streams, rest) == DescriptionsAt(streams, rest);
      }
    } else {
      assert streams[i..] == [];
    }
  }

  /**
   * The saved descriptions are exactly the descriptions of the streams with
   * a video frame, once each and in stream order.
   */
  lemma SavedDescriptionsAreFramePositions(streams: seq<ViewerStream>)
    ensures SavedDescriptions(streams) == DescriptionsAt(streams, FramePositions(streams))
  {
    SavedDescriptionsFrom(streams, 0);
    assert streams[0..] == streams;
  }

  /** The PNG files written for the viewer's streams, in stream order. */
  function PngNames(base: string, streams: seq<ViewerStream>): seq<string> {
    var ds := SavedDescriptions(streams);
    seq(|ds|, k requires 0 <= k < |ds| => PngName(base, ds[k]))
  }

  /**
   * The files a "Save Report" writes, in order: nothing when the save dialog
   * is cancelled; otherwise one PNG per stream with a video frame, the mesh,
   * the metrics CSV, and the configuration JSON only when the device is in
   * advanced mode. All share the chosen base name.
   */
  function SnapshotFiles(chosen: Option<string>, streams: seq<ViewerStream>, advancedMode: bool): (files: seq<string>)
    ensures chosen.None? ==> files == []
    ensures chosen.Some? ==>
              |files| == |FramePositions(streams)| + 2 + (if advancedMode then 1 else 0)
    ensures chosen.Some? ==> forall s :: s in streams && s.hasVideoFrame ==> PngName(chosen.value, s.description) in files
    ensures chosen.Some? ==> MeshName(chosen.value) in files && CsvName(chosen.value) in files
    ensures chosen.Some? ==> (ConfigurationName(chosen.value) in files <==> advancedMode)
    ensures chosen.Some? ==> forall f :: f in files ==>
              || f == MeshName(chosen.value) || f == CsvName(chosen.value)
              || (advancedMode && f == ConfigurationName(chosen.value))
              || exists s :: s in streams && s.hasVideoFrame && f == PngName(chosen.value, s.description)
    ensures forall k :: 0 <= k < |files| ==> chosen.Some? && HasPrefix(files[k], chosen.value)
  {
    match chosen
    case None => []
    case Some(base) =>
      var pngs := PngNames(base, streams);
      var files := pngs + [MeshName(base), CsvName(base)]
                   + (if advancedMode then [ConfigurationName(base)] else []);
      PngNamesFromFrames(base, streams);
      PngNamesCoverFrames(base, streams);
      PngNamesEndInG(base, streams);
      assert LastChar(ConfigurationName(base)) == 'n';
      assert LastChar(MeshName(base)) == 'y';
      assert LastChar(CsvName(base)) == 'v';
      assert ConfigurationName(base) !in pngs;
      forall k | 0 <= k < |files|
        ensures HasPrefix(files[k], base)
      {
        if k < |pngs| {
          assert files[k] == pngs[k];
        } else if files[k] == MeshName(base) {
          assert files[k] == base + "_3d_mesh.ply";
        } else if files[k] == CsvName(base) {
          assert files[k] == base + "_depth_metrics.csv";
        } else {
          assert files[k] == base + "_configuration.json";
        }
      }
      files
  }

  /** Each PNG name is made from a stream with a video frame, one per such stream. */
  lemma PngNamesFromFrames(base: string, streams: seq<ViewerStream>)
    ensures |PngNames(base, streams)| == |FramePositions(streams)|
    ensures forall f :: f in PngNames(base, streams) ==>
              exists s :: s in streams && s.hasVideoFrame && f == PngName(base, s.description)
  {
    var pngs := PngNames(base, streams);
    var ds := SavedDescriptions(streams);
    var ps := FramePositions(streams);
    SavedDescriptionsAreFramePositions(streams);
    forall f | f in pngs
      ensures exists s :: s in streams && s.hasVideoFrame && f == PngName(base, s.description)
    {
      var k :| 0 <= k < |pngs| && pngs[k] == f;
      var s := streams[ps[k]];
      assert ds[k] == s.description && s.hasVideoFrame && s in streams;
      assert f == PngName(base, s.description);
    }
  }

  /** Every stream with a video frame has its PNG name, which begins with the base name. */
  lemma PngNamesCoverFrames(base: string, streams: seq<ViewerStream>)
    ensures forall s :: s in streams && s.hasVideoFrame ==> PngName(base, s.description) in PngNames(base, streams)
    ensures forall k :: 0 <= k < |PngNames(base, streams)| ==> HasPrefix(PngNames(base, streams)[k], base)
  {
    var pngs := PngNames(base, streams);
    var ds := SavedDescriptions(streams);
    forall s | s in streams && s.hasVideoFrame
      ensures PngName(base, s.description) in pngs
    {
      var k :| 0 <= k < |ds| && ds[k] == s.description;
      assert pngs[k] == PngName(base, s.description);
    }
    forall k | 0 <= k < |pngs|
      ensures HasPrefix(pngs[k], base)
    {
      assert pngs[k] == base + ("_" + ds[k] + ".png");
    }
  }

  /** `f` is `base` followed by a non-empty suffix. */
  predicate HasPrefix(f: string, base: string) {
    |base| < |f| && f[..|base|] == base
  }

  function LastChar(f: string): char
    requires f != []
  {
    f[|f| - 1]
  }

  /** Every PNG name ends in 'g'. */
  lemma PngNamesEndInG(base: string, streams: seq<ViewerStream>)
    ensures forall k :: 0 <= k < |PngNames(base, streams)| ==>
              PngNames(base, streams)[k] != [] && LastChar(PngNames(base, streams)[k]) == 'g'
  {
  }

  /** A PNG name determines the stream description it was made from. */
  lemma PngNameInjective(base: string, d1: string, d2: string)
    requires PngName(base, d1) == PngName(base, d2)
    ensures d1 == d2
  {
    var n1, n2 := PngName(base, d1), PngName(base, d2);
    assert n1[|base| + 1..|n1| - 4] == d1;
    assert n2[|base| + 1..|n2| - 4] == d2;
  }

  /** Saving keeps distinct descriptions distinct. */
  lemma {:induction false} SavedDescriptionsDistinct(streams: seq<ViewerStream>)
    requires Distinct(Descriptions(streams))
    ensures Distinct(SavedDescriptions(streams))
  {
    if streams != [] {
      var all := Descriptions(streams);
      var rest := SavedDescriptions(streams[1..]);
      assert Descriptions(streams[1..]) == all[1..];
      SavedDescriptionsDistinct(streams[1..]);
      if streams[0].hasVideoFrame {
        forall k | 0 <= k < |all| - 1
          ensures all[1..][k] != all[0]
        {
          assert all[1..][k] == all[k + 1];
        }
        assert all[0] == streams[0].description;
        var ds := SavedDescriptions(streams);
        assert ds == [streams[0].description] + rest;
        forall i, j | 0 <= i < j < |ds|
          ensures ds[i] != ds[j]
        {
          assert ds[j] == rest[j - 1] && rest[j - 1] in rest;
          if i > 0 {
            assert ds[i] == rest[i - 1];
          }
        }
      } else {
        assert SavedDescriptions(streams) == [] + rest == rest;
      }
    }
  }

  /**
   * With distinct stream descriptions, no two artifacts of one report share
   * a file name, so no artifact overwrites another.
   */
  lemma SnapshotFilesDistinct(base: string, streams: seq<ViewerStream>, advancedMode: bool)
    requires Distinct(Descriptions(streams))
    ensures Distinct(SnapshotFiles(Some(base), streams, advancedMode))
  {
    var pngs := PngNames(base, streams);
    var files := SnapshotFiles(Some(base), streams, advancedMode);
    SavedDescriptionsDistinct(streams);
    PngNamesEndInG(base, streams);
    assert LastChar(MeshName(base)) == 'y';
    assert LastChar(CsvName(base)) == 'v';
    assert LastChar(ConfigurationName(base)) == 'n';
    forall i, j | 0 <= i < j < |files|
      ensures files[i] != files[j]
    {
      if j < |pngs| {
        var ds := SavedDescriptions(streams);
        if files[i] == files[j] {
          PngNameInjective(base, ds[i], ds[j]);
        }
      } else if i < |pngs| {
        assert LastChar(files[i]) == 'g';
      }
    }
  }

  // ---------------------------------------------------------------------
  // The tool's ROI state

  /** The part of the tool's state that the ROI selector changes. */
  class ToolModel {
    var roiPercent: int

    ghost predicate Valid()
      reads this
    {
      roiPercent in {20, 40, 80}
    }

    constructor ()
      ensures Valid() && roiPercent == InitialRoiPercent
    {
      roiPercent := InitialRoiPercent;
    }

    /**
     * The user picked entry `index` of the ROI combo box for a w-by-h depth
     * stream: the percent follows the entry (or stays for an unknown index)
     * and the configuration is recomputed, giving the new ROI.
     */
    method SelectRoi(index: int, w: nat, h: nat) returns (roi: Roi)
      requires Valid()
      modifies this
      ensures Valid()
      ensures roiPercent == RoiPercentFor(index, old(roiPercent))
      ensures roi == RoiRect(w, h, roiPercent)
    {
      if index == 0 {
        roiPercent := 80;
      } else if index == 1 {
        roiPercent := 40;
      } else if index == 2 {
        roiPercent := 20;
      }
      roi := RoiRect(w, h, roiPercent);
    }
  }
}
