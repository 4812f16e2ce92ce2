/** Descriptors on their own terms: what their raw numbers say, and a way to write any paths down. */
module ProjectionDescriptors {
  import opened Json
  import opened ProjectionSpec
  import opened ProjectionPlan

  // ---- Reading

  /** A key is its own bytes, found at its own offset; an index is the number itself. */
  ghost predicate ReadsSegment(raw: RawSegment, keyBytes: Bytes, g: Segment) {
    if raw.tag == SEGMENT_OBJECT_KEY then
      && g.Key? && |g.key| == raw.keyLength && raw.keyOffset + raw.keyLength <= |keyBytes|
      && forall j :: 0 <= j < raw.keyLength ==> g.key[j] == keyBytes[raw.keyOffset + j]
    else g == Index(raw.arrayIndex)
  }

  /** The path is read segment by segment from the entry's own range. */
  ghost predicate DescribesPath(e: Entry, segments: seq<RawSegment>, keyBytes: Bytes, path: Path) {
    && |path| == e.segmentCount && e.segmentOffset + e.segmentCount <= |segments|
    && forall k :: 0 <= k < |path| ==> ReadsSegment(segments[e.segmentOffset + k], keyBytes, path[k])
  }

  lemma DescribedOnce(e: Entry, segments: seq<RawSegment>, keyBytes: Bytes, a: Path, b: Path)
    requires DescribesPath(e, segments, keyBytes, a) && DescribesPath(e, segments, keyBytes, b)
    ensures a == b
  {
    forall k | 0 <= k < |a| ensures a[k] == b[k] {
      assert ReadsSegment(segments[e.segmentOffset + k], keyBytes, a[k]);
      assert ReadsSegment(segments[e.segmentOffset + k], keyBytes, b[k]);
      if a[k].Key? {
        assert a[k].key == b[k].key;
      }
    }
  }

  lemma PathIsRead(e: Entry, segments: seq<RawSegment>, keyBytes: Bytes)
    requires EntryInRange(e, e.outputSlot + 1, |segments|)
    requires forall k :: 0 <= k < |segments| ==> SegmentInRange(segments[k], keyBytes)
    ensures DescribesPath(e, segments, keyBytes, PathOf(e, segments, keyBytes))
  {
    var path := PathOf(e, segments, keyBytes);
    forall k | 0 <= k < |path| ensures ReadsSegment(segments[e.segmentOffset + k], keyBytes, path[k]) {
      assert SegmentInRange(segments[e.segmentOffset + k], keyBytes);
      assert path[k] == SegmentOf(segments[e.segmentOffset + k], keyBytes);
    }
  }

  // ---- Writing

  datatype Descriptors = Descriptors(entries: seq<Entry>, segments: seq<RawSegment>, keyBytes: Bytes)

  function KeyOf(g: Segment): Bytes {
    if g.Key? then g.key else []
  }

  function KeysOf(path: Path): Bytes {
    if path == [] then [] else KeysOf(path[..|path| - 1]) + KeyOf(path[|path| - 1])
  }

  function DescribeSegment(g: Segment, keyOffset: nat): RawSegment {
    match g
    case Key(key) => RawSegment(SEGMENT_OBJECT_KEY, 0, keyOffset, |key|, 0)
    case Index(index) => RawSegment(SEGMENT_ARRAY_INDEX, 0, 0, 0, index)
  }

  function DescribePath(path: Path, keyOffset: nat): (r: seq<RawSegment>)
    ensures |r| == |path|
  {
    if path == [] then []
    else
      var before := path[..|path| - 1];
      DescribePath(before, keyOffset) + [DescribeSegment(path[|path| - 1], keyOffset + |KeysOf(before)|)]
  }

  /** Lays the paths down one after another: slot `s` gets entry `s`. */
  function Describe(paths: seq<Path>): (d: Descriptors)
    ensures |d.entries| == |paths|
  {
    if paths == [] then Descriptors([], [], [])
    else
      var d := Describe(paths[..|paths| - 1]);
      var path := paths[|paths| - 1];
      Descriptors(
        d.entries + [Entry(|paths| - 1, 0, |d.segments|, |path|)],
        d.segments + DescribePath(path, |d.keyBytes|),
        d.keyBytes + KeysOf(path))
  }

  // ---- What was written is read again

  lemma {:induction false} WrittenPathIsRead(path: Path, before: Bytes, after: Bytes, k: nat)
    requires k < |path|
    ensures
      var raw := DescribePath(path, |before|)[k];
      var keyBytes := before + KeysOf(path) + after;
      SegmentInRange(raw, keyBytes) && ReadsSegment(raw, keyBytes, path[k])
    decreases |path|
  {
    var last := |path| - 1;
    var less := path[..last];
    if k < last {
      WrittenPathIsRead(less, before, KeyOf(path[last]) + after, k);
      assert before + KeysOf(path) + after == before + KeysOf(less) + (KeyOf(path[last]) + after);
    } else {
      var offset := |before| + |KeysOf(less)|;
      var keyBytes := before + KeysOf(path) + after;
      assert keyBytes[offset..offset + |KeyOf(path[last])|] == KeyOf(path[last]);
    }
  }

  /** Slot `s` is described by entry `s`, whatever is written behind it. */
  ghost predicate Written(d: Descriptors, paths: seq<Path>, s: nat)
    requires s < |paths| && |d.entries| == |paths|
  {
    var e := d.entries[s];
    && e.outputSlot == s && e.reserved == 0 && e.segmentCount == |paths[s]|
    && DescribesPath(e, d.segments, d.keyBytes, paths[s])
  }

  ghost predicate AllInRange(d: Descriptors) {
    forall k :: 0 <= k < |d.segments| ==> SegmentInRange(d.segments[k], d.keyBytes) && Referenced(d.entries, k)
  }

  lemma {:induction false} DescribeWrites(paths: seq<Path>)
    ensures
      var d := Describe(paths);
      AllInRange(d) && forall s :: 0 <= s < |paths| ==> Written(d, paths, s)
    decreases |paths|
  {
    if paths != [] {
      var init, path := paths[..|paths| - 1], paths[|paths| - 1];
      var d, more := Describe(init), Describe(paths);
      DescribeWrites(init);
      var added := DescribePath(path, |d.keyBytes|);
      forall k | 0 <= k < |path|
        ensures SegmentInRange(added[k], more.keyBytes) && ReadsSegment(added[k], more.keyBytes, path[k])
      {
        WrittenPathIsRead(path, d.keyBytes, [], k);
        assert d.keyBytes + KeysOf(path) + [] == more.keyBytes;
      }
      LaterKeepsRange(d, more);
      NewEntryCovers(d, more, path);
      forall s | 0 <= s < |paths| ensures Written(more, paths, s) {
        if s < |init| {
          assert Written(d, init, s);
          LaterKeepsPath(d, more, s, paths[s]);
        }
      }
    }
  }

  ghost predicate Grown(d: Descriptors, more: Descriptors) {
    d.entries <= more.entries && d.segments <= more.segments && d.keyBytes <= more.keyBytes
  }

  lemma LaterKeepsPath(d: Descriptors, more: Descriptors, s: nat, path: Path)
    requires Grown(d, more) && s < |d.entries| && DescribesPath(d.entries[s], d.segments, d.keyBytes, path)
    ensures more.entries[s] == d.entries[s] && DescribesPath(more.entries[s], more.segments, more.keyBytes, path)
  {
    var e := d.entries[s];
    forall k | 0 <= k < |path| ensures ReadsSegment(more.segments[e.segmentOffset + k], more.keyBytes, path[k]) {
      assert ReadsSegment(d.segments[e.segmentOffset + k], d.keyBytes, path[k]);
    }
  }

  lemma LaterKeepsRange(d: Descriptors, more: Descriptors)
    requires AllInRange(d) && Grown(d, more)
    ensures forall k :: 0 <= k < |d.segments| ==>
              SegmentInRange(more.segments[k], more.keyBytes) && Referenced(more.entries, k)
  {
    forall k | 0 <= k < |d.segments|
      ensures SegmentInRange(more.segments[k], more.keyBytes) && Referenced(more.entries, k)
    {
      assert SegmentInRange(d.segments[k], d.keyBytes) && Referenced(d.entries, k);
      var i :| 0 <= i < |d.entries| && Covers(d.entries[i], k);
      assert Covers(more.entries[i], k);
    }
  }

  lemma NewEntryCovers(d: Descriptors, more: Descriptors, path: Path)
    requires more.entries == d.entries + [Entry(|d.entries|, 0, |d.segments|, |path|)]
    requires |more.segments| == |d.segments| + |path|
    ensures forall k :: |d.segments| <= k < |more.segments| ==> Referenced(more.entries, k)
  {
    forall k | |d.segments| <= k < |more.segments| ensures Referenced(more.entries, k) {
      assert Covers(more.entries[|d.entries|], k);
    }
  }

  /** Any non-empty paths that the 32-bit counts can express are accepted as descriptors. */
  lemma DescribedIsAccepted(paths: seq<Path>)
    requires 0 < |paths| <= UINT32_MAX && |Describe(paths).segments| <= UINT32_MAX
    requires forall path :: path in paths ==> path != []
    ensures
      var d := Describe(paths);
      Accepted(d.entries, d.segments, d.keyBytes)
  {
    var d := Describe(paths);
    DescribeWrites(paths);
    forall i | 0 <= i < |d.entries| ensures EntryInRange(d.entries[i], |d.entries|, |d.segments|) {
      assert Written(d, paths, i) && paths[i] in paths;
    }
    forall i, j | 0 <= i < j < |d.entries| ensures d.entries[i].outputSlot != d.entries[j].outputSlot {
      assert Written(d, paths, i) && Written(d, paths, j);
    }
    assert Written(d, paths, 0) && paths[0] in paths;
  }
}
