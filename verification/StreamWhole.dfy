/** What a finished stream has established about the whole source document. */
module StreamWhole {
  import opened Json
  import opened Validation
  import opened ProjectionSpec
  import opened DecodeLimits
  import opened Soundness
  import opened StreamTarget
  import opened StreamZipper
  import opened StreamSpec

  /** Every item before the frame's position validates at depth one, as the way down checks it. */
  ghost predicate PassedBefore(f: Frame) {
    f.Valid() && PassesOver(f.container, f.position)
  }

  /** Every item after the frame's position validates at its own depth, as the way back checks it. */
  ghost predicate PassesAfter(f: Frame) {
    f.Valid() && ValidatesFrom(f.container, f.position + 1, f.depth + 1)
  }

  ghost predicate ValidatesFrom(v: Value, i: nat, depth: nat) {
    forall j :: i <= j < Size(v) ==> Validates(v, j, depth)
  }

  ghost predicate AllPassedBefore(frames: seq<Frame>) {
    forall k :: 0 <= k < |frames| ==> PassedBefore(frames[k])
  }

  ghost predicate AllPassAfter(frames: seq<Frame>) {
    forall k :: 0 <= k < |frames| ==> PassesAfter(frames[k])
  }

  lemma {:induction false} LocatePassesBefore(v: Value, path: Path, frames: seq<Frame>)
    requires Locate(v, path, frames).Target? && AllPassedBefore(frames)
    ensures AllPassedBefore(Locate(v, path, frames).frames)
    decreases |path|
  {
    if path != [] {
      ChooseSelects(v, path[0], 0);
      var i := Choose(v, path[0], 0).index;
      LocatePassesBefore(Item(v, i), path[1..], frames + [Frame(v, i, |frames| + 1)]);
    }
  }

  // ---- Completion is exactly the validation of what comes after

  lemma {:induction false} SiblingsPass(v: Value, i: nat, depth: nat, answer: nat -> nat, c: nat)
    requires i <= Size(v)
    ensures Siblings(v, i, depth, answer, c).0 == Completed ==>
              ValidatesFrom(v, i, depth + 1)
    ensures ValidatesFrom(v, i, depth + 1) && (forall k: nat :: answer(k) == 0) ==>
              Siblings(v, i, depth, answer, c).0 == Completed
    decreases Size(v) - i
  {
    if i < Size(v) {
      SiblingsPass(v, i + 1, depth, answer, c + 1);
      var below := depth + 1;
      assert ValidatesFrom(v, i, below) ==> Validates(v, i, below);
    }
  }

  /** The unwinding succeeds only if everything after the target validates and the document ends; if
    * nobody cancels, that is also enough. */
  lemma {:induction false} UnwindPasses(frames: seq<Frame>, closes: bool, answer: nat -> nat, c: nat)
    requires AllValid(frames)
    ensures Unwind(frames, closes, answer, c).0 == Completed ==> closes && AllPassAfter(frames)
    ensures closes && AllPassAfter(frames) && (forall k: nat :: answer(k) == 0) ==>
              Unwind(frames, closes, answer, c).0 == Completed
    decreases |frames|
  {
    if frames != [] {
      var last := |frames| - 1;
      var top := frames[last];
      SiblingsPass(top.container, top.position + 1, top.depth, answer, c);
      var siblings := Siblings(top.container, top.position + 1, top.depth, answer, c);
      UnwindPasses(frames[..last], closes, answer, siblings.1);
      if AllPassAfter(frames) {
        assert PassesAfter(top);
      }
    }
  }

  /** Item `j` is the first after the frame's position that does not validate, with this code. */
  ghost predicate FailsFirst(f: Frame, j: nat, code: StatusCode) {
    && f.Valid() && f.position < j < Size(f.container)
    && ValidatesUpTo(f.container, f.position + 1, j, f.depth + 1)
    && if ItemReadable(f.container, j) then HardFailure(Item(f.container, j), f.depth + 1) == Some(code)
       else code == StreamStatus(f.container.fields[j].error)
  }

  ghost predicate ValidatesUpTo(v: Value, i: nat, j: nat, depth: nat)
    requires j <= Size(v)
  {
    forall k :: i <= k < j ==> Validates(v, k, depth)
  }

  lemma {:induction false} SiblingsRefuse(v: Value, i: nat, depth: nat, answer: nat -> nat, c: nat) returns (j: nat)
    requires i <= Size(v) && Siblings(v, i, depth, answer, c).0.Refused?
    ensures i <= j < Size(v) && ValidatesUpTo(v, i, j, depth + 1)
    ensures
      var code := Siblings(v, i, depth, answer, c).0.code;
      if ItemReadable(v, j) then HardFailure(Item(v, j), depth + 1) == Some(code)
      else code == StreamStatus(v.fields[j].error)
    decreases Size(v) - i
  {
    j := i;
    if ItemReadable(v, i) && HardFailure(Item(v, i), depth + 1).None? {
      var below := depth + 1;
      assert Validates(v, i, below);
      j := SiblingsRefuse(v, i + 1, depth, answer, c + 1);
    }
  }

  /** A refused completion names the first failing value on the way back, innermost frame first, or
    * finds that everything after the target validates but the document does not end. */
  lemma {:induction false} UnwindRefuses(frames: seq<Frame>, closes: bool, answer: nat -> nat, c: nat)
    requires AllValid(frames) && Unwind(frames, closes, answer, c).0.Refused?
    ensures
      var code := Unwind(frames, closes, answer, c).0.code;
      || (AllPassAfter(frames) && !closes && code == InvalidJson)
      || exists k: nat, j: nat :: k < |frames| && AllPassAfter(frames[k + 1..]) && FailsFirst(frames[k], j, code)
    decreases |frames|
  {
    hide Siblings;
    if frames != [] {
      var last := |frames| - 1;
      var top := frames[last];
      var siblings := Siblings(top.container, top.position + 1, top.depth, answer, c);
      var code := Unwind(frames, closes, answer, c).0.code;
      SiblingsPass(top.container, top.position + 1, top.depth, answer, c);
      if siblings.0.Refused? {
        var j := SiblingsRefuse(top.container, top.position + 1, top.depth, answer, c);
        assert frames[last + 1..] == [] && FailsFirst(frames[last], j, code);
      } else {
        assert PassesAfter(top);
        UnwindRefuses(frames[..last], closes, answer, siblings.1);
        if !(AllPassAfter(frames[..last]) && !closes && code == InvalidJson) {
          var k: nat, j: nat :|
            k < last && AllPassAfter(frames[..last][k + 1..]) && FailsFirst(frames[..last][k], j, code);
          assert frames[k + 1..] == frames[..last][k + 1..] + [top];
          assert AllPassAfter(frames[k + 1..]) && FailsFirst(frames[k], j, code);
        }
      }
    }
  }

  // ---- From the parts to the whole

  lemma ValidatesIsSound(v: Value, j: nat, depth: nat)
    requires j < Size(v) && Validates(v, j, depth)
    ensures SoundAt(v, j)
  {
    NoFailureIsSoundAndShallow(Item(v, j), depth);
  }

  lemma SidesAreSound(frames: seq<Frame>)
    requires AllPassedBefore(frames) && AllPassAfter(frames)
    ensures SidesSound(frames)
  {
    forall s | Outside(frames, s) ensures SiteSound(frames, s) {
      var f := frames[s.level];
      if s.index < f.position {
        assert PassedBefore(f);
        ValidatesIsSound(f.container, s.index, 1);
      } else {
        var below := f.depth + 1;
        assert PassesAfter(f) && Validates(f.container, s.index, below);
        ValidatesIsSound(f.container, s.index, f.depth + 1);
      }
    }
  }

  ghost predicate AllProject(rows: seq<Value>, paths: seq<Path>) {
    forall i :: 0 <= i < |rows| ==> RowSlots(rows[i], paths).Some?
  }

  lemma RowsAreSound(rows: seq<Value>, paths: seq<Path>)
    requires AllProject(rows, paths)
    ensures Sound(Array(rows))
  {
    var v := Array(rows);
    forall i | 0 <= i < Size(v) ensures SoundAt(v, i) {
      assert RowSlots(rows[i], paths).Some?;
      NoFailureIsSoundAndShallow(rows[i], 1);
    }
    SoundFromIsBetween(v, 0);
  }

  /** When every row projected and the unwinding completed, the whole document is sound, up to depth:
    * every value was read, every number fits, and nothing follows the root. */
  lemma FinishedIsSound(document: Value, path: Path, paths: seq<Path>, closes: bool, answer: nat -> nat, c: nat)
    requires Locate(document, path, []).Target?
    requires
      var r := Locate(document, path, []);
      && AllProject(r.rows, paths) && AllValid(r.frames)
      && Complete(r.frames, closes, answer, c).0 == Completed
    ensures Sound(document) && closes
  {
    var r := Locate(document, path, []);
    LocateIsChain(document, path, []);
    LocatePassesBefore(document, path, []);
    UnwindPasses(r.frames, closes, answer, c + 1);
    SidesAreSound(r.frames);
    RowsAreSound(r.rows, paths);
    assert r.frames[0..] == r.frames;
    WholeFromParts(document, r.frames, Array(r.rows), 1);
  }

  /** A finished stream leaves the document without hard failure exactly when it is no deeper than the
    * bound: rows and earlier siblings are only checked as if they were at depth one. */
  lemma FinishedIsGoodIffShallow(document: Value, path: Path, paths: seq<Path>, closes: bool, answer: nat -> nat,
                                 c: nat)
    requires Locate(document, path, []).Target?
    requires
      var r := Locate(document, path, []);
      && AllProject(r.rows, paths) && AllValid(r.frames)
      && Complete(r.frames, closes, answer, c).0 == Completed
    ensures HardFailure(document, 1).None? <==> Height(document) <= MAX_DEPTH
  {
    FinishedIsSound(document, path, paths, closes, answer, c);
    NoFailureIsSoundAndShallow(document, 1);
  }

  // ---- A good document always completes

  lemma {:induction false} ChainPassesAfter(v: Value, frames: seq<Frame>, target: Value, depth: nat)
    requires Chain(v, frames, target, depth) && HardFailure(v, depth).None?
    ensures AllPassAfter(frames) && HardFailure(target, depth + |frames|).None?
    decreases |frames|
  {
    if frames != [] {
      var f := frames[0];
      NoFailureIsSoundAndShallow(v, depth);
      SoundFromIsBetween(v, 0);
      var below := depth + 1;
      forall j | 0 <= j < Size(v) ensures Validates(v, j, below) {
        assert SoundAt(v, j);
        HeightOfItem(v, 0, j);
        NoFailureIsSoundAndShallow(Item(v, j), below);
      }
      assert Validates(v, f.position, below);
      ChainPassesAfter(f.Hole(), frames[1..], target, depth + 1);
      assert forall k :: 1 <= k < |frames| ==> frames[k] == frames[1..][k - 1];
    }
  }

  /** In a document that the plain validator and the number check accept, the target is found exactly
    * when the path leads to an array, every row passes validation, and the unwinding completes. */
  lemma GoodDocumentCompletes(document: Value, path: Path, answer: nat -> nat, c: nat)
    requires HardFailure(document, 1).None? && (forall k: nat :: answer(k) == 0)
    requires NodeAt(document, path).Some? && NodeAt(document, path).value.Array?
    ensures
      var r := Locate(document, path, []);
      && r.Target? && NodeAt(document, path) == Some(Array(r.rows)) && AllValid(r.frames)
      && Complete(r.frames, true, answer, c).0 == Completed
      && forall i :: 0 <= i < |r.rows| ==> HardFailure(r.rows[i], 1).None?
  {
    hide HardFailure, Locate, NodeAt, Unwind;
    SoundMissIsLookup(document, path, []);
    LocateIsLookup(document, path, []);
    var r := Locate(document, path, []);
    LocateIsChain(document, path, []);
    LocatedFramesAreValid(document, path, []);
    assert r.frames[0..] == r.frames;
    ChainPassesAfter(document, r.frames, Array(r.rows), 1);
    UnwindPasses(r.frames, true, answer, c + 1);
    RowsValidate(r.rows, 1 + |r.frames|);
  }

  lemma RowsValidate(rows: seq<Value>, depth: nat)
    requires depth > 0 && HardFailure(Array(rows), depth).None?
    ensures forall i :: 0 <= i < |rows| ==> HardFailure(rows[i], 1).None?
  {
    ShallowerIsFine(Array(rows), 1, depth);
    ItemsValidate(Array(rows));
    forall i | 0 <= i < |rows| ensures HardFailure(rows[i], 1).None? {
      assert Validates(Array(rows), i, 1);
    }
  }
}
