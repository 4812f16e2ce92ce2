/** A document that streams to its end although it is deeper than any validator would accept. */
module StreamDepth {
  import opened Json
  import opened Validation
  import opened ProjectionSpec
  import opened DecodeLimits
  import opened Soundness
  import opened StreamTarget
  import opened StreamZipper
  import opened StreamSpec
  import opened StreamWhole

  /** `v` inside `n` arrays of one element each. */
  function Nest(n: nat, v: Value): Value {
    if n == 0 then v else Array([Nest(n - 1, v)])
  }

  function Zeros(n: nat): Path {
    if n == 0 then [] else [Index(0)] + Zeros(n - 1)
  }

  lemma {:induction false} NestIsSoundAndHigher(n: nat, v: Value)
    ensures Sound(Nest(n, v)) <==> Sound(v)
    ensures Height(Nest(n, v)) == n + Height(v)
    decreases n
  {
    if n > 0 {
      NestIsSoundAndHigher(n - 1, v);
      var outer := Nest(n, v);
      assert SoundFrom(outer, 1) && HeightFrom(outer, 1) == 0;
    }
  }

  lemma {:induction false} LookupThroughNest(n: nat, v: Value)
    ensures Lookup(Nest(n, v), Zeros(n)) == Lookup(v, [])
    decreases n
  {
    if n > 0 {
      assert Zeros(n)[1..] == Zeros(n - 1);
      LookupThroughNest(n - 1, v);
    }
  }

  ghost predicate Only(f: Frame) {
    f.Valid() && Size(f.container) == 1
  }

  lemma {:induction false} LocateThroughNest(n: nat, v: Value, frames: seq<Frame>)
    requires v.Array? && forall f :: f in frames ==> Only(f)
    ensures
      var r := Locate(Nest(n, v), Zeros(n), frames);
      r.Target? && r.rows == v.elements && forall f :: f in r.frames ==> Only(f)
    decreases n
  {
    if n > 0 {
      var outer := Nest(n, v);
      assert Zeros(n)[0] == Index(0) && Zeros(n)[1..] == Zeros(n - 1);
      assert Choose(outer, Index(0), 0) == Chosen(0);
      LocateThroughNest(n - 1, v, frames + [Frame(outer, 0, |frames| + 1)]);
    }
  }

  const LEVELS: nat := 600

  const DEEP_ROW := Nest(LEVELS, Null)

  /** One row of height 601 in an array below 600 others: 1202 levels in all. */
  const DEEP_DOCUMENT := Nest(LEVELS, Array([DEEP_ROW]))

  lemma DeepRowProjects()
    ensures RowSlots(DEEP_ROW, [Zeros(LEVELS)]).Some? && Height(DEEP_ROW) == LEVELS + 1
  {
    hide Nest, Zeros, HardFailure;
    NestIsSoundAndHigher(LEVELS, Null);
    NoFailureIsSoundAndShallow(DEEP_ROW, 1);
    LookupThroughNest(LEVELS, Null);
  }

  /** Its only row projects and its unwinding completes, yet it has a hard failure: finishing a stream
    * does not bound the depth of the document. */
  lemma FinishedCanBeTooDeep(answer: nat -> nat, c: nat)
    requires forall k: nat :: answer(k) == 0
    ensures
      var r := Locate(DEEP_DOCUMENT, Zeros(LEVELS), []);
      && r.Target? && AllProject(r.rows, [Zeros(LEVELS)]) && AllValid(r.frames)
      && Complete(r.frames, true, answer, c).0 == Completed
      && Height(DEEP_DOCUMENT) > MAX_DEPTH && HardFailure(DEEP_DOCUMENT, 1).Some?
  {
    var target := Array([DEEP_ROW]);
    DeepRowProjects();
    LocateThroughNest(LEVELS, target, []);
    var r := Locate(DEEP_DOCUMENT, Zeros(LEVELS), []);
    assert AllValid(r.frames) && AllPassAfter(r.frames) by {
      assert forall k :: 0 <= k < |r.frames| ==> r.frames[k] in r.frames;
    }
    UnwindPasses(r.frames, true, answer, c + 1);
    NestIsSoundAndHigher(LEVELS, target);
    NoFailureIsSoundAndShallow(DEEP_DOCUMENT, 1);
  }
}
