/** The parent frames of a streamed array are a zipper: with the rows they make up the whole source. */
module StreamZipper {
  import opened Json
  import opened Validation
  import opened ProjectionSpec
  import opened Soundness
  import opened StreamTarget

  /** The frames lead from `v` down to `target`, each one level deeper. */
  ghost predicate Chain(v: Value, frames: seq<Frame>, target: Value, depth: nat)
    decreases |frames|
  {
    if frames == [] then v == target
    else
      && frames[0].Valid() && frames[0].container == v && frames[0].depth == depth
      && Chain(frames[0].Hole(), frames[1..], target, depth + 1)
  }

  lemma {:induction false} LocateIsChain(v: Value, path: Path, frames: seq<Frame>)
    requires Locate(v, path, frames).Target?
    ensures
      var r := Locate(v, path, frames);
      && frames <= r.frames
      && Chain(v, r.frames[|frames|..], Array(r.rows), |frames| + 1)
      && |r.frames| == |frames| + |path|
    decreases |path|
  {
    if path != [] {
      var i := Choose(v, path[0], 0).index;
      var top := Frame(v, i, |frames| + 1);
      LocateIsChain(Item(v, i), path[1..], frames + [top]);
      var all := Locate(v, path, frames).frames;
      assert frames + [top] <= all;
      assert all[|frames|] == top && all[|frames|..][1..] == all[|frames| + 1..];
    }
  }

  // ---- Plugging the hole

  function WithItem(v: Value, i: nat, x: Value): Value
    requires i < Size(v) && ItemReadable(v, i)
  {
    if v.Array? then Array(v.elements[i := x]) else Object(v.fields[i := v.fields[i].(value := x)])
  }

  ghost predicate AllValid(frames: seq<Frame>) {
    forall k :: 0 <= k < |frames| ==> frames[k].Valid()
  }

  /** Puts a value back where the frames point. */
  ghost function Plug(frames: seq<Frame>, x: Value): Value
    requires AllValid(frames)
  {
    if frames == [] then x
    else WithItem(frames[0].container, frames[0].position, Plug(frames[1..], x))
  }

  /** The frames and the rows together are the document: nothing is lost on the way down. */
  lemma {:induction false} PlugIsDocument(v: Value, frames: seq<Frame>, target: Value, depth: nat)
    requires Chain(v, frames, target, depth)
    ensures AllValid(frames) && Plug(frames, target) == v
    decreases |frames|
  {
    if frames != [] {
      PlugIsDocument(frames[0].Hole(), frames[1..], target, depth + 1);
      assert forall k :: 1 <= k < |frames| ==> frames[k] == frames[1..][k - 1];
    }
  }

  // ---- The values beside the path

  /** A value outside the target: item `index` of the container of frame `level`. */
  datatype Site = Site(level: nat, index: nat)

  ghost predicate Outside(frames: seq<Frame>, s: Site) {
    && s.level < |frames|
    && s.index < Size(frames[s.level].container)
    && s.index != frames[s.level].position
  }

  ghost function SitesOf(level: nat, lo: nat, hi: nat): seq<Site> {
    if hi <= lo then [] else SitesOf(level, lo, hi - 1) + [Site(level, hi - 1)]
  }

  /** What the way down passes over, level by level from the root. */
  ghost function Before(frames: seq<Frame>): seq<Site> {
    if frames == [] then []
    else
      var last := |frames| - 1;
      Before(frames[..last]) + SitesOf(last, 0, frames[last].position)
  }

  /** What the way back visits, level by level up to the root. */
  ghost function After(frames: seq<Frame>): seq<Site> {
    if frames == [] then []
    else
      var last := |frames| - 1;
      SitesOf(last, frames[last].position + 1, Size(frames[last].container)) + After(frames[..last])
  }

  lemma {:induction false} SitesOnce(level: nat, lo: nat, hi: nat, s: Site)
    ensures multiset(SitesOf(level, lo, hi))[s] == if s.level == level && lo <= s.index < hi then 1 else 0
    decreases hi
  {
    if lo < hi {
      SitesOnce(level, lo, hi - 1, s);
    }
  }

  /** Down and back together visit every value outside the target exactly once. */
  lemma {:induction false} EverySiteOnce(frames: seq<Frame>, s: Site)
    requires AllValid(frames)
    ensures multiset(Before(frames) + After(frames))[s] == if Outside(frames, s) then 1 else 0
    decreases |frames|
  {
    if frames != [] {
      var last := |frames| - 1;
      var less := frames[..last];
      var top := frames[last];
      var passed := SitesOf(last, 0, top.position);
      var coming := SitesOf(last, top.position + 1, Size(top.container));
      assert Before(frames) == Before(less) + passed && After(frames) == coming + After(less);
      EverySiteOnce(less, s);
      OutsideGrows(frames, s);
      SitesOnce(last, 0, top.position, s);
      SitesOnce(last, top.position + 1, Size(top.container), s);
      hide *;
      TimesOfFour(Before(less), passed, coming, After(less), s);
    }
  }

  lemma OutsideGrows(frames: seq<Frame>, s: Site)
    requires frames != [] && AllValid(frames)
    ensures
      var last := |frames| - 1;
      Outside(frames, s) <==>
        || Outside(frames[..last], s)
        || (s.level == last && s.index < Size(frames[last].container) && s.index != frames[last].position)
    ensures Outside(frames[..|frames| - 1], s) ==> s.level < |frames| - 1
  {
  }

  lemma TimesOfFour(a: seq<Site>, b: seq<Site>, c: seq<Site>, d: seq<Site>, s: Site)
    ensures multiset((a + b) + (c + d))[s] == multiset(a + d)[s] + multiset(b)[s] + multiset(c)[s]
  {
  }

  // ---- The soundness of the whole from its parts

  ghost predicate SiteSound(frames: seq<Frame>, s: Site)
    requires Outside(frames, s)
  {
    SoundAt(frames[s.level].container, s.index)
  }

  ghost predicate SidesSound(frames: seq<Frame>) {
    forall s :: Outside(frames, s) ==> SiteSound(frames, s)
  }

  /** The source is sound exactly when its target is sound and so is every value outside it. */
  lemma {:induction false} WholeFromParts(v: Value, frames: seq<Frame>, target: Value, depth: nat)
    requires Chain(v, frames, target, depth)
    ensures Sound(v) <==> Sound(target) && SidesSound(frames)
    decreases |frames|
  {
    if frames != [] {
      WholeFromParts(frames[0].Hole(), frames[1..], target, depth + 1);
      SoundFromIsBetween(v, 0);
      SidesAtRoot(frames);
      if SidesSound(frames) && Sound(target) {
        assert SoundBetween(v, 0, Size(v));
      }
      assert Sound(v) ==> SoundAt(v, frames[0].position);
    }
  }

  lemma SidesAtRoot(frames: seq<Frame>)
    requires frames != [] && frames[0].Valid()
    ensures SidesSound(frames) <==>
              && SidesSound(frames[1..])
              && forall i: nat :: i < Size(frames[0].container) && i != frames[0].position ==>
                   SoundAt(frames[0].container, i)
  {
    var rest := frames[1..];
    forall s | Outside(rest, s)
      ensures Outside(frames, Site(s.level + 1, s.index))
      ensures SiteSound(rest, s) <==> SiteSound(frames, Site(s.level + 1, s.index))
    {
      assert frames[s.level + 1] == rest[s.level];
    }
    forall s | Outside(frames, s)
      ensures if s.level == 0 then SiteSound(frames, s) <==> SoundAt(frames[0].container, s.index)
              else Outside(rest, Site(s.level - 1, s.index))
                   && (SiteSound(frames, s) <==> SiteSound(rest, Site(s.level - 1, s.index)))
    {
    }
    forall i: nat | i < Size(frames[0].container) && i != frames[0].position
      ensures Outside(frames, Site(0, i))
    {
    }
    if SidesSound(frames) {
      forall s | Outside(rest, s) ensures SiteSound(rest, s) {
        assert SiteSound(frames, Site(s.level + 1, s.index));
      }
      forall i: nat | i < Size(frames[0].container) && i != frames[0].position
        ensures SoundAt(frames[0].container, i)
      {
        assert SiteSound(frames, Site(0, i));
      }
    }
  }
}
