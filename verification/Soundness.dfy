/** Hard failures come apart into unsound content and excessive depth. */
module Soundness {
  import opened Json
  import opened Validation
  import opened DecodeSpec
  import opened DecodeLimits

  /** Every value reads, every key reads and every number fits, however deep. */
  ghost predicate Sound(v: Value)
    decreases v, 1, 0
  {
    if v.Container() then SoundFrom(v, 0) else ScalarFailure(v).None?
  }

  ghost predicate SoundFrom(v: Value, i: nat)
    requires i <= Size(v)
    decreases v, 0, Size(v) - i
  {
    i == Size(v) || (ItemReadable(v, i) && Sound(Item(v, i)) && SoundFrom(v, i + 1))
  }

  ghost predicate SoundAt(v: Value, i: nat)
    requires i < Size(v)
  {
    ItemReadable(v, i) && Sound(Item(v, i))
  }

  /** The items of `v` in `[from, to)` read and are sound. */
  ghost predicate SoundBetween(v: Value, from: nat, to: nat)
    requires to <= Size(v)
  {
    forall i :: from <= i < to ==> SoundAt(v, i)
  }

  lemma {:induction false} SoundFromIsBetween(v: Value, i: nat)
    requires i <= Size(v)
    ensures SoundFrom(v, i) <==> SoundBetween(v, i, Size(v))
    decreases Size(v) - i
  {
    if i < Size(v) {
      SoundFromIsBetween(v, i + 1);
      assert SoundBetween(v, i, Size(v)) ==> SoundAt(v, i);
    }
  }

  /** A value has no hard failure exactly when it is sound and fits under the depth bound. */
  lemma {:induction false} NoFailureIsSoundAndShallow(v: Value, depth: nat)
    ensures HardFailure(v, depth).None? <==> Sound(v) && depth + Height(v) <= MAX_DEPTH + 1
    decreases v, 1, 0
  {
    if v.Container() {
      ItemsSoundAndShallow(v, 0, depth);
    }
  }

  // The failure of the items from the `i`-th on.
  ghost function FailureFrom(v: Value, i: nat, depth: nat): Option<StatusCode>
    requires v.Container() && i <= Size(v)
  {
    if v.Array? then ElementsFailure(v.elements[i..], depth) else FieldsFailure(v.fields[i..], depth)
  }

  lemma {:induction false} ItemsSoundAndShallow(v: Value, i: nat, depth: nat)
    requires v.Container() && i <= Size(v)
    ensures FailureFrom(v, i, depth).None? <==>
              SoundFrom(v, i) && (i < Size(v) ==> depth + HeightFrom(v, i) <= MAX_DEPTH)
    ensures FailureFrom(v, 0, depth) == ContentFailure(v, depth)
    decreases v, 0, Size(v) - i
  {
    if v.Array? {
      assert v.elements[0..] == v.elements;
    } else {
      assert v.fields[0..] == v.fields;
    }
    if i < Size(v) {
      if ItemReadable(v, i) {
        NoFailureIsSoundAndShallow(Item(v, i), depth + 1);
      }
      ItemsSoundAndShallow(v, i + 1, depth);
      if v.Array? {
        assert v.elements[i..][1..] == v.elements[i + 1..];
      } else {
        assert v.fields[i..][1..] == v.fields[i + 1..];
        assert v.fields[i..][0] == v.fields[i];
        assert FieldFailure(v.fields[i], depth).None? <==>
                 ItemReadable(v, i) && HardFailure(Item(v, i), depth + 1).None?;
      }
    }
  }

  /** Less depth above a value never makes it fail. */
  lemma ShallowerIsFine(v: Value, depth: nat, deeper: nat)
    requires depth <= deeper && HardFailure(v, deeper).None?
    ensures HardFailure(v, depth).None?
  {
    NoFailureIsSoundAndShallow(v, depth);
    NoFailureIsSoundAndShallow(v, deeper);
  }

  /** Content that decoding can take is content that projection finds sound. */
  lemma {:induction false} CleanIsSound(v: Value)
    ensures Clean(v) <==> Sound(v)
    decreases v, 1, 0
  {
    if v.Container() {
      CleanItemsAreSound(v, 0);
    }
  }

  lemma {:induction false} CleanItemsAreSound(v: Value, i: nat)
    requires v.Container() && i <= Size(v)
    ensures CleanFrom(v, i) <==> SoundFrom(v, i)
    decreases v, 0, Size(v) - i
  {
    if i < Size(v) {
      if ItemReadable(v, i) {
        CleanIsSound(Item(v, i));
      }
      CleanItemsAreSound(v, i + 1);
    }
  }

  /** A document decodes exactly when it has no hard failure and stays within the configured limits:
    * the two components agree on which documents are readable. */
  lemma DecodesIffNoHardFailureWithinLimits(v: Value, config: Config)
    requires config.Valid()
    ensures DecodeDocument(v, config).Done? <==>
              && HardFailure(v, 1).None?
              && Height(v) <= config.maxDepth
              && EntriesFit(v, config.maxContainerEntries)
              && StringsFit(v, config.maxStringBytes)
              && Cost(v) <= config.maxOutputBytes
  {
    DecodeIffWithinLimits(v, config);
    CleanIsSound(v);
    NoFailureIsSoundAndShallow(v, 1);
  }
}
